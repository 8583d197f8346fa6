/** Scanning a signature. */
module SignatureScan {
  // The scan over a printed signature, part by part: each class name is relocated where the tree has one,
  // and every other byte is copied.

  import opened ByteStrings
  import opened Wrappers
  import opened Relocation
  import opened Rewriting
  import opened Signatures
  import opened SignatureNames

  // ---- over the tree ------------------------------------------------------------------------

  // Each lemma says what the scan of a printed part gives by saying which texts it is equal to: the part
  // relocated, and then what the scan makes of the rest, unless a name in the part is misread; if one is, no
  // text that begins with the part relocated.

  /** A type is printed at `i` and may open there, not matched at the very start. */
  ghost predicate AtType(rules: seq<Rule>, text: Bytes, i: nat) {
    && AllWellFormed(rules) && i <= |text| && Opens(text, i)
    && (i == 0 ==> MatchAt(rules, text, 0) == None)
  }

  lemma {:induction false} TypeScan(rules: seq<Rule>, text: Bytes, i: nat, t: Type, rest: Bytes) returns (j: nat)
    requires AtType(rules, text, i) && OkType(t) && text[i..] == TypeThen(t, rest)
    ensures i < j <= |text| && text[j..] == rest && Opens(text, j)
    ensures forall x :: R(rules, text, i) == TypeThen(Move(rules, t), x) <==> !Misread(rules, t) && x == R(rules, text, j)
    decreases t, 1
  {
    hide R, MatchAt, AllWellFormed, IsInternalName, BracketedThen, InnersThen, ReadsAsDotted;
    match t
    case Base(b) =>
      TakeByte(text, i, b, rest);
      FirstByteOfType(rules, text, i);
      j := i + 1;
      forall x
        ensures R(rules, text, i) == TypeThen(Move(rules, t), x) <==> x == R(rules, text, j)
      {
        Peel([b], R(rules, text, j), x);
      }
    case Variable(id) => j := VariableScan(rules, text, i, id, rest);
    case Array(e) =>
      TakeByte(text, i, '[' as Byte, TypeThen(e, rest));
      FirstByteOfType(rules, text, i);
      j := TypeScan(rules, text, i + 1, e, rest);
      forall x
        ensures R(rules, text, i) == TypeThen(Move(rules, t), x) <==> !Misread(rules, t) && x == R(rules, text, j)
      {
        Peel(['[' as Byte], R(rules, text, i + 1), TypeThen(Move(rules, e), x));
      }
    case ClassType(_, _, _) =>
      j := ClassScan(rules, text, i, t, rest);
      if i == 0 {
        ClassPrinted(t, rest);
        TakeByte(text, 0, CLASS_OPEN, t.name + ClassTail(t, rest));
        StandsSpelled(text, 1, t, rest);
        NotMisplaced(rules, text, t);
      }
  }

  lemma VariableScan(rules: seq<Rule>, text: Bytes, i: nat, id: Bytes, rest: Bytes) returns (j: nat)
    requires AtType(rules, text, i) && IsId(id) && text[i..] == TypeThen(Variable(id), rest)
    ensures i < j <= |text| && text[j..] == rest && Opens(text, j)
    ensures forall x :: R(rules, text, i) == TypeThen(Variable(id), x) <==> x == R(rules, text, j)
  {
    hide R, MatchAt, AllWellFormed, IsInternalName, Opens;
    TakeByte(text, i, VARIABLE_OPEN, id + ([SEMI] + rest));
    FirstByteOfType(rules, text, i);
    TakeBytes(text, i + 1, id, [SEMI] + rest);
    IdCopied(rules, text, i + 1, id);
    var k := i + 1 + |id|;
    TakeByte(text, k, SEMI, rest);
    Punctuation(rules, text, k);
    OpensAfter(text, k);
    j := k + 1;
    assert R(rules, text, i) == [VARIABLE_OPEN] + (id + ([SEMI] + R(rules, text, j)));
    forall x
      ensures R(rules, text, i) == TypeThen(Variable(id), x) <==> x == R(rules, text, j)
    {
      PeelThree([VARIABLE_OPEN], id, [SEMI], R(rules, text, j), x);
    }
  }

  lemma PeelThree(p: Bytes, q: Bytes, s: Bytes, a: Bytes, b: Bytes)
    ensures p + (q + (s + a)) == p + (q + (s + b)) <==> a == b
  {
    Peel(p, q + (s + a), q + (s + b));
    Peel(q, s + a, s + b);
    Peel(s, a, b);
  }

  lemma {:induction false} ClassScan(rules: seq<Rule>, text: Bytes, i: nat, t: Type, rest: Bytes) returns (j: nat)
    requires AllWellFormed(rules) && i <= |text| && Opens(text, i)
    requires OkType(t) && t.ClassType? && text[i..] == TypeThen(t, rest)
    ensures i < j <= |text| && text[j..] == rest && Opens(text, j)
    ensures forall x :: R(rules, text, i) == TypeThen(Move(rules, t), x) <==>
              !Misread(rules, t) && !(i == 0 && MisplacedAtStart(rules, t)) && x == R(rules, text, j)
    decreases t, 0
  {
    hide R, MatchAt, AllWellFormed, Opens, BracketedThen, InnersThen, MoveArguments, MoveInners, MoveName, Spelling,
         ReadsAsDotted, IsInternalName, MisplacedAtStart;
    var tail := InnersThen(t.inner, [SEMI] + rest);
    TakeByte(text, i, CLASS_OPEN, t.name + BracketedThen(t.args, tail));
    TakeBytes(text, i + 1, t.name, BracketedThen(t.args, tail));
    NameScan(rules, text, i, t, rest);
    var k := i + 1 + |t.name|;
    var e := BracketedScan(rules, text, k, t.args, tail);
    j := InnersScan(rules, text, e, t.inner, [SEMI] + rest);
    TakeByte(text, j, SEMI, rest);
    Punctuation(rules, text, j);
    OpensAfter(text, j);
    ghost var end := R(rules, text, j + 1);
    MovedFields(rules, t);
    forall x
      ensures R(rules, text, k) == ClassTail(Move(rules, t), x) <==>
              !MisreadArguments(rules, t.args) && !MisreadInners(rules, t.inner) && x == end
    {
      assert R(rules, text, k) == BracketedThen(MoveArguments(rules, t.args), InnersThen(MoveInners(rules, t.inner), [SEMI] + x)) <==>
             !MisreadArguments(rules, t.args) && InnersThen(MoveInners(rules, t.inner), [SEMI] + x) == R(rules, text, e);
      Peel([SEMI], end, x);
    }
    j := j + 1;
  }

  lemma {:induction false} BracketedScan(rules: seq<Rule>, text: Bytes, i: nat, args: seq<Argument>, rest: Bytes)
    returns (j: nat)
    requires AllWellFormed(rules) && 0 < i <= |text| && (forall a <- args :: OkArgument(a))
    requires text[i..] == BracketedThen(args, rest)
    ensures i <= j <= |text| && text[j..] == rest
    ensures forall x :: R(rules, text, i) == BracketedThen(MoveArguments(rules, args), x) <==>
              !MisreadArguments(rules, args) && x == R(rules, text, j)
    decreases args, 1
  {
    hide R, MatchAt, AllWellFormed, IsInternalName, ArgumentsThen;
    if args == [] {
      j := i;
    } else {
      TakeByte(text, i, LESS, ArgumentsThen(args, [GREATER] + rest));
      Punctuation(rules, text, i);
      var k := ArgumentsScan(rules, text, i + 1, args, [GREATER] + rest);
      TakeByte(text, k, GREATER, rest);
      Punctuation(rules, text, k);
      j := k + 1;
      forall x
        ensures R(rules, text, i) == BracketedThen(MoveArguments(rules, args), x) <==>
                !MisreadArguments(rules, args) && x == R(rules, text, j)
      {
        Peel([LESS], R(rules, text, i + 1), ArgumentsThen(MoveArguments(rules, args), [GREATER] + x));
        Peel([GREATER], R(rules, text, j), x);
      }
    }
  }

  lemma {:induction false} ArgumentsScan(rules: seq<Rule>, text: Bytes, i: nat, args: seq<Argument>, rest: Bytes)
    returns (j: nat)
    requires AtType(rules, text, i) && 0 < i && (forall a <- args :: OkArgument(a))
    requires text[i..] == ArgumentsThen(args, rest)
    ensures i <= j <= |text| && text[j..] == rest && Opens(text, j)
    ensures forall x :: R(rules, text, i) == ArgumentsThen(MoveArguments(rules, args), x) <==>
              !MisreadArguments(rules, args) && x == R(rules, text, j)
    decreases args, 0
  {
    hide R, MatchAt, AllWellFormed, IsInternalName, ArgumentThen, Opens;
    if args == [] {
      j := i;
    } else {
      var k := ArgumentScan(rules, text, i, args[0], ArgumentsThen(args[1..], rest));
      j := ArgumentsScan(rules, text, k, args[1..], rest);
      ArgumentsMoved(rules, args);
      forall x
        ensures R(rules, text, i) == ArgumentsThen(MoveArguments(rules, args), x) <==>
                !MisreadArguments(rules, args) && x == R(rules, text, j)
      {
        assert R(rules, text, i) == ArgumentThen(MoveArgument(rules, args[0]), ArgumentsThen(MoveArguments(rules, args[1..]), x))
               <==> !MisreadArgument(rules, args[0]) && ArgumentsThen(MoveArguments(rules, args[1..]), x) == R(rules, text, k);
      }
    }
  }

  lemma ArgumentsMoved(rules: seq<Rule>, args: seq<Argument>)
    requires args != []
    ensures MoveArguments(rules, args) != [] && MoveArguments(rules, args)[0] == MoveArgument(rules, args[0])
    ensures MoveArguments(rules, args)[1..] == MoveArguments(rules, args[1..])
  {
  }

  lemma {:induction false} ArgumentScan(rules: seq<Rule>, text: Bytes, i: nat, a: Argument, rest: Bytes)
    returns (j: nat)
    requires AtType(rules, text, i) && 0 < i && OkArgument(a)
    requires text[i..] == ArgumentThen(a, rest)
    ensures i < j <= |text| && text[j..] == rest && Opens(text, j)
    ensures forall x :: R(rules, text, i) == ArgumentThen(MoveArgument(rules, a), x) <==>
              !MisreadArgument(rules, a) && x == R(rules, text, j)
    decreases a, 0
  {
    hide R, MatchAt, AllWellFormed, IsInternalName, TypeThen, Opens;
    match a
    case Any =>
      TakeByte(text, i, '*' as Byte, rest);
      Punctuation(rules, text, i);
      OpensAfter(text, i);
      j := i + 1;
      forall x
        ensures R(rules, text, i) == ArgumentThen(MoveArgument(rules, a), x) <==> x == R(rules, text, j)
      {
        Peel(['*' as Byte], R(rules, text, j), x);
      }
    case Exactly(t) =>
      j := TypeScan(rules, text, i, t, rest);
    case Below(t) =>
      j := BoundScan(rules, text, i, '+' as Byte, t, rest);
    case Above(t) =>
      j := BoundScan(rules, text, i, '-' as Byte, t, rest);
  }

  /** A type after a byte that may precede it. */
  lemma {:induction false} BoundScan(rules: seq<Rule>, text: Bytes, i: nat, before: Byte, t: Type, rest: Bytes) returns (j: nat)
    requires AllWellFormed(rules) && i <= |text| && OkType(t) && IsBeforeClassType(before)
    requires text[i..] == [before] + TypeThen(t, rest)
    ensures i < j <= |text| && text[j..] == rest && Opens(text, j)
    ensures forall x :: R(rules, text, i) == [before] + TypeThen(Move(rules, t), x) <==> !Misread(rules, t) && x == R(rules, text, j)
    decreases t, 2
  {
    hide R, MatchAt, AllWellFormed, TypeThen, Opens;
    TakeByte(text, i, before, TypeThen(t, rest));
    Punctuation(rules, text, i);
    OpensAfter(text, i);
    j := TypeScan(rules, text, i + 1, t, rest);
    forall x
      ensures R(rules, text, i) == [before] + TypeThen(Move(rules, t), x) <==> !Misread(rules, t) && x == R(rules, text, j)
    {
      Peel([before], R(rules, text, i + 1), TypeThen(Move(rules, t), x));
    }
  }

  lemma {:induction false} InnersScan(rules: seq<Rule>, text: Bytes, i: nat, inner: seq<Inner>, rest: Bytes)
    returns (j: nat)
    requires AllWellFormed(rules) && 0 < i <= |text| && (forall n <- inner :: OkInner(n))
    requires text[i..] == InnersThen(inner, rest)
    ensures i <= j <= |text| && text[j..] == rest
    ensures forall x :: R(rules, text, i) == InnersThen(MoveInners(rules, inner), x) <==>
              !MisreadInners(rules, inner) && x == R(rules, text, j)
    decreases inner, 0
  {
    hide R, MatchAt, AllWellFormed, IsInternalName, BracketedThen;
    if inner == [] {
      j := i;
    } else {
      var n := inner[0];
      var tail := BracketedThen(n.args, InnersThen(inner[1..], rest));
      TakeByte(text, i, DOT, n.id + tail);
      Punctuation(rules, text, i);
      TakeBytes(text, i + 1, n.id, tail);
      assert OkInner(n);
      IdCopied(rules, text, i + 1, n.id);
      var k := i + 1 + |n.id|;
      var m := BracketedScan(rules, text, k, n.args, InnersThen(inner[1..], rest));
      j := InnersScan(rules, text, m, inner[1..], rest);
      InnersMoved(rules, inner);
      forall x
        ensures R(rules, text, i) == InnersThen(MoveInners(rules, inner), x) <==>
                !MisreadInners(rules, inner) && x == R(rules, text, j)
      {
        var after := InnersThen(MoveInners(rules, inner[1..]), x);
        Peel([DOT], R(rules, text, i + 1), n.id + BracketedThen(MoveArguments(rules, n.args), after));
        Peel(n.id, R(rules, text, k), BracketedThen(MoveArguments(rules, n.args), after));
      }
    }
  }

  lemma InnersMoved(rules: seq<Rule>, inner: seq<Inner>)
    requires inner != []
    ensures MoveInners(rules, inner) != []
    ensures MoveInners(rules, inner)[0] == Inner(inner[0].id, MoveArguments(rules, inner[0].args))
    ensures MoveInners(rules, inner)[1..] == MoveInners(rules, inner[1..])
  {
  }

  lemma {:induction false} TypesScan(rules: seq<Rule>, text: Bytes, i: nat, before: Bytes, ts: seq<Type>, rest: Bytes)
    returns (j: nat)
    requires AllWellFormed(rules) && i <= |text| && OkTypes(ts) && text[i..] == TypesThen(before, ts, rest)
    requires before == [] ==> AtType(rules, text, i)
    requires before != [] ==> 0 < i && |before| == 1 && IsBeforeClassType(before[0])
    ensures i <= j <= |text| && text[j..] == rest && (before == [] ==> Opens(text, j))
    ensures forall x :: R(rules, text, i) == TypesThen(before, MoveTypes(rules, ts), x) <==>
              !MisreadTypes(rules, ts) && x == R(rules, text, j)
    decreases ts
  {
    hide R, MatchAt, AllWellFormed, TypeThen, Opens;
    if ts == [] {
      j := i;
    } else {
      var tail := TypesThen(before, ts[1..], rest);
      var k: nat;
      if before == [] {
        NothingBefore(TypeThen(ts[0], tail));
        k := TypeScan(rules, text, i, ts[0], tail);
      } else {
        assert before == [before[0]];
        k := BoundScan(rules, text, i, before[0], ts[0], tail);
      }
      j := TypesScan(rules, text, k, before, ts[1..], rest);
      TypesMoved(rules, ts);
      forall x
        ensures R(rules, text, i) == TypesThen(before, MoveTypes(rules, ts), x) <==>
                !MisreadTypes(rules, ts) && x == R(rules, text, j)
      {
        var after := TypesThen(before, MoveTypes(rules, ts[1..]), x);
        NothingBefore(TypeThen(Move(rules, ts[0]), after));
        assert R(rules, text, i) == before + TypeThen(Move(rules, ts[0]), after)
               <==> !Misread(rules, ts[0]) && after == R(rules, text, k);
      }
    }
  }

  lemma NothingBefore(b: Bytes)
    ensures [] + b == b
  {
  }

  lemma TypesMoved(rules: seq<Rule>, ts: seq<Type>)
    requires ts != []
    ensures MoveTypes(rules, ts) != [] && MoveTypes(rules, ts)[0] == Move(rules, ts[0])
    ensures MoveTypes(rules, ts)[1..] == MoveTypes(rules, ts[1..])
  {
  }

  lemma {:induction false} ParametersScan(rules: seq<Rule>, text: Bytes, i: nat, ps: seq<Parameter>, rest: Bytes)
    returns (j: nat)
    requires AllWellFormed(rules) && 0 < i <= |text| && (forall p <- ps :: OkParameter(p))
    requires text[i..] == ParametersThen(ps, rest)
    ensures i <= j <= |text| && text[j..] == rest
    ensures forall x :: R(rules, text, i) == ParametersThen(MoveParameters(rules, ps), x) <==>
              !MisreadParameters(rules, ps) && x == R(rules, text, j)
    decreases ps
  {
    hide R, MatchAt, AllWellFormed, TypesThen, Opens;
    if ps == [] {
      j := i;
    } else {
      var p := ps[0];
      assert OkParameter(p);
      var tail := ParametersThen(ps[1..], rest);
      var bounds := TypesThen([COLON], p.interfaceBounds, tail);
      TakeBytes(text, i, p.id, [COLON] + TypesThen([], p.classBound, bounds));
      var c := i + |p.id|;
      TakeByte(text, c, COLON, TypesThen([], p.classBound, bounds));
      ParameterNameCopied(rules, text, i, p.id);
      Punctuation(rules, text, c);
      OpensAfter(text, c);
      var k := TypesScan(rules, text, c + 1, [], p.classBound, bounds);
      var m := TypesScan(rules, text, k, [COLON], p.interfaceBounds, tail);
      j := ParametersScan(rules, text, m, ps[1..], rest);
      ParametersMoved(rules, ps);
      forall x
        ensures R(rules, text, i) == ParametersThen(MoveParameters(rules, ps), x) <==>
                !MisreadParameters(rules, ps) && x == R(rules, text, j)
      {
        var after := ParametersThen(MoveParameters(rules, ps[1..]), x);
        var interfaces := TypesThen([COLON], MoveTypes(rules, p.interfaceBounds), after);
        Peel(p.id, R(rules, text, c), [COLON] + TypesThen([], MoveTypes(rules, p.classBound), interfaces));
        Peel([COLON], R(rules, text, c + 1), TypesThen([], MoveTypes(rules, p.classBound), interfaces));
      }
    }
  }

  lemma ParametersMoved(rules: seq<Rule>, ps: seq<Parameter>)
    requires ps != []
    ensures MoveParameters(rules, ps) != []
    ensures MoveParameters(rules, ps)[0]
            == Parameter(ps[0].id, MoveTypes(rules, ps[0].classBound), MoveTypes(rules, ps[0].interfaceBounds))
    ensures MoveParameters(rules, ps)[1..] == MoveParameters(rules, ps[1..])
  {
  }

  lemma FormalsScan(rules: seq<Rule>, text: Bytes, ps: seq<Parameter>, rest: Bytes) returns (j: nat)
    requires AllWellFormed(rules) && (forall p <- ps :: OkParameter(p)) && text == FormalsThen(ps, rest)
    ensures j <= |text| && text[j..] == rest && Opens(text, j) && (ps != [] <==> 0 < j)
    ensures forall x :: R(rules, text, 0) == FormalsThen(MoveParameters(rules, ps), x) <==>
              !MisreadParameters(rules, ps) && x == R(rules, text, j)
  {
    hide R, MatchAt, AllWellFormed, ParametersThen;
    assert text[0..] == text;
    if ps == [] {
      j := 0;
    } else {
      TakeByte(text, 0, LESS, ParametersThen(ps, [GREATER] + rest));
      Punctuation(rules, text, 0);
      var k := ParametersScan(rules, text, 1, ps, [GREATER] + rest);
      TakeByte(text, k, GREATER, rest);
      Punctuation(rules, text, k);
      OpensAfter(text, k);
      j := k + 1;
      ParametersMoved(rules, ps);
      forall x
        ensures R(rules, text, 0) == FormalsThen(MoveParameters(rules, ps), x) <==>
                !MisreadParameters(rules, ps) && x == R(rules, text, j)
      {
        Peel([LESS], R(rules, text, 1), ParametersThen(MoveParameters(rules, ps), [GREATER] + x));
        Peel([GREATER], R(rules, text, j), x);
      }
    }
  }

  lemma MethodScan(rules: seq<Rule>, s: Signature)
    requires AllWellFormed(rules) && OkSignature(s) && s.OfMethod?
    ensures R(rules, Print(s), 0) == Print(MoveSignature(rules, s)) <==> !MisreadSignature(rules, s)
  {
    hide R, MatchAt, AllWellFormed, Opens, TypesThen, ResultThen, FormalsThen;
    hide MoveTypes, MoveParameters, MisreadTypes, MisreadParameters;
    var text := Print(s);
    var throws := TypesThen(['^' as Byte], s.throws, []);
    var result := ResultThen(s.result, throws);
    var args := TypesThen([], s.args, [')' as Byte] + result);
    var j := FormalsScan(rules, text, s.params, ['(' as Byte] + args);
    TakeByte(text, j, '(' as Byte, args);
    Punctuation(rules, text, j);
    OpensAfter(text, j);
    var k := TypesScan(rules, text, j + 1, [], s.args, [')' as Byte] + result);
    TakeByte(text, k, ')' as Byte, result);
    Punctuation(rules, text, k);
    OpensAfter(text, k);
    var m := ResultScan(rules, text, k + 1, s.result, throws);
    var e := TypesScan(rules, text, m, ['^' as Byte], s.throws, []);
    EndOfText(rules, text, e);
    var throws' := TypesThen(['^' as Byte], MoveTypes(rules, s.throws), []);
    var result' := ResultThen(MoveTypes(rules, s.result), throws');
    var args' := TypesThen([], MoveTypes(rules, s.args), [')' as Byte] + result');
    Peel(['(' as Byte], R(rules, text, j + 1), args');
    Peel([')' as Byte], R(rules, text, k + 1), result');
  }

  lemma EndOfText(rules: seq<Rule>, text: Bytes, e: nat)
    requires AllWellFormed(rules) && e <= |text| && text[e..] == []
    ensures R(rules, text, e) == []
  {
    assert |text[e..]| == |text| - e;
  }

  lemma ResultScan(rules: seq<Rule>, text: Bytes, i: nat, result: seq<Type>, rest: Bytes) returns (j: nat)
    requires AtType(rules, text, i) && 0 < i && OkTypes(result) && text[i..] == ResultThen(result, rest)
    ensures i <= j <= |text| && text[j..] == rest
    ensures forall x :: R(rules, text, i) == ResultThen(MoveTypes(rules, result), x) <==>
              !MisreadTypes(rules, result) && x == R(rules, text, j)
  {
    hide R, MatchAt, AllWellFormed, TypesThen;
    if result == [] {
      TakeByte(text, i, 'V' as Byte, rest);
      FirstByteOfType(rules, text, i);
      j := i + 1;
      forall x
        ensures R(rules, text, i) == ResultThen(MoveTypes(rules, result), x) <==> x == R(rules, text, j)
      {
        Peel(['V' as Byte], R(rules, text, j), x);
      }
    } else {
      j := TypesScan(rules, text, i, [], result, rest);
      TypesMoved(rules, result);
    }
  }

  // ---- the theorem --------------------------------------------------------------------------

  /** A primitive's descriptor is matched by exactly the package named like its letter. */
  lemma BaseScan(rules: seq<Rule>, b: Byte)
    requires AllWellFormed(rules) && IsPrimitive(b)
    ensures MatchAt(rules, [b], 0) != None <==> MisplacedAtStart(rules, Base(b))
    ensures R(rules, [b], 0) == [b] <==> !MisplacedAtStart(rules, Base(b))
  {
    hide MatchAt;
    var text := [b];
    if MatchAt(rules, text, 0) != None {
      FirstByteMatched(rules, text);
      var m := MatchAt(rules, text, 0).value;
      var r := MatchChanges(rules, text, 0);
      assert m.consumed == 1 && text[0..1] == text;
      EndOfText(rules, text, 1);
      assert R(rules, text, 0) == m.replacement + [];
    } else {
      EndOfText(rules, text, 1);
      assert R(rules, text, 0) == [b] + [];
      forall r | r in rules
        ensures r.dottedFrom != [b]
      {
        if r.dottedFrom == [b] {
          OwnNameMatches(rules, r, b);
        }
      }
    }
  }

  lemma OwnNameMatches(rules: seq<Rule>, r: Rule, b: Byte)
    requires AllWellFormed(rules) && r in rules && r.dottedFrom == [b]
    ensures MatchAt(rules, [b], 0) != None
  {
    hide MatchAt, WellFormed;
    LongExclusion(r, [b]);
    assert [b][0..1] == [b];
    SomeMatch(rules, r, [b], 0);
  }

  lemma FieldScan(rules: seq<Rule>, t: Type)
    requires AllWellFormed(rules) && OkType(t)
    ensures R(rules, TypeThen(t, []), 0) == TypeThen(Move(rules, t), []) <==>
            !Misread(rules, t) && !MisplacedAtStart(rules, t)
  {
    hide R, MatchAt, AllWellFormed, BracketedThen, InnersThen, ReadsAsDotted;
    var text := TypeThen(t, []);
    assert text[0..] == text;
    if t.Base? {
      assert [t.letter] + [] == [t.letter];
      BaseScan(rules, t.letter);
    } else {
      if t.Variable? {
        NoMatchAtVariable(rules, t.id);
      } else if t.Array? {
        NoMatchAtPunctuation(rules, text, 0);
      }
      var j: nat;
      if t.ClassType? {
        j := ClassScan(rules, text, 0, t, []);
      } else {
        j := TypeScan(rules, text, 0, t, []);
      }
      EndOfText(rules, text, j);
    }
  }

  lemma ClassSignatureScan(rules: seq<Rule>, s: Signature)
    requires AllWellFormed(rules) && OkSignature(s) && s.OfClass?
    ensures R(rules, Print(s), 0) == Print(MoveSignature(rules, s)) <==>
            !MisreadSignature(rules, s) && !StartMisplaced(rules, s)
  {
    hide R, MatchAt, AllWellFormed, TypeThen, ParametersThen, Opens, Misread, MisplacedAtStart, MisreadParameters;
    var text := Print(s);
    var j := FormalsScan(rules, text, s.params, TypesThen([], s.supers, []));
    var e: nat;
    if 0 < j || s.supers == [] {
      if j == 0 {
        e := 0;
      } else {
        e := TypesScan(rules, text, j, [], s.supers, []);
      }
    } else {
      var tail := TypesThen([], s.supers[1..], []);
      NothingBefore(TypeThen(s.supers[0], tail));
      var k := ClassScan(rules, text, 0, s.supers[0], tail);
      e := TypesScan(rules, text, k, [], s.supers[1..], []);
      TypesMoved(rules, s.supers);
      NothingBefore(TypeThen(Move(rules, s.supers[0]), TypesThen([], MoveTypes(rules, s.supers[1..]), [])));
    }
    EndOfText(rules, text, e);
  }

  /** Rewriting the bytes of a descriptor or signature relocates every class name in its tree, and
      changes nothing else, exactly when no class of the unnamed package reads as a dotted name of a
      relocated package, and nothing is misplaced by a match at the very first byte. */
  lemma RewriteRelocatesSignature(rules: seq<Rule>, s: Signature)
    requires AllWellFormed(rules) && OkSignature(s)
    ensures Advances(rules)
    ensures Rewritten(rules, Print(s), Constant) == Print(MoveSignature(rules, s))
            <==> !MisreadSignature(rules, s) && !StartMisplaced(rules, s)
  {
    hide MatchAt, AllWellFormed, RewriteFrom;
    WellFormedAdvances(rules);
    match s
    case OfField(t) => FieldScan(rules, t);
    case OfMethod(_, _, _, _) => MethodScan(rules, s);
    case OfClass(_, _) => ClassSignatureScan(rules, s);
  }

  /** Nothing is misplaced without a match at the first byte. */
  lemma UnmatchedIsNotMisplaced(rules: seq<Rule>, s: Signature)
    requires AllWellFormed(rules) && OkSignature(s) && MatchAt(rules, Print(s), 0) == None
    ensures !StartMisplaced(rules, s)
  {
    hide MatchAt, AllWellFormed, TypeThen, MisplacedAtStart, Spelling;
    match s
    case OfField(t) => NotMisplacedAtStart(rules, t, []);
    case OfMethod(_, _, _, _) =>
    case OfClass(params, supers) =>
      if params == [] && supers != [] {
        assert supers[0] in supers;
        NothingBefore(TypeThen(supers[0], TypesThen([], supers[1..], [])));
        NotMisplacedAtStart(rules, supers[0], TypesThen([], supers[1..], []));
      }
  }

  lemma RewriteRelocatesUnlessMatchedAtStart(rules: seq<Rule>, s: Signature)
    requires AllWellFormed(rules) && OkSignature(s) && MatchAt(rules, Print(s), 0) == None
    ensures Advances(rules)
    ensures Rewritten(rules, Print(s), Constant) == Print(MoveSignature(rules, s)) <==> !MisreadSignature(rules, s)
  {
    hide MatchAt, RewriteFrom, MisreadSignature, Print, MoveSignature;
    UnmatchedIsNotMisplaced(rules, s);
    RewriteRelocatesSignature(rules, s);
  }

  lemma NotMisplacedAtStart(rules: seq<Rule>, t: Type, rest: Bytes)
    requires AllWellFormed(rules) && OkType(t) && (t.Base? ==> rest == [])
    requires MatchAt(rules, TypeThen(t, rest), 0) == None
    ensures !MisplacedAtStart(rules, t)
  {
    hide MatchAt, AllWellFormed, BracketedThen, InnersThen, ReadsAsDotted;
    var text := TypeThen(t, rest);
    match t
    case Base(b) =>
      assert [b] + [] == [b];
      BaseScan(rules, b);
    case Variable(_) =>
    case Array(_) =>
    case ClassType(_, _, _) =>
      assert text[0..] == text;
      ClassPrinted(t, rest);
      TakeByte(text, 0, CLASS_OPEN, t.name + ClassTail(t, rest));
      StandsSpelled(text, 1, t, rest);
      NotMisplaced(rules, text, t);
  }

  /** A printed signature a relocated name could start is a class type or a primitive. */
  lemma StartsLikeAName(rules: seq<Rule>, s: Signature)
    requires AllWellFormed(rules) && OkSignature(s) && MatchAt(rules, Print(s), 0) != None
    ensures Print(s) != [] && (Print(s)[0] == CLASS_OPEN || (s.OfField? && s.t.Base?))
  {
    var r := MatchChanges(rules, Print(s), 0);
    match s
    case OfField(Variable(id)) => NoMatchAtVariable(rules, id);
    case OfField(ClassType(_, _, _)) =>
    case OfField(Array(_)) =>
    case OfField(Base(_)) =>
    case OfMethod(_, _, _, _) =>
    case OfClass(params, supers) =>
      if params == [] && supers != [] {
        assert supers[0] in supers;
        assert [] + TypeThen(supers[0], TypesThen([], supers[1..], [])) == Print(s);
      }
  }

  /** Nothing starts at the first byte when no package name begins with `L` or is one of the
      primitive letters. */
  lemma NoMatchAtStart(rules: seq<Rule>, s: Signature)
    requires AllWellFormed(rules) && OkSignature(s)
    requires forall r <- rules ::
               r.dottedFrom[0] != CLASS_OPEN && !(|r.dottedFrom| == 1 && IsPrimitive(r.dottedFrom[0]))
    ensures MatchAt(rules, Print(s), 0) == None
  {
    if MatchAt(rules, Print(s), 0) != None {
      StartsLikeAName(rules, s);
      FirstByteMatched(rules, Print(s));
    }
  }
}
