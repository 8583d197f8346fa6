/**
 Scanning a name. The scan over the name of a class type: relocated, or misread as a dotted name of
 another class.
 */
module SignatureNames {
  import opened ByteStrings
  import opened Wrappers
  import opened Relocation
  import opened Rewriting
  import opened Signatures

  lemma WellFormedAdvances(rules: seq<Rule>)
    requires AllWellFormed(rules)
    ensures Advances(rules)
  {
    forall r | r in rules
      ensures r.slashedFrom != [] && r.dottedFrom != []
    {
      assert WellFormed(r);
    }
  }

  /** What the scan makes of `text[i..]`, in a constant. */
  ghost function R(rules: seq<Rule>, text: Bytes, i: nat): Bytes
    requires AllWellFormed(rules) && i <= |text|
  {
    WellFormedAdvances(rules);
    RewriteFrom(rules, text, i, Constant)
  }

  lemma TakeByte(text: Bytes, i: nat, b: Byte, rest: Bytes)
    requires i <= |text| && text[i..] == [b] + rest
    ensures i < |text| && text[i] == b && text[i + 1..] == rest
  {
    assert text[i..][0] == b;
    assert text[i + 1..] == text[i..][1..];
  }

  lemma TakeBytes(text: Bytes, i: nat, p: Bytes, rest: Bytes)
    requires i <= |text| && text[i..] == p + rest
    ensures OccursAt(text, i, p) && text[i + |p|..] == rest
  {
    assert |text[i..]| == |p| + |rest|;
    assert text[i..i + |p|] == text[i..][..|p|];
    assert text[i + |p|..] == text[i..][|p|..];
  }

  /** Punctuation is copied. */
  lemma Punctuation(rules: seq<Rule>, text: Bytes, i: nat)
    requires AllWellFormed(rules) && i < |text| && !IsNameByte(text[i])
    ensures R(rules, text, i) == [text[i]] + R(rules, text, i + 1)
  {
    NoMatchAtPunctuation(rules, text, i);
  }

  /** So is the byte a type begins with. */
  lemma FirstByteOfType(rules: seq<Rule>, text: Bytes, i: nat)
    requires AllWellFormed(rules) && i < |text| && Opens(text, i)
    requires i == 0 ==> MatchAt(rules, text, 0) == None
    ensures R(rules, text, i) == [text[i]] + R(rules, text, i + 1)
  {
    hide MatchAt;
  }

  /** And an identifier in which no class type can open. */
  lemma IdCopied(rules: seq<Rule>, text: Bytes, s: nat, id: Bytes)
    requires AllWellFormed(rules) && IsId(id) && OccursAt(text, s, id)
    requires 0 < s && Stops(text[s - 1]) && text[s - 1] != CLASS_OPEN && text[s - 1] != SLASH
    ensures R(rules, text, s) == id + R(rules, text, s + |id|)
  {
    OccursElements(text, s, id);
    forall k | s <= k < s + |id|
      ensures IsNameByte(text[k])
    {
      assert text[s + (k - s)] == id[k - s] && id[k - s] in id;
    }
    NoStartAfter(rules, text, s - 1, s, s + |id|);
    WellFormedAdvances(rules);
    CopiesOver(rules, text, s, s + |id|, Constant);
  }

  /** No hit lies in `text[lo..hi]`, all name bytes, `/` and `.` after the byte at `i` that stops the
      walk back. */
  lemma NoStartAfter(rules: seq<Rule>, text: Bytes, i: nat, lo: nat, hi: nat)
    requires i < lo <= hi <= |text| && Stops(text[i]) && text[i] != SLASH
    requires lo == i + 1 ==> text[i] != CLASS_OPEN
    requires forall k :: i < k < hi ==> IsNameByte(text[k]) || text[k] == SLASH || text[k] == DOT
    ensures NoHitIn(rules, text, lo, hi, Constant)
  {
    hide MatchAt;
    forall p | lo <= p < hi
      ensures !CanStart(text, p, Constant)
    {
      if p - 1 > i {
        NothingOpensInName(text, i, p - 1);
      }
    }
  }

  /** A parameter's name is copied even where a class type could open: no package name ends in
      the `:` that follows it. */
  lemma ParameterNameCopied(rules: seq<Rule>, text: Bytes, s: nat, id: Bytes)
    requires AllWellFormed(rules) && IsId(id) && 0 < s && OccursAt(text, s, id)
    requires s + |id| < |text| && text[s + |id|] == COLON
    ensures R(rules, text, s) == id + R(rules, text, s + |id|)
  {
    OccursElements(text, s, id);
    var q := s + |id|;
    forall k | s <= k < q
      ensures IsNameByte(text[k])
    {
      assert text[s + (k - s)] == id[k - s] && id[k - s] in id;
    }
    forall p | s <= p < q
      ensures !Hit(rules, text, p, Constant)
    {
      NoMatchInRun(rules, text, p, q);
    }
    WellFormedAdvances(rules);
    CopiesOver(rules, text, s, q, Constant);
  }

  /** A class type's name is relocated. */
  lemma NameMoved(rules: seq<Rule>, text: Bytes, i: nat, name: Bytes)
    requires AllWellFormed(rules) && i < |text| && text[i] == CLASS_OPEN && Opens(text, i)
    requires NameEnds(text, i + 1, name)
    requires text[i + 1 + |name|] == DOT ==> SLASH in name
    ensures R(rules, text, i + 1) == MoveName(rules, name) + R(rules, text, i + 1 + |name|)
  {
    hide R, MoveName, MatchAt, Opens, AllWellFormed, IsInternalName;
    var p, e := i + 1, i + 1 + |name|;
    MatchIsMove(rules, text, p, name);
    NameStretch(text, p, name);
    match MatchAt(rules, text, p)
    case None => NameKept(rules, text, i, e);
    case Some(m) =>
      NameReplaced(rules, text, i, e, m);
      StretchTail(text, p, name, m.consumed);
      Regroup(m.replacement, name[m.consumed..], R(rules, text, e));
  }

  lemma NameStretch(text: Bytes, p: nat, name: Bytes)
    requires NameEnds(text, p, name)
    ensures name != [] && text[p..p + |name|] == name
    ensures forall k :: p - 1 < k < p + |name| ==> IsNameByte(text[k]) || text[k] == SLASH
  {
    NameElements(text, p, name);
    forall k | p - 1 < k < p + |name|
      ensures IsNameByte(text[k]) || text[k] == SLASH
    {
      assert text[p + (k - p)] == name[k - p];
    }
  }

  lemma StretchTail(text: Bytes, p: nat, name: Bytes, c: nat)
    requires OccursAt(text, p, name) && c <= |name|
    ensures text[p + c..p + |name|] == name[c..]
  {
    SliceOfSlice(text, p, p + |name|, c, |name|);
  }

  lemma NameKept(rules: seq<Rule>, text: Bytes, i: nat, e: nat)
    requires AllWellFormed(rules) && i + 1 < e <= |text| && text[i] == CLASS_OPEN
    requires forall k :: i < k < e ==> IsNameByte(text[k]) || text[k] == SLASH
    requires MatchAt(rules, text, i + 1) == None
    ensures R(rules, text, i + 1) == text[i + 1..e] + R(rules, text, e)
  {
    hide MatchAt;
    NoStartAfter(rules, text, i, i + 2, e);
    WellFormedAdvances(rules);
    CopiesOver(rules, text, i + 1, e, Constant);
  }

  lemma NameReplaced(rules: seq<Rule>, text: Bytes, i: nat, e: nat, m: Match)
    requires AllWellFormed(rules) && i + 1 < e <= |text| && text[i] == CLASS_OPEN && Opens(text, i)
    requires forall k :: i < k < e ==> IsNameByte(text[k]) || text[k] == SLASH
    requires MatchAt(rules, text, i + 1) == Some(m) && 0 < m.consumed && i + 1 + m.consumed < e
    ensures R(rules, text, i + 1) == m.replacement + (text[i + 1 + m.consumed..e] + R(rules, text, e))
  {
    hide MatchAt;
    assert CanStart(text, i + 1, Constant);
    NoStartAfter(rules, text, i, i + 1 + m.consumed, e);
    WellFormedAdvances(rules);
    CopiesOver(rules, text, i + 1 + m.consumed, e, Constant);
  }

  // ---- what a match is ---------------------------------------------------------------------------

  /** A match replaces a stretch by something else. */
  /** The rule and the form behind a match. */
  lemma {:induction false} MatchingRule(rules: seq<Rule>, text: Bytes, i: nat) returns (r: Rule, form: Form)
    requires i <= |text| && MatchAt(rules, text, i) != None
    ensures r in rules && Applies(r, form, text, i)
    ensures MatchAt(rules, text, i) == Some(Match(|r.From(form)|, r.To(form)))
  {
    hide Applies;
    if AppliesSomehow(rules[0], text, i) {
      r, form := rules[0], if Applies(rules[0], Slashed, text, i) then Slashed else Dotted;
    } else {
      r, form := MatchingRule(rules[1..], text, i);
    }
  }

  lemma MatchChanges(rules: seq<Rule>, text: Bytes, i: nat) returns (r: Rule)
    requires AllWellFormed(rules) && i <= |text| && MatchAt(rules, text, i) != None
    ensures var m := MatchAt(rules, text, i).value;
            && i + m.consumed <= |text| && m.replacement != text[i..i + m.consumed]
            && r in rules && (m.replacement == r.slashedTo || m.replacement == r.dottedTo)
            && 0 < m.consumed && IsNameByte(text[i])
  {
    hide MatchAt;
    var form: Form;
    r, form := MatchingRule(rules, text, i);
    assert WellFormed(r);
    FromBytes(r, form);
    OccursElements(text, i, r.From(form));
  }

  lemma FirstByteMatched(rules: seq<Rule>, text: Bytes)
    requires AllWellFormed(rules) && text != [] && MatchAt(rules, text, 0) != None
    ensures exists r <- rules :: r.dottedFrom[0] == text[0] && (|text| == 1 ==> r.dottedFrom == text)
  {
    hide MatchAt;
    var r, form := MatchingRule(rules, text, 0);
    assert WellFormed(r);
    FromBytes(r, form);
    OccursElements(text, 0, r.From(form));
    assert r.dottedFrom[0] == text[0] && (|text| == 1 ==> r.dottedFrom == text);
  }

  /** A match spans bytes of a dotted or slashed name, and so does what replaces them. */
  lemma MatchIsRun(rules: seq<Rule>, text: Bytes, i: nat)
    requires AllWellFormed(rules) && i <= |text| && MatchAt(rules, text, i) != None
    ensures var m := MatchAt(rules, text, i).value;
            && i + m.consumed <= |text| && IsRun(m.replacement)
            && forall k :: i <= k < i + m.consumed ==> !EndsSpelling(text[k])
  {
    hide MatchAt;
    var r, form := MatchingRule(rules, text, i);
    assert WellFormed(r);
    var from := r.From(form);
    FromBytes(r, form);
    OccursElements(text, i, from);
    forall k | i <= k < i + |from|
      ensures !EndsSpelling(text[k])
    {
      assert text[i + (k - i)] == from[k - i];
    }
    ReplacementIsRun(r, form);
  }

  lemma ReplacementIsRun(r: Rule, form: Form)
    requires WellFormed(r)
    ensures IsRun(r.To(form))
  {
    forall x | x in r.To(form)
      ensures IsNameByte(x) || x == SLASH || x == DOT
    {
      var k :| 0 <= k < |r.dottedTo| && r.To(form)[k] == x;
      assert r.dottedTo[k] in r.dottedTo;
    }
  }

  lemma NoMatchAtVariable(rules: seq<Rule>, id: Bytes)
    requires AllWellFormed(rules) && IsId(id)
    ensures MatchAt(rules, TypeThen(Variable(id), []), 0) == None
  {
    hide AllWellFormed, MatchAt;
    var text := TypeThen(Variable(id), []);
    assert text[0] == VARIABLE_OPEN && text[1 + |id|] == SEMI;
    forall k | 0 <= k < 1 + |id|
      ensures IsNameByte(text[k])
    {
      if k > 0 {
        assert text[k] == id[k - 1] && id[k - 1] in id;
      }
    }
    NoMatchInRun(rules, text, 0, 1 + |id|);
  }

  /** One rule that covers a name gives a match there. */
  lemma {:induction false} SomeMatch(rules: seq<Rule>, r: Rule, text: Bytes, i: nat)
    requires i <= |text| && r in rules && AppliesSomehow(r, text, i)
    ensures MatchAt(rules, text, i).Some?
  {
    if !AppliesSomehow(rules[0], text, i) {
      SomeMatch(rules[1..], r, text, i);
    }
  }

  /** Every exclusion is longer than the package, so none covers the package's own name. */
  lemma LongExclusion(rule: Rule, m: Bytes)
    requires WellFormed(rule) && rule.dottedFrom == m
    ensures !rule.Excludes(NameAt(m, 0, DOT))
  {
    DottedNameAt(m, 0);
    assert m[0..] == m;
    forall e | e in rule.exclude
      ensures !ExcludesName(e, m)
    {
      assert m + [DOT] <= if e.Class? then e.name else e.prefix;
    }
  }

  lemma {:induction false} DottedNameAt(m: Bytes, i: nat)
    requires i <= |m| && forall b <- m :: IsNameByte(b) || b == DOT
    ensures NameAt(m, i, DOT) == m[i..]
    decreases |m| - i
  {
    if i < |m| {
      assert m[i] in m;
      DottedNameAt(m, i + 1);
    }
  }

  // ---- a name that is misread -------------------------------------------------------------------

  lemma Peel(p: Bytes, a: Bytes, b: Bytes)
    ensures p + a == p + b <==> a == b
  {
    assert (p + a)[|p|..] == a && (p + b)[|p|..] == b;
  }

  lemma NoLonger(a: Bytes, y: Bytes, b: Bytes, z: Bytes)
    requires a + y == b + z && y != [] && y[0] !in b
    ensures |b| <= |a|
  {
    assert (a + y)[|a|] == y[0];
    assert forall k :: 0 <= k < |b| ==> (b + z)[k] == b[k];
  }

  /** Two texts are equal only if they are equal up to a byte neither has before it. */
  lemma SameUpTo(a: Bytes, y: Bytes, b: Bytes, z: Bytes)
    requires y != [] && z != [] && y[0] !in a && y[0] !in b && z[0] !in a && z[0] !in b
    ensures a + y == b + z <==> a == b && y == z
  {
    if a + y == b + z {
      NoLonger(a, y, b, z);
      NoLonger(b, z, a, y);
      assert a == (a + y)[..|a|] == (b + z)[..|a|] == b;
      Peel(a, y, z);
    }
  }

  /** Bytes of a spelled name. */
  predicate IsRun(b: Bytes) {
    forall x <- b :: IsNameByte(x) || x == SLASH || x == DOT
  }

  lemma SpelledIsRun(text: Bytes, p: nat, name: Bytes, sp: Bytes)
    requires SpelledAt(text, p, name, sp)
    ensures IsRun(sp) && p + |sp| < |text| && text[p..p + |sp|] == sp && EndsSpelling(text[p + |sp|])
    ensures forall k :: p <= k < p + |sp| ==> text[k] == sp[k - p] && (IsNameByte(text[k]) || text[k] == SLASH || text[k] == DOT)
  {
    SpelledEnds(text, p, name, sp);
    forall k | p <= k < p + |sp|
      ensures text[k] == sp[k - p] && (IsNameByte(text[k]) || text[k] == SLASH || text[k] == DOT)
    {
      assert text[p + (k - p)] == sp[k - p];
    }
    forall x | x in sp
      ensures IsNameByte(x) || x == SLASH || x == DOT
    {
      var k :| 0 <= k < |sp| && sp[k] == x;
      assert text[p + k] == x;
    }
  }

  /** The scan from a match in the spelled name: the match replaced, the rest copied. */
  lemma MisreadReplaced(rules: seq<Rule>, text: Bytes, p: nat, name: Bytes, sp: Bytes, m: Match)
    requires AllWellFormed(rules) && SpelledAt(text, p, name, sp)
    requires CanStart(text, p, Constant) && MatchAt(rules, text, p) == Some(m) && 0 < m.consumed < |sp|
    requires if p == 0 then text[0] == CLASS_OPEN && 1 < m.consumed else text[p - 1] == CLASS_OPEN
    ensures R(rules, text, p) == (m.replacement + sp[m.consumed..]) + R(rules, text, p + |sp|)
  {
    hide MatchAt, CanStart, SpelledAt, RewriteFrom;
    SpelledIsRun(text, p, name, sp);
    var e := p + |sp|;
    var from := p + m.consumed;
    var stop := if p == 0 then 0 else p - 1;
    assert text[stop] == CLASS_OPEN && stop < from;
    NoStartAfter(rules, text, stop, from, e);
    WellFormedAdvances(rules);
    CopiesOver(rules, text, from, e, Constant);
    SliceOfSlice(text, p, e, m.consumed, |sp|);
    ScanHit(rules, text, Span(p, m.consumed, m.replacement), Constant);
    Regroup(m.replacement, sp[m.consumed..], R(rules, text, e));
  }

  lemma EndCopied(rules: seq<Rule>, text: Bytes, e: nat)
    requires AllWellFormed(rules) && e < |text| && !IsNameByte(text[e])
    ensures R(rules, text, e) != [] && R(rules, text, e)[0] == text[e]
  {
    hide R;
    Punctuation(rules, text, e);
  }

  /** So the scan of a misread name gives something else than the name. */
  lemma MisreadDiffers(rules: seq<Rule>, text: Bytes, p: nat, name: Bytes, sp: Bytes, more: Bytes)
    requires AllWellFormed(rules) && SpelledAt(text, p, name, sp) && SLASH !in name
    requires CanStart(text, p, Constant) && MatchAt(rules, text, p) != None
    requires if p == 0 then text[0] == CLASS_OPEN && 1 < |name| else text[p - 1] == CLASS_OPEN
    requires more != [] && EndsSpelling(more[0])
    ensures R(rules, text, p) != sp + more
  {
    hide R, MatchAt, CanStart, AllWellFormed;
    MatchIsMisreading(rules, text, p, name, sp);
    var m := MatchAt(rules, text, p).value;
    DotsComeAfter(name, sp, m.consumed);
    MisreadReplaced(rules, text, p, name, sp, m);
    SpelledIsRun(text, p, name, sp);
    var e := p + |sp|;
    EndCopied(rules, text, e);
    var other := m.replacement + sp[m.consumed..];
    assert IsRun(other);
    SameUpTo(other, R(rules, text, e), sp, more);
    assert sp == sp[..m.consumed] + sp[m.consumed..];
    SuffixInjective(m.replacement, sp[..m.consumed], sp[m.consumed..]);
  }

  lemma DotsComeAfter(name: Bytes, sp: Bytes, k: nat)
    requires IsInternalName(name) && name <= sp && k < |sp| && sp[k] == DOT
    ensures |name| <= k
  {
    assert DOT !in name;
    assert forall i :: 0 <= i < |name| ==> sp[i] == name[i];
  }

  lemma SuffixInjective(a: Bytes, b: Bytes, c: Bytes)
    ensures a + c == b + c <==> a == b
  {
    if a + c == b + c {
      assert (a + c)[..|a|] == a && (b + c)[..|b|] == b;
    }
  }

  // ---- how a class type is spelled ----------------------------------------------------------------

  lemma {:induction false} MembersSpelled(inner: seq<Inner>, rest: Bytes) returns (more: Bytes)
    requires rest != [] && EndsSpelling(rest[0])
    ensures InnersThen(inner, rest) == DottedMembers(inner) + more && more != [] && EndsSpelling(more[0])
  {
    hide BracketedThen;
    if inner == [] {
      more := rest;
      assert [] + rest == rest;
    } else {
      var n := inner[0];
      if n.args == [] {
        NoBrackets(InnersThen(inner[1..], rest));
        more := MembersSpelled(inner[1..], rest);
        Regroup(n.id, DottedMembers(inner[1..]), more);
        Regroup([DOT], n.id + DottedMembers(inner[1..]), more);
      } else {
        more := BracketedThen(n.args, InnersThen(inner[1..], rest));
        BracketsOpen(n.args, InnersThen(inner[1..], rest));
        Regroup([DOT], n.id + [], more);
        assert n.id + [] == n.id;
      }
    }
  }

  lemma NoBrackets(rest: Bytes)
    ensures BracketedThen([], rest) == rest
  {
  }

  lemma BracketsOpen(args: seq<Argument>, rest: Bytes)
    requires args != []
    ensures BracketedThen(args, rest) != [] && BracketedThen(args, rest)[0] == LESS
  {
  }

  /** What is printed after a class type's name. */
  function ClassTail(t: Type, rest: Bytes): Bytes
    requires t.ClassType?
  {
    BracketedThen(t.args, InnersThen(t.inner, [SEMI] + rest))
  }

  lemma TypeSpelled(t: Type, rest: Bytes) returns (more: Bytes)
    requires t.ClassType?
    ensures t.name + ClassTail(t, rest) == Spelling(t) + more && more != [] && EndsSpelling(more[0])
  {
    hide BracketedThen, InnersThen, DottedMembers;
    if t.args == [] {
      NoBrackets(InnersThen(t.inner, [SEMI] + rest));
      more := MembersSpelled(t.inner, [SEMI] + rest);
      Regroup(t.name, DottedMembers(t.inner), more);
    } else {
      more := ClassTail(t, rest);
      BracketsOpen(t.args, InnersThen(t.inner, [SEMI] + rest));
      assert t.name + [] == t.name;
    }
  }

  lemma {:induction false} MembersAreNames(inner: seq<Inner>)
    requires forall n <- inner :: OkInner(n)
    ensures forall b <- DottedMembers(inner) :: IsNameByte(b) || b == DOT
    ensures DottedMembers(inner) != [] ==> DottedMembers(inner)[0] == DOT
  {
    if inner != [] {
      assert OkInner(inner[0]);
      MembersAreNames(inner[1..]);
    }
  }

  /** The name printed at `p` is spelled there. */
  lemma StandsSpelled(text: Bytes, p: nat, t: Type, rest: Bytes)
    requires OkType(t) && t.ClassType? && p <= |text| && text[p..] == t.name + ClassTail(t, rest)
    ensures SpelledAt(text, p, t.name, Spelling(t))
  {
    hide ClassTail, DottedMembers;
    var more := TypeSpelled(t, rest);
    var sp := Spelling(t);
    TakeBytes(text, p, sp, more);
    assert text[p + |sp|] == text[p + |sp|..][0];
    MembersAreNames(t.inner);
    forall k | |t.name| <= k < |sp|
      ensures IsNameByte(sp[k]) || sp[k] == DOT
    {
      assert sp[k] == DottedMembers(t.inner)[k - |t.name|];
    }
  }

  /** Relocating what is inside does not change how a class that stays is spelled. */
  lemma MovedSpelling(rules: seq<Rule>, t: Type)
    requires t.ClassType? && MoveName(rules, t.name) == t.name
    ensures Spelling(Move(rules, t)) == Spelling(t)
  {
    MovedMembers(rules, t.inner);
  }

  lemma {:induction false} MovedMembers(rules: seq<Rule>, inner: seq<Inner>)
    ensures DottedMembers(MoveInners(rules, inner)) == DottedMembers(inner)
  {
    if inner != [] {
      MovedMembers(rules, inner[1..]);
      var moved := MoveInners(rules, inner);
      assert moved[0] == Inner(inner[0].id, MoveArguments(rules, inner[0].args)) && moved[1..] == MoveInners(rules, inner[1..]);
    }
  }

  // ---- the name of a class type -------------------------------------------------------------------

  lemma ClassPrinted(t: Type, rest: Bytes)
    requires t.ClassType?
    ensures TypeThen(t, rest) == [CLASS_OPEN] + (t.name + ClassTail(t, rest))
  {
  }

  lemma MovedFields(rules: seq<Rule>, t: Type)
    requires t.ClassType?
    ensures Move(rules, t) == ClassType(MoveName(rules, t.name), MoveArguments(rules, t.args), MoveInners(rules, t.inner))
  {
  }

  lemma OpenedStands(text: Bytes, name: Bytes, sp: Bytes)
    requires text != [] && text[0] == CLASS_OPEN && SpelledAt(text, 1, name, sp)
    ensures SpelledAt(text, 0, [CLASS_OPEN] + name, [CLASS_OPEN] + sp)
    ensures SLASH in [CLASS_OPEN] + name <==> SLASH in name
    ensures 1 < |[CLASS_OPEN] + name|
  {
    var o, os := [CLASS_OPEN] + name, [CLASS_OPEN] + sp;
    OneOccurs(text, 0, CLASS_OPEN);
    OccursSplit(text, 0, [CLASS_OPEN], sp);
    assert forall k :: |name| <= k < |sp| ==> os[k + 1] == sp[k];
    assert forall k :: |o| <= k < |os| ==> os[k] == sp[k - 1];
  }

  /** With no match at the first byte nothing is misplaced there. */
  lemma NotMisplaced(rules: seq<Rule>, text: Bytes, t: Type)
    requires AllWellFormed(rules) && t.ClassType? && text != [] && text[0] == CLASS_OPEN
    requires SpelledAt(text, 1, t.name, Spelling(t)) && MatchAt(rules, text, 0) == None
    ensures !MisplacedAtStart(rules, t)
  {
    hide MatchAt, SpelledAt, AllWellFormed, MoveName, ReadsAsDotted, Spelling, IsInternalName;
    var o, os := [CLASS_OPEN] + t.name, [CLASS_OPEN] + Spelling(t);
    OpenedStands(text, t.name, Spelling(t));
    StandsInside(rules, text, 0, o, os);
  }

  /** What a match at a name means for how it is read. */
  lemma StandsInside(rules: seq<Rule>, text: Bytes, p: nat, name: Bytes, sp: Bytes)
    requires AllWellFormed(rules) && SpelledAt(text, p, name, sp)
    ensures SLASH in name ==> !ReadsAsDotted(rules, sp)
    ensures SLASH in name && MatchAt(rules, text, p) == None ==> MoveName(rules, name) == name
    ensures SLASH !in name ==> MoveName(rules, name) == name && (MatchAt(rules, text, p) != None <==> ReadsAsDotted(rules, sp))
  {
    hide MatchAt, AllWellFormed, MoveName, ReadsAsDotted, IsInternalName;
    SpelledEnds(text, p, name, sp);
    if SLASH in name {
      SlashedIsNotDotted(rules, name, sp);
      MatchIsMove(rules, text, p, name);
    } else {
      MatchIsMisreading(rules, text, p, name, sp);
    }
  }

  /** At the very start the name is matched together with the `L` before it. */
  lemma StartMoved(rules: seq<Rule>, text: Bytes, name: Bytes, sp: Bytes)
    requires AllWellFormed(rules) && text != [] && text[0] == CLASS_OPEN && SpelledAt(text, 1, name, sp)
    requires SLASH in name && MatchAt(rules, text, 0) != None
    ensures var o := [CLASS_OPEN] + name;
            R(rules, text, 0) == MoveName(rules, o) + R(rules, text, 1 + |name|) && MoveName(rules, o) != o
  {
    hide MatchAt, MoveName, AllWellFormed, SpelledAt, R, NameEnds;
    var o := [CLASS_OPEN] + name;
    OpenedStands(text, name, sp);
    SpelledEnds(text, 0, o, [CLASS_OPEN] + sp);
    MovedAtStart(rules, text, o);
    MatchedMoves(rules, text, o);
  }

  lemma MovedAtStart(rules: seq<Rule>, text: Bytes, o: Bytes)
    requires AllWellFormed(rules) && NameEnds(text, 0, o) && text[0] == CLASS_OPEN && SLASH in o
    requires MatchAt(rules, text, 0) != None
    ensures R(rules, text, 0) == MoveName(rules, o) + R(rules, text, |o|)
  {
    hide MatchAt, MoveName, AllWellFormed, R, OccursAt, IsInternalName;
    MatchIsMove(rules, text, 0, o);
    NameStretch(text, 0, o);
    var m := MatchAt(rules, text, 0).value;
    var c, e := m.consumed, |o|;
    assert text[c] == text[0..e][c];
    StartReplaced(rules, text, m, e);
    SliceOfSlice(text, 0, e, c, e);
    Regroup(m.replacement, o[c..], R(rules, text, e));
  }

  /** A matched name moves: no rule replaces a name by itself. */
  lemma MatchedMoves(rules: seq<Rule>, text: Bytes, o: Bytes)
    requires AllWellFormed(rules) && NameEnds(text, 0, o) && SLASH in o && MatchAt(rules, text, 0) != None
    ensures MoveName(rules, o) != o
  {
    hide MatchAt, MoveName, AllWellFormed, OccursAt, IsInternalName;
    MatchIsMove(rules, text, 0, o);
    NameStretch(text, 0, o);
    var m := MatchAt(rules, text, 0).value;
    var r := MatchChanges(rules, text, 0);
    SliceOfSlice(text, 0, |o|, 0, m.consumed);
    ReplacedDiffers(o, m.consumed, m.replacement);
  }

  lemma ReplacedDiffers(name: Bytes, c: nat, replacement: Bytes)
    requires c <= |name| && replacement != name[0..c]
    ensures replacement + name[c..] != name
  {
    assert name == name[0..c] + name[c..];
    SuffixInjective(replacement, name[0..c], name[c..]);
  }

  lemma StartReplaced(rules: seq<Rule>, text: Bytes, m: Match, e: nat)
    requires AllWellFormed(rules) && 0 < m.consumed < e <= |text| && text[0] == CLASS_OPEN
    requires forall k :: -1 < k < e ==> IsNameByte(text[k]) || text[k] == SLASH
    requires text[m.consumed] == SLASH && MatchAt(rules, text, 0) == Some(m)
    ensures R(rules, text, 0) == m.replacement + (text[m.consumed..e] + R(rules, text, e))
  {
    hide MatchAt, RewriteFrom;
    AfterStart(rules, text, m.consumed, e);
    WellFormedAdvances(rules);
    ScanHit(rules, text, Span(0, m.consumed, m.replacement), Constant);
  }

  /** After a match at the first byte the rest of the name is copied. */
  lemma AfterStart(rules: seq<Rule>, text: Bytes, c: nat, e: nat)
    requires AllWellFormed(rules) && 0 < c < e <= |text| && text[0] == CLASS_OPEN
    requires forall k :: -1 < k < e ==> IsNameByte(text[k]) || text[k] == SLASH
    requires text[c] == SLASH
    ensures R(rules, text, c) == text[c..e] + R(rules, text, e)
  {
    hide MatchAt, RewriteFrom;
    WellFormedAdvances(rules);
    Punctuation(rules, text, c);
    if c + 1 < e {
      NoStartAfter(rules, text, 0, c + 1, e);
    }
    CopiesOver(rules, text, c + 1, e, Constant);
    assert text[c..e] == [text[c]] + text[c + 1..e];
    Regroup([text[c]], text[c + 1..e], R(rules, text, e));
  }

  lemma OpensAfter(text: Bytes, j: nat)
    requires j < |text| && IsBeforeClassType(text[j])
    ensures Opens(text, j + 1)
  {
    ByteClasses(text[j]);
  }

  /** The scan of a class type's name. */
  lemma NameScan(rules: seq<Rule>, text: Bytes, i: nat, t: Type, rest: Bytes)
    requires AllWellFormed(rules) && i < |text| && Opens(text, i) && text[i] == CLASS_OPEN
    requires OkType(t) && t.ClassType? && text[i + 1..] == t.name + ClassTail(t, rest) && i + 1 + |t.name| <= |text|
    ensures forall x :: R(rules, text, i) == TypeThen(Move(rules, t), x) <==>
              && !ReadsAsDotted(rules, Spelling(t)) && !(i == 0 && MisplacedAtStart(rules, t))
              && R(rules, text, i + 1 + |t.name|) == ClassTail(Move(rules, t), x)
  {
    hide R, MatchAt, AllWellFormed, Opens, Spelling, ReadsAsDotted, IsInternalName, ClassTail, SpelledAt, CanStart, MoveName, TypeThen, Move,
         OkType, MisplacedAtStart;
    StandsSpelled(text, i + 1, t, rest);
    if i == 0 && MatchAt(rules, text, 0) != None {
      if SLASH in t.name {
        StartScan(rules, text, t);
      } else {
        StartMisread(rules, text, t);
      }
    } else {
      if i == 0 {
        NotMisplaced(rules, text, t);
      }
      if SLASH !in t.name && ReadsAsDotted(rules, Spelling(t)) {
        NameMisread(rules, text, i, t);
      } else {
        NameRead(rules, text, i, t);
      }
    }
  }

  lemma NameIsSpelled(t: Type, text: Bytes, p: nat)
    requires t.ClassType? && SpelledAt(text, p, t.name, Spelling(t))
    ensures IsInternalName(t.name) && NameEnds(text, p, t.name) && p + |t.name| < |text| && !IsNameByte(text[p + |t.name|])
    ensures text[p + |t.name|] == LESS || text[p + |t.name|] == DOT || text[p + |t.name|] == SEMI || EndsSpelling(text[p + |t.name|])
  {
    SpelledEnds(text, p, t.name, Spelling(t));
  }

  /** A class of a package matched at the very start. */
  lemma StartScan(rules: seq<Rule>, text: Bytes, t: Type)
    requires AllWellFormed(rules) && text != [] && text[0] == CLASS_OPEN && t.ClassType? && OkType(t)
    requires SpelledAt(text, 1, t.name, Spelling(t)) && SLASH in t.name && MatchAt(rules, text, 0) != None
    ensures forall x :: R(rules, text, 0) == TypeThen(Move(rules, t), x) <==>
              && !ReadsAsDotted(rules, Spelling(t)) && !MisplacedAtStart(rules, t)
              && 1 + |t.name| <= |text| && R(rules, text, 1 + |t.name|) == ClassTail(Move(rules, t), x)
  {
    hide R, MatchAt, AllWellFormed, SpelledAt, MoveName, ClassTail, TypeThen, Move, OkType, Spelling, ReadsAsDotted, IsInternalName;
    var o := [CLASS_OPEN] + t.name;
    StartMoved(rules, text, t.name, Spelling(t));
    OpenedStands(text, t.name, Spelling(t));
    NameIsSpelled(t, text, 1);
    StandsInside(rules, text, 1, t.name, Spelling(t));
    StandsInside(rules, text, 0, o, [CLASS_OPEN] + Spelling(t));
    var k := 1 + |t.name|;
    OpenedIsName(t.name);
    MovedIsName(rules, o);
    MovedIsName(rules, t.name);
    EndCopied(rules, text, k);
    MovedFields(rules, t);
    var expected := [CLASS_OPEN] + MoveName(rules, t.name);
    OpenedIsName(MoveName(rules, t.name));
    forall x
      ensures R(rules, text, 0) == TypeThen(Move(rules, t), x) <==>
              MoveName(rules, o) == expected && R(rules, text, k) == ClassTail(Move(rules, t), x)
    {
      ClassPrinted(Move(rules, t), x);
      TailOpens(Move(rules, t), x);
      Regroup([CLASS_OPEN], MoveName(rules, t.name), ClassTail(Move(rules, t), x));
      NotInName(MoveName(rules, o), R(rules, text, k)[0]);
      NotInName(MoveName(rules, o), ClassTail(Move(rules, t), x)[0]);
      NotInName(expected, R(rules, text, k)[0]);
      NotInName(expected, ClassTail(Move(rules, t), x)[0]);
      SameUpTo(MoveName(rules, o), R(rules, text, k), expected, ClassTail(Move(rules, t), x));
    }
  }

  lemma OpenedIsName(name: Bytes)
    requires IsInternalName(name)
    ensures IsInternalName([CLASS_OPEN] + name)
  {
  }

  lemma NotInName(name: Bytes, b: Byte)
    requires IsInternalName(name) && !IsNameByte(b) && b != SLASH
    ensures b !in name
  {
  }

  /** What follows a class type's name begins with `<`, `.` or `;`. */
  lemma TailOpens(t: Type, x: Bytes)
    requires t.ClassType?
    ensures var tail := ClassTail(t, x);
            tail != [] && !IsNameByte(tail[0]) && tail[0] != SLASH
  {
  }

  /** A class of the unnamed package matched at the very start. */
  lemma StartMisread(rules: seq<Rule>, text: Bytes, t: Type)
    requires AllWellFormed(rules) && text != [] && text[0] == CLASS_OPEN && t.ClassType?
    requires SpelledAt(text, 1, t.name, Spelling(t)) && SLASH !in t.name && MatchAt(rules, text, 0) != None
    ensures MisplacedAtStart(rules, t)
    ensures forall x :: R(rules, text, 0) != TypeThen(Move(rules, t), x)
  {
    hide R, MatchAt, AllWellFormed, SpelledAt, MoveName, ClassTail, TypeThen, Move, Spelling, ReadsAsDotted, IsInternalName;
    OpenedStands(text, t.name, Spelling(t));
    var o, os := [CLASS_OPEN] + t.name, [CLASS_OPEN] + Spelling(t);
    StandsInside(rules, text, 0, o, os);
    StandsInside(rules, text, 1, t.name, Spelling(t));
    MovedSpelling(rules, t);
    forall x
      ensures R(rules, text, 0) != TypeThen(Move(rules, t), x)
    {
      var more := PrintedSpelling(rules, t, x);
      MisreadDiffers(rules, text, 0, o, os, more);
      Regroup([CLASS_OPEN], Spelling(t), more);
    }
  }

  lemma PrintedSpelling(rules: seq<Rule>, t: Type, x: Bytes) returns (more: Bytes)
    requires t.ClassType? && MoveName(rules, t.name) == t.name
    ensures TypeThen(Move(rules, t), x) == [CLASS_OPEN] + (Spelling(t) + more) && more != [] && EndsSpelling(more[0])
  {
    hide Spelling, ClassTail, MoveName, TypeThen, Move;
    MovedFields(rules, t);
    ClassPrinted(Move(rules, t), x);
    more := TypeSpelled(Move(rules, t), x);
    MovedSpelling(rules, t);
  }

  /** A class of the unnamed package whose name reads as a dotted one. */
  lemma NameMisread(rules: seq<Rule>, text: Bytes, i: nat, t: Type)
    requires AllWellFormed(rules) && i < |text| && text[i] == CLASS_OPEN && Opens(text, i) && t.ClassType?
    requires SpelledAt(text, i + 1, t.name, Spelling(t)) && SLASH !in t.name
    requires ReadsAsDotted(rules, Spelling(t)) && (i == 0 ==> MatchAt(rules, text, 0) == None)
    ensures forall x :: R(rules, text, i) != TypeThen(Move(rules, t), x)
  {
    hide R, MatchAt, AllWellFormed, SpelledAt, MoveName, ClassTail, TypeThen, Move, Spelling, ReadsAsDotted, Opens;
    FirstByteOfType(rules, text, i);
    NameIsSpelled(t, text, i + 1);
    StandsInside(rules, text, i + 1, t.name, Spelling(t));
    StartsAfterOpening(rules, text, i);
    forall x
      ensures R(rules, text, i) != TypeThen(Move(rules, t), x)
    {
      var more := PrintedSpelling(rules, t, x);
      MisreadDiffers(rules, text, i + 1, t.name, Spelling(t), more);
      Peel([CLASS_OPEN], R(rules, text, i + 1), Spelling(t) + more);
    }
  }

  lemma StartsAfterOpening(rules: seq<Rule>, text: Bytes, i: nat)
    requires i + 1 < |text| && text[i] == CLASS_OPEN && Opens(text, i)
    ensures CanStart(text, i + 1, Constant)
  {
  }

  /** Any other class: its name is relocated. */
  lemma NameRead(rules: seq<Rule>, text: Bytes, i: nat, t: Type)
    requires AllWellFormed(rules) && i < |text| && text[i] == CLASS_OPEN && Opens(text, i) && t.ClassType?
    requires SpelledAt(text, i + 1, t.name, Spelling(t)) && (i == 0 ==> MatchAt(rules, text, 0) == None)
    requires SLASH in t.name || !ReadsAsDotted(rules, Spelling(t))
    ensures !ReadsAsDotted(rules, Spelling(t)) && i + 1 + |t.name| <= |text|
    ensures forall x :: R(rules, text, i) == TypeThen(Move(rules, t), x) <==>
              R(rules, text, i + 1 + |t.name|) == ClassTail(Move(rules, t), x)
  {
    hide R, MatchAt, AllWellFormed, SpelledAt, MoveName, ClassTail, TypeThen, Move, Spelling, ReadsAsDotted, Opens, IsInternalName;
    FirstByteOfType(rules, text, i);
    NameIsSpelled(t, text, i + 1);
    StandsInside(rules, text, i + 1, t.name, Spelling(t));
    var k := i + 1 + |t.name|;
    if SLASH in t.name {
      NameMoved(rules, text, i, t.name);
    } else {
      NameStretch(text, i + 1, t.name);
      NameKept(rules, text, i, k);
    }
    MovedFields(rules, t);
    forall x
      ensures R(rules, text, i) == TypeThen(Move(rules, t), x) <==> R(rules, text, k) == ClassTail(Move(rules, t), x)
    {
      ClassPrinted(Move(rules, t), x);
      Peel([CLASS_OPEN], R(rules, text, i + 1), MoveName(rules, t.name) + ClassTail(Move(rules, t), x));
      Peel(MoveName(rules, t.name), R(rules, text, k), ClassTail(Move(rules, t), x));
    }
  }
}
