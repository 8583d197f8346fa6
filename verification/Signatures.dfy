/** Signatures as trees. */
module Signatures {
  // Descriptors and generic signatures (sections 4.3 and 4.7.9.1 of the JVM Specification) as syntax
  // trees, and relocation of the class names in a tree.

  import opened ByteStrings
  import opened Wrappers
  import opened Relocation
  import opened Rewriting

  // ---- syntax trees -------------------------------------------------------------------------

  datatype Type =
    | Base(letter: Byte)
    | Variable(id: Bytes)
    | ClassType(name: Bytes, args: seq<Argument>, inner: seq<Inner>)
    | Array(element: Type)

  datatype Argument = Any | Exactly(bound: Type) | Below(bound: Type) | Above(bound: Type)

  /** A member class of a parameterised class: `.Inner<...>`. */
  datatype Inner = Inner(id: Bytes, args: seq<Argument>)

  datatype Parameter = Parameter(id: Bytes, classBound: seq<Type>, interfaceBounds: seq<Type>)

  datatype Signature =
    | OfField(t: Type)
    | OfMethod(params: seq<Parameter>, args: seq<Type>, result: seq<Type>, throws: seq<Type>)
    | OfClass(params: seq<Parameter>, supers: seq<Type>)

  /** The letters of the primitive types (table 4.3-A). */
  predicate IsPrimitive(b: Byte) {
    || b == 'B' as Byte || b == 'C' as Byte || b == 'D' as Byte || b == 'F' as Byte
    || b == 'I' as Byte || b == 'J' as Byte || b == 'S' as Byte || b == 'Z' as Byte
  }

  predicate IsId(id: Bytes) {
    id != [] && forall b <- id :: IsNameByte(b)
  }

  predicate IsInternalName(name: Bytes) {
    name != [] && forall b <- name :: IsNameByte(b) || b == SLASH
  }

  /** The trees of the grammar. */
  predicate OkType(t: Type) {
    match t
    case Base(b) => IsPrimitive(b)
    case Variable(id) => IsId(id)
    case ClassType(name, args, inner) =>
      && IsInternalName(name)
      && (forall a <- args :: OkArgument(a))
      && (forall n <- inner :: OkInner(n))
    case Array(e) => OkType(e)
  }

  predicate OkArgument(a: Argument) {
    a.Any? || OkType(a.bound)
  }

  predicate OkInner(n: Inner) {
    IsId(n.id) && forall a <- n.args :: OkArgument(a)
  }

  predicate OkTypes(ts: seq<Type>) {
    forall t <- ts :: OkType(t)
  }

  predicate OkParameter(p: Parameter) {
    IsId(p.id) && |p.classBound| <= 1 && OkTypes(p.classBound) && OkTypes(p.interfaceBounds)
  }

  predicate OkSignature(s: Signature) {
    match s
    case OfField(t) => OkType(t)
    case OfMethod(params, args, result, throws) =>
      && (forall p <- params :: OkParameter(p))
      && OkTypes(args) && |result| <= 1 && OkTypes(result) && OkTypes(throws)
    case OfClass(params, supers) =>
      (forall p <- params :: OkParameter(p)) && OkTypes(supers) && forall t <- supers :: t.ClassType?
  }

  // ---- printing -----------------------------------------------------------------------------

  const SEMI: Byte := ';' as Byte
  const LESS: Byte := '<' as Byte
  const GREATER: Byte := '>' as Byte
  const COLON: Byte := ':' as Byte
  const VARIABLE_OPEN: Byte := 'T' as Byte

  /** `t` printed in front of `rest`; so are the parts of a signature below. */
  function TypeThen(t: Type, rest: Bytes): Bytes
    decreases t, 0
  {
    match t
    case Base(b) => [b] + rest
    case Variable(id) => [VARIABLE_OPEN] + (id + ([SEMI] + rest))
    case ClassType(name, args, inner) =>
      [CLASS_OPEN] + (name + BracketedThen(args, InnersThen(inner, [SEMI] + rest)))
    case Array(e) => ['[' as Byte] + TypeThen(e, rest)
  }

  function BracketedThen(args: seq<Argument>, rest: Bytes): Bytes
    decreases args, 1
  {
    if args == [] then rest else [LESS] + ArgumentsThen(args, [GREATER] + rest)
  }

  function ArgumentsThen(args: seq<Argument>, rest: Bytes): Bytes
    decreases args, 0
  {
    if args == [] then rest else ArgumentThen(args[0], ArgumentsThen(args[1..], rest))
  }

  function ArgumentThen(a: Argument, rest: Bytes): Bytes
    decreases a, 0
  {
    match a
    case Any => ['*' as Byte] + rest
    case Exactly(t) => TypeThen(t, rest)
    case Below(t) => ['+' as Byte] + TypeThen(t, rest)
    case Above(t) => ['-' as Byte] + TypeThen(t, rest)
  }

  function InnersThen(inner: seq<Inner>, rest: Bytes): Bytes
    decreases inner, 0
  {
    if inner == [] then rest
    else [DOT] + (inner[0].id + BracketedThen(inner[0].args, InnersThen(inner[1..], rest)))
  }

  /** Each type after `before`: nothing for arguments, `:` for bounds, `^` for exceptions. */
  function TypesThen(before: Bytes, ts: seq<Type>, rest: Bytes): Bytes {
    if ts == [] then rest else before + TypeThen(ts[0], TypesThen(before, ts[1..], rest))
  }

  function ParametersThen(ps: seq<Parameter>, rest: Bytes): Bytes {
    if ps == [] then rest
    else
      ps[0].id + ([COLON] + TypesThen([], ps[0].classBound,
                                      TypesThen([COLON], ps[0].interfaceBounds, ParametersThen(ps[1..], rest))))
  }

  function FormalsThen(ps: seq<Parameter>, rest: Bytes): Bytes {
    if ps == [] then rest else [LESS] + ParametersThen(ps, [GREATER] + rest)
  }

  function ResultThen(result: seq<Type>, rest: Bytes): Bytes {
    if result == [] then ['V' as Byte] + rest else TypesThen([], result, rest)
  }

  /** The bytes of a signature. */
  function Print(s: Signature): Bytes {
    match s
    case OfField(t) => TypeThen(t, [])
    case OfMethod(params, args, result, throws) =>
      FormalsThen(params, ['(' as Byte] + TypesThen([], args, [')' as Byte]
                  + ResultThen(result, TypesThen(['^' as Byte], throws, []))))
    case OfClass(params, supers) => FormalsThen(params, TypesThen([], supers, []))
  }

  // ---- relocating a tree --------------------------------------------------------------------

  /** `rule` covers the class `name`: it lies under the package and is not excluded. */
  predicate Covers(rule: Rule, name: Bytes) {
    rule.slashedFrom + [SLASH] <= name && !rule.Excludes(Replace(name, SLASH, DOT))
  }

  /** Where the relocator's rules send a class. */
  function MoveName(rules: seq<Rule>, name: Bytes): Bytes {
    if rules == [] then name
    else if Covers(rules[0], name) then rules[0].slashedTo + name[|rules[0].slashedFrom|..]
    else MoveName(rules[1..], name)
  }

  function Move(rules: seq<Rule>, t: Type): Type
    decreases t
  {
    match t
    case Base(_) => t
    case Variable(_) => t
    case ClassType(name, args, inner) =>
      ClassType(MoveName(rules, name), MoveArguments(rules, args), MoveInners(rules, inner))
    case Array(e) => Array(Move(rules, e))
  }

  function MoveArguments(rules: seq<Rule>, args: seq<Argument>): seq<Argument>
    decreases args
  {
    if args == [] then [] else [MoveArgument(rules, args[0])] + MoveArguments(rules, args[1..])
  }

  function MoveArgument(rules: seq<Rule>, a: Argument): Argument
    decreases a
  {
    match a
    case Any => Any
    case Exactly(t) => Exactly(Move(rules, t))
    case Below(t) => Below(Move(rules, t))
    case Above(t) => Above(Move(rules, t))
  }

  function MoveInners(rules: seq<Rule>, inner: seq<Inner>): seq<Inner>
    decreases inner
  {
    if inner == [] then []
    else [Inner(inner[0].id, MoveArguments(rules, inner[0].args))] + MoveInners(rules, inner[1..])
  }

  function MoveTypes(rules: seq<Rule>, ts: seq<Type>): seq<Type> {
    if ts == [] then [] else [Move(rules, ts[0])] + MoveTypes(rules, ts[1..])
  }

  function MoveParameters(rules: seq<Rule>, ps: seq<Parameter>): seq<Parameter> {
    if ps == [] then []
    else
      [Parameter(ps[0].id, MoveTypes(rules, ps[0].classBound), MoveTypes(rules, ps[0].interfaceBounds))]
      + MoveParameters(rules, ps[1..])
  }

  function MoveSignature(rules: seq<Rule>, s: Signature): Signature {
    match s
    case OfField(t) => OfField(Move(rules, t))
    case OfMethod(params, args, result, throws) =>
      OfMethod(MoveParameters(rules, params), MoveTypes(rules, args), MoveTypes(rules, result),
               MoveTypes(rules, throws))
    case OfClass(params, supers) => OfClass(MoveParameters(rules, params), MoveTypes(rules, supers))
  }

  // ---- names that are misread -----------------------------------------------------------------

  /** A class type's name as it is printed up to its first type argument: the members of a class without
      arguments follow it after dots. */
  function Spelling(t: Type): Bytes
    requires t.ClassType?
  {
    t.name + if t.args == [] then DottedMembers(t.inner) else []
  }

  function DottedMembers(inner: seq<Inner>): Bytes {
    if inner == [] then []
    else [DOT] + (inner[0].id + if inner[0].args == [] then DottedMembers(inner[1..]) else [])
  }

  /** Read as a dotted class name, `spelling` lies in the package of a rule that does not exclude it. */
  predicate ReadsAsDotted(rules: seq<Rule>, spelling: Bytes) {
    exists r <- rules :: r.dottedFrom + [DOT] <= spelling && !r.Excludes(spelling)
  }

  /** Some class type of the tree is a member of a class in the unnamed package and reads as a class of a
      relocated package. */
  predicate Misread(rules: seq<Rule>, t: Type)
    decreases t
  {
    match t
    case Base(_) => false
    case Variable(_) => false
    case ClassType(_, args, inner) =>
      ReadsAsDotted(rules, Spelling(t)) || MisreadArguments(rules, args) || MisreadInners(rules, inner)
    case Array(e) => Misread(rules, e)
  }

  predicate MisreadArguments(rules: seq<Rule>, args: seq<Argument>)
    decreases args
  {
    args != [] && (MisreadArgument(rules, args[0]) || MisreadArguments(rules, args[1..]))
  }

  predicate MisreadArgument(rules: seq<Rule>, a: Argument)
    decreases a
  {
    !a.Any? && Misread(rules, a.bound)
  }

  predicate MisreadInners(rules: seq<Rule>, inner: seq<Inner>)
    decreases inner
  {
    inner != [] && (MisreadArguments(rules, inner[0].args) || MisreadInners(rules, inner[1..]))
  }

  predicate MisreadTypes(rules: seq<Rule>, ts: seq<Type>) {
    ts != [] && (Misread(rules, ts[0]) || MisreadTypes(rules, ts[1..]))
  }

  predicate MisreadParameters(rules: seq<Rule>, ps: seq<Parameter>) {
    ps != [] && (MisreadTypes(rules, ps[0].classBound) || MisreadTypes(rules, ps[0].interfaceBounds)
                 || MisreadParameters(rules, ps[1..]))
  }

  predicate MisreadSignature(rules: seq<Rule>, s: Signature) {
    match s
    case OfField(t) => Misread(rules, t)
    case OfMethod(params, args, result, throws) =>
      MisreadParameters(rules, params) || MisreadTypes(rules, args) || MisreadTypes(rules, result)
      || MisreadTypes(rules, throws)
    case OfClass(params, supers) => MisreadParameters(rules, params) || MisreadTypes(rules, supers)
  }

  /** Printed at the very start of a text, `t` is matched at its first byte and comes out wrong: a package is
      its primitive letter; or its name, with the `L` that opens it in front, is relocated, and not to where
      the class goes. */
  predicate MisplacedAtStart(rules: seq<Rule>, t: Type) {
    match t
    case Base(b) => exists r <- rules :: r.dottedFrom == [b]
    case Variable(_) => false
    case Array(_) => false
    case ClassType(name, _, _) =>
      var whole := [CLASS_OPEN] + name;
      || ReadsAsDotted(rules, [CLASS_OPEN] + Spelling(t))
      || (MoveName(rules, whole) != whole && MoveName(rules, whole) != [CLASS_OPEN] + MoveName(rules, name))
  }

  predicate StartMisplaced(rules: seq<Rule>, s: Signature) {
    match s
    case OfField(t) => MisplacedAtStart(rules, t)
    case OfMethod(_, _, _, _) => false
    case OfClass(params, supers) => params == [] && supers != [] && MisplacedAtStart(rules, supers[0])
  }

  // ---- what the scan does at each kind of byte ------------------------------------------------

  /** A byte that neither extends a type prefix nor opens a type. */
  predicate Stops(b: Byte) {
    !IsTypePrefix(b) && !IsBeforeClassType(b)
  }

  /** Inside a name no class type can open: the walk back stops at what precedes the name. */
  lemma {:induction false} NothingOpensInName(text: Bytes, i: nat, q: nat)
    requires i < q <= |text| && Stops(text[i])
    requires forall k :: i < k < q ==> IsNameByte(text[k]) || text[k] == SLASH || text[k] == DOT
    ensures !Opens(text, q)
    decreases q
  {
    if q == i + 1 {
    } else {
      NothingOpensInName(text, i, q - 1);
    }
  }

  lemma FromBytes(rule: Rule, form: Form)
    requires WellFormed(rule)
    ensures var from := rule.From(form);
            from != [] && IsNameByte(from[0])
            && forall k :: 0 <= k < |from| ==> IsNameByte(from[k]) || from[k] == Separator(form)
  {
    forall k | 0 <= k < |rule.dottedFrom|
      ensures IsNameByte(rule.dottedFrom[k]) || rule.dottedFrom[k] == DOT
    {
      assert rule.dottedFrom[k] in rule.dottedFrom;
    }
  }

  /** What `form` of a rule could match at `p` is a run of name bytes and its separator. */
  lemma NoMatchBefore(rule: Rule, form: Form, text: Bytes, p: nat, q: nat)
    requires WellFormed(rule) && p <= q < |text|
    requires forall k :: p <= k < q ==> IsNameByte(text[k])
    requires !IsNameByte(text[q]) && text[q] != Separator(form)
    ensures !Applies(rule, form, text, p)
  {
    FromBytes(rule, form);
    if OccursAt(text, p, rule.From(form)) {
      OccursElements(text, p, rule.From(form));
    }
  }

  lemma {:induction false} NoMatchInRun(rules: seq<Rule>, text: Bytes, p: nat, q: nat)
    requires AllWellFormed(rules) && p <= q < |text|
    requires forall k :: p <= k < q ==> IsNameByte(text[k])
    requires !IsNameByte(text[q]) && text[q] != DOT && text[q] != SLASH
    ensures MatchAt(rules, text, p) == None
  {
    if rules == [] {
    } else {
      NoMatchBefore(rules[0], Slashed, text, p, q);
      NoMatchBefore(rules[0], Dotted, text, p, q);
      NoMatchInRun(rules[1..], text, p, q);
    }
  }

  /** A relocated name starts with a name byte. */
  lemma {:induction false} NoMatchAtPunctuation(rules: seq<Rule>, text: Bytes, i: nat)
    requires AllWellFormed(rules) && i < |text| && !IsNameByte(text[i])
    ensures MatchAt(rules, text, i) == None
  {
    if rules == [] {
    } else {
      forall form: Form
        ensures !OccursAt(text, i, rules[0].From(form))
      {
        FromBytes(rules[0], form);
        if OccursAt(text, i, rules[0].From(form)) {
          OccursElements(text, i, rules[0].From(form));
        }
      }
      NoMatchAtPunctuation(rules[1..], text, i);
    }
  }

  lemma {:induction false} NameAtRun(text: Bytes, p: nat, q: nat)
    requires p <= q < |text|
    requires forall k :: p <= k < q ==> IsNameByte(text[k]) || text[k] == SLASH
    requires !IsNameByte(text[q]) && text[q] != SLASH
    ensures NameAt(text, p, SLASH) == Replace(text[p..q], SLASH, DOT)
    decreases q - p
  {
    if p == q {
    } else {
      NameAtRun(text, p + 1, q);
      assert Replace(text[p..q], SLASH, DOT) ==
             [if text[p] == SLASH then DOT else text[p]] + Replace(text[p + 1..q], SLASH, DOT);
    }
  }

  /** The class type's name ends where the tree says it does. */
  ghost predicate NameEnds(text: Bytes, p: nat, name: Bytes) {
    && IsInternalName(name)
    && OccursAt(text, p, name) && p + |name| < |text|
    && !IsNameByte(text[p + |name|]) && text[p + |name|] != SLASH
  }

  lemma NameElements(text: Bytes, p: nat, name: Bytes)
    requires NameEnds(text, p, name)
    ensures forall k :: 0 <= k < |name| ==>
              text[p + k] == name[k] && (IsNameByte(text[p + k]) || text[p + k] == SLASH)
  {
    OccursElements(text, p, name);
    forall k | 0 <= k < |name|
      ensures IsNameByte(name[k]) || name[k] == SLASH
    {
      assert name[k] in name;
    }
  }

  lemma UnderPackage(rule: Rule, text: Bytes, p: nat, name: Bytes)
    requires WellFormed(rule) && NameEnds(text, p, name)
    ensures OccursAt(text, p, rule.slashedFrom + [SLASH]) <==> rule.slashedFrom + [SLASH] <= name
  {
    var under := rule.slashedFrom + [SLASH];
    NameElements(text, p, name);
    FromBytes(rule, Slashed);
    if OccursAt(text, p, under) {
      OccursElements(text, p, under);
      assert forall k :: 0 <= k < |under| ==> IsNameByte(under[k]) || under[k] == SLASH;
      assert |under| <= |name|;
      assert forall k :: 0 <= k < |under| ==> under[k] == name[k];
    }
    if under <= name {
      assert forall k :: 0 <= k < |under| ==> under[k] == name[k];
      ElementsOccur(text, p, under);
    }
  }

  lemma SlashedAtName(rule: Rule, text: Bytes, p: nat, name: Bytes)
    requires WellFormed(rule) && NameEnds(text, p, name)
    ensures Applies(rule, Slashed, text, p) <==> Covers(rule, name)
  {
    UnderPackage(rule, text, p, name);
    OccursSplit(text, p, rule.slashedFrom, [SLASH]);
    NameElements(text, p, name);
    NameAtRun(text, p, p + |name|);
    OneOccurs(text, p + |rule.slashedFrom|, SLASH);
  }

  lemma DottedAtName(rule: Rule, text: Bytes, p: nat, name: Bytes)
    requires WellFormed(rule) && NameEnds(text, p, name)
    requires text[p + |name|] == DOT ==> SLASH in name
    ensures !Applies(rule, Dotted, text, p)
  {
    NameElements(text, p, name);
    if SLASH in name {
      var s := FirstSlash(name);
      forall k | p <= k < p + s
        ensures IsNameByte(text[k])
      {
        assert name[..s][k - p] == text[p + (k - p)];
      }
      NoMatchBefore(rule, Dotted, text, p, p + s);
    } else {
      forall k | p <= k < p + |name|
        ensures IsNameByte(text[k])
      {
        assert name[k - p] == text[p + (k - p)];
      }
      NoMatchBefore(rule, Dotted, text, p, p + |name|);
    }
  }

  lemma {:induction false} FirstSlash(name: Bytes) returns (s: nat)
    requires SLASH in name
    ensures s < |name| && name[s] == SLASH && SLASH !in name[..s]
  {
    if name[0] == SLASH {
      s := 0;
    } else {
      s := FirstSlash(name[1..]);
      assert name[..s + 1] == [name[0]] + name[1..][..s];
      s := s + 1;
    }
  }

  /** At a class type's name only slashed forms apply, and exactly those that cover the class;
      so the first match at a class type's name is where the relocator sends it. */
  lemma {:induction false} MatchIsMove(rules: seq<Rule>, text: Bytes, p: nat, name: Bytes)
    requires AllWellFormed(rules) && NameEnds(text, p, name)
    requires text[p + |name|] == DOT ==> SLASH in name
    ensures match MatchAt(rules, text, p)
            case None => MoveName(rules, name) == name
            case Some(m) => 0 < m.consumed < |name| && name[m.consumed] == SLASH
                            && MoveName(rules, name) == m.replacement + name[m.consumed..]
  {
    if rules == [] {
    } else {
      assert WellFormed(rules[0]);
      assert forall p: Bytes :: p + [SLASH] <= name ==> name[|p|] == (p + [SLASH])[|p|];
      SlashedAtName(rules[0], text, p, name);
      DottedAtName(rules[0], text, p, name);
      MatchIsMove(rules[1..], text, p, name);
    }
  }

  // ---- a class type's name as a dotted name ------------------------------------------------------

  /** `sp`, which is `name` and perhaps dotted members of it, stands at `p`, and no more of a name. */
  ghost predicate SpelledAt(text: Bytes, p: nat, name: Bytes, sp: Bytes) {
    && IsInternalName(name)
    && name <= sp && (|name| < |sp| ==> sp[|name|] == DOT)
    && (forall k :: |name| <= k < |sp| ==> IsNameByte(sp[k]) || sp[k] == DOT)
    && OccursAt(text, p, sp) && p + |sp| < |text| && EndsSpelling(text[p + |sp|])
  }

  predicate EndsSpelling(b: Byte) {
    !IsNameByte(b) && b != SLASH && b != DOT
  }

  lemma SpelledEnds(text: Bytes, p: nat, name: Bytes, sp: Bytes)
    requires SpelledAt(text, p, name, sp)
    ensures NameEnds(text, p, name) && (text[p + |name|] == DOT <==> |name| < |sp|)
    ensures forall k :: 0 <= k < |sp| ==> text[p + k] == sp[k]
    ensures forall k :: 0 <= k < |name| ==> IsNameByte(sp[k]) || sp[k] == SLASH
  {
    OccursElements(text, p, sp);
    assert sp == name + sp[|name|..];
    OccursSplit(text, p, name, sp[|name|..]);
    forall k | 0 <= k < |name|
      ensures IsNameByte(sp[k]) || sp[k] == SLASH
    {
      assert sp[k] == name[k] && name[k] in name;
    }
  }

  /** The name of a class in a package is no dotted name: its first `/` comes before any dot. */
  lemma SlashedIsNotDotted(rules: seq<Rule>, name: Bytes, sp: Bytes)
    requires AllWellFormed(rules) && IsInternalName(name) && SLASH in name && name <= sp
    ensures !ReadsAsDotted(rules, sp)
  {
    forall r | r in rules
      ensures !(r.dottedFrom + [DOT] <= sp)
    {
      assert WellFormed(r);
      if r.dottedFrom + [DOT] <= sp {
        SlashBeforeDot(r.dottedFrom, name, sp);
      }
    }
  }

  lemma SlashBeforeDot(from: Bytes, name: Bytes, sp: Bytes)
    requires IsInternalName(name) && SLASH in name && name <= sp && from + [DOT] <= sp
    ensures SLASH in from
  {
    var s :| 0 <= s < |name| && name[s] == SLASH;
    assert sp[|from|] == (from + [DOT])[|from|] == DOT;
    assert DOT !in name && forall k :: 0 <= k < |name| ==> sp[k] == name[k];
    assert (from + [DOT])[s] == from[s] == sp[s];
  }

  lemma {:induction false} DottedNameRun(text: Bytes, p: nat, q: nat)
    requires p <= q < |text| && EndsSpelling(text[q])
    requires forall k :: p <= k < q ==> IsNameByte(text[k]) || text[k] == DOT
    ensures NameAt(text, p, DOT) == text[p..q]
    decreases q - p
  {
    if p < q {
      DottedNameRun(text, p + 1, q);
      assert text[p..q] == [text[p]] + text[p + 1..q];
    }
  }

  /** A dotted name that stands at `p` ends where the name bytes and dots do. */
  lemma OccursWithin(text: Bytes, p: nat, len: nat, from: Bytes)
    requires OccursAt(text, p, from) && forall k :: 0 <= k < |from| ==> IsNameByte(from[k]) || from[k] == DOT
    requires p + len < |text| && !IsNameByte(text[p + len]) && text[p + len] != DOT
    ensures |from| <= len && forall k :: 0 <= k < |from| ==> text[p + k] == from[k]
  {
    OccursElements(text, p, from);
    assert forall k {:trigger from[k]} :: 0 <= k < |from| ==> k != len;
  }

  /** Where no slash is spelled, the dotted form applies exactly to what reads as a dotted name. */
  lemma DottedAtSpelling(rule: Rule, text: Bytes, p: nat, name: Bytes, sp: Bytes)
    requires WellFormed(rule) && SpelledAt(text, p, name, sp) && SLASH !in name
    ensures Applies(rule, Dotted, text, p) <==> rule.dottedFrom + [DOT] <= sp && !rule.Excludes(sp)
  {
    hide NameAt, WellFormed;
    var from := rule.dottedFrom;
    SpelledEnds(text, p, name, sp);
    FromBytes(rule, Dotted);
    forall k | p <= k < p + |sp|
      ensures IsNameByte(text[k]) || text[k] == DOT
    {
      assert text[p + (k - p)] == sp[k - p];
      assert k - p < |name| ==> sp[k - p] == name[k - p] && name[k - p] in name;
    }
    DottedNameRun(text, p, p + |sp|);
    if OccursAt(text, p, from) {
      OccursWithin(text, p, |sp|, from);
    }
    if from + [DOT] <= sp {
      assert forall k :: 0 <= k < |from| ==> sp[k] == (from + [DOT])[k] == from[k];
      assert sp[|from|] == (from + [DOT])[|from|] == DOT;
      ElementsOccur(text, p, from);
    }
    if Applies(rule, Dotted, text, p) {
      assert |from| < |sp|;
      assert forall k :: 0 <= k < |from| ==> from[k] == sp[k];
      assert from + [DOT] == sp[..|from| + 1];
    }
  }

  /** And the slashed form to none. */
  lemma SlashedAtSpelling(rule: Rule, text: Bytes, p: nat, name: Bytes, sp: Bytes)
    requires WellFormed(rule) && SpelledAt(text, p, name, sp) && SLASH !in name
    ensures !Applies(rule, Slashed, text, p) && !Covers(rule, name)
  {
    SpelledEnds(text, p, name, sp);
    SlashedAtName(rule, text, p, name);
    if Covers(rule, name) {
      CoveredHasSlash(rule, name);
    }
  }

  lemma CoveredHasSlash(rule: Rule, name: Bytes)
    requires Covers(rule, name)
    ensures SLASH in name
  {
    assert name[|rule.slashedFrom|] == (rule.slashedFrom + [SLASH])[|rule.slashedFrom|];
  }

  /** A class of the unnamed package stays; there is a match at its name exactly when it reads as a dotted
      name, and that puts another package before the dot it ends at. */
  lemma {:induction false} MatchIsMisreading(rules: seq<Rule>, text: Bytes, p: nat, name: Bytes, sp: Bytes)
    requires AllWellFormed(rules) && SpelledAt(text, p, name, sp) && SLASH !in name
    ensures MoveName(rules, name) == name
    ensures MatchAt(rules, text, p) != None <==> ReadsAsDotted(rules, sp)
    ensures MatchAt(rules, text, p) != None ==>
              var m := MatchAt(rules, text, p).value;
              && 0 < m.consumed < |sp| && sp[m.consumed] == DOT
              && m.replacement != sp[..m.consumed] && IsDottedName(m.replacement)
  {
    hide Applies, Covers, SpelledAt;
    if rules != [] {
      var r := rules[0];
      assert WellFormed(r);
      DottedAtSpelling(r, text, p, name, sp);
      SlashedAtSpelling(r, text, p, name, sp);
      MatchIsMisreading(rules[1..], text, p, name, sp);
      assert ReadsAsDotted(rules, sp) <==>
             (r.dottedFrom + [DOT] <= sp && !r.Excludes(sp)) || ReadsAsDotted(rules[1..], sp) by {
        assert rules == [r] + rules[1..];
      }
      if r.dottedFrom + [DOT] <= sp {
        assert sp[..|r.dottedFrom|] == r.dottedFrom;
        assert sp[|r.dottedFrom|] == (r.dottedFrom + [DOT])[|r.dottedFrom|];
      }
    }
  }

  /** A relocated name is made of the bytes of names. */
  lemma {:induction false} MovedIsName(rules: seq<Rule>, name: Bytes)
    requires AllWellFormed(rules) && IsInternalName(name)
    ensures IsInternalName(MoveName(rules, name))
  {
    if rules != [] {
      var r := rules[0];
      assert WellFormed(r);
      if Covers(r, name) {
        var moved := r.slashedTo + name[|r.slashedFrom|..];
        forall b | b in moved
          ensures IsNameByte(b) || b == SLASH
        {
          if b in r.slashedTo {
            var k :| 0 <= k < |r.slashedTo| && r.slashedTo[k] == b;
            assert r.dottedTo[k] in r.dottedTo;
          } else {
            assert b in name[|r.slashedFrom|..];
          }
        }
      } else {
        MovedIsName(rules[1..], name);
      }
    }
  }
}
