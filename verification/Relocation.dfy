/** Relocations. */
module Relocation {
  // The rules of `[package.relocate]`, and which of them a name in a text falls under.

  import opened ByteStrings
  import opened Wrappers

  // ---- rules ------------------------------------------------------------------------------

  /** What a rule leaves alone: one class, nested ones included, or all names with a prefix that ends in a
      dot. */
  datatype Exclude = Class(name: Bytes) | Package(prefix: Bytes)

  /** The two spellings of a name: `com/google` and `com.google`. */
  datatype Form = Slashed | Dotted

  datatype Rule = Rule(slashedFrom: Bytes, dottedFrom: Bytes,
                       slashedTo: Bytes, dottedTo: Bytes, exclude: seq<Exclude>)
  {
    function From(form: Form): Bytes {
      if form == Slashed then slashedFrom else dottedFrom
    }

    function To(form: Form): Bytes {
      if form == Slashed then slashedTo else dottedTo
    }

    predicate Excludes(dotted: Bytes) {
      exists e <- exclude :: ExcludesName(e, dotted)
    }
  }

  predicate ExcludesName(e: Exclude, dotted: Bytes) {
    match e
    case Class(name) =>
      dotted == name || (name <= dotted && |name| < |dotted| && dotted[|name|] == '$' as Byte)
    case Package(prefix) => prefix <= dotted
  }

  /** One entry of the table as the manifest gives it: dotted names. */
  datatype Relocation = Relocation(from: Bytes, to: Bytes, exclude: seq<Bytes>)

  const DOT: Byte := '.' as Byte
  const SLASH: Byte := '/' as Byte

  function Separator(form: Form): Byte {
    if form == Slashed then SLASH else DOT
  }

  function Replace(s: Bytes, old_: Byte, new_: Byte): (r: Bytes)
    ensures |r| == |s|
    ensures forall k :: 0 <= k < |s| ==> r[k] == if s[k] == old_ then new_ else s[k]
  {
    seq(|s|, k requires 0 <= k < |s| => if s[k] == old_ then new_ else s[k])
  }

  function ExcludeOf(e: Bytes): Exclude {
    if |e| >= 2 && e[|e| - 2..] == [DOT, '*' as Byte] then Package(e[..|e| - 1]) else Class(e)
  }

  function RuleOf(r: Relocation): Rule {
    Rule(Replace(r.from, DOT, SLASH), r.from, Replace(r.to, DOT, SLASH), r.to,
         seq(|r.exclude|, k requires 0 <= k < |r.exclude| => ExcludeOf(r.exclude[k])))
  }

  function RulesInOrder(rs: seq<Relocation>): (rules: seq<Rule>)
    ensures |rules| == |rs| && forall k :: 0 <= k < |rs| ==> rules[k] == RuleOf(rs[k])
  {
    seq(|rs|, k requires 0 <= k < |rs| => RuleOf(rs[k]))
  }

  /** The stable sort, longest `from` first, as insertion from the right. */
  function Insert(r: Rule, sorted: seq<Rule>): seq<Rule> {
    if sorted == [] || |r.slashedFrom| >= |sorted[0].slashedFrom| then [r] + sorted
    else [sorted[0]] + Insert(r, sorted[1..])
  }

  function SortLongestFirst(rules: seq<Rule>): seq<Rule> {
    if rules == [] then [] else Insert(rules[0], SortLongestFirst(rules[1..]))
  }

  /** The relocator built from a manifest's table. */
  function New(rs: seq<Relocation>): seq<Rule> {
    SortLongestFirst(RulesInOrder(rs))
  }

  // ---- what the manifest accepts ------------------------------------------------------------

  predicate IsIdentifierStart(b: Byte) {
    IsAlpha(b) || b == '_' as Byte || b == '$' as Byte
  }

  predicate IsIdentifierPart(b: Byte) {
    IsIdentifierStart(b) || IsDigit(b)
  }

  /** What the manifest takes for a package: at the start and after every dot an ASCII letter, `_` or `$`, and
      elsewhere those, digits and dots. */
  predicate ValidPackageName(name: Bytes) {
    && name != []
    && name[|name| - 1] != DOT
    && forall k :: 0 <= k < |name| ==> ValidNameByteAt(name, k)
  }

  predicate ValidNameByteAt(name: Bytes, k: nat)
    requires k < |name|
  {
    if k == 0 || name[k - 1] == DOT then IsIdentifierStart(name[k])
    else name[k] == DOT || IsIdentifierPart(name[k])
  }

  predicate ValidRelocation(r: Relocation) {
    && ValidPackageName(r.from) && ValidPackageName(r.to) && r.from != r.to
    && forall e <- r.exclude :: r.from + [DOT] <= e
  }

  /** A nonempty dotted name in ASCII that does not end in a dot. */
  predicate IsDottedName(name: Bytes) {
    && name != []
    && IsNameByte(name[0])
    && name[|name| - 1] != DOT
    && forall b <- name :: b < 0x80 && (IsNameByte(b) || b == DOT)
  }

  /** What a checked entry gives a rule, and all that rewriting relies on: two different dotted names,
      each with its slashed spelling, and exclusions below the first. */
  predicate WellFormed(rule: Rule) {
    && IsDottedName(rule.dottedFrom)
    && IsDottedName(rule.dottedTo)
    && rule.slashedFrom == Replace(rule.dottedFrom, DOT, SLASH)
    && rule.slashedTo == Replace(rule.dottedTo, DOT, SLASH)
    && rule.dottedTo != rule.dottedFrom
    && rule.slashedTo != rule.slashedFrom
    && (forall e <- rule.exclude :: rule.dottedFrom + [DOT] <= if e.Class? then e.name else e.prefix)
  }

  predicate AllWellFormed(rules: seq<Rule>) {
    forall r <- rules :: WellFormed(r)
  }

  lemma ReplaceInjective(s: Bytes, t: Bytes)
    requires SLASH !in s && SLASH !in t && Replace(s, DOT, SLASH) == Replace(t, DOT, SLASH)
    ensures s == t
  {
    forall k | 0 <= k < |s|
      ensures s[k] == t[k]
    {
      assert Replace(s, DOT, SLASH)[k] == Replace(t, DOT, SLASH)[k];
      assert s[k] in s && t[k] in t;
    }
  }

  lemma ValidNameBytes(name: Bytes)
    requires ValidPackageName(name)
    ensures IsDottedName(name) && SLASH !in name
  {
    forall b | b in name
      ensures b < 0x80 && (IsNameByte(b) || b == DOT) && b != SLASH
    {
      var k :| 0 <= k < |name| && name[k] == b;
      assert ValidNameByteAt(name, k);
    }
    assert ValidNameByteAt(name, 0);
  }

  lemma ValidIsWellFormed(r: Relocation)
    requires ValidRelocation(r)
    ensures WellFormed(RuleOf(r))
  {
    ValidNameBytes(r.from);
    ValidNameBytes(r.to);
    if RuleOf(r).slashedTo == RuleOf(r).slashedFrom {
      ReplaceInjective(r.from, r.to);
    }
    forall e | e in RuleOf(r).exclude
      ensures r.from + [DOT] <= if e.Class? then e.name else e.prefix
    {
      var k :| 0 <= k < |r.exclude| && e == ExcludeOf(r.exclude[k]);
      assert r.exclude[k] in r.exclude;
      var t := r.exclude[k];
      if e.Package? {
        assert t[|t| - 1] == '*' as Byte && t[..|r.from| + 1] == r.from + [DOT];
        assert t[|r.from|] == DOT;
        assert e.prefix[..|r.from| + 1] == r.from + [DOT];
      }
    }
  }

  lemma {:induction false} InsertMembers(r: Rule, sorted: seq<Rule>)
    ensures forall x :: x in Insert(r, sorted) <==> x == r || x in sorted
  {
    if sorted == [] || |r.slashedFrom| >= |sorted[0].slashedFrom| {
    } else {
      InsertMembers(r, sorted[1..]);
    }
  }

  lemma {:induction false} SortMembers(rules: seq<Rule>)
    ensures forall x :: x in SortLongestFirst(rules) <==> x in rules
  {
    if rules == [] {
    } else {
      SortMembers(rules[1..]);
      InsertMembers(rules[0], SortLongestFirst(rules[1..]));
    }
  }

  /** A checked table gives well-formed rules. */
  lemma NewIsWellFormed(rs: seq<Relocation>)
    requires forall r <- rs :: ValidRelocation(r)
    ensures AllWellFormed(New(rs))
  {
    SortMembers(RulesInOrder(rs));
    forall rule | rule in New(rs)
      ensures WellFormed(rule)
    {
      var k :| 0 <= k < |rs| && rule == RuleOf(rs[k]);
      ValidIsWellFormed(rs[k]);
    }
  }

  // ---- names in a text ----------------------------------------------------------------------

  /** What is read as part of a name; of characters beyond ASCII, every byte. */
  predicate IsNameByte(b: Byte) {
    IsAlpha(b) || IsDigit(b) || b == '_' as Byte || b == '$' as Byte || b >= 0x80
  }

  /** The longest run of name bytes and separators from `i`, with dots for slashes: what exclusions are compared
      with. */
  function NameAt(text: Bytes, i: nat, separator: Byte): Bytes
    requires i <= |text|
    decreases |text| - i
  {
    if i < |text| && (IsNameByte(text[i]) || text[i] == separator) then
      [if text[i] == SLASH then DOT else text[i]] + NameAt(text, i + 1, separator)
    else []
  }

  datatype Context = Constant | Whole | Text

  /** The length of what is taken out of a text, and what is put in its place. */
  datatype Match = Match(consumed: nat, replacement: Bytes)

  /** `rule`, spelled in `form`, covers the name at `text[i..]`. */
  predicate Applies(rule: Rule, form: Form, text: Bytes, i: nat)
    requires i <= |text|
  {
    var from := rule.From(form);
    && OccursAt(text, i, from)
    && (if i + |from| < |text| then text[i + |from|] == Separator(form) else i == 0 && form == Dotted)
    && !rule.Excludes(NameAt(text, i, Separator(form)))
  }

  /** The match at `i`: rules in their order, of each first the slashed form and then the dotted one, until
      one applies. */
  function MatchAt(rules: seq<Rule>, text: Bytes, i: nat): Option<Match>
    requires i <= |text|
  {
    if rules == [] then None
    else if Applies(rules[0], Slashed, text, i) then
      Some(Match(|rules[0].slashedFrom|, rules[0].slashedTo))
    else if Applies(rules[0], Dotted, text, i) then
      Some(Match(|rules[0].dottedFrom|, rules[0].dottedTo))
    else MatchAt(rules[1..], text, i)
  }

  predicate AppliesSomehow(rule: Rule, text: Bytes, i: nat)
    requires i <= |text|
  {
    Applies(rule, Slashed, text, i) || Applies(rule, Dotted, text, i)
  }

  function MatchOf(rule: Rule, text: Bytes, i: nat): Match
    requires i <= |text|
  {
    if Applies(rule, Slashed, text, i) then Match(|rule.slashedFrom|, rule.slashedTo)
    else Match(|rule.dottedFrom|, rule.dottedTo)
  }

  /** Rule `k` of the table covers the name and no other does with a longer `from`, nor an
      earlier one with an equally long `from`. */
  ghost predicate MostSpecific(rules: seq<Rule>, k: nat, text: Bytes, i: nat)
    requires i <= |text|
  {
    && k < |rules|
    && AppliesSomehow(rules[k], text, i)
    && forall j :: 0 <= j < |rules| && AppliesSomehow(rules[j], text, i) ==>
         || |rules[j].slashedFrom| < |rules[k].slashedFrom|
         || (|rules[j].slashedFrom| == |rules[k].slashedFrom| && j >= k)
  }

  ghost predicate Sorted(rules: seq<Rule>) {
    forall j, k :: 0 <= j < k < |rules| ==> |rules[j].slashedFrom| >= |rules[k].slashedFrom|
  }

  lemma {:induction false} InsertSorted(r: Rule, sorted: seq<Rule>)
    requires Sorted(sorted)
    ensures Sorted(Insert(r, sorted))
  {
    if sorted == [] || |r.slashedFrom| >= |sorted[0].slashedFrom| {
    } else {
      InsertSorted(r, sorted[1..]);
      InsertMembers(r, sorted[1..]);
      var s := Insert(r, sorted[1..]);
      forall k | 0 <= k < |s|
        ensures |sorted[0].slashedFrom| >= |s[k].slashedFrom|
      {
        assert s[k] in s;
      }
    }
  }

  lemma {:induction false} SortSorted(rules: seq<Rule>)
    ensures Sorted(SortLongestFirst(rules))
  {
    if rules == [] {
    } else {
      SortSorted(rules[1..]);
      InsertSorted(rules[0], SortLongestFirst(rules[1..]));
    }
  }

  /** No rule of a sorted tail beats one at least as long as its head. */
  lemma {:induction false} MatchAtBound(sorted: seq<Rule>, text: Bytes, i: nat) returns (k: nat)
    requires i <= |text| && Sorted(sorted)
    ensures MatchAt(sorted, text, i) == None ==> forall r <- sorted :: !AppliesSomehow(r, text, i)
    ensures MatchAt(sorted, text, i) != None ==> k < |sorted| && AppliesSomehow(sorted[k], text, i)
                                                 && MatchAt(sorted, text, i) == Some(MatchOf(sorted[k], text, i))
  {
    if sorted == [] {
      k := 0;
    } else if AppliesSomehow(sorted[0], text, i) {
      k := 0;
    } else {
      k := MatchAtBound(sorted[1..], text, i);
      k := k + 1;
    }
  }

  /** Some rule with a longer `from` covers the name. */
  ghost predicate Beaten(r: Rule, rules: seq<Rule>, text: Bytes, i: nat)
    requires i <= |text|
  {
    exists x <- rules :: AppliesSomehow(x, text, i) && |x.slashedFrom| > |r.slashedFrom|
  }

  lemma MatchAtUnfolds(rule: Rule, rules: seq<Rule>, text: Bytes, i: nat)
    requires i <= |text|
    ensures MatchAt([rule] + rules, text, i)
            == if AppliesSomehow(rule, text, i) then Some(MatchOf(rule, text, i)) else MatchAt(rules, text, i)
  {
    hide Applies;
    assert ([rule] + rules)[1..] == rules;
  }

  lemma BeatenUnfolds(r: Rule, rule: Rule, rules: seq<Rule>, text: Bytes, i: nat)
    requires i <= |text|
    ensures Beaten(r, [rule] + rules, text, i)
            <==> (AppliesSomehow(rule, text, i) && |rule.slashedFrom| > |r.slashedFrom|) || Beaten(r, rules, text, i)
  {
    hide AppliesSomehow;
    assert rule in [rule] + rules && forall x <- rules :: x in [rule] + rules;
  }

  lemma NotBeatenBelow(r: Rule, sorted: seq<Rule>, text: Bytes, i: nat)
    requires i <= |text| && Sorted(sorted) && (sorted != [] ==> |r.slashedFrom| >= |sorted[0].slashedFrom|)
    ensures !Beaten(r, sorted, text, i)
  {
    hide AppliesSomehow;
    forall x | x in sorted
      ensures |x.slashedFrom| <= |r.slashedFrom|
    {
      var k :| 0 <= k < |sorted| && sorted[k] == x;
    }
  }

  /** Inserting a rule changes the first match only when the new rule covers the name and no
      longer one does. */
  lemma {:induction false} MatchAtInsert(r: Rule, sorted: seq<Rule>, text: Bytes, i: nat)
    requires i <= |text| && Sorted(sorted)
    ensures MatchAt(Insert(r, sorted), text, i) ==
            if AppliesSomehow(r, text, i) && !Beaten(r, sorted, text, i)
            then Some(MatchOf(r, text, i)) else MatchAt(sorted, text, i)
  {
    hide MatchAt, AppliesSomehow, MatchOf, Beaten;
    if sorted == [] || |r.slashedFrom| >= |sorted[0].slashedFrom| {
      MatchAtUnfolds(r, sorted, text, i);
      NotBeatenBelow(r, sorted, text, i);
    } else {
      var head, tail := sorted[0], sorted[1..];
      assert sorted == [head] + tail;
      MatchAtInsert(r, tail, text, i);
      MatchAtUnfolds(head, Insert(r, tail), text, i);
      MatchAtUnfolds(head, tail, text, i);
      BeatenUnfolds(r, head, tail, text, i);
    }
  }

  /** The rule that rewrites a name is the most specific one that covers and does not exclude
      it, the manifest's order breaking ties; and some rule rewrites it whenever one covers it. */
  lemma {:induction false} LongestFromWins(rules: seq<Rule>, text: Bytes, i: nat)
    requires i <= |text|
    ensures MatchAt(SortLongestFirst(rules), text, i) == None <==>
            forall r <- rules :: !AppliesSomehow(r, text, i)
    ensures forall k: nat :: MostSpecific(rules, k, text, i) ==>
              MatchAt(SortLongestFirst(rules), text, i) == Some(MatchOf(rules[k], text, i))
    ensures MatchAt(SortLongestFirst(rules), text, i) != None ==>
              exists k: nat :: MostSpecific(rules, k, text, i)
  {
    hide AppliesSomehow, MatchOf, MatchAt, SortLongestFirst;
    NoneIsNoCover(rules, text, i);
    forall k: nat | MostSpecific(rules, k, text, i)
      ensures MatchAt(SortLongestFirst(rules), text, i) == Some(MatchOf(rules[k], text, i))
    {
      MostSpecificMatches(rules, k, text, i);
    }
    if r: Rule :| r in rules && AppliesSomehow(r, text, i) {
      var k := FindMostSpecific(rules, text, i);
    }
  }

  lemma {:induction false} NoneIsNoCover(rules: seq<Rule>, text: Bytes, i: nat)
    requires i <= |text|
    ensures MatchAt(SortLongestFirst(rules), text, i) == None <==>
            forall r <- rules :: !AppliesSomehow(r, text, i)
  {
    hide AppliesSomehow, MatchOf, Insert;
    if rules != [] {
      var head, tail := rules[0], rules[1..];
      assert rules == [head] + tail;
      NoneIsNoCover(tail, text, i);
      SortSorted(tail);
      SortMembers(tail);
      MatchAtInsert(head, SortLongestFirst(tail), text, i);
      BeatenOfSorted(head, tail, text, i);
    }
  }

  lemma BeatenOfSorted(r: Rule, rules: seq<Rule>, text: Bytes, i: nat)
    requires i <= |text|
    ensures Beaten(r, SortLongestFirst(rules), text, i) <==> Beaten(r, rules, text, i)
  {
    hide AppliesSomehow, SortLongestFirst;
    SortMembers(rules);
  }

  lemma {:induction false} MostSpecificMatches(rules: seq<Rule>, k: nat, text: Bytes, i: nat)
    requires i <= |text| && MostSpecific(rules, k, text, i)
    ensures MatchAt(SortLongestFirst(rules), text, i) == Some(MatchOf(rules[k], text, i))
  {
    hide AppliesSomehow, MatchOf, MatchAt, Insert, Beaten;
    var head, tail := rules[0], rules[1..];
    SortSorted(tail);
    MatchAtInsert(head, SortLongestFirst(tail), text, i);
    BeatenOfSorted(head, tail, text, i);
    if k == 0 {
      NotBeatenFirst(rules, text, i);
    } else {
      MostSpecificLater(rules, k, text, i);
      MostSpecificMatches(tail, k - 1, text, i);
    }
  }

  lemma NotBeatenFirst(rules: seq<Rule>, text: Bytes, i: nat)
    requires i <= |text| && MostSpecific(rules, 0, text, i)
    ensures !Beaten(rules[0], rules[1..], text, i)
  {
    hide AppliesSomehow;
    forall x | x in rules[1..] && AppliesSomehow(x, text, i)
      ensures |x.slashedFrom| <= |rules[0].slashedFrom|
    {
      var j :| 0 <= j < |rules[1..]| && rules[1..][j] == x;
      assert rules[j + 1] == x;
    }
  }

  lemma MostSpecificLater(rules: seq<Rule>, k: nat, text: Bytes, i: nat)
    requires i <= |text| && k > 0 && MostSpecific(rules, k, text, i)
    ensures MostSpecific(rules[1..], k - 1, text, i)
    ensures AppliesSomehow(rules[0], text, i) ==> Beaten(rules[0], rules[1..], text, i)
  {
    hide AppliesSomehow;
    var tail := rules[1..];
    assert tail[k - 1] == rules[k] && tail[k - 1] in tail;
    forall j | 0 <= j < |tail| && AppliesSomehow(tail[j], text, i)
      ensures |tail[j].slashedFrom| < |tail[k - 1].slashedFrom|
              || (|tail[j].slashedFrom| == |tail[k - 1].slashedFrom| && j >= k - 1)
    {
      assert tail[j] == rules[j + 1];
    }
  }

  /** Where some rule covers the name, one is the most specific. */
  lemma {:induction false} FindMostSpecific(rules: seq<Rule>, text: Bytes, i: nat) returns (k: nat)
    requires i <= |text| && exists r <- rules :: AppliesSomehow(r, text, i)
    ensures MostSpecific(rules, k, text, i)
  {
    hide AppliesSomehow;
    var head, tail := rules[0], rules[1..];
    assert rules == [head] + tail;
    if exists r <- tail :: AppliesSomehow(r, text, i) {
      k := FindMostSpecific(tail, text, i);
      assert rules[k + 1] == tail[k];
      k := if AppliesSomehow(head, text, i) && |head.slashedFrom| >= |tail[k].slashedFrom| then 0 else k + 1;
    } else {
      k := 0;
    }
    assert forall j {:trigger rules[j]} :: 0 < j < |rules| ==> rules[j] == tail[j - 1] && tail[j - 1] in tail;
  }
}
