/** Exclusions. */
module RelocatedNames {
  // Names, relocated. Where a table sends a name, told from the manifest's own strings, and that a match in a
  // text sends it there.

  import opened ByteStrings
  import opened Wrappers
  import opened Relocation

  const DOLLAR: Byte := '$' as Byte
  const STAR: Byte := '*' as Byte

  // ---- what the manifest says ---------------------------------------------------------------------

  predicate EndsInStar(e: Bytes) {
    |e| >= 2 && e[|e| - 2] == DOT && e[|e| - 1] == STAR
  }

  /** An exclusion leaves a name alone: `p.*` what is below `p`, any other the class it names and whatever that
      class nests. */
  predicate Spares(e: Bytes, name: Bytes) {
    if EndsInStar(e) then e[..|e| - 1] <= name
    else name == e || e + [DOLLAR] <= name
  }

  predicate IsSpared(r: Relocation, name: Bytes) {
    exists e <- r.exclude :: Spares(e, name)
  }

  /** The table's entry takes a dotted name that lies in its package and is not excluded; standing alone and
      dotted, the package's own name too. */
  predicate Takes(r: Relocation, name: Bytes, form: Form, alone: bool) {
    && (r.from + [DOT] <= name || (form == Dotted && alone && name == r.from))
    && !IsSpared(r, name)
  }

  /** Of the entries that take a name, the one with the longest package; of equally long ones, the first. */
  ghost predicate Decides(rs: seq<Relocation>, k: nat, name: Bytes, form: Form, alone: bool) {
    && k < |rs| && Takes(rs[k], name, form, alone)
    && forall j :: 0 <= j < |rs| && Takes(rs[j], name, form, alone) ==>
         |rs[j].from| < |rs[k].from| || (|rs[j].from| == |rs[k].from| && j >= k)
  }

  ghost predicate IsTaken(rs: seq<Relocation>, name: Bytes, form: Form, alone: bool) {
    exists k: nat :: Decides(rs, k, name, form, alone)
  }

  function Spell(name: Bytes, form: Form): Bytes {
    if form == Slashed then Replace(name, DOT, SLASH) else name
  }

  /** The entry that decides. */
  ghost function Decider(rs: seq<Relocation>, name: Bytes, form: Form, alone: bool): (k: nat)
    requires IsTaken(rs, name, form, alone)
    ensures Decides(rs, k, name, form, alone) && |rs[k].from| <= |name|
  {
    var k: nat :| Decides(rs, k, name, form, alone);
    k
  }

  /** A dotted name as it is spelled after relocation. */
  ghost function Moved(rs: seq<Relocation>, name: Bytes, form: Form, alone: bool): Bytes {
    if IsTaken(rs, name, form, alone) then
      var r := rs[Decider(rs, name, form, alone)];
      Spell(r.to, form) + Spell(name, form)[|r.from|..]
    else Spell(name, form)
  }

  lemma DecidedOnce(rs: seq<Relocation>, k: nat, j: nat, name: Bytes, form: Form, alone: bool)
    requires Decides(rs, k, name, form, alone) && Decides(rs, j, name, form, alone)
    ensures k == j
  {
    hide Takes;
  }

  /** What the one entry that decides makes of the name. */
  lemma MovedIs(rs: seq<Relocation>, k: nat, name: Bytes, form: Form, alone: bool)
    requires Decides(rs, k, name, form, alone)
    ensures |rs[k].from| <= |name|
    ensures Moved(rs, name, form, alone) == Spell(rs[k].to, form) + Spell(name, form)[|rs[k].from|..]
  {
    hide Takes, Spell, Decides;
    assert IsTaken(rs, name, form, alone);
    DecidedOnce(rs, k, Decider(rs, name, form, alone), name, form, alone);
  }

  // ---- a name in a text -----------------------------------------------------------------------------

  /** A first byte no digit is asked not to be: what the program reads as a name. */
  predicate IsName(name: Bytes) {
    && name != [] && IsNameByte(name[0])
    && forall b <- name :: IsNameByte(b) || b == DOT
  }

  /** All of the name that starts at `i`, spelled in one form: no name byte and no such separator follows; a
      slashed name is in a package, and a name of one part is no slashed name's first. */
  predicate NameStands(text: Bytes, i: nat, name: Bytes, form: Form) {
    && IsName(name) && OccursAt(text, i, Spell(name, form))
    && (i + |name| < |text| ==> !IsNameByte(text[i + |name|]) && text[i + |name|] != Separator(form))
    && (form == Slashed ==> DOT in name)
    && (form == Dotted && DOT !in name && i + |name| < |text| ==> text[i + |name|] != SLASH)
  }

  predicate IsAlone(text: Bytes, i: nat, name: Bytes) {
    i == 0 && |text| == |name|
  }

  lemma NameBytes(text: Bytes, i: nat, name: Bytes, form: Form)
    requires NameStands(text, i, name, form)
    ensures i + |name| <= |text|
    ensures forall k :: 0 <= k < |name| ==> text[i + k] == if form == Slashed && name[k] == DOT then SLASH else name[k]
    ensures forall k :: 0 <= k < |name| ==> IsNameByte(name[k]) || name[k] == DOT
  {
    OccursElements(text, i, Spell(name, form));
    assert forall k :: 0 <= k < |name| ==> name[k] in name;
  }

  lemma {:induction false} NameAtReads(text: Bytes, i: nat, name: Bytes, form: Form, k: nat)
    requires NameStands(text, i, name, form) && k <= |name|
    ensures i + |name| <= |text| && NameAt(text, i + k, Separator(form)) == name[k..]
    decreases |name| - k
  {
    hide NameStands, IsName;
    NameBytes(text, i, name, form);
    if k < |name| {
      NameAtReads(text, i, name, form, k + 1);
      assert name[k..] == [name[k]] + name[k + 1..];
    } else {
      NameAtStops(text, i, name, form);
    }
  }

  lemma NameAtStops(text: Bytes, i: nat, name: Bytes, form: Form)
    requires NameStands(text, i, name, form)
    ensures i + |name| <= |text| && NameAt(text, i + |name|, Separator(form)) == []
  {
  }

  lemma ExclusionIs(e: Bytes, name: Bytes)
    ensures ExcludesName(ExcludeOf(e), name) <==> Spares(e, name)
  {
    if |e| >= 2 {
      assert e[|e| - 2..] == [e[|e| - 2], e[|e| - 1]];
    }
    if |e| < |name| {
      assert e + [DOLLAR] <= name <==> e <= name && name[|e|] == DOLLAR by {
        assert name[..|e| + 1] == name[..|e|] + [name[|e|]];
      }
    }
  }

  lemma ExclusionsAre(r: Relocation, name: Bytes)
    ensures RuleOf(r).Excludes(name) <==> IsSpared(r, name)
  {
    hide ExcludesName, Spares, ExcludeOf;
    var excludes := RuleOf(r).exclude;
    if e :| e in excludes && ExcludesName(e, name) {
      var k :| 0 <= k < |excludes| && excludes[k] == e;
      ExclusionIs(r.exclude[k], name);
      assert r.exclude[k] in r.exclude;
    }
    if e :| e in r.exclude && Spares(e, name) {
      var k :| 0 <= k < |r.exclude| && r.exclude[k] == e;
      ExclusionIs(e, name);
      assert excludes[k] in excludes;
    }
  }

  /** A package's name, spelled in either form. */
  lemma FromSpelled(r: Relocation, form: Form)
    requires ValidRelocation(r)
    ensures var from := RuleOf(r).From(form);
            && from == Spell(r.from, form) && |from| == |r.from| > 0 && RuleOf(r).To(form) == Spell(r.to, form)
            && forall k :: 0 <= k < |from| ==>
                 && (IsNameByte(r.from[k]) || r.from[k] == DOT)
                 && from[k] == if form == Slashed && r.from[k] == DOT then SLASH else r.from[k]
  {
    ValidNameBytes(r.from);
    assert forall k :: 0 <= k < |r.from| ==> r.from[k] in r.from;
  }

  /** In the form the name is spelled in, an entry's rule applies exactly when the entry takes the name. */
  lemma AppliesInForm(r: Relocation, text: Bytes, i: nat, name: Bytes, form: Form)
    requires ValidRelocation(r) && NameStands(text, i, name, form)
    ensures i <= |text|
    ensures Applies(RuleOf(r), form, text, i) <==> Takes(r, name, form, IsAlone(text, i, name))
  {
    hide ValidRelocation, NameStands, IsSpared, RuleOf, NameAt, Spell, IsAlone, OccursAt;
    NameAtReads(text, i, name, form, 0);
    assert name[0..] == name;
    ExclusionsAre(r, name);
    FromSpelled(r, form);
    CoversInForm(r, text, i, name, form);
  }

  lemma CoversInForm(r: Relocation, text: Bytes, i: nat, name: Bytes, form: Form)
    requires ValidRelocation(r) && NameStands(text, i, name, form)
    ensures var from := RuleOf(r).From(form);
            (OccursAt(text, i, from) && (if i + |from| < |text| then text[i + |from|] == Separator(form) else i == 0 && form == Dotted))
            <==> (r.from + [DOT] <= name || (form == Dotted && IsAlone(text, i, name) && name == r.from))
  {
    hide ValidRelocation, RuleOf, Spell;
    var from := RuleOf(r).From(form);
    NameBytes(text, i, name, form);
    FromSpelled(r, form);
    if OccursAt(text, i, from) && (if i + |from| < |text| then text[i + |from|] == Separator(form) else i == 0 && form == Dotted) {
      OccursElements(text, i, from);
      PlaceByPlace(text, i, from, Separator(form));
      WithinName(text, i, name, form, |from|);
      FromInName(r, text, i, name, form);
      if |from| < |name| {
        assert text[i + |from|] == Separator(form) && name[|r.from|] == DOT;
        assert name[..|r.from| + 1] == r.from + [DOT];
      } else {
        assert name == r.from;
      }
    }
    if r.from + [DOT] <= name {
      assert name[|r.from|] == (r.from + [DOT])[|r.from|] == DOT;
      assert forall k :: 0 <= k < |r.from| ==> name[k] == (r.from + [DOT])[k] == r.from[k];
      assert text[i + |r.from|] == Separator(form);
      ElementsOccur(text, i, from);
    }
    if form == Dotted && IsAlone(text, i, name) && name == r.from {
      ElementsOccur(text, i, from);
    }
  }

  lemma WithinName(text: Bytes, i: nat, name: Bytes, form: Form, n: nat)
    requires NameStands(text, i, name, form) && i + n <= |text|
    requires forall m :: i <= m < i + n ==> IsNameByte(text[m]) || text[m] == Separator(form)
    ensures n <= |name|
  {
    hide IsName, OccursAt, Spell;
  }

  /** The bytes of what stands in the text, place by place. */
  lemma PlaceByPlace(text: Bytes, i: nat, from: Bytes, separator: Byte)
    requires OccursAt(text, i, from) && forall k :: 0 <= k < |from| ==> IsNameByte(from[k]) || from[k] == separator
    ensures forall m :: i <= m < i + |from| ==> text[m] == from[m - i] && (IsNameByte(text[m]) || text[m] == separator)
  {
    OccursElements(text, i, from);
    forall m | i <= m < i + |from|
      ensures text[m] == from[m - i] && (IsNameByte(text[m]) || text[m] == separator)
    {
      assert text[i + (m - i)] == from[m - i];
    }
  }

  lemma FromInName(r: Relocation, text: Bytes, i: nat, name: Bytes, form: Form)
    requires ValidRelocation(r) && NameStands(text, i, name, form)
    requires var from := RuleOf(r).From(form);
             |from| <= |name| && i + |from| <= |text| && forall k :: 0 <= k < |from| ==> text[i + k] == from[k]
    ensures r.from == name[..|r.from|]
  {
    hide ValidRelocation, RuleOf, Spell;
    NameBytes(text, i, name, form);
    FromSpelled(r, form);
    var from := RuleOf(r).From(form);
    forall k | 0 <= k < |r.from|
      ensures r.from[k] == name[k]
    {
      assert text[i + k] == from[k];
    }
  }

  /** In the other form none does. */
  lemma AppliesInNoOther(r: Relocation, text: Bytes, i: nat, name: Bytes, form: Form)
    requires ValidRelocation(r) && NameStands(text, i, name, form)
    ensures i <= |text|
    ensures !Applies(RuleOf(r), if form == Slashed then Dotted else Slashed, text, i)
  {
    hide ValidRelocation, RuleOf, Spell, IsName, NameAt;
    var other := if form == Slashed then Dotted else Slashed;
    var from := RuleOf(r).From(other);
    NameBytes(text, i, name, form);
    FromSpelled(r, other);
    if OccursAt(text, i, from) {
      PlaceByPlace(text, i, from, Separator(other));
      if form == Slashed {
        DottedStopsAtSlash(text, i, name, |from|);
      } else {
        SlashedStopsAtDot(text, i, name, |from|);
      }
    }
  }

  lemma DottedStopsAtSlash(text: Bytes, i: nat, name: Bytes, n: nat)
    requires NameStands(text, i, name, Slashed) && i + n <= |text|
    requires forall m :: i <= m < i + n ==> IsNameByte(text[m]) || text[m] == DOT
    ensures n < |name| && i + |name| <= |text| && text[i + n] != DOT
  {
    hide Spell, IsName;
    NameBytes(text, i, name, Slashed);
    var k :| 0 <= k < |name| && name[k] == DOT;
    assert text[i + k] == SLASH;
    assert IsNameByte(name[n]) || name[n] == DOT;
  }

  lemma SlashedStopsAtDot(text: Bytes, i: nat, name: Bytes, n: nat)
    requires NameStands(text, i, name, Dotted) && i + n <= |text|
    requires forall m :: i <= m < i + n ==> IsNameByte(text[m]) || text[m] == SLASH
    ensures i + n < |text| ==> text[i + n] != SLASH
  {
    hide Spell, IsName;
    NameBytes(text, i, name, Dotted);
    if n < |name| {
      assert IsNameByte(name[n]) || name[n] == DOT;
    } else {
      assert forall k :: 0 <= k < |name| ==> name[k] == text[i + k];
      assert DOT !in name;
    }
  }

  // ---- the table ------------------------------------------------------------------------------------

  ghost predicate AllValid(rs: seq<Relocation>) {
    forall r <- rs :: ValidRelocation(r)
  }

  lemma AppliesIsTakes(r: Relocation, text: Bytes, i: nat, name: Bytes, form: Form)
    requires ValidRelocation(r) && NameStands(text, i, name, form)
    ensures i <= |text|
    ensures AppliesSomehow(RuleOf(r), text, i) <==> Takes(r, name, form, IsAlone(text, i, name))
    ensures Takes(r, name, form, IsAlone(text, i, name)) ==>
              MatchOf(RuleOf(r), text, i) == Match(|r.from|, Spell(r.to, form))
  {
    hide ValidRelocation, NameStands, Takes, Spell, Applies, RuleOf;
    AppliesInForm(r, text, i, name, form);
    AppliesInNoOther(r, text, i, name, form);
    FromSpelled(r, form);
  }

  lemma DecidesIsMostSpecific(rs: seq<Relocation>, k: nat, text: Bytes, i: nat, name: Bytes, form: Form)
    requires AllValid(rs) && NameStands(text, i, name, form)
    ensures i <= |text|
    ensures MostSpecific(RulesInOrder(rs), k, text, i) <==> Decides(rs, k, name, form, IsAlone(text, i, name))
  {
    hide ValidRelocation, NameStands, Takes, Spell, AppliesSomehow;
    var rules := RulesInOrder(rs);
    assert i <= |text| by { NameBytes(text, i, name, form); }
    forall j | 0 <= j < |rs|
      ensures AppliesSomehow(rules[j], text, i) <==> Takes(rs[j], name, form, IsAlone(text, i, name))
      ensures |rules[j].slashedFrom| == |rs[j].from|
    {
      assert rs[j] in rs && rules[j] == RuleOf(rs[j]);
      AppliesIsTakes(rs[j], text, i, name, form);
    }
  }

  /** At a name the table's match is what the entry that decides says, and none if no entry takes the name. */
  lemma MatchIsDecided(rs: seq<Relocation>, text: Bytes, i: nat, name: Bytes, form: Form)
    requires AllValid(rs) && NameStands(text, i, name, form)
    ensures i <= |text|
    ensures var alone := IsAlone(text, i, name);
            MatchAt(New(rs), text, i)
            == if IsTaken(rs, name, form, alone) then
                 var r := rs[Decider(rs, name, form, alone)];
                 Some(Match(|r.from|, Spell(r.to, form)))
               else None
  {
    hide ValidRelocation, NameStands, Takes, Spell, MatchAt, AppliesSomehow, MatchOf, RuleOf, SortLongestFirst,
         MostSpecific, Decides;
    var rules := RulesInOrder(rs);
    var alone := IsAlone(text, i, name);
    assert i <= |text| by { NameBytes(text, i, name, form); }
    LongestFromWins(rules, text, i);
    if IsTaken(rs, name, form, alone) {
      var k := Decider(rs, name, form, alone);
      DecidesIsMostSpecific(rs, k, text, i, name, form);
      DecidedTakes(rs, k, name, form, alone);
      AppliesIsTakes(rs[k], text, i, name, form);
      assert MatchAt(New(rs), text, i) == Some(MatchOf(rules[k], text, i));
    } else if MatchAt(New(rs), text, i) != None {
      var k: nat :| MostSpecific(rules, k, text, i);
      DecidesIsMostSpecific(rs, k, text, i, name, form);
    }
  }

  lemma DecidedTakes(rs: seq<Relocation>, k: nat, name: Bytes, form: Form, alone: bool)
    requires AllValid(rs) && Decides(rs, k, name, form, alone)
    ensures k < |rs| && ValidRelocation(rs[k]) && Takes(rs[k], name, form, alone)
  {
    hide ValidRelocation, Takes;
    assert rs[k] in rs;
  }

  /** Some entry decides exactly when some entry takes the name. */
  lemma {:induction false} TakenSomehow(rs: seq<Relocation>, name: Bytes, form: Form, alone: bool)
    ensures IsTaken(rs, name, form, alone) <==> exists r <- rs :: Takes(r, name, form, alone)
  {
    hide Takes;
    if rs != [] {
      var front, last := rs[..|rs| - 1], |rs| - 1;
      assert rs == front + [rs[last]];
      TakenSomehow(front, name, form, alone);
      if IsTaken(front, name, form, alone) {
        var k := Decider(front, name, form, alone);
        var best := if Takes(rs[last], name, form, alone) && |rs[last].from| > |rs[k].from| then last else k;
        assert Decides(rs, best, name, form, alone);
      } else if Takes(rs[last], name, form, alone) {
        assert forall j :: 0 <= j < last ==> rs[j] == front[j] && front[j] in front;
        assert Decides(rs, last, name, form, alone);
      }
      if IsTaken(rs, name, form, alone) {
        var k := Decider(rs, name, form, alone);
        assert rs[k] in rs;
      }
    }
  }
}
