/**
 A merged `spring.factories` read again: what its lines give back, and what is lost when one of them is a
 comment or continued on the next.
 */
module RegistryReading {
  import opened FirstSeen
  import opened Registries
  import opened RegistryKeys
  import opened Splitting
  import opened Text
  import opened Wrappers

  // ---- spring.factories: merged again -------------------------------------------------------------

  predicate CleanValue(v: string) {
    v != [] && IsTrimmed(v) && ',' !in v && '\n' !in v
  }

  predicate CleanKey(key: string) {
    IsTrimmed(key) && '\n' !in key && '=' !in key && ':' !in key
  }

  predicate CleanSlot(slot: Slot) {
    CleanKey(slot.key) && Distinct(slot.values) && forall v <- slot.values :: CleanValue(v)
  }

  predicate CleanPair(pair: Pair) {
    CleanKey(pair.key) && '\n' !in pair.value
  }

  lemma PairOnIsClean(logical: string)
    requires '\n' !in logical
    ensures forall pair <- PairOn(logical) :: CleanPair(pair)
  {
    hide Trim, IsTrimmed;
    var j := FindSeparator(logical, 0);
    if j < |logical| {
      TrimIsTrimmed(logical[..j]);
      TrimIsTrimmed(logical[j + 1..]);
      assert forall c <- logical[..j] :: c in logical && !IsSeparator(c);
    }
  }

  lemma {:induction false} PairsAreClean(lines: seq<string>, pending: Option<string>)
    requires forall line <- lines :: '\n' !in line
    requires pending.Some? ==> '\n' !in pending.value
    ensures forall pair <- PairsFrom(lines, pending) :: CleanPair(pair)
    decreases |lines|
  {
    hide PairOn, CleanPair, IsSkipped, Indent;
    if lines == [] {
      if pending.Some? {
        PairOnIsClean(pending.value);
      }
    } else {
      var line := TrimStart(lines[0]);
      assert forall c <- line :: c in lines[0];
      assert lines[0] in lines && forall l <- lines[1..] :: l in lines;
      var logical := match pending case Some(some) => some case None => [];
      PairOnIsClean(logical + line);
      PairsAreClean(lines[1..], None);
      if Continues(line) {
        PairsAreClean(lines[1..], Some(logical + line[..|line| - 1]));
      }
    }
  }

  lemma {:induction false} AllPropertiesAreClean(copies: seq<string>)
    ensures forall pair <- AllProperties(copies) :: CleanPair(pair)
  {
    hide CleanPair, PairsFrom, Lines;
    if copies != [] {
      LinesHaveNone(copies[0]);
      PairsAreClean(Lines(copies[0]), None);
      AllPropertiesAreClean(copies[1..]);
    }
  }

  lemma {:induction false} TrimmedAreClean(parts: seq<string>)
    requires forall part <- parts :: ',' !in part && '\n' !in part
    ensures forall v <- Trimmed(parts) :: v == [] || CleanValue(v)
  {
    hide Trim, IsTrimmed;
    if parts != [] {
      assert parts[0] in parts && forall part <- parts[1..] :: part in parts;
      TrimIsTrimmed(parts[0]);
      TrimmedAreClean(parts[1..]);
    }
  }

  lemma ValuesAreClean(list: string)
    requires '\n' !in list
    ensures forall v <- Values(list) :: v == [] || CleanValue(v)
  {
    hide Split, Trimmed;
    SplitHasNone(list, ',');
    InSomePart(list, ',', '\n');
    forall part | part in Split(list, ',')
      ensures ',' !in part && '\n' !in part
    {
      var k :| 0 <= k < |Split(list, ',')| && Split(list, ',')[k] == part;
      assert '\n' !in Split(list, ',')[k];
    }
    TrimmedAreClean(Split(list, ','));
  }

  lemma UnionIsClean(seen: seq<string>, list: string)
    requires Distinct(seen) && (forall v <- seen :: CleanValue(v)) && '\n' !in list
    ensures Distinct(AddAll(seen, Values(list))) && forall v <- AddAll(seen, Values(list)) :: CleanValue(v)
  {
    hide AddAll, Values, IsTrimmed;
    ValuesAreClean(list);
    UnionIsDistinct(seen, Values(list));
    forall v | v in AddAll(seen, Values(list))
      ensures CleanValue(v)
    {
      AddAllHas(seen, Values(list), v);
    }
  }

  lemma {:induction false} AddPairIsClean(slots: seq<Slot>, pair: Pair)
    requires (forall slot <- slots :: CleanSlot(slot)) && CleanPair(pair)
    ensures forall slot <- AddPair(slots, pair) :: CleanSlot(slot)
  {
    hide AddAll, Values, CleanValue, CleanKey;
    if slots == [] {
      UnionIsClean([], pair.value);
    } else if slots[0].key == pair.key {
      assert slots[0] in slots && forall slot <- slots[1..] :: slot in slots;
      UnionIsClean(slots[0].values, pair.value);
    } else {
      assert slots[0] in slots && forall slot <- slots[1..] :: slot in slots;
      AddPairIsClean(slots[1..], pair);
    }
  }

  lemma {:induction false} AddPairsIsClean(slots: seq<Slot>, pairs: seq<Pair>)
    requires (forall slot <- slots :: CleanSlot(slot)) && (forall pair <- pairs :: CleanPair(pair)) && DistinctKeys(slots)
    ensures (forall slot <- AddPairs(slots, pairs) :: CleanSlot(slot)) && DistinctKeys(AddPairs(slots, pairs))
    decreases |pairs|
  {
    hide AddPair, CleanSlot, CleanPair, DistinctKeys;
    if pairs != [] {
      assert pairs[0] in pairs && forall pair <- pairs[1..] :: pair in pairs;
      AddPairIsClean(slots, pairs[0]);
      AddPairKeys(slots, pairs[0]);
      AddPairsIsClean(AddPair(slots, pairs[0]), pairs[1..]);
    }
  }

  /** What is written for a slot's values reads back as those values. */
  lemma ValuesBack(values: seq<string>)
    requires Distinct(values) && forall v <- values :: CleanValue(v)
    ensures AddAll([], Values(Join(values, ','))) == values
    ensures IsTrimmed(Join(values, ',')) && '\n' !in Join(values, ',')
  {
    hide IsTrimmed, Trim;
    JoinedIsTrimmed(values);
    if values == [] {
      FindIs([], ',', 0, 0);
      assert Split([], ',') == [[]];
      TrimmedStays([]) by { assert IsTrimmed([]) by { NothingIsTrimmed(); } }
      var one: seq<string> := [[]];
      assert one[1..] == [];
      assert Trimmed(one) == one && AddAll([], one) == [];
    } else {
      SplitJoin(values, ',');
      TrimmedBack(values);
      assert [] + values == values;
      UnionOfDistinct([], values);
    }
  }

  lemma NothingIsTrimmed()
    ensures IsTrimmed([])
  {
  }

  lemma {:induction false} TrimmedBack(values: seq<string>)
    requires forall v <- values :: CleanValue(v)
    ensures Trimmed(values) == values
  {
    hide CleanValue, Trim;
    if values != [] {
      assert values[0] in values && forall v <- values[1..] :: v in values;
      CleanStays(values[0]);
      TrimmedBack(values[1..]);
    }
  }

  lemma CleanStays(v: string)
    requires CleanValue(v)
    ensures Trim(v) == v
  {
    TrimmedStays(v);
  }

  lemma {:induction false} JoinedIsTrimmed(values: seq<string>)
    requires forall v <- values :: CleanValue(v)
    ensures IsTrimmed(Join(values, ',')) && '\n' !in Join(values, ',')
    ensures values != [] ==> Join(values, ',') != []
  {
    if values != [] {
      assert values[0] in values && forall v <- values[1..] :: v in values;
      JoinedIsTrimmed(values[1..]);
    }
  }

  /** A line that is neither a comment nor continued on the next. */
  predicate IsWhole(line: string) {
    !IsSkipped(line) && !Continues(line)
  }

  function PairsOf(slots: seq<Slot>): seq<Pair> {
    if slots == [] then [] else [Pair(slots[0].key, Join(slots[0].values, ','))] + PairsOf(slots[1..])
  }

  lemma SlotLineStarts(slot: Slot)
    requires CleanSlot(slot)
    ensures IsLine(SlotLine(slot)) && TrimStart(SlotLine(slot)) == SlotLine(slot)
  {
    hide CleanValue;
    JoinedIsTrimmed(slot.values);
    var line := SlotLine(slot);
    assert line[|slot.key|] == '=';
    IndentIs(line, 0);
  }

  lemma SlotLineReads(slot: Slot)
    requires CleanSlot(slot)
    ensures PairOn(SlotLine(slot)) == [Pair(slot.key, Join(slot.values, ','))]
  {
    hide CleanValue, CleanKey, IsTrimmed, Join, PairOn;
    JoinedIsTrimmed(slot.values);
    LineReads(slot.key, Join(slot.values, ','));
  }

  lemma LineReads(key: string, list: string)
    requires CleanKey(key) && IsTrimmed(list)
    ensures PairOn(key + ("=" + list)) == [Pair(key, list)]
  {
    hide Trim, IsTrimmed, FindSeparator;
    var line := key + ("=" + list);
    assert line[..|key|] == key && line[|key|] == '=' && line[|key| + 1..] == list;
    KeyThenSeparator(key, line);
    TrimmedStays(key);
    TrimmedStays(list);
  }

  lemma KeyThenSeparator(key: string, line: string)
    requires CleanKey(key) && |key| < |line| && line[..|key|] == key && line[|key|] == '='
    ensures FindSeparator(line, 0) == |key|
  {
    hide IsTrimmed;
    assert forall k :: 0 <= k < |key| ==> line[k] == key[k] && key[k] in key;
    SeparatorIs(line, 0, |key|);
  }

  lemma SeparatorIs(s: string, i: nat, j: nat)
    requires i <= j < |s| && IsSeparator(s[j]) && forall k :: i <= k < j ==> !IsSeparator(s[k])
    ensures FindSeparator(s, i) == j
    decreases j - i
  {
  }

  lemma {:induction false} SlotLinesBack(slots: seq<Slot>)
    requires (forall slot <- slots :: CleanSlot(slot)) && forall line <- SlotLines(slots) :: IsWhole(line)
    ensures PairsFrom(SlotLines(slots), None) == PairsOf(slots)
  {
    hide CleanSlot, SlotLine, PairOn, TrimStart, IsSkipped, Continues;
    if slots != [] {
      var lines := SlotLines(slots);
      assert slots[0] in slots && forall slot <- slots[1..] :: slot in slots;
      assert lines[0] in lines && lines[1..] == SlotLines(slots[1..]) && forall line <- lines[1..] :: line in lines;
      SlotLineStarts(slots[0]);
      SlotLineReads(slots[0]);
      SlotLinesBack(slots[1..]);
      assert [] + lines[0] == lines[0];
    }
  }

  lemma SlotBack(done: seq<Slot>, slots: seq<Slot>)
    requires slots != [] && DistinctKeys(done + slots) && CleanSlot(slots[0])
    ensures AddPair(done, Pair(slots[0].key, Join(slots[0].values, ','))) == done + [slots[0]]
  {
    hide CleanValue, AddPair, CleanKey, Values, Join, Position, DistinctKeys;
    ValuesBack(slots[0].values);
    PositionIsPlace(done, Pair(slots[0].key, Join(slots[0].values, ',')));
    PositionPast(done, slots);
  }

  predicate AllClean(slots: seq<Slot>) {
    forall slot <- slots :: CleanSlot(slot)
  }

  lemma CleanTail(slots: seq<Slot>)
    requires AllClean(slots) && slots != []
    ensures CleanSlot(slots[0]) && AllClean(slots[1..])
  {
    hide CleanSlot;
    assert slots[0] in slots && forall slot <- slots[1..] :: slot in slots;
  }

  lemma {:induction false} SlotsBack(done: seq<Slot>, slots: seq<Slot>)
    requires DistinctKeys(done + slots) && AllClean(slots)
    ensures AddPairs(done, PairsOf(slots)) == done + slots
    decreases |slots|
  {
    hide AllClean, CleanSlot, AddPair, Join, DistinctKeys;
    if slots == [] {
      assert done + slots == done;
    } else {
      CleanTail(slots);
      SlotBack(done, slots);
      var more, rest := done + [slots[0]], slots[1..];
      assert more + rest == done + slots;
      SlotsBack(more, rest);
      assert PairsOf(slots)[1..] == PairsOf(rest);
    }
  }

  lemma PositionPast(done: seq<Slot>, slots: seq<Slot>)
    requires slots != [] && DistinctKeys(done + slots)
    ensures Position(done, slots[0].key) == |done|
  {
    var all := done + slots;
    assert all[|done|] == slots[0];
    assert forall k :: 0 <= k < |done| ==> all[k] == done[k];
  }

  lemma {:induction false} AllPropertiesConcat(a: seq<string>, b: seq<string>)
    ensures AllProperties(a + b) == AllProperties(a) + AllProperties(b)
    decreases |a|
  {
    hide Properties;
    if a == [] {
      assert a + b == b;
    } else {
      AllPropertiesConcat(a[1..], b);
      assert (a + b)[1..] == a[1..] + b;
    }
  }

  lemma {:induction false} SlotLinesAreLines(slots: seq<Slot>)
    requires forall slot <- slots :: CleanSlot(slot)
    ensures forall line <- SlotLines(slots) :: IsLine(line)
    ensures |SlotLines(slots)| == |slots|
  {
    hide CleanSlot, IsLine, SlotLine, TrimStart;
    if slots != [] {
      assert slots[0] in slots && forall slot <- slots[1..] :: slot in slots;
      SlotLineStarts(slots[0]);
      SlotLinesAreLines(slots[1..]);
    }
  }

  /** The slots of the copies, clean, and the lines they are written on. */
  lemma MergedSlots(a: seq<string>) returns (slots: seq<Slot>)
    ensures slots == AddPairs([], AllProperties(a)) && DistinctKeys(slots) && forall slot <- slots :: CleanSlot(slot)
    ensures MergedFactories(a) == WriteLines(SlotLines(slots)) && Lines(MergedFactories(a)) == SlotLines(slots)
  {
    hide CleanSlot, CleanPair, AddPairs, AllProperties, WriteLines, Lines, IsLine;
    slots := AddPairs([], AllProperties(a));
    AllPropertiesAreClean(a);
    AddPairsIsClean([], AllProperties(a));
    SlotLinesAreLines(slots);
    WrittenLinesBack(SlotLines(slots));
  }

  lemma WholeMergesAgain(a: seq<string>, b: seq<string>)
    requires forall line <- Lines(MergedFactories(a)) :: IsWhole(line)
    ensures MergedFactories([MergedFactories(a)] + b) == MergedFactories(a + b)
  {
    hide CleanSlot, AddPairs, PairsFrom, WriteLines, Lines, IsWhole, SlotLines;
    var merged := MergedFactories(a);
    var slots := MergedSlots(a);
    SlotLinesBack(slots);
    assert [] + slots == slots;
    SlotsBack([], slots);
    assert ([merged] + b)[1..] == b && ([merged] + b)[0] == merged;
    AllPropertiesConcat(a, b);
    AddPairsConcat([], AllProperties(a), AllProperties(b));
    AddPairsConcat([], PairsOf(slots), AllProperties(b));
  }

  // ---- what is lost when a merged line is not whole ----------------------------------------------

  function Width(xs: seq<string>): nat {
    if xs == [] then 0 else |xs[0]| + 1 + Width(xs[1..])
  }

  function Size(pairs: seq<Pair>): nat {
    if pairs == [] then 0 else |pairs[0].key| + |pairs[0].value| + 2 + Size(pairs[1..])
  }

  lemma {:induction false} SizeConcat(a: seq<Pair>, b: seq<Pair>)
    ensures Size(a + b) == Size(a) + Size(b)
  {
    if a == [] {
      assert a + b == b;
    } else {
      SizeConcat(a[1..], b);
      assert (a + b)[1..] == a[1..] + b;
    }
  }

  lemma SizeOne(pair: Pair)
    ensures Size([pair]) == |pair.key| + |pair.value| + 2
  {
    assert [pair][1..] == [];
  }

  lemma PairOnIsShorter(logical: string)
    ensures Size(PairOn(logical)) <= |logical| + 1
  {
    hide Trim, FindSeparator, Size;
    var j := FindSeparator(logical, 0);
    if j < |logical| {
      var pair := Pair(Trim(logical[..j]), Trim(logical[j + 1..]));
      TrimIsShorter(logical[..j]);
      TrimIsShorter(logical[j + 1..]);
      SizeOne(pair);
    } else {
      SizeNone();
    }
  }

  lemma SizeNone()
    ensures Size([]) == 0
  {
  }

  lemma TrimIsShorter(s: string)
    ensures |Trim(s)| <= |s| && |TrimStart(s)| <= |s|
  {
  }

  /** The pairs read are no longer than their lines. */
  lemma {:induction false} PairsAreShorter(lines: seq<string>, pending: Option<string>)
    ensures Size(PairsFrom(lines, pending)) <= Width(lines) + (match pending case Some(l) => |l| + 1 case None => 0)
    decreases |lines|
  {
    hide PairOn, TrimStart, IsSkipped;
    if lines == [] {
      if pending.Some? {
        PairOnIsShorter(pending.value);
      }
    } else {
      var line := TrimStart(lines[0]);
      TrimIsShorter(lines[0]);
      var logical := match pending case Some(some) => some case None => [];
      PairOnIsShorter(logical + line);
      SizeConcat(PairOn(logical + line), PairsFrom(lines[1..], None));
      PairsAreShorter(lines[1..], None);
      if Continues(line) {
        PairsAreShorter(lines[1..], Some(logical + line[..|line| - 1]));
      }
    }
  }

  /** They are shorter, when some line is a comment or continued. */
  lemma {:induction false} BrokenLosesSome(lines: seq<string>)
    requires (forall line <- lines :: TrimStart(line) == line) && exists line <- lines :: !IsWhole(line)
    ensures Size(PairsFrom(lines, None)) < Width(lines)
    decreases |lines|
  {
    hide PairOn, TrimStart, IsSkipped;
    var line := lines[0];
    assert line in lines && forall l <- lines[1..] :: l in lines;
    PairOnIsShorter(line);
    assert [] + line == line;
    SizeConcat(PairOn(line), PairsFrom(lines[1..], None));
    PairsAreShorter(lines[1..], None);
    if Continues(line) {
      PairsAreShorter(lines[1..], Some([] + line[..|line| - 1]));
    } else if !IsSkipped(line) {
      assert exists l <- lines[1..] :: !IsWhole(l) by {
        var l :| l in lines && !IsWhole(l);
        assert lines == [line] + lines[1..];
      }
      BrokenLosesSome(lines[1..]);
    }
  }

  lemma {:induction false} WriteLinesWidth(lines: seq<string>)
    ensures |WriteLines(lines)| == Width(lines)
  {
    if lines != [] {
      WriteLinesWidth(lines[1..]);
    }
  }

  lemma {:induction false} JoinWidth(xs: seq<string>)
    ensures |Join(xs, ',')| == if xs == [] then 0 else Width(xs) - 1
  {
    if xs != [] {
      JoinWidth(xs[1..]);
    }
  }

  lemma {:induction false} SplitWidth(s: string)
    ensures Width(Split(s, ',')) == |s| + 1
    decreases |s|
  {
    var j := Find(s, ',', 0);
    if j < |s| {
      SplitWidth(s[j + 1..]);
      assert Split(s, ',')[1..] == Split(s[j + 1..], ',');
    }
  }

  lemma {:induction false} TrimmedWidth(parts: seq<string>)
    ensures Width(Trimmed(parts)) <= Width(parts)
  {
    hide Trim;
    if parts != [] {
      TrimIsShorter(parts[0]);
      TrimmedWidth(parts[1..]);
      assert Trimmed(parts)[1..] == Trimmed(parts[1..]);
    }
  }

  lemma {:induction false} WidthConcat(a: seq<string>, b: seq<string>)
    ensures Width(a + b) == Width(a) + Width(b)
  {
    if a == [] {
      assert a + b == b;
    } else {
      WidthConcat(a[1..], b);
      assert (a + b)[1..] == a[1..] + b;
    }
  }

  lemma {:induction false} UnionWidth(seen: seq<string>, xs: seq<string>)
    ensures Width(AddAll(seen, xs)) <= Width(seen) + Width(xs)
    decreases |xs|
  {
    if xs != [] {
      UnionWidth(Add(seen, xs[0]), xs[1..]);
      WidthConcat(seen, [xs[0]]);
      assert [xs[0]][1..] == [];
    }
  }

  lemma ValuesWidth(seen: seq<string>, list: string)
    ensures |Join(AddAll(seen, Values(list)), ',')| <= |list| + (if seen == [] then 0 else |Join(seen, ',')| + 1)
  {
    hide AddAll, Trimmed, Split, Join;
    SplitWidth(list);
    TrimmedWidth(Split(list, ','));
    UnionWidth(seen, Values(list));
    JoinWidth(seen);
    JoinWidth(AddAll(seen, Values(list)));
  }

  /** One more pair lengthens what is written by its own length at most. */
  lemma {:induction false} AddPairWidth(slots: seq<Slot>, pair: Pair)
    ensures Width(SlotLines(AddPair(slots, pair))) <= Width(SlotLines(slots)) + |pair.key| + |pair.value| + 2
  {
    hide AddAll, Values, Join;
    var more := AddPair(slots, pair);
    assert more != [] && SlotLines(more)[1..] == SlotLines(more[1..]);
    if slots == [] {
      ValuesWidth([], pair.value);
      assert more[1..] == [];
    } else {
      assert SlotLines(slots)[1..] == SlotLines(slots[1..]);
      if slots[0].key == pair.key {
        ValuesWidth(slots[0].values, pair.value);
        assert more[1..] == slots[1..];
      } else {
        AddPairWidth(slots[1..], pair);
        assert more[1..] == AddPair(slots[1..], pair);
      }
    }
  }

  lemma {:induction false} AddPairsWidth(slots: seq<Slot>, pairs: seq<Pair>)
    ensures Width(SlotLines(AddPairs(slots, pairs))) <= Width(SlotLines(slots)) + Size(pairs)
    decreases |pairs|
  {
    hide AddPair, SlotLines, Width;
    if pairs != [] {
      AddPairWidth(slots, pairs[0]);
      AddPairsWidth(AddPair(slots, pairs[0]), pairs[1..]);
    }
  }

  lemma BrokenChanges(a: seq<string>)
    requires exists line <- Lines(MergedFactories(a)) :: !IsWhole(line)
    ensures MergedFactories([MergedFactories(a)]) != MergedFactories(a)
  {
    hide CleanSlot, AddPairs, PairsFrom, WriteLines, Lines, IsWhole, SlotLines, Width, TrimStart, DistinctKeys;
    var merged := MergedFactories(a);
    var slots := MergedSlots(a);
    var lines := SlotLines(slots);
    SlotLinesStart(slots);
    BrokenLosesSome(lines);
    WriteLinesWidth(lines);
    var pairs := PairsFrom(lines, None);
    assert AllProperties([merged]) == pairs by { assert [merged][1..] == [] && pairs + [] == pairs; }
    AddPairsWidth([], pairs);
    WriteLinesWidth(SlotLines(AddPairs([], pairs)));
    NoLines();
  }

  lemma NoLines()
    ensures Width(SlotLines([])) == 0
  {
  }

  lemma {:induction false} SlotLinesStart(slots: seq<Slot>)
    requires forall slot <- slots :: CleanSlot(slot)
    ensures forall line <- SlotLines(slots) :: TrimStart(line) == line
  {
    hide CleanSlot, SlotLine, TrimStart, IsLine;
    if slots != [] {
      assert slots[0] in slots && forall slot <- slots[1..] :: slot in slots;
      SlotLineStarts(slots[0]);
      SlotLinesStart(slots[1..]);
    }
  }
}
