/**
 Merging registries. How the copies of a registry several jars have become one.
 */
module Registries {
  import opened ByteStrings
  import opened FirstSeen
  import opened Splitting
  import opened Text
  import opened Wrappers

  // ---- properties files -------------------------------------------------------------------------

  datatype Pair = Pair(key: string, value: string)

  predicate IsSeparator(c: char) {
    c == '=' || c == ':'
  }

  function FindSeparator(s: string, i: nat): (j: nat)
    requires i <= |s|
    ensures i <= j <= |s|
    ensures forall k :: i <= k < j ==> !IsSeparator(s[k])
    ensures j < |s| ==> IsSeparator(s[j])
    decreases |s| - i
  {
    if i < |s| && !IsSeparator(s[i]) then FindSeparator(s, i + 1) else i
  }

  /** The pair on a logical line, when it has a separator. */
  function PairOn(logical: string): seq<Pair> {
    var j := FindSeparator(logical, 0);
    if j < |logical| then [Pair(Trim(logical[..j]), Trim(logical[j + 1..]))] else []
  }

  predicate IsSkipped(line: string) {
    line == [] || line[0] == '#' || line[0] == '!'
  }

  /** How many backslashes end the line. */
  function Backslashes(line: string): (n: nat)
    ensures n <= |line|
  {
    if EndsWith(line, '\\') then 1 + Backslashes(line[..|line| - 1]) else 0
  }

  /** The next line belongs to this one: the backslashes it ends in are odd in number, so the last is not
      itself escaped. */
  predicate Continues(line: string) {
    EndsWith(line, '\\') && !Continues(line[..|line| - 1])
  }

  lemma {:induction false} OddRunContinues(line: string)
    ensures Continues(line) <==> Backslashes(line) % 2 == 1
  {
    if EndsWith(line, '\\') {
      OddRunContinues(line[..|line| - 1]);
    }
  }

  /** The pairs on the lines from here, `pending` being what a continued line holds so far. */
  function PairsFrom(lines: seq<string>, pending: Option<string>): seq<Pair>
    decreases |lines|
  {
    if lines == [] then match pending case Some(logical) => PairOn(logical) case None => []
    else
      var line := TrimStart(lines[0]);
      if pending.None? && IsSkipped(line) then PairsFrom(lines[1..], None)
      else
        var logical := match pending case Some(logical) => logical case None => [];
        if Continues(line) then PairsFrom(lines[1..], Some(logical + line[..|line| - 1]))
        else PairOn(logical + line) + PairsFrom(lines[1..], None)
  }

  function Properties(text: string): seq<Pair> {
    PairsFrom(Lines(text), None)
  }

  lemma StepBack(line: string)
    requires Backslashes(line) % 2 == 1
    ensures line != []
  {
  }

  method ReadProperties(text: string) returns (out: seq<Pair>)
    ensures out == Properties(text)
  {
    hide PairOn, TrimStart, IsSkipped, Backslashes, Continues;
    var lines := Lines(text);
    out := [];
    var pending: Option<string> := None;
    for k := 0 to |lines|
      invariant out + PairsFrom(lines[k..], pending) == Properties(text)
    {
      ghost var rest := lines[k + 1..];
      assert lines[k..][0] == lines[k] && lines[k..][1..] == rest;
      var line := TrimStart(lines[k]);
      if pending.None? && IsSkipped(line) {
        continue;
      }
      var logical := match pending case Some(some) => some case None => [];
      OddRunContinues(line);
      if Backslashes(line) % 2 == 1 {
        StepBack(line);
        pending := Some(logical + line[..|line| - 1]);
      } else {
        assert out + (PairOn(logical + line) + PairsFrom(rest, None)) == (out + PairOn(logical + line)) + PairsFrom(rest, None);
        out := out + PairOn(logical + line);
        pending := None;
      }
    }
    if pending.Some? {
      out := out + PairOn(pending.value);
    }
    assert out + [] == out;
  }

  /** The values of a comma-separated list, trimmed; some may be empty. */
  function Values(list: string): seq<string> {
    Trimmed(Split(list, ','))
  }

  function Trimmed(parts: seq<string>): seq<string> {
    if parts == [] then [] else [Trim(parts[0])] + Trimmed(parts[1..])
  }

  // ---- spring.factories -------------------------------------------------------------------------

  datatype Slot = Slot(key: string, values: seq<string>)

  /** A pair's values put under its key. */
  function AddPair(slots: seq<Slot>, pair: Pair): seq<Slot> {
    if slots == [] then [Slot(pair.key, AddAll([], Values(pair.value)))]
    else if slots[0].key == pair.key then [Slot(pair.key, AddAll(slots[0].values, Values(pair.value)))] + slots[1..]
    else [slots[0]] + AddPair(slots[1..], pair)
  }

  function AddPairs(slots: seq<Slot>, pairs: seq<Pair>): seq<Slot>
    decreases |pairs|
  {
    if pairs == [] then slots else AddPairs(AddPair(slots, pairs[0]), pairs[1..])
  }

  function AllProperties(copies: seq<string>): seq<Pair> {
    if copies == [] then [] else Properties(copies[0]) + AllProperties(copies[1..])
  }

  function SlotLine(slot: Slot): string {
    slot.key + ("=" + Join(slot.values, ','))
  }

  function SlotLines(slots: seq<Slot>): seq<string> {
    if slots == [] then [] else [SlotLine(slots[0])] + SlotLines(slots[1..])
  }

  function MergedFactories(copies: seq<string>): string {
    WriteLines(SlotLines(AddPairs([], AllProperties(copies))))
  }

  /** Where `key` has its slot, or the number of slots. */
  function Position(slots: seq<Slot>, key: string): (k: nat)
    ensures k <= |slots|
    ensures forall i :: 0 <= i < k ==> slots[i].key != key
    ensures k < |slots| ==> slots[k].key == key
  {
    if slots == [] || slots[0].key == key then 0 else 1 + Position(slots[1..], key)
  }

  lemma {:induction false} PositionIsPlace(slots: seq<Slot>, pair: Pair)
    ensures var k := Position(slots, pair.key);
            AddPair(slots, pair)
            == if k < |slots| then slots[k := Slot(pair.key, AddAll(slots[k].values, Values(pair.value)))]
               else slots + [Slot(pair.key, AddAll([], Values(pair.value)))]
  {
    hide Values, AddAll;
    if slots != [] && slots[0].key != pair.key {
      var head, tail := slots[0], slots[1..];
      PositionIsPlace(tail, pair);
      assert slots == [head] + tail;
      var j := Position(tail, pair.key);
      if j < |tail| {
        BehindHead(head, tail, j, Slot(pair.key, AddAll(tail[j].values, Values(pair.value))));
      } else {
        BehindAll(head, tail, Slot(pair.key, AddAll([], Values(pair.value))));
      }
    }
  }

  lemma BehindHead(head: Slot, tail: seq<Slot>, j: nat, slot: Slot)
    requires j < |tail|
    ensures ([head] + tail)[j + 1] == tail[j] && [head] + tail[j := slot] == ([head] + tail)[j + 1 := slot]
  {
  }

  lemma BehindAll(head: Slot, tail: seq<Slot>, slot: Slot)
    ensures [head] + (tail + [slot]) == ([head] + tail) + [slot]
  {
  }

  method MergeFactories(copies: seq<string>) returns (text: string)
    ensures text == MergedFactories(copies)
  {
    hide Values, Properties, AddAll, Trim, Split, AddPair, SlotLine;
    var slots: seq<Slot> := [];
    for c := 0 to |copies|
      invariant AddPairs(slots, AllProperties(copies[c..])) == AddPairs([], AllProperties(copies))
    {
      assert copies[c..][0] == copies[c] && copies[c..][1..] == copies[c + 1..];
      var pairs := ReadProperties(copies[c]);
      AddPairsConcat(slots, pairs, AllProperties(copies[c + 1..]));
      ghost var before := slots;
      for p := 0 to |pairs|
        invariant AddPairs(slots, pairs[p..]) == AddPairs(before, pairs)
      {
        assert pairs[p..][0] == pairs[p] && pairs[p..][1..] == pairs[p + 1..];
        slots := AddToSlot(slots, pairs[p]);
      }
    }
    ghost var final := slots;
    text := [];
    for k := 0 to |slots|
      invariant slots == final && text + WriteLines(SlotLines(slots[k..])) == WriteLines(SlotLines(slots))
    {
      assert slots[k..][0] == slots[k] && slots[k..][1..] == slots[k + 1..];
      ghost var rest := WriteLines(SlotLines(slots[k + 1..]));
      assert SlotLines(slots[k..])[1..] == SlotLines(slots[k + 1..]);
      assert text + (SlotLine(slots[k]) + ("\n" + rest)) == (text + SlotLine(slots[k]) + "\n") + rest;
      text := text + SlotLine(slots[k]) + "\n";
    }
    assert text + [] == text;
  }

  method AddToSlot(slots: seq<Slot>, pair: Pair) returns (r: seq<Slot>)
    ensures r == AddPair(slots, pair)
  {
    hide Values, AddAll, AddPair;
    PositionIsPlace(slots, pair);
    var k := Position(slots, pair.key);
    r := slots;
    if k == |slots| {
      r := r + [Slot(pair.key, [])];
    }
    var values := AddValues(r[k].values, pair.value);
    r := r[k := Slot(pair.key, values)];
  }

  method AddValues(seen: seq<string>, list: string) returns (values: seq<string>)
    ensures values == AddAll(seen, Values(list))
  {
    var parts := Values(list);
    values := seen;
    for v := 0 to |parts|
      invariant AddAll(values, parts[v..]) == AddAll(seen, parts)
    {
      assert parts[v..][0] == parts[v] && parts[v..][1..] == parts[v + 1..];
      if parts[v] != [] && parts[v] !in values {
        values := values + [parts[v]];
      }
    }
  }

  lemma {:induction false} AddPairsConcat(slots: seq<Slot>, a: seq<Pair>, b: seq<Pair>)
    ensures AddPairs(slots, a + b) == AddPairs(AddPairs(slots, a), b)
    decreases |a|
  {
    hide AddPair;
    if a == [] {
      assert a + b == b;
    } else {
      assert (a + b)[1..] == a[1..] + b;
      AddPairsConcat(AddPair(slots, a[0]), a[1..], b);
    }
  }

  // ---- .imports files ---------------------------------------------------------------------------

  /** A line without its comment; it may be empty. */
  function Import(line: string): string {
    Trim(line[..Find(line, '#', 0)])
  }

  function Imports(lines: seq<string>): seq<string> {
    if lines == [] then [] else [Import(lines[0])] + Imports(lines[1..])
  }

  function AllImports(copies: seq<string>): seq<string> {
    if copies == [] then [] else Imports(Lines(copies[0])) + AllImports(copies[1..])
  }

  function MergedImports(copies: seq<string>): string {
    WriteLines(AddAll([], AllImports(copies)))
  }

  method MergeImports(copies: seq<string>) returns (text: string)
    ensures text == MergedImports(copies)
  {
    hide Import, Lines;
    var seen: seq<string> := [];
    for c := 0 to |copies|
      invariant AddAll(seen, AllImports(copies[c..])) == AddAll([], AllImports(copies))
    {
      assert copies[c..][0] == copies[c] && copies[c..][1..] == copies[c + 1..];
      var lines := Lines(copies[c]);
      AddAllConcat(seen, Imports(lines), AllImports(copies[c + 1..]));
      ghost var before := seen;
      for k := 0 to |lines|
        invariant AddAll(seen, Imports(lines[k..])) == AddAll(before, Imports(lines))
      {
        assert lines[k..][0] == lines[k] && lines[k..][1..] == lines[k + 1..];
        var line := Import(lines[k]);
        assert Imports(lines[k..])[0] == line && Imports(lines[k..])[1..] == Imports(lines[k + 1..]);
        if line != [] && line !in seen {
          seen := seen + [line];
        }
      }
    }
    ghost var final := seen;
    text := [];
    for k := 0 to |seen|
      invariant seen == final && text + WriteLines(seen[k..]) == WriteLines(seen)
    {
      assert seen[k..][0] == seen[k] && seen[k..][1..] == seen[k + 1..];
      assert text + (seen[k] + ("\n" + WriteLines(seen[k + 1..]))) == (text + seen[k] + "\n") + WriteLines(seen[k + 1..]);
      text := text + seen[k] + "\n";
    }
    assert text + [] == text;
  }

  // ---- appended files ---------------------------------------------------------------------------

  const LINE_FEED: Byte := '\n' as Byte

  predicate EndsLine(b: Bytes) {
    b == [] || b[|b| - 1] == LINE_FEED
  }

  function AppendCopy(merged: Bytes, copy: Bytes): Bytes {
    (if EndsLine(merged) then merged else merged + [LINE_FEED]) + copy
  }

  function AppendAll(merged: Bytes, copies: seq<Bytes>): Bytes
    decreases |copies|
  {
    if copies == [] then merged else AppendAll(AppendCopy(merged, copies[0]), copies[1..])
  }

  method MergeAppend(copies: seq<Bytes>) returns (merged: Bytes)
    ensures merged == AppendAll([], copies)
  {
    merged := [];
    for c := 0 to |copies|
      invariant AppendAll(merged, copies[c..]) == AppendAll([], copies)
    {
      assert copies[c..][0] == copies[c] && copies[c..][1..] == copies[c + 1..];
      if !EndsLine(merged) {
        merged := merged + [LINE_FEED];
      }
      merged := merged + copies[c];
    }
  }

  // ---- Groovy extension modules -----------------------------------------------------------------

  /** The values of every pair under one key, in order. */
  function ValuesUnder(pairs: seq<Pair>, key: string): seq<string> {
    if pairs == [] then []
    else (if pairs[0].key == key then Values(pairs[0].value) else []) + ValuesUnder(pairs[1..], key)
  }

  const EXTENSIONS: string := "extensionClasses"
  const STATIC_EXTENSIONS: string := "staticExtensionClasses"

  class ExtensionModule {
    var extensionClasses: seq<string>
    var staticExtensionClasses: seq<string>

    constructor ()
      ensures extensionClasses == [] && staticExtensionClasses == []
    {
      extensionClasses := [];
      staticExtensionClasses := [];
    }

    /** One descriptor folded in: its classes after those there are, each once. */
    method AddDescriptor(text: string)
      modifies this
      ensures extensionClasses == AddAll(old(extensionClasses), ValuesUnder(Properties(text), EXTENSIONS))
      ensures staticExtensionClasses == AddAll(old(staticExtensionClasses), ValuesUnder(Properties(text), STATIC_EXTENSIONS))
    {
      hide Values, Properties, AddAll;
      var pairs := ReadProperties(text);
      KeysDiffer();
      for p := 0 to |pairs|
        invariant AddAll(extensionClasses, ValuesUnder(pairs[p..], EXTENSIONS))
                  == AddAll(old(extensionClasses), ValuesUnder(pairs, EXTENSIONS))
        invariant AddAll(staticExtensionClasses, ValuesUnder(pairs[p..], STATIC_EXTENSIONS))
                  == AddAll(old(staticExtensionClasses), ValuesUnder(pairs, STATIC_EXTENSIONS))
      {
        NextValues(extensionClasses, pairs, p, EXTENSIONS);
        NextValues(staticExtensionClasses, pairs, p, STATIC_EXTENSIONS);
        if pairs[p].key == EXTENSIONS {
          extensionClasses := AddValues(extensionClasses, pairs[p].value);
        } else if pairs[p].key == STATIC_EXTENSIONS {
          staticExtensionClasses := AddValues(staticExtensionClasses, pairs[p].value);
        }
      }
      NoValuesLeft(extensionClasses, EXTENSIONS);
      NoValuesLeft(staticExtensionClasses, STATIC_EXTENSIONS);
    }

    method Render() returns (text: string)
      ensures text == Descriptor(extensionClasses, staticExtensionClasses)
    {
      text := HEADING;
      if extensionClasses != [] {
        text := text + (SlotLine(Slot(EXTENSIONS, extensionClasses)) + "\n");
      }
      if staticExtensionClasses != [] {
        text := text + (SlotLine(Slot(STATIC_EXTENSIONS, staticExtensionClasses)) + "\n");
      }
      RenderedIs(extensionClasses, staticExtensionClasses);
    }
  }

  const HEADING: string := "moduleName=merged-by-jrs\nmoduleVersion=1.0\n"

  /** The merged descriptor. */
  function Descriptor(extensions: seq<string>, statics: seq<string>): string {
    HEADING + (ClassLine(EXTENSIONS, extensions) + ClassLine(STATIC_EXTENSIONS, statics))
  }

  function ClassLine(key: string, classes: seq<string>): string {
    if classes == [] then [] else SlotLine(Slot(key, classes)) + "\n"
  }

  lemma RenderedIs(extensions: seq<string>, statics: seq<string>)
    ensures var a, b := ClassLine(EXTENSIONS, extensions), ClassLine(STATIC_EXTENSIONS, statics);
            var first := if extensions == [] then HEADING else HEADING + a;
            var second := if statics == [] then first else first + b;
            second == Descriptor(extensions, statics)
  {
    hide SlotLine;
    var a, b := ClassLine(EXTENSIONS, extensions), ClassLine(STATIC_EXTENSIONS, statics);
    assert HEADING + (a + b) == (HEADING + a) + b;
    assert HEADING + [] == HEADING;
    assert (HEADING + a) + [] == HEADING + a;
  }

  lemma KeysDiffer()
    ensures EXTENSIONS != STATIC_EXTENSIONS
  {
    assert EXTENSIONS[0] == 'e' && STATIC_EXTENSIONS[0] == 's';
  }

  lemma NextValues(seen: seq<string>, pairs: seq<Pair>, p: nat, key: string)
    requires p < |pairs|
    ensures AddAll(seen, ValuesUnder(pairs[p..], key))
            == AddAll(if pairs[p].key == key then AddAll(seen, Values(pairs[p].value)) else seen, ValuesUnder(pairs[p + 1..], key))
  {
    hide Values;
    assert pairs[p..][0] == pairs[p] && pairs[p..][1..] == pairs[p + 1..];
    AddAllConcat(seen, if pairs[p].key == key then Values(pairs[p].value) else [], ValuesUnder(pairs[p + 1..], key));
  }

  lemma NoValuesLeft(seen: seq<string>, key: string)
    ensures AddAll(seen, ValuesUnder([], key)) == seen
  {
  }
}
