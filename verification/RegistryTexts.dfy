/** Merged. */
module RegistryTexts {
  // What merged registries look like. The text a merged registry is written as, letter by letter, and two
  // copies of one key merged.

  import opened FirstSeen
  import opened Registries
  import opened RegistryFiles
  import opened Splitting
  import opened Wrappers

  /** The values with a comma between each two. */
  function Listed(values: seq<string>): string {
    if values == [] then ""
    else if |values| == 1 then values[0]
    else values[0] + ("," + Listed(values[1..]))
  }

  function Factories(slots: seq<Slot>): string {
    if slots == [] then "" else slots[0].key + ("=" + Listed(slots[0].values)) + ("\n" + Factories(slots[1..]))
  }

  lemma {:induction false} ListedIsJoined(values: seq<string>)
    ensures Join(values, ',') == Listed(values)
  {
    if |values| > 1 {
      ListedIsJoined(values[1..]);
    }
  }

  lemma {:induction false} FactoriesAreLines(slots: seq<Slot>)
    ensures WriteLines(SlotLines(slots)) == Factories(slots)
  {
    hide Join, Listed;
    if slots != [] {
      ListedIsJoined(slots[0].values);
      FactoriesAreLines(slots[1..]);
      assert SlotLines(slots)[1..] == SlotLines(slots[1..]);
    }
  }

  /** Two copies that have entries under one key, each over any number of lines: one line, with the words of
      both, each once. */
  lemma TwoCopiesAreOne(a: Item, b: Item, key: string, xs: seq<Word>, ys: seq<Word>)
    requires a.IsItem() && IsEntryOf(a, key, xs) && IsText(a.Written(), true)
    requires b.IsItem() && IsEntryOf(b, key, ys) && IsText(b.Written(), true)
    ensures MergedFactories([TextOf(a.Written(), true), TextOf(b.Written(), true)])
            == key + "=" + Listed(AddAll([], WordTexts(xs) + WordTexts(ys))) + "\n"
  {
    hide Item.IsItem, Item.Written, IsText, TextOf, Properties, Values, AddAll, Listed, WriteLines, SlotLines,
         IsEntryOf;
    var copies := [TextOf(a.Written(), true), TextOf(b.Written(), true)];
    var first := EntryIsRead(a, key, xs);
    var second := EntryIsRead(b, key, ys);
    assert copies[1..] == [copies[1]] && copies[1..][1..] == [];
    assert AllProperties(copies[1..]) == [second] + [] == [second];
    assert AllProperties(copies) == [first] + [second];
    BothUnder(first, second);
    var slots := [Slot(key, AddAll([], WordTexts(xs) + WordTexts(ys)))];
    AddAllConcat([], WordTexts(xs), WordTexts(ys));
    FactoriesAreLines(slots);
    OneSlot(slots[0]);
  }

  predicate IsEntryOf(item: Item, key: string, words: seq<Word>) {
    && item.Entry? && item.content.Assignment?
    && item.content.key == key && item.content.value == ListText(words)
    && words != [] && forall word <- words :: word.IsWord()
  }

  lemma EntryIsRead(item: Item, key: string, words: seq<Word>) returns (pair: Pair)
    requires item.IsItem() && IsEntryOf(item, key, words) && IsText(item.Written(), true)
    ensures Properties(TextOf(item.Written(), true)) == [pair]
    ensures pair.key == key && Values(pair.value) == WordTexts(words)
  {
    hide Item.IsItem, Item.Written, IsText, TextOf, Properties, Values;
    pair := Pair(key, ListText(words));
    assert [item][1..] == [] && item.Written() + [] == item.Written();
    assert WrittenItems([item]) == item.Written();
    PropertiesAreRead([item], true);
    assert [pair] + [] == [pair];
    assert PairsOfItems([item]) == [pair] by { OneMeaning(item); }
    ListIsRead(words);
  }

  lemma OneMeaning(item: Item)
    requires item.Entry? && item.content.Assignment?
    ensures PairsOfItems([item]) == [Pair(item.content.key, item.content.value)]
  {
    assert [item][1..] == [] && PairsOfItems([]) == [];
  }

  lemma BothUnder(a: Pair, b: Pair)
    requires a.key == b.key
    ensures AddPairs([], [a] + [b]) == [Slot(a.key, AddAll(AddAll([], Values(a.value)), Values(b.value)))]
  {
    hide Values, AddAll;
    assert ([a] + [b])[1..] == [b] && [b][1..] == [];
    var slots := AddPair([], a);
    assert slots == [Slot(a.key, AddAll([], Values(a.value)))] && slots[1..] == [];
    var more := AddPair(slots, b);
    assert more == [Slot(a.key, AddAll(slots[0].values, Values(b.value)))] + [];
    assert AddPairs(more, []) == more;
    assert AddPairs(slots, [b]) == AddPairs(more, []);
  }

  lemma OneSlot(slot: Slot)
    ensures Factories([slot]) == slot.key + "=" + Listed(slot.values) + "\n"
  {
    hide Listed;
    assert [slot][1..] == [] && Factories([]) == "";
    assert slot.key + ("=" + Listed(slot.values)) == slot.key + "=" + Listed(slot.values);
  }

  /** The merged descriptor names the module, and lists the classes there are. */
  lemma DescriptorIsLaidOut(extensions: seq<string>, statics: seq<string>)
    ensures Descriptor(extensions, statics)
            == "moduleName=merged-by-jrs\n" + "moduleVersion=1.0\n"
               + (if extensions == [] then "" else "extensionClasses=" + Listed(extensions) + "\n")
               + (if statics == [] then "" else "staticExtensionClasses=" + Listed(statics) + "\n")
  {
    hide Listed, ClassLine;
    ClassLineIs(EXTENSIONS, extensions);
    ClassLineIs(STATIC_EXTENSIONS, statics);
    var a, b := ClassLine(EXTENSIONS, extensions), ClassLine(STATIC_EXTENSIONS, statics);
    assert "extensionClasses" + "=" == "extensionClasses=";
    assert "staticExtensionClasses" + "=" == "staticExtensionClasses=";
    assert HEADING == "moduleName=merged-by-jrs\n" + "moduleVersion=1.0\n";
    assert HEADING + (a + b) == HEADING + a + b;
  }

  lemma ClassLineIs(key: string, classes: seq<string>)
    ensures ClassLine(key, classes) == if classes == [] then "" else (key + "=") + Listed(classes) + "\n"
  {
    hide Listed, Join;
    ListedIsJoined(classes);
    assert key + ("=" + Listed(classes)) == (key + "=") + Listed(classes);
  }
}
