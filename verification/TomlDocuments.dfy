/** Documents. */
module TomlDocuments {
  // Documents as trees. A document is its items, one below the other; it reads as these items, whatever is
  // written inside strings, brackets and comments.

  import opened Wrappers
  import opened Text
  import opened TomlKeys
  import opened TomlLexer
  import opened TomlDoc
  import opened TomlLines
  import opened TomlValues
  import opened TomlValueScan
  import opened TomlItems
  import Trees = TomlKeyTrees

  // ---- the text -------------------------------------------------------------------------------------

  predicate OkItems(items: seq<Item>) {
    forall item <- items :: OkItem(item)
  }

  /** All lines of all items. */
  function AllLines(items: seq<Item>): seq<string> {
    if items == [] then [] else ItemLines(items[0]) + AllLines(items[1..])
  }

  /** Lines, each with its ending. */
  function Joined(texts: seq<string>, endings: seq<string>): string
    requires |texts| == |endings|
  {
    if texts == [] then [] else texts[0] + endings[0] + Joined(texts[1..], endings[1..])
  }

  /** The endings lines may have: a line feed, with a carriage return or without, on every line but perhaps the
      last; no line holds a line feed of its own. */
  predicate OkEndings(texts: seq<string>, endings: seq<string>) {
    && |texts| == |endings|
    && forall k :: 0 <= k < |texts| ==>
         && '\n' !in texts[k]
         && (endings[k] == "\n" || endings[k] == "\r\n" || (endings[k] == [] && k == |texts| - 1 && texts[k] != []))
         && (endings[k] == "\n" ==> !EndsWith(texts[k], '\r'))
  }

  function Written(items: seq<Item>, endings: seq<string>): string
    requires |endings| == |AllLines(items)|
  {
    Joined(AllLines(items), endings)
  }

  // ---- as the reader's lines ------------------------------------------------------------------------

  /** Where item `j` begins. */
  function First(items: seq<Item>, j: nat): nat
    requires j <= |items|
  {
    |AllLines(items[..j])|
  }

  function ItemKind(item: Item, m: nat): Kind {
    if m == 0 then Classify(CLOSED, ItemLines(item)[0]).0 else Continuation
  }

  function ItemKinds(item: Item): (kinds: seq<Kind>)
    ensures |kinds| == |ItemLines(item)| && forall m :: 0 <= m < |kinds| ==> kinds[m] == ItemKind(item, m)
  {
    seq(|ItemLines(item)|, m requires m >= 0 => ItemKind(item, m))
  }

  function AllKinds(items: seq<Item>): (kinds: seq<Kind>)
    ensures |kinds| == |AllLines(items)|
  {
    if items == [] then [] else ItemKinds(items[0]) + AllKinds(items[1..])
  }

  function AsLines(texts: seq<string>, endings: seq<string>, kinds: seq<Kind>): (lines: seq<Line>)
    requires |texts| == |endings| == |kinds|
    ensures |lines| == |texts| && forall k :: 0 <= k < |lines| ==> lines[k] == Line(texts[k], endings[k], kinds[k])
  {
    seq(|texts|, k requires 0 <= k < |texts| => Line(texts[k], endings[k], kinds[k]))
  }

  function LinesOf(items: seq<Item>, endings: seq<string>): (lines: seq<Line>)
    requires |endings| == |AllLines(items)|
    ensures |lines| == |endings|
  {
    AsLines(AllLines(items), endings, AllKinds(items))
  }

  lemma {:induction false} JoinedIsUnparsed(texts: seq<string>, endings: seq<string>, kinds: seq<Kind>)
    requires |texts| == |endings| == |kinds|
    ensures Unparse(AsLines(texts, endings, kinds)) == Joined(texts, endings)
  {
    if texts != [] {
      JoinedIsUnparsed(texts[1..], endings[1..], kinds[1..]);
      assert AsLines(texts, endings, kinds)[1..] == AsLines(texts[1..], endings[1..], kinds[1..]);
    }
  }

  // ---- every line is what its item says -------------------------------------------------------------

  lemma {:induction false} InsideLexed(st: State, texts: seq<string>, endings: seq<string>, kinds: seq<Kind>)
    requires |texts| == |endings| == |kinds| && texts != [] && st != CLOSED
    requires forall k :: 0 <= k < |kinds| ==> kinds[k] == Continuation
    requires forall k :: 0 <= k < |texts| - 1 ==> Track(st, texts)[k].0 != CLOSED
    ensures var lines := AsLines(texts, endings, kinds);
            Lexed(st, lines) && StateAfter(st, lines) == Track(st, texts)[|texts| - 1].0
    decreases |texts|
  {
    hide Scan;
    var lines := AsLines(texts, endings, kinds);
    var next := Scan(st, texts[0], 0).0;
    assert Classify(st, texts[0]) == (Continuation, next);
    assert Track(st, texts)[0].0 == next;
    var rest := AsLines(texts[1..], endings[1..], kinds[1..]);
    assert lines[1..] == rest;
    if |texts| > 1 {
      assert Track(st, texts)[1..] == Track(next, texts[1..]);
      assert forall k :: 0 <= k < |texts| - 2 ==> Track(next, texts[1..])[k] == Track(st, texts)[k + 1];
      InsideLexed(next, texts[1..], endings[1..], kinds[1..]);
    } else {
      assert rest == [];
    }
  }

  lemma EnteredLexed(item: Item, endings: seq<string>)
    requires item.Entered? && OkItem(item) && |endings| == |ItemLines(item)|
    ensures var lines := AsLines(ItemLines(item), endings, ItemKinds(item));
            Lexed(CLOSED, lines) && StateAfter(CLOSED, lines) == CLOSED
  {
    hide Scan, Classify, Track, OkItem, ReadsAs;
    var texts, values := ItemLines(item), ValueLines(item.value, item.trail);
    var lines := AsLines(texts, endings, ItemKinds(item));
    PairLineRead(item);
    OkEntered(item);
    ValueTracked(item.value, item.trail);
    var st := Classify(CLOSED, texts[0]).1;
    assert texts[1..] == values[1..];
    var rest := AsLines(texts[1..], endings[1..], ItemKinds(item)[1..]);
    assert lines[1..] == rest;
    if |texts| > 1 {
      TrackRest(CLOSED, values);
      assert forall k :: 0 <= k < |texts| - 2 ==> Track(st, texts[1..])[k] == Track(CLOSED, values)[k + 1];
      InsideLexed(st, texts[1..], endings[1..], ItemKinds(item)[1..]);
    } else {
      assert rest == [];
    }
  }

  lemma OkEntered(item: Item)
    requires item.Entered? && OkItem(item)
    ensures OkValue(item.value) && Trees.IsBlank(item.trail.blank)
  {
  }

  lemma TrackRest(st: State, lines: seq<string>)
    requires |lines| > 1
    ensures Track(st, lines)[1..] == Track(Track(st, lines)[0].0, lines[1..])
  {
    hide Scan;
  }

  lemma ItemLexed(item: Item, endings: seq<string>)
    requires OkItem(item) && |endings| == |ItemLines(item)|
    ensures var lines := AsLines(ItemLines(item), endings, ItemKinds(item));
            Lexed(CLOSED, lines) && StateAfter(CLOSED, lines) == CLOSED
  {
    hide Classify;
    var lines := AsLines(ItemLines(item), endings, ItemKinds(item));
    if item.Entered? {
      EnteredLexed(item, endings);
    } else {
      OtherItemRead(item);
      assert lines[1..] == [];
    }
  }

  lemma OtherItemRead(item: Item)
    requires OkItem(item) && !item.Entered?
    ensures ReadsAs(item, ItemLines(item)[0], Classify(CLOSED, ItemLines(item)[0]).0)
    ensures Classify(CLOSED, ItemLines(item)[0]).1 == CLOSED && |ItemLines(item)| == 1
  {
    hide Classify;
    match item
    case Empty(blank) => EmptyRead(blank);
    case Remark(indent, text) => RemarkRead(indent, text);
    case Head(_, _, _, _) => HeadLineRead(item);
  }

  /** The line an item begins on reads as the item. */
  lemma ItemRead(item: Item)
    requires OkItem(item)
    ensures ReadsAs(item, ItemLines(item)[0], ItemKind(item, 0))
  {
    hide Classify, ReadsAs, OkItem;
    if item.Entered? {
      PairLineRead(item);
    } else {
      OtherItemRead(item);
    }
  }

  lemma LinesSplit(items: seq<Item>, endings: seq<string>)
    requires |endings| == |AllLines(items)| && items != []
    ensures var n := |ItemLines(items[0])|;
            LinesOf(items, endings)
            == AsLines(ItemLines(items[0]), endings[..n], ItemKinds(items[0])) + LinesOf(items[1..], endings[n..])
  {
    hide Classify, ItemLines, ItemKinds;
    var n := |ItemLines(items[0])|;
    var a, b := AsLines(ItemLines(items[0]), endings[..n], ItemKinds(items[0])), LinesOf(items[1..], endings[n..]);
    var all := LinesOf(items, endings);
    forall k | 0 <= k < |all|
      ensures all[k] == (a + b)[k]
    {
    }
  }

  lemma {:induction false} AllLexed(items: seq<Item>, endings: seq<string>)
    requires OkItems(items) && |endings| == |AllLines(items)|
    ensures Lexed(CLOSED, LinesOf(items, endings)) && StateAfter(CLOSED, LinesOf(items, endings)) == CLOSED
    decreases |items|
  {
    hide Classify, OkItem, ItemLines, Lexed, StateAfter;
    if items == [] {
      NothingLexed();
    } else {
      var n := |ItemLines(items[0])|;
      var head := AsLines(ItemLines(items[0]), endings[..n], ItemKinds(items[0]));
      assert items[0] in items && forall x <- items[1..] :: x in items;
      ItemLexed(items[0], endings[..n]);
      AllLexed(items[1..], endings[n..]);
      LinesSplit(items, endings);
      LexedConcat(CLOSED, head, LinesOf(items[1..], endings[n..]));
      StateAfterConcat(CLOSED, head, LinesOf(items[1..], endings[n..]));
    }
  }

  lemma NothingLexed()
    ensures Lexed(CLOSED, []) && StateAfter(CLOSED, []) == CLOSED
  {
  }

  /** A document reads as its items: the lines are theirs, with their endings; each begins with the line that reads
      as it, and all its other lines are continuations. */
  lemma DocumentIsRead(items: seq<Item>, endings: seq<string>)
    requires OkItems(items) && OkEndings(AllLines(items), endings)
    ensures DocOf(Written(items, endings)).lines == LinesOf(items, endings)
  {
    hide Classify, OkItem, ItemLines, Lexed, StateAfter, Unparse, ParseLines;
    var lines := LinesOf(items, endings);
    AllLexed(items, endings);
    JoinedIsUnparsed(AllLines(items), endings, AllKinds(items));
    assert forall k :: 0 <= k < |lines| ==> ProperLine(lines[k], k == |lines| - 1);
    ParseUnparse(CLOSED, lines);
  }
}
