/** Edits. */
module TomlTreeEdits {
  // Edits of documents as trees. What an edit finds in a document, and what it leaves, told from the document's
  // items alone.

  import opened Wrappers
  import opened Text
  import opened TomlKeys
  import opened TomlLexer
  import opened TomlDoc
  import opened TomlLines
  import opened TomlEdit
  import opened TomlAdd
  import opened TomlEntries
  import opened TomlValues
  import opened TomlItems
  import opened TomlDocuments
  import Trees = TomlKeyTrees

  // ---- what the items say ---------------------------------------------------------------------------

  function NamesOf(item: Item): seq<string>
    requires OkItem(item)
  {
    match item
    case Head(_, _, key, _) => Trees.Names(key)
    case Entered(_, key, _, _, _) => Trees.Names(key)
    case _ => []
  }

  /** A header of just this section, in single brackets or in double ones. */
  predicate IsHeadOf(item: Item, section: string)
    requires OkItem(item)
  {
    item.Head? && NamesOf(item) == [section]
  }

  /** A pair whose key is this one, alone or at the head of a dotted key. */
  predicate IsPairOf(item: Item, key: string)
    requires OkItem(item)
  {
    item.Entered? && NamesOf(item)[0] == key
  }

  /** A table of its own for the key. */
  predicate IsTableOf(item: Item, section: string, key: string)
    requires OkItem(item)
  {
    item.Head? && |NamesOf(item)| >= 2 && NamesOf(item)[0] == section && NamesOf(item)[1] == key
  }

  /** The next header from item `i` on. */
  function NextHead(items: seq<Item>, i: nat): (n: nat)
    requires i <= |items|
    ensures i <= n <= |items|
    ensures forall j :: i <= j < n ==> !items[j].Head?
    ensures n < |items| ==> items[n].Head?
    decreases |items| - i
  {
    if i < |items| && !items[i].Head? then NextHead(items, i + 1) else i
  }

  predicate Well(items: seq<Item>) {
    forall j :: 0 <= j < |items| ==> OkItem(items[j])
  }

  /** One header names the section, in single brackets. */
  predicate SectionIsAt(items: seq<Item>, section: string, h: nat)
    requires Well(items)
  {
    && h < |items| && IsHeadOf(items[h], section) && !items[h].double
    && forall j :: 0 <= j < |items| && j != h ==> !IsHeadOf(items[j], section)
  }

  /** The key has no table of its own, and the section is not spelled out above all headers. */
  predicate NotElsewhere(items: seq<Item>, section: string, key: string)
    requires Well(items)
  {
    && (forall j :: 0 <= j < |items| ==> !IsTableOf(items[j], section, key))
    && forall j :: 0 <= j < NextHead(items, 0) ==> !IsPairOf(items[j], section)
  }

  /** One pair of the section has the key. */
  predicate PairIsAt(items: seq<Item>, h: nat, key: string, j: nat)
    requires Well(items) && h < |items|
  {
    && h < j < NextHead(items, h + 1) && items[j].Entered? && NamesOf(items[j]) == [key]
    && forall i :: h < i < NextHead(items, h + 1) && i != j ==> !IsPairOf(items[i], key)
  }

  predicate NoPair(items: seq<Item>, h: nat, key: string)
    requires Well(items) && h < |items|
  {
    forall i :: h < i < NextHead(items, h + 1) ==> !IsPairOf(items[i], key)
  }

  // ---- where the items are --------------------------------------------------------------------------

  lemma {:induction false} LinesConcat(a: seq<Item>, b: seq<Item>)
    ensures AllLines(a + b) == AllLines(a) + AllLines(b) && AllKinds(a + b) == AllKinds(a) + AllKinds(b)
  {
    hide ItemLines, ItemKinds;
    if a == [] {
      assert a + b == b;
    } else {
      assert (a + b)[1..] == a[1..] + b;
      LinesConcat(a[1..], b);
      LinesMore(a[0], a[1..]);
      LinesMore(a[0], a[1..] + b);
      assert [a[0]] + a[1..] == a && [a[0]] + (a[1..] + b) == a + b;
      var x, u := ItemLines(a[0]), ItemKinds(a[0]);
      assert x + (AllLines(a[1..]) + AllLines(b)) == (x + AllLines(a[1..])) + AllLines(b);
      assert u + (AllKinds(a[1..]) + AllKinds(b)) == (u + AllKinds(a[1..])) + AllKinds(b);
    }
  }

  lemma LinesMore(item: Item, items: seq<Item>)
    ensures AllLines([item] + items) == ItemLines(item) + AllLines(items)
    ensures AllKinds([item] + items) == ItemKinds(item) + AllKinds(items)
  {
    hide ItemLines, ItemKinds;
    assert ([item] + items)[1..] == items;
  }

  /** Item `j` takes the lines from its first on. */
  lemma ItemStands(items: seq<Item>, j: nat)
    requires j < |items|
    ensures First(items, j + 1) == First(items, j) + |ItemLines(items[j])| <= |AllLines(items)|
    ensures forall m :: 0 <= m < |ItemLines(items[j])| ==>
              AllLines(items)[First(items, j) + m] == ItemLines(items[j])[m] && AllKinds(items)[First(items, j) + m] == ItemKind(items[j], m)
  {
    hide ItemLines, ItemKind, AllLines, AllKinds;
    var a, b := items[..j], items[j + 1..];
    assert items == a + ([items[j]] + b) && items[..j + 1] == a + [items[j]];
    LinesConcat(a, [items[j]] + b);
    LinesConcat(a, [items[j]]);
    LinesMore(items[j], b);
    LinesMore(items[j], []);
    NoLines();
    assert [items[j]] + [] == [items[j]];
  }

  lemma NoLines()
    ensures AllLines([]) == [] && AllKinds([]) == []
  {
  }

  lemma {:induction false} FirstGrows(items: seq<Item>, i: nat, j: nat)
    requires i < j <= |items|
    ensures First(items, i) < First(items, j) <= |AllLines(items)|
    decreases j - i
  {
    hide ItemLines, First, AllLines;
    ItemStands(items, i);
    if i + 1 < j {
      FirstGrows(items, i + 1, j);
    }
  }

  lemma FirstEnds(items: seq<Item>)
    ensures First(items, 0) == 0 && First(items, |items|) == |AllLines(items)|
  {
    assert items[..0] == [] && items[..|items|] == items;
  }

  /** Every line is some item's. */
  lemma {:induction false} LineHasItem(items: seq<Item>, k: nat, upTo: nat) returns (j: nat)
    requires upTo <= |items| && k < First(items, upTo)
    ensures j < upTo && First(items, j) <= k < First(items, j + 1)
    decreases upTo
  {
    hide ItemLines, AllLines, First;
    FirstEnds(items);
    if First(items, upTo - 1) <= k {
      j := upTo - 1;
    } else {
      j := LineHasItem(items, k, upTo - 1);
    }
  }

  // ---- what the reader's lines are to the edit ------------------------------------------------------

  /** The line an item begins on has the part in the document that the item has. */
  lemma ItemRole(item: Item, line: Line, section: string, key: string)
    requires OkItem(item) && line.kind == ItemKind(item, 0)
    ensures line.kind.Header? <==> item.Head?
    ensures item.Head? ==> line.kind.double == item.double
    ensures Names(line, section) <==> IsHeadOf(item, section)
    ensures IsKeyTable(line, section, key) <==> IsTableOf(item, section, key)
    ensures Declares(line, key) <==> IsPairOf(item, key)
    ensures item.Entered? ==> line.kind.Entry? && line.kind.pair.Some? && line.kind.pair.value.path == NamesOf(item)
  {
    hide ItemKind, ItemLines, Lines, ValueLines;
    ItemRead(item);
  }

  lemma RoleOf(items: seq<Item>, endings: seq<string>, k: nat, section: string, key: string) returns (j: nat)
    requires Well(items) && |endings| == |AllLines(items)| && k < |AllLines(items)|
    ensures j < |items| && First(items, j) <= k < First(items, j + 1)
    ensures var line := LinesOf(items, endings)[k];
            if k == First(items, j) then
              && (line.kind.Header? <==> items[j].Head?)
              && (items[j].Head? ==> line.kind.double == items[j].double)
              && (Names(line, section) <==> IsHeadOf(items[j], section))
              && (IsKeyTable(line, section, key) <==> IsTableOf(items[j], section, key))
              && (Declares(line, key) <==> IsPairOf(items[j], key))
            else line.kind == Continuation
  {
    hide ItemLines, AllLines, First, ItemKind, Names, Declares, IsKeyTable, IsHeadOf, IsTableOf, IsPairOf, OkItem,
         AllKinds;
    FirstEnds(items);
    j := LineHasItem(items, k, |items|);
    ItemStands(items, j);
    var m := k - First(items, j);
    assert LinesOf(items, endings)[k].kind == AllKinds(items)[First(items, j) + m] == ItemKind(items[j], m);
    if m == 0 {
      ItemRole(items[j], LinesOf(items, endings)[k], section, key);
    } else {
      InsideItem(items[j], m);
    }
  }

  lemma InsideItem(item: Item, m: nat)
    requires m > 0
    ensures ItemKind(item, m) == Continuation
  {
  }

  lemma FirstLineOf(items: seq<Item>, endings: seq<string>, j: nat, section: string, key: string)
    requires Well(items) && |endings| == |AllLines(items)| && j < |items|
    ensures First(items, j) < |AllLines(items)|
    ensures var line := LinesOf(items, endings)[First(items, j)];
            && line.text == ItemLines(items[j])[0] && line.kind == ItemKind(items[j], 0)
            && (line.kind.Header? <==> items[j].Head?)
            && (items[j].Head? ==> line.kind.double == items[j].double)
            && (Names(line, section) <==> IsHeadOf(items[j], section))
            && (Declares(line, key) <==> IsPairOf(items[j], key))
            && (items[j].Entered? ==> line.kind.Entry? && line.kind.pair.Some? && line.kind.pair.value.path == NamesOf(items[j]))
  {
    hide ItemLines, AllLines, First, ItemKind, Names, Declares, IsKeyTable, IsHeadOf, IsTableOf, IsPairOf, OkItem,
         AllKinds, NamesOf;
    ItemStands(items, j);
    assert LinesOf(items, endings)[First(items, j) + 0].kind == ItemKind(items[j], 0);
    ItemRole(items[j], LinesOf(items, endings)[First(items, j)], section, key);
  }

  lemma SectionIsRead(items: seq<Item>, endings: seq<string>, section: string, h: nat)
    requires Well(items) && |endings| == |AllLines(items)| && SectionIsAt(items, section, h)
    ensures SectionIs(LinesOf(items, endings), section, First(items, h))
  {
    hide ItemLines, AllLines, First, LinesOf, OkItem, NamesOf;
    var lines := LinesOf(items, endings);
    FirstLineOf(items, endings, h, section, section);
    forall k | 0 <= k < |lines| && k != First(items, h)
      ensures !Names(lines[k], section)
    {
      var j := RoleOf(items, endings, k, section, section);
      NoNameInside(lines[k], section);
    }
  }

  lemma NoNameInside(line: Line, section: string)
    ensures line.kind == Continuation ==> !Names(line, section) && !Declares(line, section) && !line.kind.Header?
  {
  }

  lemma NextHeadIsRead(items: seq<Item>, endings: seq<string>, i: nat, from: nat)
    requires Well(items) && |endings| == |AllLines(items)| && i <= |items|
    requires from == First(items, i) || (i > 0 && from == First(items, i - 1) + 1)
    ensures from <= |AllLines(items)|
    ensures First(items, NextHead(items, i)) <= |AllLines(items)|
    ensures NextHeader(LinesOf(items, endings), from) == First(items, NextHead(items, i))
  {
    hide ItemLines, AllLines, First, Names, LinesOf, OkItem, NextHeader, NextHead;
    var lines, n := LinesOf(items, endings), NextHead(items, i);
    FirstEnds(items);
    Bounds(items, i, n, from);
    forall k | from <= k < First(items, n)
      ensures !lines[k].kind.Header?
    {
      var j := RoleOf(items, endings, k, "", "");
      if k == First(items, j) {
        Between(items, i, n, from, j);
      }
    }
    if n < |items| {
      FirstLineOf(items, endings, n, "", "");
    }
    NextHeaderIs(lines, from, First(items, n));
  }

  lemma Bounds(items: seq<Item>, i: nat, n: nat, from: nat)
    requires i <= n <= |items| && (from == First(items, i) || (i > 0 && from == First(items, i - 1) + 1))
    ensures from <= First(items, n) <= |AllLines(items)|
  {
    hide First, AllLines;
    FirstEnds(items);
    if i < n {
      FirstGrows(items, i, n);
    }
    if i > 0 {
      FirstGrows(items, i - 1, i);
    }
    if n < |items| {
      FirstGrows(items, n, |items|);
    }
  }

  /** An item that begins between two others is between them. */
  lemma Between(items: seq<Item>, i: nat, n: nat, from: nat, j: nat)
    requires i <= n <= |items| && j < |items| && (from == First(items, i) || (i > 0 && from == First(items, i - 1) + 1))
    requires from <= First(items, j) < First(items, n)
    ensures i <= j < n
  {
    hide First;
    if j >= n && j > n {
      FirstGrows(items, n, j);
    }
    if j < i {
      FirstGrows(items, j, i);
      if j < i - 1 {
        FirstGrows(items, j, i - 1);
      }
    }
  }

  lemma ElsewhereIsRead(items: seq<Item>, endings: seq<string>, section: string, key: string)
    requires Well(items) && |endings| == |AllLines(items)| && NotElsewhere(items, section, key)
    ensures OnlyInSection(LinesOf(items, endings), section, key)
    ensures ElsewhereFrom(LinesOf(items, endings), 0, true, section, key) == None
  {
    hide ItemLines, AllLines, First, LinesOf, OkItem, NamesOf, Names, Declares, IsHeadOf, IsPairOf, IsTableOf,
         NextHeader, NextHead, IsKeyTable, ElsewhereFrom;
    var lines := LinesOf(items, endings);
    FirstEnds(items);
    NextHeadIsRead(items, endings, 0, 0);
    forall k | 0 <= k < |lines|
      ensures !IsKeyTable(lines[k], section, key)
    {
      var j := RoleOf(items, endings, k, section, key);
      NoTableInside(lines[k], section, key);
    }
    forall k | 0 <= k < NextHeader(lines, 0)
      ensures !Declares(lines[k], section)
    {
      var j := RoleOf(items, endings, k, section, section);
      if k == First(items, j) {
        Between(items, 0, NextHead(items, 0), 0, j);
      } else {
        NoNameInside(lines[k], section);
      }
    }
    ElsewhereIs(lines, 0, section, key);
  }

  lemma NoTableInside(line: Line, section: string, key: string)
    ensures line.kind == Continuation ==> !IsKeyTable(line, section, key)
  {
  }

  /** The pairs of a section. */
  lemma NoPairIsRead(items: seq<Item>, endings: seq<string>, h: nat, key: string, k: nat)
    requires Well(items) && |endings| == |AllLines(items)| && h < |items|
    requires First(items, h) + 1 <= k < First(items, NextHead(items, h + 1))
    ensures k < |AllLines(items)|
    ensures Declares(LinesOf(items, endings)[k], key) ==>
              exists j :: h < j < NextHead(items, h + 1) && k == First(items, j) && IsPairOf(items[j], key)
  {
    hide ItemLines, AllLines, First, LinesOf, OkItem, NamesOf, Names, Declares, IsHeadOf, IsPairOf, IsTableOf, NextHead;
    var lines := LinesOf(items, endings);
    Bounds(items, h + 1, NextHead(items, h + 1), First(items, h) + 1);
    var j := RoleOf(items, endings, k, key, key);
    if k == First(items, j) {
      Between(items, h + 1, NextHead(items, h + 1), First(items, h) + 1, j);
    } else {
      NoNameInside(lines[k], key);
    }
  }

  lemma PairIsRead(items: seq<Item>, endings: seq<string>, h: nat, key: string, j: nat)
    requires Well(items) && |endings| == |AllLines(items)| && h < |items| && PairIsAt(items, h, key, j)
    ensures First(items, h) + 1 <= |AllLines(items)|
    ensures var lines := LinesOf(items, endings);
            EntryIsAt(lines, First(items, h) + 1, NextHeader(lines, First(items, h) + 1), key, First(items, j))
  {
    hide ItemLines, AllLines, First, LinesOf, OkItem, Declares, IsHeadOf, IsTableOf, NextHead, NextHeader;
    var lines := LinesOf(items, endings);
    NextHeadIsRead(items, endings, h + 1, First(items, h) + 1);
    FirstGrows(items, h, j);
    FirstGrows(items, j, NextHead(items, h + 1));
    FirstLineOf(items, endings, j, key, key);
    assert IsPairOf(items[j], key);
    var end := NextHeader(lines, First(items, h) + 1);
    forall k | First(items, h) + 1 <= k < end && k != First(items, j)
      ensures !Declares(lines[k], key)
    {
      NoPairIsRead(items, endings, h, key, k);
    }
  }

  // ---- the edits ------------------------------------------------------------------------------------

  ghost predicate IsDocument(items: seq<Item>, endings: seq<string>) {
    Well(items) && OkEndings(AllLines(items), endings)
  }

  lemma DocumentLines(items: seq<Item>, endings: seq<string>)
    requires IsDocument(items, endings)
    ensures |endings| == |AllLines(items)| && DocOf(Written(items, endings)).lines == LinesOf(items, endings)
  {
    hide LinesOf, DocOf, OkItem, AllLines;
    forall item | item in items
      ensures OkItem(item)
    {
      var j :| 0 <= j < |items| && items[j] == item;
    }
    DocumentIsRead(items, endings);
  }

  /** The edit of an entry it finds. */
  lemma UpsertUnfolds(text: string, section: string, key: string, value: string, h: nat, k: nat)
    requires '\n' !in value && '\r' !in value
    requires var lines := DocOf(text).lines;
             && h < k < |lines| && h + 1 <= NextHeader(lines, h + 1)
             && ElsewhereFrom(lines, 0, true, section, key) == None
             && SectionFrom(lines, 0, None, section) == Ok(Some(h))
             && EntryFrom(lines, h + 1, NextHeader(lines, h + 1), None, key) == Ok(Some(k))
             && lines[k].kind.Entry? && lines[k].kind.pair.Some?
             && lines[k].kind.pair.value.start <= lines[k].kind.pair.value.end <= |lines[k].text|
    ensures var line := DocOf(text).lines[k];
            var p := line.kind.pair.value;
            Upserted(text, section, key, value)
            == if line.kind.multiLine then Err(SpansLines)
               else Ok(Replaced(Unparse(WithLine(DocOf(text).lines, k, WithValue(line.text, p.start, p.end, value))),
                                line.text[p.start..p.end]))
  {
    hide DocOf, SectionFrom, EntryFrom, ElsewhereFrom, NextHeader, SectionIs, EntryIsAt, Unparse, WithLine, WithValue;
    SectionFound(DocOf(text).lines, 0, None, section);
  }

  /** The key's pair takes several lines: the edit refuses it. */
  lemma UpsertRefuses(
    items: seq<Item>, endings: seq<string>, section: string, key: string, value: string, h: nat, j: nat)
    requires IsDocument(items, endings) && SectionIsAt(items, section, h) && PairIsAt(items, h, key, j) &&
             NotElsewhere(items, section, key)
    requires '\n' !in value && '\r' !in value && |Lines(items[j].value)| > 1
    ensures Upserted(Written(items, endings), section, key, value) == Err(SpansLines)
  {
    hide DocOf, LinesOf, Written, First, AllLines, OkItem, NotElsewhere, SectionFrom, EntryFrom, ElsewhereFrom,
         NextHeader,
         ItemKind, ItemLines, Lines, NextHead, OkEndings, ValueLines, KeyText, Unparse, WithLine, WithValue, Joined, TrailText, Upserted, IsDocument, PairIsAt;
    DocumentIsWell(items, endings);
    PairIsEntered(items, h, key, j);
    Found(items, endings, section, key, h, j);
    PairKind(items, endings, j);
    var line := LinesOf(items, endings)[First(items, j)];
    ReadRange(items[j], line.text, line.kind);
    UpsertUnfolds(Written(items, endings), section, key, value, First(items, h), First(items, j));
  }

  lemma DocumentIsWell(items: seq<Item>, endings: seq<string>)
    requires IsDocument(items, endings)
    ensures Well(items) && |endings| == |AllLines(items)|
  {
  }

  lemma PairIsEntered(items: seq<Item>, h: nat, key: string, j: nat)
    requires Well(items) && h < |items| && PairIsAt(items, h, key, j)
    ensures h < j < NextHead(items, h + 1) <= |items| && OkItem(items[j]) && items[j].Entered?
  {
    hide OkItem;
  }

  lemma ReadRange(item: Item, line: string, kind: Kind)
    requires OkItem(item) && item.Entered? && ReadsAs(item, line, kind)
    ensures kind.Entry? && kind.pair.Some? && kind.pair.value.start <= kind.pair.value.end <= |line|
  {
    hide OkItem;
  }

  /** What the edit finds. */
  lemma Found(items: seq<Item>, endings: seq<string>, section: string, key: string, h: nat, j: nat)
    requires IsDocument(items, endings) && SectionIsAt(items, section, h) && PairIsAt(items, h, key, j) &&
             NotElsewhere(items, section, key)
    ensures |endings| == |AllLines(items)| && First(items, h) < First(items, j) < |AllLines(items)|
    ensures var lines := DocOf(Written(items, endings)).lines;
            && lines == LinesOf(items, endings)
            && ElsewhereFrom(lines, 0, true, section, key) == None
            && SectionFrom(lines, 0, None, section) == Ok(Some(First(items, h)))
            && NextHeader(lines, First(items, h) + 1) == First(items, NextHead(items, h + 1))
            && First(items, h) + 1 <= First(items, NextHead(items, h + 1)) <= |lines|
            && EntryFrom(lines, First(items, h) + 1, NextHeader(lines, First(items, h) + 1), None, key) == Ok(Some(First(items, j)))
  {
    hide DocOf, LinesOf, Written, First, AllLines, OkItem, NotElsewhere, SectionFrom, EntryFrom, ElsewhereFrom,
         NextHeader, OnlyInSection, NextHead, OkEndings,
         SectionIs;
    DocumentLines(items, endings);
    var lines := LinesOf(items, endings);
    SectionIsRead(items, endings, section, h);
    ElsewhereIsRead(items, endings, section, key);
    PairIsRead(items, endings, h, key, j);
    NextHeadIsRead(items, endings, h + 1, First(items, h) + 1);
    SectionIsFound(lines, 0, section, First(items, h));
    EntryIsFound(lines, First(items, h) + 1, First(items, h) + 1, NextHeader(lines, First(items, h) + 1), key, First(items, j));
    FirstGrows(items, h, j);
    FirstEnds(items);
    FirstGrows(items, j, |items|);
    FirstEndsAt(items);
  }

  lemma FirstEndsAt(items: seq<Item>)
    ensures First(items, |items|) == |AllLines(items)|
  {
    FirstEnds(items);
  }

  /** How the pair's line reads. */
  lemma PairKind(items: seq<Item>, endings: seq<string>, j: nat)
    requires Well(items) && |endings| == |AllLines(items)| && j < |items| && items[j].Entered?
    ensures First(items, j) < |AllLines(items)|
    ensures var line := LinesOf(items, endings)[First(items, j)];
            && line.text == ItemLines(items[j])[0] && line.kind.Entry? && line.kind.pair.Some?
            && (line.kind.multiLine <==> |Lines(items[j].value)| > 1)
            && ReadsAs(items[j], line.text, line.kind)
  {
    hide ItemLines, AllLines, First, Names, LinesOf, OkItem, ItemKind, Lines, ValueLines;
    FirstLineOf(items, endings, j, "", "");
    ItemRead(items[j]);
    EnteredLines(items[j]);
  }

  lemma EnteredLines(item: Item)
    requires OkItem(item) && item.Entered?
    ensures |ValueLines(item.value, item.trail)| == |Lines(item.value)| == |ItemLines(item)|
  {
    hide Lines;
    ValueFirst(item.value, item.trail);
  }

  /** The key's pair takes one line: the edit exchanges the value on it, and says what it was. */
  lemma UpsertReplaces(
    items: seq<Item>, endings: seq<string>, section: string, key: string, value: string, h: nat, j: nat)
    requires IsDocument(items, endings) && SectionIsAt(items, section, h) && PairIsAt(items, h, key, j) &&
             NotElsewhere(items, section, key)
    requires '\n' !in value && '\r' !in value && |Lines(items[j].value)| == 1
    ensures First(items, j) < |AllLines(items)| == |endings|
    ensures var Entered(indent, path, blank, previous, trail) := items[j];
            var line := indent + KeyText(path, "=" + (blank + (value + TrailText(trail))));
            Upserted(Written(items, endings), section, key, value)
            == Ok(Replaced(Joined(AllLines(items)[First(items, j) := line], endings), Lines(previous)[0]))
  {
    hide DocOf, LinesOf, Written, First, AllLines, OkItem, NotElsewhere, SectionFrom, EntryFrom, ElsewhereFrom,
         NextHeader,
         ItemKind, ItemLines, Lines, NextHead, OkEndings, ValueLines, KeyText, Unparse, WithLine, WithValue, Joined, TrailText, Upserted, IsDocument, PairIsAt;
    DocumentIsWell(items, endings);
    PairIsEntered(items, h, key, j);
    Found(items, endings, section, key, h, j);
    PairKind(items, endings, j);
    var lines, k := LinesOf(items, endings), First(items, j);
    ReadRange(items[j], lines[k].text, lines[k].kind);
    UpsertUnfolds(Written(items, endings), section, key, value, First(items, h), k);
    OneLineAgain(items[j], lines[k].text, lines[k].kind, value);
    TextSwapped(items, endings, k, WithValue(lines[k].text, lines[k].kind.pair.value.start, lines[k].kind.pair.value.end, value));
  }

  function KeyText(key: seq<Trees.KeyPart>, rest: string): string {
    Trees.KeyThen(key, rest)
  }

  lemma OneLineAgain(item: Item, line: string, kind: Kind, value: string)
    requires OkItem(item) && item.Entered? && line == ItemLines(item)[0] && ReadsAs(item, line, kind) &&
             |Lines(item.value)| == 1
    ensures kind.Entry? && kind.pair.Some? && kind.pair.value.start <= kind.pair.value.end <= |line|
    ensures var pair := kind.pair.value;
            && WithValue(line, pair.start, pair.end, value)
               == item.indent + KeyText(item.key, "=" + (item.blank + (value + TrailText(item.trail))))
            && line[pair.start..pair.end] == Lines(item.value)[0]
  {
    hide Lines, TrailText, ValueLines, OkItem;
    EnteredLines(item);
    OkEntered(item);
    ValueFirst(item.value, item.trail);
    var first, trail := Lines(item.value)[0], TrailText(item.trail);
    var pair := kind.pair.value;
    var head := item.indent + KeyText(item.key, "=" + item.blank);
    LineParts(item.indent, item.key, item.blank, first + trail);
    LineParts(item.indent, item.key, item.blank, value + trail);
    assert line == head + (first + trail);
    PrefixBefore(line, head, first + trail, pair.start);
    assert line[pair.end..] == line[pair.start..][|first|..] == trail;
    assert line[pair.start..pair.end] == line[pair.start..][..|first|] == first;
  }

  lemma PrefixBefore(line: string, head: string, rest: string, start: nat)
    requires line == head + rest && start <= |line| && line[start..] == rest
    ensures start == |head| && line[..start] == head
  {
    assert |line[start..]| == |rest|;
  }

  lemma LineParts(indent: string, key: seq<Trees.KeyPart>, blank: string, rest: string)
    ensures indent + KeyText(key, "=" + (blank + rest)) == (indent + KeyText(key, "=" + blank)) + rest
  {
    assert "=" + (blank + rest) == ("=" + blank) + rest;
    KeyThenMore(key, "=" + blank, rest);
    var k := KeyText(key, "=" + blank);
    assert indent + (k + rest) == (indent + k) + rest;
  }

  lemma TextSwapped(items: seq<Item>, endings: seq<string>, k: nat, line: string)
    requires |endings| == |AllLines(items)| && k < |endings|
    ensures Unparse(WithLine(LinesOf(items, endings), k, line)) == Joined(AllLines(items)[k := line], endings)
  {
    hide AllLines, AllKinds, Unparse, Joined;
    var texts := AllLines(items)[k := line];
    assert WithLine(LinesOf(items, endings), k, line) == AsLines(texts, endings, AllKinds(items));
    JoinedIsUnparsed(texts, endings, AllKinds(items));
  }

  // ---- removing -------------------------------------------------------------------------------------

  lemma {:induction false} ContinuesTo(lines: seq<Line>, from: nat, n: nat, end: nat)
    requires from <= n <= end <= |lines| && (forall i :: from <= i < n ==> lines[i].kind.Continuation?)
    requires n < end ==> !lines[n].kind.Continuation?
    ensures ContinuationEnd(lines, from, end) == n
    decreases n - from
  {
    if from < n {
      ContinuesTo(lines, from + 1, n, end);
    }
  }

  lemma ItemEnds(items: seq<Item>, endings: seq<string>, h: nat, j: nat)
    requires Well(items) && |endings| == |AllLines(items)| && h < |items| && h < j < NextHead(items, h + 1)
    ensures First(items, j) < First(items, j + 1) <= First(items, NextHead(items, h + 1)) <= |AllLines(items)|
    ensures ContinuationEnd(LinesOf(items, endings), First(items, j) + 1, First(items, NextHead(items, h + 1))) == First(items, j + 1)
  {
    hide ItemLines, AllLines, First, LinesOf, OkItem, NextHead, ItemKind, AllKinds, Names, Declares;
    var lines, end := LinesOf(items, endings), NextHead(items, h + 1);
    FirstGrows(items, j, j + 1);
    FirstEndsAt(items);
    if j + 1 < end {
      FirstGrows(items, j + 1, end);
    }
    if end < |items| {
      FirstGrows(items, end, |items|);
    }
    forall k | First(items, j) + 1 <= k < First(items, j + 1)
      ensures lines[k].kind.Continuation?
    {
      var i := RoleOf(items, endings, k, "", "");
      SameItem(items, i, j, k);
    }
    if j + 1 < end {
      FirstLineOf(items, endings, j + 1, "", "");
      FirstIsNoContinuation(items[j + 1]);
    }
    ContinuesTo(lines, First(items, j) + 1, First(items, j + 1), First(items, end));
  }

  lemma SameItem(items: seq<Item>, i: nat, j: nat, k: nat)
    requires i < |items| && j < |items|
    requires First(items, i) <= k < First(items, i + 1) && First(items, j) <= k < First(items, j + 1)
    ensures i == j
  {
    hide First;
    if i < j && i + 1 < j {
      FirstGrows(items, i + 1, j);
    }
    if j < i && j + 1 < i {
      FirstGrows(items, j + 1, i);
    }
  }

  lemma FirstIsNoContinuation(item: Item)
    ensures ItemKind(item, 0) != Continuation
  {
  }

  /** The items without one, and the endings that are left. */
  function Without(items: seq<Item>, j: nat): seq<Item>
    requires j < |items|
  {
    items[..j] + items[j + 1..]
  }

  lemma LinesWithout(items: seq<Item>, endings: seq<string>, j: nat)
    requires |endings| == |AllLines(items)| && j < |items|
    ensures First(items, j) <= First(items, j + 1) <= |endings|
    ensures var k, n := First(items, j), First(items, j + 1);
            var left := endings[..k] + endings[n..];
            && |left| == |AllLines(Without(items, j))|
            && LinesOf(items, endings)[..k] + LinesOf(items, endings)[n..] == LinesOf(Without(items, j), left)
  {
    hide AllLines, AllKinds, ItemLines, ItemKinds;
    var a, b := items[..j], items[j + 1..];
    assert items == (a + [items[j]]) + b && items[..j + 1] == a + [items[j]];
    LinesConcat(a + [items[j]], b);
    LinesConcat(a, [items[j]]);
    LinesConcat(a, b);
    var k, n := First(items, j), First(items, j + 1);
    var lines := LinesOf(items, endings);
    var now := LinesOf(Without(items, j), endings[..k] + endings[n..]);
    forall i | 0 <= i < |now|
      ensures now[i] == (lines[..k] + lines[n..])[i]
    {
      if i < k {
        assert AllLines(items)[i] == AllLines(a)[i] && AllKinds(items)[i] == AllKinds(a)[i];
      } else {
        assert AllLines(items)[i - k + n] == AllLines(b)[i - k] && AllKinds(items)[i - k + n] == AllKinds(b)[i - k];
      }
    }
  }

  /** Removing takes out the pair with all its lines, whatever they look like, and nothing else. */
  lemma RemoveTakesThePair(items: seq<Item>, endings: seq<string>, section: string, key: string, h: nat, j: nat)
    requires IsDocument(items, endings) && SectionIsAt(items, section, h) && PairIsAt(items, h, key, j) &&
             NotElsewhere(items, section, key)
    ensures First(items, j) <= First(items, j + 1) <= |endings| == |AllLines(items)|
    ensures var left := endings[..First(items, j)] + endings[First(items, j + 1)..];
            && |left| == |AllLines(Without(items, j))|
            && Removed(Written(items, endings), section, key) == Ok(Some(Written(Without(items, j), left)))
  {
    hide DocOf, LinesOf, First, AllLines, OkItem, SectionIsAt, NotElsewhere, SectionFrom, EntryFrom, ElsewhereFrom,
         NextHeader, SectionIs, EntryIsAt,
         OnlyInSection, NextHead, OkEndings, Unparse, Joined, Spliced, ContinuationEnd, AsLines, AllKinds;
    Found(items, endings, section, key, h, j);
    ItemEnds(items, endings, h, j);
    LinesWithout(items, endings, j);
    var k, n := First(items, j), First(items, j + 1);
    var lines, left := LinesOf(items, endings), endings[..k] + endings[n..];
    TakenOut(DocOf(Written(items, endings)), k, n);
    UnparsedIsWritten(Without(items, j), left);
  }

  lemma UnparsedIsWritten(items: seq<Item>, endings: seq<string>)
    requires |endings| == |AllLines(items)|
    ensures Unparse(LinesOf(items, endings)) == Written(items, endings)
  {
    hide AllLines, AllKinds, Unparse, Joined;
    JoinedIsUnparsed(AllLines(items), endings, AllKinds(items));
  }

  lemma TakenOut(doc: Doc, k: nat, n: nat)
    requires k <= n <= |doc.lines|
    ensures Spliced(doc, k, n, []) == Unparse(doc.lines[..k] + doc.lines[n..])
  {
    hide Unparse;
    UnparseConcat(doc.lines[..k], doc.lines[n..]);
    var a, b := Unparse(doc.lines[..k]), Unparse(doc.lines[n..]);
    assert ((a + []) + []) + b == a + b;
  }

  // ---- finding nothing ------------------------------------------------------------------------------

  /** No header names the section: nothing is removed, and an addition creates it. */
  lemma SectionIsMissing(items: seq<Item>, endings: seq<string>, section: string, key: string, value: string)
    requires IsDocument(items, endings) && NotElsewhere(items, section, key)
    requires forall j :: 0 <= j < |items| ==> !IsHeadOf(items[j], section)
    ensures Removed(Written(items, endings), section, key) == Ok(None)
    ensures SectionFrom(DocOf(Written(items, endings)).lines, 0, None, section) == Ok(None)
    ensures '\n' !in value && '\r' !in value ==>
              Upserted(Written(items, endings), section, key, value).Ok? && Upserted(Written(items, endings), section, key, value).value.Added?
  {
    hide DocOf, LinesOf, First, AllLines, OkItem, NotElsewhere, SectionFrom, EntryFrom, ElsewhereFrom, NextHeader,
         SectionIs, EntryIsAt,
         OnlyInSection, NextHead, OkEndings, Names, NewSection, Spliced, Written, NewEntry;
    DocumentLines(items, endings);
    var lines := LinesOf(items, endings);
    ElsewhereIsRead(items, endings, section, key);
    forall k | 0 <= k < |lines|
      ensures !Names(lines[k], section)
    {
      var j := RoleOf(items, endings, k, section, key);
      NoNameInside(lines[k], section);
    }
    NothingNamed(lines, 0, section);
  }

  lemma {:induction false} NothingNamed(lines: seq<Line>, i: nat, section: string)
    requires i <= |lines| && forall k :: i <= k < |lines| ==> !Names(lines[k], section)
    ensures SectionFrom(lines, i, None, section) == Ok(None)
    decreases |lines| - i
  {
    if i < |lines| {
      NothingNamed(lines, i + 1, section);
    }
  }

  lemma {:induction false} NothingDeclared(lines: seq<Line>, i: nat, end: nat, key: string)
    requires i <= end <= |lines| && forall k :: i <= k < end ==> !Declares(lines[k], key)
    ensures EntryFrom(lines, i, end, None, key) == Ok(None)
    decreases end - i
  {
    if i < end {
      NothingDeclared(lines, i + 1, end, key);
    }
  }

  /** The section has no pair for the key: nothing is removed, and an addition adds one. */
  lemma PairIsMissing(items: seq<Item>, endings: seq<string>, section: string, key: string, value: string, h: nat)
    requires IsDocument(items, endings) && SectionIsAt(items, section, h) && NoPair(items, h, key) &&
             NotElsewhere(items, section, key)
    ensures Removed(Written(items, endings), section, key) == Ok(None)
    ensures '\n' !in value && '\r' !in value ==>
              Upserted(Written(items, endings), section, key, value).Ok? && Upserted(Written(items, endings), section, key, value).value.Added?
  {
    hide DocOf, LinesOf, First, AllLines, OkItem, NotElsewhere, SectionFrom, EntryFrom, ElsewhereFrom, NextHeader,
         SectionIs, EntryIsAt,
         OnlyInSection, NextHead, OkEndings, Names, NewSection, Spliced, Written, NewEntry, Declares, ContentEnd, LastIndent, AllSingleQuoted, IsPairOf;
    DocumentLines(items, endings);
    var lines, at := LinesOf(items, endings), First(items, h);
    ElsewhereIsRead(items, endings, section, key);
    SectionIsRead(items, endings, section, h);
    SectionIsFound(lines, 0, section, at);
    NextHeadIsRead(items, endings, h + 1, at + 1);
    var end := NextHeader(lines, at + 1);
    forall k | at + 1 <= k < end
      ensures !Declares(lines[k], key)
    {
      NoPairIsRead(items, endings, h, key, k);
    }
    NothingDeclared(lines, at + 1, end, key);
  }
}
