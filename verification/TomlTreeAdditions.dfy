/** Additions. */
module TomlTreeAdditions {
  // Additions to documents as trees. Where an edit puts a new entry or a new section, how it writes it, and
  // what it leaves as it was, told from the document's items alone.

  import opened Wrappers
  import opened Text
  import opened TomlKeys
  import opened TomlLexer
  import opened TomlDoc
  import opened TomlLines
  import opened TomlEdit
  import opened TomlAdd
  import opened TomlEntries
  import opened TomlValues
  import opened TomlItems
  import opened TomlDocuments
  import opened TomlTreeEdits
  import Trees = TomlKeyTrees

  // ---- what the items say ---------------------------------------------------------------------------

  /** The comments set apart for the header at `n` begin at `c`: a run of them right above it, with a blank line
      or nothing before the run; without such a run, `c` is `n`. */
  predicate CommentsBegin(items: seq<Item>, n: nat, c: nat) {
    && c <= n <= |items| && (forall k :: c <= k < n ==> items[k].Remark?)
    && (c < n ==> c == 0 || items[c - 1].Empty?)
    && (c == n ==> n == 0 || !items[n - 1].Remark? || exists s: nat :: s < n && KeptTogether(items, s, n))
  }

  /** Comments right above `n` that follow something else than a blank line. */
  predicate KeptTogether(items: seq<Item>, s: nat, n: nat)
    requires n <= |items|
  {
    0 < s < n && (forall k :: s <= k < n ==> items[k].Remark?) && !items[s - 1].Remark? && !items[s - 1].Empty?
  }

  /** The section at `h` ends in blank lines from `p` on, and comments set apart for the next header from `c` on. */
  predicate StopsAt(items: seq<Item>, h: nat, c: nat, p: nat)
    requires h < |items|
  {
    var n := NextHead(items, h + 1);
    && h < p <= c <= n
    && (if n < |items| then CommentsBegin(items, n, c) else c == n)
    && (forall k :: p <= k < c ==> items[k].Empty?)
    && (p > h + 1 ==> !items[p - 1].Empty?)
  }

  /** Blank lines at the end of the document, from `q` on. */
  predicate TailAt(items: seq<Item>, q: nat) {
    q <= |items| && (forall k :: q <= k < |items| ==> items[k].Empty?) && (q > 0 ==> !items[q - 1].Empty?)
  }

  /** The first header of just this section in single brackets. */
  predicate FirstHeadAt(items: seq<Item>, section: string, h: nat)
    requires Well(items)
  {
    && h < |items| && IsHeadOf(items[h], section) && !items[h].double
    && forall j :: 0 <= j < h && IsHeadOf(items[j], section) ==> items[j].double
  }

  predicate NoHead(items: seq<Item>, section: string)
    requires Well(items)
  {
    forall j :: 0 <= j < |items| && IsHeadOf(items[j], section) ==> items[j].double
  }

  /** There are pairs between two headers, and each begins its key with a single quote. */
  predicate SingleQuotes(items: seq<Item>, h: nat, n: nat)
    requires n <= |items|
  {
    && (exists j :: h < j < n && items[j].Entered?)
    && forall j :: h < j < n && items[j].Entered? ==> items[j].key != [] && items[j].key[0].segment.LiteralKey?
  }

  /** How far in the last pair between two headers stands. */
  function PairIndent(items: seq<Item>, h: nat, n: nat): string
    requires n <= |items|
  {
    if n <= h + 1 then "" else if items[n - 1].Entered? then items[n - 1].indent else PairIndent(items, h, n - 1)
  }

  /** The first ending there is; a line feed when there is none. */
  function FirstEnding(endings: seq<string>): string {
    if endings == [] then "\n" else if endings[0] != [] then endings[0] else FirstEnding(endings[1..])
  }

  /** The lines with `added` put in before line `at`, and those from `from` on after it. */
  function Inserted(texts: seq<string>, endings: seq<string>, at: nat, from: nat, added: seq<string>): string
    requires |texts| == |endings| && at <= |texts| && from <= |texts|
  {
    var eol := FirstEnding(endings);
    Joined(texts[..at], endings[..at])
    + (if at > 0 && endings[at - 1] == [] then eol else [])
    + Joined(added, seq(|added|, k => eol))
    + Joined(texts[from..], endings[from..])
  }

  /** There is always such a place. */
  lemma {:induction false} RemarksAbove(items: seq<Item>, n: nat) returns (s: nat)
    requires n <= |items|
    ensures s <= n && (forall k :: s <= k < n ==> items[k].Remark?) && (s > 0 ==> !items[s - 1].Remark?)
  {
    if n > 0 && items[n - 1].Remark? {
      s := RemarksAbove(items, n - 1);
    } else {
      s := n;
    }
  }

  lemma {:induction false} EmptiesAbove(items: seq<Item>, from: nat, c: nat) returns (p: nat)
    requires from <= c <= |items|
    ensures from <= p <= c && (forall k :: p <= k < c ==> items[k].Empty?) && (p > from ==> !items[p - 1].Empty?)
    decreases c
  {
    if c > from && items[c - 1].Empty? {
      p := EmptiesAbove(items, from, c - 1);
    } else {
      p := c;
    }
  }

  lemma SomeCommentsBegin(items: seq<Item>, n: nat) returns (c: nat)
    requires n <= |items|
    ensures CommentsBegin(items, n, c)
  {
    var s := RemarksAbove(items, n);
    c := if s < n && (s == 0 || items[s - 1].Empty?) then s else n;
    if s < n && c == n {
      assert KeptTogether(items, s, n);
    }
  }

  lemma SectionStops(items: seq<Item>, h: nat) returns (c: nat, p: nat)
    requires h < |items| && items[h].Head?
    ensures StopsAt(items, h, c, p)
  {
    hide CommentsBegin;
    var n := NextHead(items, h + 1);
    c := n;
    if n < |items| {
      c := SomeCommentsBegin(items, n);
      CommentsBelow(items, h, n, c);
    }
    p := EmptiesAbove(items, h + 1, c);
  }

  lemma CommentsBelow(items: seq<Item>, h: nat, n: nat, c: nat)
    requires h < n <= |items| && items[h].Head? && CommentsBegin(items, n, c)
    ensures h < c <= n
  {
  }

  // ---- items as lines -------------------------------------------------------------------------------

  lemma LineCount(item: Item)
    ensures !item.Entered? ==> |ItemLines(item)| == 1
  {
  }

  /** What the line an item begins on is. */
  lemma FirstKind(items: seq<Item>, endings: seq<string>, j: nat)
    requires Well(items) && |endings| == |AllLines(items)| && j < |items|
    ensures First(items, j) < |AllLines(items)|
    ensures var kind := LinesOf(items, endings)[First(items, j)].kind;
            && (kind.Blank? <==> items[j].Empty?) && (kind.Comment? <==> items[j].Remark?)
            && (kind.Entry? <==> items[j].Entered?)
  {
    hide ItemLines, AllLines, First, LinesOf, ItemKind, OkItem, Names, Declares, IsHeadOf, IsPairOf, NamesOf;
    FirstLineOf(items, endings, j, "", "");
    KindOf(items[j]);
  }

  lemma KindOf(item: Item)
    requires OkItem(item)
    ensures var kind := ItemKind(item, 0);
            (kind.Blank? <==> item.Empty?) && (kind.Comment? <==> item.Remark?) && (kind.Entry? <==> item.Entered?)
  {
    hide ItemLines, Lines, ValueLines, Classify;
    ItemRead(item);
  }

  lemma LastLine(items: seq<Item>, endings: seq<string>, j: nat) returns (m: nat)
    requires |endings| == |AllLines(items)| && 0 < j <= |items|
    ensures 0 < First(items, j) <= |AllLines(items)| && m == |ItemLines(items[j - 1])| - 1 &&
            First(items, j - 1) + m == First(items, j) - 1
    ensures LinesOf(items, endings)[First(items, j) - 1].kind == ItemKind(items[j - 1], m)
  {
    hide ItemLines, AllLines, First, ItemKind, AllKinds;
    ItemStands(items, j - 1);
    m := |ItemLines(items[j - 1])| - 1;
    assert LinesOf(items, endings)[First(items, j - 1) + m].kind == AllKinds(items)[First(items, j - 1) + m];
  }

  /** What the line above an item is. */
  lemma KindAbove(items: seq<Item>, endings: seq<string>, j: nat)
    requires Well(items) && |endings| == |AllLines(items)| && 0 < j <= |items|
    ensures 0 < First(items, j) <= |AllLines(items)|
    ensures var kind := LinesOf(items, endings)[First(items, j) - 1].kind;
            (kind.Blank? <==> items[j - 1].Empty?) && (kind.Comment? <==> items[j - 1].Remark?)
  {
    hide ItemLines, AllLines, First, LinesOf, ItemKind, OkItem;
    var m := LastLine(items, endings, j);
    if m == 0 {
      KindOf(items[j - 1]);
    } else {
      InsideItem(items[j - 1], m);
      LineCount(items[j - 1]);
    }
  }

  /** A run of blank lines, or of comments, is as many lines as items. */
  lemma {:induction false} RunOf(items: seq<Item>, endings: seq<string>, a: nat, b: nat, empty: bool)
    requires Well(items) && |endings| == |AllLines(items)| && a <= b <= |items|
    requires forall k :: a <= k < b ==> if empty then items[k].Empty? else items[k].Remark?
    ensures First(items, b) == First(items, a) + (b - a) && First(items, b) <= |AllLines(items)|
    ensures forall k :: First(items, a) <= k < First(items, b) ==>
              var kind := LinesOf(items, endings)[k].kind;
              if empty then kind.Blank? else kind.Comment?
    decreases b - a
  {
    hide ItemLines, AllLines, First, LinesOf, OkItem;
    FirstWithin(items, b);
    if a < b {
      RunOf(items, endings, a, b - 1, empty);
      KindAbove(items, endings, b);
      ItemStands(items, b - 1);
      LineCount(items[b - 1]);
    }
  }

  lemma FirstWithin(items: seq<Item>, j: nat)
    requires j <= |items|
    ensures First(items, j) <= |AllLines(items)|
    ensures First(items, j) == 0 <==> j == 0
  {
    hide First, AllLines;
    FirstEnds(items);
    if 0 < j {
      FirstGrows(items, 0, j);
    }
  }

  // ---- where the content ends -----------------------------------------------------------------------

  lemma CommentRunIs(lines: seq<Line>, from: nat, s: nat)
    requires s <= from <= |lines| && (forall k :: s <= k < from ==> lines[k].kind.Comment?) &&
             (s > 0 ==> !lines[s - 1].kind.Comment?)
    ensures CommentRunStart(lines, from) == s
  {
  }

  lemma CommentsAreRead(items: seq<Item>, endings: seq<string>, n: nat, c: nat)
    requires Well(items) && |endings| == |AllLines(items)| && CommentsBegin(items, n, c)
    ensures First(items, n) <= |AllLines(items)|
    ensures AttachedCommentStart(LinesOf(items, endings), First(items, n)) == First(items, c)
  {
    hide ItemLines, AllLines, First, LinesOf, OkItem, CommentRunStart;
    var lines := LinesOf(items, endings);
    FirstWithin(items, n);
    FirstWithin(items, c);
    if c < n {
      RunOf(items, endings, c, n, false);
      if c > 0 {
        KindAbove(items, endings, c);
      }
      CommentRunIs(lines, First(items, n), First(items, c));
    } else if n > 0 && items[n - 1].Remark? {
      var s: nat :| s < n && KeptTogether(items, s, n);
      RunOf(items, endings, s, n, false);
      KindAbove(items, endings, s);
      CommentRunIs(lines, First(items, n), First(items, s));
    } else {
      if n > 0 {
        KindAbove(items, endings, n);
      }
      CommentRunIs(lines, First(items, n), First(items, n));
    }
  }

  lemma BlankRunIs(lines: seq<Line>, body: nat, from: nat, s: nat)
    requires body <= s <= from <= |lines| && (forall k :: s <= k < from ==> lines[k].kind.Blank?) &&
             (body < s ==> !lines[s - 1].kind.Blank?)
    ensures BlankRunStart(lines, body, from) == s
  {
  }

  lemma ContentEndIs(items: seq<Item>, endings: seq<string>, h: nat, c: nat, p: nat)
    requires Well(items) && |endings| == |AllLines(items)| && h < |items| && items[h].Head? && StopsAt(items, h, c, p)
    ensures First(items, h) < First(items, NextHead(items, h + 1)) <= |AllLines(items)|
    ensures First(items, p) <= |AllLines(items)|
    ensures ContentEnd(LinesOf(items, endings), First(items, h), First(items, NextHead(items, h + 1))) == First(items, p)
  {
    hide ItemLines, AllLines, First, LinesOf, OkItem, NextHead, CommentsBegin, AttachedCommentStart, BlankRunStart;
    var lines, n := LinesOf(items, endings), NextHead(items, h + 1);
    FirstWithin(items, n);
    FirstWithin(items, p);
    FirstGrows(items, h, n);
    ItemStands(items, h);
    LineCount(items[h]);
    FirstEnds(items);
    if n < |items| {
      FirstGrows(items, n, |items|);
      CommentsAreRead(items, endings, n, c);
    }
    RunOf(items, endings, p, c, true);
    if p > h + 1 {
      KindAbove(items, endings, p);
      FirstGrows(items, h + 1, p);
    }
    BlankRunIs(lines, First(items, h) + 1, First(items, c), First(items, p));
  }

  // ---- how entries are written ----------------------------------------------------------------------

  lemma EndingIs(lines: seq<Line>, endings: seq<string>)
    requires |lines| == |endings| && forall k :: 0 <= k < |lines| ==> lines[k].ending == endings[k]
    ensures EolOf(lines) == FirstEnding(endings)
  {
    if lines != [] {
      EndingIs(lines[1..], endings[1..]);
    }
  }

  lemma QuoteRead(items: seq<Item>, endings: seq<string>, j: nat)
    requires Well(items) && |endings| == |AllLines(items)| && j < |items| && items[j].Entered?
    ensures First(items, j) < |AllLines(items)| && items[j].key != []
    ensures var line := LinesOf(items, endings)[First(items, j)];
            (IsSingleQuoted(line) <==> items[j].key[0].segment.LiteralKey?) && LeadingSpace(line.text) == items[j].indent
  {
    hide ItemLines, AllLines, First, LinesOf, Lines, ValueLines;
    PairKind(items, endings, j);
    IndentOf(items[j]);
  }

  lemma IndentOf(item: Item)
    requires OkItem(item) && item.Entered?
    ensures LeadingSpace(ItemLines(item)[0]) == item.indent
  {
    hide Lines, ValueLines, Trees.KeyThen, Trees.OkSegment;
    var rest := "=" + (item.blank + ValueLines(item.value, item.trail)[0]);
    KeyStartsSolid(item.key, rest);
    IndentRead(item.indent, Trees.KeyThen(item.key, rest));
  }

  /** A line of the section that is an entry is a pair's first. */
  lemma EntryHasPair(items: seq<Item>, endings: seq<string>, h: nat, n: nat, k: nat) returns (j: nat)
    requires Well(items) && |endings| == |AllLines(items)| && h < n <= |items| && items[h].Head?
    requires First(items, h) + 1 <= k < First(items, n) && First(items, n) <= |AllLines(items)|
    requires LinesOf(items, endings)[k].kind.Entry?
    ensures h < j < n && items[j].Entered? && k == First(items, j)
  {
    hide ItemLines, AllLines, First, LinesOf, OkItem, Names, Declares, IsHeadOf, IsPairOf, IsTableOf, IsKeyTable;
    j := RoleOf(items, endings, k, "", "");
    FirstKind(items, endings, j);
    ItemStands(items, h);
    LineCount(items[h]);
    Between(items, h + 1, n, First(items, h) + 1, j);
  }

  lemma PairIsWithin(items: seq<Item>, h: nat, n: nat, j: nat)
    requires h < j < n <= |items| && items[h].Head?
    ensures First(items, h) + 1 <= First(items, j) < First(items, n) <= |AllLines(items)|
  {
    hide ItemLines, AllLines, First;
    FirstWithin(items, n);
    ItemStands(items, h);
    LineCount(items[h]);
    if h + 1 < j {
      FirstGrows(items, h + 1, j);
    }
    FirstGrows(items, j, n);
  }

  lemma QuotesAreRead(items: seq<Item>, endings: seq<string>, h: nat, n: nat)
    requires Well(items) && |endings| == |AllLines(items)| && h < n <= |items| && items[h].Head?
    ensures First(items, h) + 1 <= First(items, n) <= |AllLines(items)|
    ensures AllSingleQuoted(LinesOf(items, endings), First(items, h) + 1, First(items, n)) <==> SingleQuotes(items, h, n)
  {
    hide ItemLines, AllLines, First, LinesOf, OkItem, IsSingleQuoted;
    var lines, a, b := LinesOf(items, endings), First(items, h) + 1, First(items, n);
    FirstWithin(items, n);
    FirstGrows(items, h, n);
    forall j | h < j < n && items[j].Entered?
      ensures a <= First(items, j) < b && lines[First(items, j)].kind.Entry?
      ensures items[j].key != [] && (IsSingleQuoted(lines[First(items, j)]) <==> items[j].key[0].segment.LiteralKey?)
    {
      PairIsWithin(items, h, n, j);
      FirstKind(items, endings, j);
      QuoteRead(items, endings, j);
    }
    forall k | a <= k < b && lines[k].kind.Entry?
      ensures exists j :: h < j < n && items[j].Entered? && k == First(items, j)
    {
      var j := EntryHasPair(items, endings, h, n, k);
    }
  }

  lemma {:induction false} NoEntriesNoIndent(lines: seq<Line>, from: nat, end: nat, last: nat)
    requires from <= end <= last <= |lines| && forall k :: end <= k < last ==> !lines[k].kind.Entry?
    ensures LastIndent(lines, from, last) == LastIndent(lines, from, end)
    decreases last - end
  {
    if end < last {
      NoEntriesNoIndent(lines, from, end, last - 1);
    }
  }

  lemma {:induction false} IndentsAreRead(items: seq<Item>, endings: seq<string>, h: nat, n: nat)
    requires Well(items) && |endings| == |AllLines(items)| && h < n <= |items| && items[h].Head?
    ensures First(items, h) + 1 <= First(items, n) <= |AllLines(items)|
    ensures LastIndent(LinesOf(items, endings), First(items, h) + 1, First(items, n)) == PairIndent(items, h, n)
    decreases n
  {
    hide ItemLines, AllLines, First, LinesOf, OkItem, LastIndent, LeadingSpace;
    var lines, a, b := LinesOf(items, endings), First(items, h) + 1, First(items, n);
    FirstWithin(items, n);
    FirstGrows(items, h, n);
    if n == h + 1 {
      ItemStands(items, h);
      LineCount(items[h]);
      NoIndent(lines, a);
    } else {
      PairIsWithin(items, h, n, n - 1);
      var f := First(items, n - 1);
      forall k | f < k < b
        ensures !lines[k].kind.Entry?
      {
        NotEntryInside(items, endings, n - 1, k);
      }
      NoEntriesNoIndent(lines, a, f + 1, b);
      FirstKind(items, endings, n - 1);
      if items[n - 1].Entered? {
        QuoteRead(items, endings, n - 1);
      } else {
        IndentsAreRead(items, endings, h, n - 1);
      }
      IndentStep(lines, a, f);
    }
  }

  lemma NoIndent(lines: seq<Line>, at: nat)
    requires at <= |lines|
    ensures LastIndent(lines, at, at) == ""
  {
  }

  lemma IndentStep(lines: seq<Line>, from: nat, f: nat)
    requires from <= f < |lines|
    ensures LastIndent(lines, from, f + 1) == if lines[f].kind.Entry? then LeadingSpace(lines[f].text) else LastIndent(lines, from, f)
  {
  }

  lemma NotEntryInside(items: seq<Item>, endings: seq<string>, j: nat, k: nat)
    requires Well(items) && |endings| == |AllLines(items)| && j < |items| && First(items, j) < k < First(items, j + 1)
    ensures k < |AllLines(items)| && LinesOf(items, endings)[k].kind == Continuation
  {
    hide ItemLines, AllLines, First, LinesOf, OkItem, Names, Declares, IsHeadOf, IsPairOf, IsTableOf, IsKeyTable;
    FirstWithin(items, j + 1);
    var i := RoleOf(items, endings, k, "", "");
    SameItem(items, i, j, k);
  }

  // ---- what is written ------------------------------------------------------------------------------

  lemma {:induction false} EndedIsJoined(added: seq<string>, eol: string)
    ensures Ended(added, eol) == Joined(added, seq(|added|, k => eol))
  {
    if added != [] {
      EndedIsJoined(added[1..], eol);
      assert seq(|added|, k => eol)[1..] == seq(|added[1..]|, k => eol);
      assert added[0] + (eol + Ended(added[1..], eol)) == added[0] + eol + Ended(added[1..], eol);
    }
  }

  lemma SliceIsJoined(items: seq<Item>, endings: seq<string>, a: nat, b: nat)
    requires |endings| == |AllLines(items)| && a <= b <= |endings|
    ensures Unparse(LinesOf(items, endings)[a..b]) == Joined(AllLines(items)[a..b], endings[a..b])
  {
    hide AllLines, AllKinds, Unparse, Joined;
    JoinedIsUnparsed(AllLines(items)[a..b], endings[a..b], AllKinds(items)[a..b]);
    assert LinesOf(items, endings)[a..b] == AsLines(AllLines(items)[a..b], endings[a..b], AllKinds(items)[a..b]);
  }

  lemma SplicedIs(items: seq<Item>, endings: seq<string>, at: nat, from: nat, added: seq<string>)
    requires IsDocument(items, endings) && at <= from <= |endings| && added != []
    ensures |endings| == |AllLines(items)| == |DocOf(Written(items, endings)).lines|
    ensures Spliced(DocOf(Written(items, endings)), at, from, added) == Inserted(AllLines(items), endings, at, from, added)
  {
    hide AllLines, AllKinds, Unparse, Joined, OkItem, OkEndings, Written, ParseLines, Ended, FirstEnding, EolOf;
    DocumentLines(items, endings);
    var doc := DocOf(Written(items, endings));
    var lines, n := LinesOf(items, endings), |endings|;
    EndingIs(lines, endings);
    assert doc.eol == FirstEnding(endings);
    assert lines[..at] == lines[0..at] && lines[from..] == lines[from..n];
    SliceIsJoined(items, endings, 0, at);
    SliceIsJoined(items, endings, from, n);
    assert AllLines(items)[0..at] == AllLines(items)[..at] && endings[0..at] == endings[..at];
    assert AllLines(items)[from..n] == AllLines(items)[from..] && endings[from..n] == endings[from..];
    EndedIsJoined(added, doc.eol);
  }

  lemma AddUnfolds(text: string, section: string, key: string, value: string, h: nat)
    requires '\n' !in value && '\r' !in value
    requires var lines := DocOf(text).lines;
             && h < |lines| && h + 1 <= NextHeader(lines, h + 1)
             && ElsewhereFrom(lines, 0, true, section, key) == None
             && SectionFrom(lines, 0, None, section) == Ok(Some(h))
             && EntryFrom(lines, h + 1, NextHeader(lines, h + 1), None, key) == Ok(None)
    ensures var doc := DocOf(text);
            var end := NextHeader(doc.lines, h + 1);
            var at := ContentEnd(doc.lines, h, end);
            var entry := NewEntry(LastIndent(doc.lines, h + 1, end), key, AllSingleQuoted(doc.lines, h + 1, end), value);
            Upserted(text, section, key, value) == Ok(Added(Spliced(doc, at, at, [entry])))
  {
    hide DocOf, SectionFrom, EntryFrom, ElsewhereFrom, NextHeader, SectionIs, EntryIsAt, ContentEnd, NewEntry,
         LastIndent, AllSingleQuoted, Spliced;
    SectionFound(DocOf(text).lines, 0, None, section);
  }

  /** The new entry as it is written. */
  function EntryText(indent: string, key: string, single: bool, value: string): string {
    indent + (Trees.SegmentText(Trees.KeySegment(key, single)) + (" = " + value))
  }

  lemma EntryIs(indent: string, key: string, single: bool, value: string)
    ensures NewEntry(indent, key, single, value) == EntryText(indent, key, single, value)
  {
    hide RenderKey, Trees.SegmentText, Trees.KeySegment;
    Trees.KeyIsWritten(key, single);
  }

  /** What an addition to a section finds. */
  lemma NothingFound(items: seq<Item>, endings: seq<string>, section: string, key: string, h: nat)
    requires IsDocument(items, endings) && SectionIsAt(items, section, h) && NoPair(items, h, key) &&
             NotElsewhere(items, section, key)
    ensures |endings| == |AllLines(items)| &&
            First(items, h) < First(items, NextHead(items, h + 1)) <= |AllLines(items)|
    ensures var lines := DocOf(Written(items, endings)).lines;
            && lines == LinesOf(items, endings)
            && ElsewhereFrom(lines, 0, true, section, key) == None
            && SectionFrom(lines, 0, None, section) == Ok(Some(First(items, h)))
            && NextHeader(lines, First(items, h) + 1) == First(items, NextHead(items, h + 1))
            && EntryFrom(lines, First(items, h) + 1, NextHeader(lines, First(items, h) + 1), None, key) == Ok(None)
  {
    hide DocOf, LinesOf, First, AllLines, OkItem, NotElsewhere, SectionFrom, EntryFrom, ElsewhereFrom, NextHeader,
         SectionIs, EntryIsAt,
         OnlyInSection, NextHead, OkEndings, Names, Written, Declares, IsPairOf;
    DocumentLines(items, endings);
    var lines, at := LinesOf(items, endings), First(items, h);
    ElsewhereIsRead(items, endings, section, key);
    SectionIsRead(items, endings, section, h);
    SectionIsFound(lines, 0, section, at);
    NextHeadIsRead(items, endings, h + 1, at + 1);
    FirstGrows(items, h, NextHead(items, h + 1));
    var end := NextHeader(lines, at + 1);
    forall k | at + 1 <= k < end
      ensures !Declares(lines[k], key)
    {
      NoPairIsRead(items, endings, h, key, k);
    }
    NothingDeclared(lines, at + 1, end, key);
  }

  /** A key the section has no pair for is added below what the section holds, above its blank lines at the end and
      the comments set apart for the next header, written as the section's pairs are. */
  lemma UpsertAdds(
    items: seq<Item>, endings: seq<string>, section: string, key: string, value: string, h: nat, c: nat, p: nat)
    requires IsDocument(items, endings) && SectionIsAt(items, section, h) && NoPair(items, h, key) &&
             NotElsewhere(items, section, key)
    requires StopsAt(items, h, c, p) && '\n' !in value && '\r' !in value
    ensures First(items, p) <= |AllLines(items)| == |endings|
    ensures var n := NextHead(items, h + 1);
            var entry := EntryText(PairIndent(items, h, n), key, SingleQuotes(items, h, n), value);
            Upserted(Written(items, endings), section, key, value)
            == Ok(Added(Inserted(AllLines(items), endings, First(items, p), First(items, p), [entry])))
  {
    hide DocOf, LinesOf, First, AllLines, OkItem, NotElsewhere, SectionFrom, EntryFrom, ElsewhereFrom, NextHeader,
         NoPair, OkEndings, Written,
         StopsAt, ContentEnd, LastIndent, AllSingleQuoted, PairIndent, SingleQuotes, Spliced, Inserted, Upserted, NewEntry, EntryText;
    NothingFound(items, endings, section, key, h);
    AddUnfolds(Written(items, endings), section, key, value, First(items, h));
    var n := NextHead(items, h + 1);
    ContentEndIs(items, endings, h, c, p);
    QuotesAreRead(items, endings, h, n);
    IndentsAreRead(items, endings, h, n);
    StopsWithin(items, h, c, p);
    FirstWithin(items, p);
    EntryIs(PairIndent(items, h, n), key, SingleQuotes(items, h, n), value);
    SplicedIs(items, endings, First(items, p), First(items, p), [EntryText(PairIndent(items, h, n), key, SingleQuotes(items, h, n), value)]);
  }

  // ---- a section that has to be created -------------------------------------------------------------

  lemma {:induction false} PlainHeaderIs(lines: seq<Line>, i: nat, n: nat, section: string)
    requires i <= n <= |lines| && (n < |lines| ==> Names(lines[n], section) && !lines[n].kind.double)
    requires forall k :: i <= k < n && Names(lines[k], section) ==> lines[k].kind.double
    ensures PlainHeaderFrom(lines, i, section) == n
    decreases n - i
  {
    if i < n {
      PlainHeaderIs(lines, i + 1, n, section);
    }
  }

  lemma NamesHeader(line: Line, section: string)
    ensures Names(line, section) ==> line.kind.Header?
  {
  }

  lemma FirstHeadIsRead(items: seq<Item>, endings: seq<string>, section: string, h: nat)
    requires Well(items) && |endings| == |AllLines(items)| && FirstHeadAt(items, section, h)
    ensures First(items, h) < |AllLines(items)|
    ensures PlainHeaderFrom(LinesOf(items, endings), 0, section) == First(items, h)
  {
    hide ItemLines, AllLines, First, LinesOf, OkItem, NamesOf, Names, Declares, IsHeadOf, IsTableOf, IsPairOf,
         IsKeyTable;
    var lines := LinesOf(items, endings);
    FirstLineOf(items, endings, h, section, "");
    NamesHeader(lines[First(items, h)], section);
    forall k | 0 <= k < First(items, h) && Names(lines[k], section)
      ensures lines[k].kind.Header? && lines[k].kind.double
    {
      var j := RoleOf(items, endings, k, section, "");
      NamesHeader(lines[k], section);
      FirstEnds(items);
      Between(items, 0, h, 0, j);
      HeadIsHead(items[j], section);
    }
    PlainHeaderIs(lines, 0, First(items, h), section);
  }

  lemma HeadIsHead(item: Item, section: string)
    requires OkItem(item) && IsHeadOf(item, section)
    ensures item.Head?
  {
  }

  lemma NoHeadIsRead(items: seq<Item>, endings: seq<string>, section: string)
    requires Well(items) && |endings| == |AllLines(items)| && NoHead(items, section)
    ensures PlainHeaderFrom(LinesOf(items, endings), 0, section) == |AllLines(items)|
  {
    hide ItemLines, AllLines, First, LinesOf, OkItem, NamesOf, Names, Declares, IsHeadOf, IsTableOf, IsPairOf,
         IsKeyTable;
    var lines := LinesOf(items, endings);
    forall k | 0 <= k < |lines| && Names(lines[k], section)
      ensures lines[k].kind.Header? && lines[k].kind.double
    {
      var j := RoleOf(items, endings, k, section, "");
      NamesHeader(lines[k], section);
      HeadIsHead(items[j], section);
    }
    PlainHeaderIs(lines, 0, |lines|, section);
  }

  /** Nothing names the section: the edit creates it. */
  lemma CreateUnfolds(items: seq<Item>, endings: seq<string>, section: string, key: string, value: string)
    requires IsDocument(items, endings) && NotElsewhere(items, section, key) && '\n' !in value && '\r' !in value
    requires forall j :: 0 <= j < |items| ==> !IsHeadOf(items[j], section)
    ensures |endings| == |AllLines(items)|
    ensures var doc := DocOf(Written(items, endings));
            var (start, end, added) := NewSection(doc.lines, section, EntryText("", key, false, value));
            && doc.lines == LinesOf(items, endings)
            && Upserted(Written(items, endings), section, key, value) == Ok(Added(Spliced(doc, start, end, added)))
  {
    hide DocOf, LinesOf, First, AllLines, OkItem, NotElsewhere, SectionFrom, EntryFrom, ElsewhereFrom, NextHeader,
         OnlyInSection, OkEndings, NewSection,
         Spliced, Written, NewEntry, EntryText, IsHeadOf;
    EntryIs("", key, false, value);
    SectionIsMissing(items, endings, section, key, value);
    DocumentLines(items, endings);
    ElsewhereIsRead(items, endings, section, key);
  }

  /** A development section goes below what the dependencies' holds, a blank line before it and, where something
      other than a blank line follows, one after it. */
  lemma DevelopmentGoesBelow(items: seq<Item>, endings: seq<string>, key: string, value: string, h: nat, c: nat, p: nat)
    requires IsDocument(items, endings) && NotElsewhere(items, "dev-dependencies", key) && '\n' !in value &&
             '\r' !in value
    requires forall j :: 0 <= j < |items| ==> !IsHeadOf(items[j], "dev-dependencies")
    requires FirstHeadAt(items, "dependencies", h) && StopsAt(items, h, c, p)
    ensures First(items, p) <= |AllLines(items)| == |endings|
    ensures var below := if p < |items| && !items[p].Empty? then [""] else [];
            Upserted(Written(items, endings), "dev-dependencies", key, value)
            == Ok(Added(Inserted(AllLines(items), endings, First(items, p), First(items, p),
                                 ["", "[dev-dependencies]", EntryText("", key, false, value)] + below)))
  {
    hide DocOf, LinesOf, First, AllLines, OkItem, NotElsewhere, NextHeader, OkEndings, Written, StopsAt, ContentEnd,
         Spliced, Inserted, Upserted, EntryText,
         PlainHeaderFrom, IsHeadOf, IsDocument, AttachedCommentStart, BlankTailStart, ItemLines;
    var section := "dev-dependencies";
    CreateUnfolds(items, endings, section, key, value);
    DocumentIsWell(items, endings);
    HeadIsHead(items[h], "dependencies");
    FirstHeadIsRead(items, endings, "dependencies", h);
    NextHeadIsRead(items, endings, h + 1, First(items, h) + 1);
    ContentEndIs(items, endings, h, c, p);
    StopsWithin(items, h, c, p);
    FirstWithin(items, p);
    FirstEnds(items);
    if p < |items| {
      FirstKind(items, endings, p);
    }
    var entry := EntryText("", key, false, value);
    assert "[" + section + "]" == "[dev-dependencies]";
    var below := if p < |items| && !items[p].Empty? then [""] else [];
    SplicedIs(items, endings, First(items, p), First(items, p), ["", "[dev-dependencies]", entry] + below);
  }

  lemma StopsWithin(items: seq<Item>, h: nat, c: nat, p: nat)
    requires h < |items| && StopsAt(items, h, c, p)
    ensures p <= |items|
  {
  }

  /** A dependencies' section goes above the development one and the comments set apart for it, a blank line after
      it and, where something other than a blank line comes before, one before it. */
  lemma DependenciesGoAbove(items: seq<Item>, endings: seq<string>, key: string, value: string, h: nat, c: nat)
    requires IsDocument(items, endings) && NotElsewhere(items, "dependencies", key) && '\n' !in value && '\r' !in value
    requires forall j :: 0 <= j < |items| ==> !IsHeadOf(items[j], "dependencies")
    requires FirstHeadAt(items, "dev-dependencies", h) && CommentsBegin(items, h, c)
    ensures First(items, c) <= |AllLines(items)| == |endings|
    ensures var above := if c > 0 && !items[c - 1].Empty? then [""] else [];
            Upserted(Written(items, endings), "dependencies", key, value)
            == Ok(Added(Inserted(AllLines(items), endings, First(items, c), First(items, c),
                                 above + ["[dependencies]", EntryText("", key, false, value), ""])))
  {
    hide DocOf, LinesOf, First, AllLines, OkItem, NotElsewhere, NextHeader, OkEndings, Written, CommentsBegin,
         ContentEnd, Spliced, Inserted, Upserted, EntryText,
         PlainHeaderFrom, IsHeadOf, IsDocument, AttachedCommentStart, BlankTailStart, ItemLines;
    var section := "dependencies";
    CreateUnfolds(items, endings, section, key, value);
    DocumentIsWell(items, endings);
    FirstHeadIsRead(items, endings, "dev-dependencies", h);
    CommentsAreRead(items, endings, h, c);
    CommentsWithin(items, h, c);
    FirstWithin(items, c);
    if c > 0 {
      KindAbove(items, endings, c);
    }
    var entry := EntryText("", key, false, value);
    assert "[" + section + "]" == "[dependencies]";
    assert section != "dev-dependencies" by { assert section[2] == 'p'; }
    var above := if c > 0 && !items[c - 1].Empty? then [""] else [];
    SplicedIs(items, endings, First(items, c), First(items, c), above + ["[dependencies]", entry, ""]);
  }

  lemma CommentsWithin(items: seq<Item>, n: nat, c: nat)
    requires CommentsBegin(items, n, c)
    ensures c <= n <= |items|
  {
  }

  /** Any other section, or one whose neighbour is missing, goes last, in place of the blank lines at the end. */
  lemma SectionGoesLast(items: seq<Item>, endings: seq<string>, section: string, key: string, value: string, q: nat)
    requires IsDocument(items, endings) && NotElsewhere(items, section, key) && '\n' !in value && '\r' !in value
    requires forall j :: 0 <= j < |items| ==> !IsHeadOf(items[j], section)
    requires section == "dev-dependencies" ==> NoHead(items, "dependencies")
    requires section == "dependencies" ==> NoHead(items, "dev-dependencies")
    requires TailAt(items, q)
    ensures First(items, q) <= |AllLines(items)| == |endings|
    ensures var above := if q > 0 then [""] else [];
            Upserted(Written(items, endings), section, key, value)
            == Ok(Added(Inserted(AllLines(items), endings, First(items, q), |endings|,
                                 above + ["[" + section + "]", EntryText("", key, false, value)])))
  {
    hide DocOf, LinesOf, First, AllLines, OkItem, NotElsewhere, NextHeader, OkEndings, Written, ContentEnd, Spliced,
         Inserted, Upserted, EntryText,
         PlainHeaderFrom, IsHeadOf, IsDocument, AttachedCommentStart, BlankRunStart, NoHead, ItemLines;
    CreateUnfolds(items, endings, section, key, value);
    DocumentIsWell(items, endings);
    if section == "dev-dependencies" {
      NoHeadIsRead(items, endings, "dependencies");
    }
    if section == "dependencies" {
      NoHeadIsRead(items, endings, "dev-dependencies");
    }
    RunOf(items, endings, q, |items|, true);
    FirstWithin(items, q);
    FirstEnds(items);
    if q > 0 {
      KindAbove(items, endings, q);
    }
    BlankRunIs(LinesOf(items, endings), 0, |endings|, First(items, q));
    var above := if q > 0 then [""] else [];
    SplicedIs(items, endings, First(items, q), |endings|, above + ["[" + section + "]", EntryText("", key, false, value)]);
  }
}
