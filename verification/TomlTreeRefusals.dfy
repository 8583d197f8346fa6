/** Refusals. */
module TomlTreeRefusals {
  // Refusals over documents as trees. Which edits are refused and why, told from the document's items alone:
  // the first item that stands in the way decides.

  import opened Wrappers
  import opened Text
  import opened TomlLexer
  import opened TomlDoc
  import opened TomlEdit
  import opened TomlItems
  import opened TomlDocuments
  import opened TomlTreeEdits

  // ---- what stands in the way -----------------------------------------------------------------------

  /** The first item that gives the key a table of its own, or spells the section out above all headers. */
  predicate LivesElsewhere(items: seq<Item>, section: string, key: string, j: nat)
    requires Well(items)
  {
    && j < |items| && IsElsewhere(items, section, key, j)
    && forall i :: 0 <= i < j ==> !IsElsewhere(items, section, key, i)
  }

  predicate IsElsewhere(items: seq<Item>, section: string, key: string, j: nat)
    requires Well(items) && j < |items|
  {
    IsTableOf(items[j], section, key) || (j < NextHead(items, 0) && IsPairOf(items[j], section))
  }

  /** The first header that keeps the section from having one header in single brackets: it has double ones, or
      there is one before it, at `g`. */
  predicate SectionBreaks(items: seq<Item>, section: string, g: Option<nat>, j: nat)
    requires Well(items)
  {
    && j < |items| && IsHeadOf(items[j], section)
    && (items[j].double || g.Some?)
    && (g.Some? ==> g.value < j && IsHeadOf(items[g.value], section) && !items[g.value].double)
    && forall i :: 0 <= i < j && IsHeadOf(items[i], section) ==> g == Some(i)
  }

  /** The first pair that keeps the key from being one pair of the section: its key is dotted, or there is one
      before it, at `g`. */
  predicate KeyBreaks(items: seq<Item>, h: nat, key: string, g: Option<nat>, j: nat)
    requires Well(items) && h < |items|
  {
    && h < j < NextHead(items, h + 1) && IsPairOf(items[j], key)
    && (|NamesOf(items[j])| > 1 || g.Some?)
    && (g.Some? ==> h < g.value < j && IsPairOf(items[g.value], key) && |NamesOf(items[g.value])| == 1)
    && forall i :: h < i < j && IsPairOf(items[i], key) ==> g == Some(i)
  }

  // ---- the reader's lines ---------------------------------------------------------------------------

  lemma {:induction false} FirstElsewhere(lines: seq<Line>, i: nat, k: nat, section: string, key: string)
    requires i <= k < |lines|
    requires forall m :: i <= m < k ==>
               !IsKeyTable(lines[m], section, key) && (m < NextHeader(lines, 0) ==> !Declares(lines[m], section))
    requires IsKeyTable(lines[k], section, key) || (k < NextHeader(lines, 0) && Declares(lines[k], section))
    ensures ElsewhereFrom(lines, i, i <= NextHeader(lines, 0), section, key)
            == Some(if lines[k].kind.Header? then DeclaredAsTable else InlineAtTop)
    decreases k - i
  {
    hide NextHeader;
    NextHeaderSplits(lines, i);
    if i < k {
      FirstElsewhere(lines, i + 1, k, section, key);
    }
  }

  lemma NextHeaderSplits(lines: seq<Line>, i: nat)
    requires i < |lines|
    ensures i < NextHeader(lines, 0) ==> !lines[i].kind.Header?
    ensures i == NextHeader(lines, 0) ==> lines[i].kind.Header?
  {
  }

  lemma {:induction false} SectionFails(
    lines: seq<Line>, i: nat, found: Option<nat>, g: Option<nat>, k: nat, section: string)
    requires i <= k < |lines| && Names(lines[k], section) && (lines[k].kind.double || g.Some?)
    requires g.Some? ==> g.value < k && Names(lines[g.value], section) && !lines[g.value].kind.double
    requires forall m :: i <= m < k && Names(lines[m], section) ==> g == Some(m)
    requires found == if g.Some? && g.value < i then g else None
    ensures SectionFrom(lines, i, found, section) == Err(if lines[k].kind.double then ArrayOfTables else SectionRepeated)
    decreases k - i
  {
    if i < k {
      SectionFails(lines, i + 1, if Names(lines[i], section) then Some(i) else found, g, k, section);
    }
  }

  lemma {:induction false} EntryFails(
    lines: seq<Line>, i: nat, end: nat, found: Option<nat>, g: Option<nat>, k: nat, key: string)
    requires i <= k < end <= |lines| && Declares(lines[k], key) && (|lines[k].kind.pair.value.path| > 1 || g.Some?)
    requires g.Some? ==> g.value < k && Declares(lines[g.value], key) && |lines[g.value].kind.pair.value.path| == 1
    requires forall m :: i <= m < k && Declares(lines[m], key) ==> g == Some(m)
    requires found == if g.Some? && g.value < i then g else None
    ensures EntryFrom(lines, i, end, found, key)
            == Err(if |lines[k].kind.pair.value.path| > 1 then DeclaredAsTable else KeyRepeated)
    decreases k - i
  {
    if i < k {
      EntryFails(lines, i + 1, end, if Declares(lines[i], key) then Some(i) else found, g, k, key);
    }
  }

  // ---- the refusals ---------------------------------------------------------------------------------

  /** A value with a line break is refused before anything is looked at. */
  lemma BrokenValueIsRefused(text: string, section: string, key: string, value: string)
    requires '\n' in value || '\r' in value
    ensures Upserted(text, section, key, value) == Err(MultiLineValue)
  {
  }

  lemma ElsewhereIsFound(items: seq<Item>, endings: seq<string>, section: string, key: string, j: nat)
    requires Well(items) && |endings| == |AllLines(items)| && LivesElsewhere(items, section, key, j)
    ensures ElsewhereFrom(LinesOf(items, endings), 0, true, section, key)
            == Some(if items[j].Head? then DeclaredAsTable else InlineAtTop)
  {
    hide ItemLines, AllLines, First, LinesOf, OkItem, NamesOf, Names, Declares, IsHeadOf, IsPairOf, IsTableOf,
         NextHeader, NextHead, IsKeyTable, ElsewhereFrom;
    var lines := LinesOf(items, endings);
    var head := NextHead(items, 0);
    FirstEnds(items);
    NextHeadIsRead(items, endings, 0, 0);
    var k := ItemIsOfLine(items, endings, section, key, j);
    forall m | 0 <= m < k
      ensures !IsKeyTable(lines[m], section, key) && (m < NextHeader(lines, 0) ==> !Declares(lines[m], section))
    {
      EarlierLine(items, endings, section, key, j, m);
    }
    if j < head {
      FirstGrows(items, j, head);
    }
    FirstElsewhere(lines, 0, k, section, key);
  }

  lemma ItemIsOfLine(items: seq<Item>, endings: seq<string>, section: string, key: string, j: nat) returns (k: nat)
    requires Well(items) && |endings| == |AllLines(items)| && j < |items|
    ensures k == First(items, j) < |AllLines(items)|
    ensures var line := LinesOf(items, endings)[k];
            && (line.kind.Header? <==> items[j].Head?)
            && (IsKeyTable(line, section, key) <==> IsTableOf(items[j], section, key))
            && (Declares(line, section) <==> IsPairOf(items[j], section))
  {
    hide ItemLines, AllLines, First, LinesOf, OkItem, NamesOf, Names, Declares, IsHeadOf, IsPairOf, IsTableOf,
         IsKeyTable, ItemKind;
    k := First(items, j);
    FirstLineOf(items, endings, j, section, section);
    ItemRole(items[j], LinesOf(items, endings)[k], section, key);
  }

  lemma EarlierLine(items: seq<Item>, endings: seq<string>, section: string, key: string, j: nat, m: nat)
    requires Well(items) && |endings| == |AllLines(items)| && LivesElsewhere(items, section, key, j) &&
             m < First(items, j)
    ensures m < |AllLines(items)| && NextHeader(LinesOf(items, endings), 0) == First(items, NextHead(items, 0))
    ensures var lines := LinesOf(items, endings);
            !IsKeyTable(lines[m], section, key) && (m < NextHeader(lines, 0) ==> !Declares(lines[m], section))
  {
    hide ItemLines, AllLines, First, LinesOf, OkItem, NamesOf, Names, Declares, IsHeadOf, IsPairOf, IsTableOf,
         NextHeader, NextHead, IsKeyTable;
    var lines, head := LinesOf(items, endings), NextHead(items, 0);
    FirstEnds(items);
    FirstGrows(items, j, |items|);
    NextHeadIsRead(items, endings, 0, 0);
    var i := RoleOf(items, endings, m, section, key);
    NoTableInside(lines[m], section, key);
    NoNameInside(lines[m], section);
    if m == First(items, i) {
      Between(items, 0, j, 0, i);
      DeclaresAs(items, endings, i, section);
      if m < First(items, head) {
        Between(items, 0, head, 0, i);
      }
      assert !IsElsewhere(items, section, key, i);
    }
  }

  lemma DeclaresAs(items: seq<Item>, endings: seq<string>, i: nat, key: string)
    requires Well(items) && |endings| == |AllLines(items)| && i < |items|
    ensures First(items, i) < |AllLines(items)|
    ensures Declares(LinesOf(items, endings)[First(items, i)], key) <==> IsPairOf(items[i], key)
  {
    hide ItemLines, AllLines, First, LinesOf, OkItem, NamesOf, Names, Declares, IsHeadOf, IsPairOf, IsTableOf,
         IsKeyTable, ItemKind;
    FirstLineOf(items, endings, i, key, key);
  }

  /** A key that lives outside its section is refused: as a table of its own, or as part of a section spelled out
      above all headers. */
  lemma ElsewhereIsRefused(items: seq<Item>, endings: seq<string>, section: string, key: string, value: string, j: nat)
    requires IsDocument(items, endings) && LivesElsewhere(items, section, key, j)
    ensures |endings| == |AllLines(items)|
    ensures var refusal := if items[j].Head? then DeclaredAsTable else InlineAtTop;
            && Removed(Written(items, endings), section, key) == Err(refusal)
            && ('\n' !in value && '\r' !in value ==> Upserted(Written(items, endings), section, key, value) == Err(refusal))
  {
    hide DocOf, LinesOf, AllLines, OkItem, LivesElsewhere, SectionFrom, EntryFrom, ElsewhereFrom, NextHeader,
         OkEndings, Written, NewSection, Spliced;
    DocumentLines(items, endings);
    ElsewhereIsFound(items, endings, section, key, j);
  }

  lemma HeadRole(items: seq<Item>, endings: seq<string>, j: nat, section: string)
    requires Well(items) && |endings| == |AllLines(items)| && j < |items|
    ensures First(items, j) < |AllLines(items)|
    ensures var line := LinesOf(items, endings)[First(items, j)];
            && (Names(line, section) <==> IsHeadOf(items[j], section))
            && (IsHeadOf(items[j], section) ==> line.kind.Header? && items[j].Head? && line.kind.double == items[j].double)
  {
    hide ItemLines, AllLines, First, LinesOf, OkItem, NamesOf, Declares, IsPairOf, IsTableOf, IsKeyTable, ItemKind;
    FirstLineOf(items, endings, j, section, section);
  }

  lemma NamedLine(items: seq<Item>, endings: seq<string>, j: nat, m: nat, section: string) returns (i: nat)
    requires Well(items) && |endings| == |AllLines(items)| && j <= |items| && m < First(items, j) <= |AllLines(items)|
    requires Names(LinesOf(items, endings)[m], section)
    ensures i < j && m == First(items, i) && IsHeadOf(items[i], section)
  {
    hide ItemLines, AllLines, First, LinesOf, OkItem, NamesOf, Names, Declares, IsHeadOf, IsPairOf, IsTableOf,
         IsKeyTable;
    i := RoleOf(items, endings, m, section, section);
    NoNameInside(LinesOf(items, endings)[m], section);
    FirstEnds(items);
    Between(items, 0, j, 0, i);
  }

  lemma SectionIsBroken(items: seq<Item>, endings: seq<string>, section: string, g: Option<nat>, j: nat)
    requires Well(items) && |endings| == |AllLines(items)| && SectionBreaks(items, section, g, j)
    ensures SectionFrom(LinesOf(items, endings), 0, None, section) == Err(if items[j].double then ArrayOfTables else SectionRepeated)
  {
    hide ItemLines, AllLines, First, LinesOf, OkItem, NamesOf, Names, IsHeadOf, SectionFrom;
    var lines, k := LinesOf(items, endings), First(items, j);
    HeadRole(items, endings, j, section);
    FirstEnds(items);
    var line: Option<nat> := None;
    if g.Some? {
      HeadRole(items, endings, g.value, section);
      FirstGrows(items, g.value, j);
      line := Some(First(items, g.value));
    }
    forall m | 0 <= m < k && Names(lines[m], section)
      ensures line == Some(m)
    {
      var i := NamedLine(items, endings, j, m, section);
    }
    SectionFails(lines, 0, None, line, k, section);
  }

  /** A section with a header in double brackets, or with a second one, is refused. */
  lemma SectionIsRefused(
    items: seq<Item>, endings: seq<string>, section: string, key: string, value: string, g: Option<nat>, j: nat)
    requires IsDocument(items, endings) && NotElsewhere(items, section, key) && SectionBreaks(items, section, g, j)
    ensures |endings| == |AllLines(items)| && items[j].Head?
    ensures var refusal := if items[j].double then ArrayOfTables else SectionRepeated;
            && Removed(Written(items, endings), section, key) == Err(refusal)
            && ('\n' !in value && '\r' !in value ==> Upserted(Written(items, endings), section, key, value) == Err(refusal))
  {
    hide DocOf, LinesOf, AllLines, OkItem, NotElsewhere, SectionFrom, EntryFrom, ElsewhereFrom, NextHeader, OkEndings,
         Written, NewSection, Spliced,
         SectionBreaks, OnlyInSection;
    DocumentLines(items, endings);
    ElsewhereIsRead(items, endings, section, key);
    SectionIsBroken(items, endings, section, g, j);
    BrokenIsHead(items, section, g, j);
  }

  lemma BrokenIsHead(items: seq<Item>, section: string, g: Option<nat>, j: nat)
    requires Well(items) && SectionBreaks(items, section, g, j)
    ensures j < |items| && items[j].Head?
  {
    hide OkItem, NamesOf;
  }

  lemma PairRole(items: seq<Item>, endings: seq<string>, j: nat, key: string)
    requires Well(items) && |endings| == |AllLines(items)| && j < |items| && IsPairOf(items[j], key)
    ensures First(items, j) < |AllLines(items)|
    ensures var line := LinesOf(items, endings)[First(items, j)];
            Declares(line, key) && line.kind.Entry? && line.kind.pair.Some? && line.kind.pair.value.path == NamesOf(items[j])
  {
    hide ItemLines, AllLines, First, LinesOf, OkItem, NamesOf, Names, IsHeadOf, IsTableOf, IsKeyTable, ItemKind,
         Declares;
    FirstLineOf(items, endings, j, key, key);
  }

  lemma KeyIsBroken(items: seq<Item>, endings: seq<string>, h: nat, key: string, g: Option<nat>, j: nat)
    requires Well(items) && |endings| == |AllLines(items)| && h < |items| && items[h].Head? &&
             KeyBreaks(items, h, key, g, j)
    ensures First(items, h) + 1 <= First(items, NextHead(items, h + 1)) <= |AllLines(items)|
    ensures EntryFrom(LinesOf(items, endings), First(items, h) + 1, First(items, NextHead(items, h + 1)), None, key)
            == Err(if |NamesOf(items[j])| > 1 then DeclaredAsTable else KeyRepeated)
  {
    hide ItemLines, AllLines, First, LinesOf, OkItem, NamesOf, Declares, IsPairOf, EntryFrom, NextHead;
    var lines, k, n := LinesOf(items, endings), First(items, j), NextHead(items, h + 1);
    PairRole(items, endings, j, key);
    FirstGrows(items, h, j);
    FirstGrows(items, j, n);
    FirstEnds(items);
    if n < |items| {
      FirstGrows(items, n, |items|);
    }
    var line: Option<nat> := None;
    if g.Some? {
      PairRole(items, endings, g.value, key);
      FirstGrows(items, h, g.value);
      FirstGrows(items, g.value, j);
      line := Some(First(items, g.value));
    }
    forall m | First(items, h) + 1 <= m < k && Declares(lines[m], key)
      ensures line == Some(m)
    {
      NoPairIsRead(items, endings, h, key, m);
      var i :| h < i < n && m == First(items, i) && IsPairOf(items[i], key);
      Between(items, h + 1, j, First(items, h) + 1, i);
    }
    EntryFails(lines, First(items, h) + 1, First(items, n), None, line, k, key);
  }

  /** A key the section spells as a table, or has twice, is refused. */
  lemma KeyIsRefused(
    items: seq<Item>, endings: seq<string>, section: string, key: string, value: string, h: nat, g: Option<nat>, j: nat)
    requires IsDocument(items, endings) && NotElsewhere(items, section, key) && SectionIsAt(items, section, h) &&
             KeyBreaks(items, h, key, g, j)
    ensures |endings| == |AllLines(items)| && j < |items|
    ensures var refusal := if |NamesOf(items[j])| > 1 then DeclaredAsTable else KeyRepeated;
            && Removed(Written(items, endings), section, key) == Err(refusal)
            && ('\n' !in value && '\r' !in value ==> Upserted(Written(items, endings), section, key, value) == Err(refusal))
  {
    hide DocOf, LinesOf, AllLines, First, OkItem, NotElsewhere, SectionFrom, EntryFrom, ElsewhereFrom, NextHeader,
         OkEndings, Written, NewSection, Spliced,
         KeyBreaks, OnlyInSection, NamesOf, SectionIs;
    DocumentLines(items, endings);
    ElsewhereIsRead(items, endings, section, key);
    SectionIsRead(items, endings, section, h);
    SectionIsFound(LinesOf(items, endings), 0, section, First(items, h));
    NextHeadIsRead(items, endings, h + 1, First(items, h) + 1);
    KeyIsBroken(items, endings, h, key, g, j);
    BrokenIsWithin(items, h, key, g, j);
  }

  lemma BrokenIsWithin(items: seq<Item>, h: nat, key: string, g: Option<nat>, j: nat)
    requires Well(items) && h < |items| && KeyBreaks(items, h, key, g, j)
    ensures j < |items|
  {
    hide OkItem, NamesOf;
  }
}
