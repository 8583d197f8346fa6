/**
 Removing an entry. From any document: the entry's lines go, every other line stays as it is and means
 what it meant, and the key is gone.
 */
module TomlRemove {
  import opened Wrappers
  import opened Text
  import opened TomlKeys
  import opened TomlLexer
  import opened TomlDoc
  import opened TomlLines
  import opened TomlEdit
  import opened TomlAdd

  /** A removal, by what it is: of the one line of the one section that declares the key, and nothing but the
      lines its value continues on. */
  ghost predicate RemovesAt(lines: seq<Line>, section: string, key: string, h: nat, k: nat, end: nat) {
    && SectionIs(lines, section, h)
    && OnlyInSection(lines, section, key)
    && EntryIsAt(lines, h + 1, NextHeader(lines, h + 1), key, k)
    && k < end <= NextHeader(lines, h + 1)
    && (forall j :: k < j < end ==> lines[j].kind.Continuation?)
    && (end < |lines| ==> !lines[end].kind.Continuation?)
  }

  lemma RemovalIs(text: string, section: string, key: string) returns (h: nat, k: nat, end: nat)
    requires Removed(text, section, key).Ok? && Removed(text, section, key).value.Some?
    ensures RemovesAt(DocOf(text).lines, section, key, h, k, end)
    ensures Removed(text, section, key) == Ok(Some(Spliced(DocOf(text), k, end, [])))
  {
    hide Removed, SectionFrom, EntryFrom, ElsewhereFrom, Spliced, DocOf, SectionIs, EntryIsAt, OnlyInSection, NextHeader;
    h, k := RemovalUnfolds(text, section, key);
    var lines := DocOf(text).lines;
    var secEnd := NextHeader(lines, h + 1);
    ElsewhereIs(lines, 0, section, key);
    OnlyInSectionIs(lines, section, key);
    SectionFound(lines, 0, None, section);
    EntryFound(lines, h + 1, secEnd, None, key);
    end := ContinuationEnd(lines, k + 1, secEnd);
    ContinuationEndIs(lines, k + 1, secEnd);
  }

  lemma RemovalUnfolds(text: string, section: string, key: string) returns (h: nat, k: nat)
    requires Removed(text, section, key).Ok? && Removed(text, section, key).value.Some?
    ensures var lines := DocOf(text).lines;
            && ElsewhereFrom(lines, 0, true, section, key) == None
            && SectionFrom(lines, 0, None, section) == Ok(Some(h)) && h < |lines|
            && var end := NextHeader(lines, h + 1);
            && EntryFrom(lines, h + 1, end, None, key) == Ok(Some(k)) && h < k < end
            && Removed(text, section, key) == Ok(Some(Spliced(DocOf(text), k, ContinuationEnd(lines, k + 1, end), [])))
  {
    hide SectionFrom, EntryFrom, ElsewhereFrom, NextHeader, Spliced, DocOf, ContinuationEnd, SectionIs;
    var lines := DocOf(text).lines;
    SectionFound(lines, 0, None, section);
    h := SectionFrom(lines, 0, None, section).value.value;
    EntryFound(lines, h + 1, NextHeader(lines, h + 1), None, key);
    k := EntryFrom(lines, h + 1, NextHeader(lines, h + 1), None, key).value.value;
  }

  lemma OnlyInSectionIs(lines: seq<Line>, section: string, key: string)
    ensures OnlyInSection(lines, section, key) <==>
            && (forall k :: 0 <= k < |lines| ==> !IsKeyTable(lines[k], section, key))
            && forall k :: 0 <= k < NextHeader(lines, 0) ==> !Declares(lines[k], section)
  {
  }

  lemma {:induction false} ContinuationEndIs(lines: seq<Line>, from: nat, end: nat)
    requires from <= end <= |lines| && (end < |lines| ==> lines[end].kind.Header?)
    ensures var e := ContinuationEnd(lines, from, end);
            && (forall j :: from <= j < e ==> lines[j].kind.Continuation?)
            && (e < |lines| ==> !lines[e].kind.Continuation?)
    decreases end - from
  {
    if from < end && lines[from].kind.Continuation? {
      ContinuationEndIs(lines, from + 1, end);
    }
  }

  /** What is left, read again: the lines before and after, with their bytes and kinds. */
  lemma Remaining(lines: seq<Line>, section: string, key: string, h: nat, k: nat, end: nat)
    requires Proper(lines) && Lexed(CLOSED, lines) && RemovesAt(lines, section, key, h, k, end)
    ensures k < end <= |lines| && ParseLines(CLOSED, Unparse(lines[..k] + lines[end..])) == lines[..k] + lines[end..]
  {
    hide Classify, ProperLine, Lexed, StateAfter, Unparse, ParseLines;
    LexedParts(lines, k, end);
    ProperParts(lines, k, end);
    ParseUnparse(CLOSED, lines[..k] + lines[end..]);
  }

  lemma LexedParts(lines: seq<Line>, k: nat, end: nat)
    requires Lexed(CLOSED, lines) && k < end <= |lines| && !lines[k].kind.Continuation?
    requires end < |lines| ==> !lines[end].kind.Continuation?
    ensures Lexed(CLOSED, lines[..k] + lines[end..])
  {
    hide Classify, Lexed, StateAfter;
    var head, tail := lines[..k], lines[end..];
    assert lines == lines[..end] + tail && lines == head + lines[k..];
    ClosedBefore(CLOSED, lines, k);
    LexedConcat(CLOSED, head, lines[k..]);
    LexedConcat(CLOSED, lines[..end], tail);
    if end < |lines| {
      ClosedBefore(CLOSED, lines, end);
    } else {
      NothingIsLexed();
    }
    LexedConcat(CLOSED, head, tail);
  }

  lemma NothingIsLexed()
    ensures Lexed(CLOSED, [])
  {
  }

  lemma ProperParts(lines: seq<Line>, k: nat, end: nat)
    requires Proper(lines) && k < end <= |lines|
    ensures Proper(lines[..k] + lines[end..])
  {
    var now := lines[..k] + lines[end..];
    forall j | 0 <= j < |now|
      ensures ProperLine(now[j], j == |now| - 1)
    {
      var i := if j < k then j else j + (end - k);
      assert now[j] == lines[i] && ProperLine(lines[i], i == |lines| - 1);
    }
  }

  /** A removal that succeeds takes out the entry and the lines its value continues on, and every other line
      keeps its bytes and its kind. */
  lemma RemovedLines(text: string, section: string, key: string) returns (h: nat, k: nat, end: nat, left: string)
    requires Removed(text, section, key).Ok? && Removed(text, section, key).value.Some?
    ensures Removed(text, section, key) == Ok(Some(left))
    ensures var lines := DocOf(text).lines;
            && RemovesAt(lines, section, key, h, k, end) && k < end <= |lines|
            && left == Unparse(lines[..k]) + Unparse(lines[end..])
            && DocOf(left).lines == lines[..k] + lines[end..]
  {
    hide Removed, RemovesAt, Unparse, ParseLines;
    h, k, end := RemovalIs(text, section, key);
    var lines := DocOf(text).lines;
    ParsedLines(CLOSED, text);
    Remaining(lines, section, key, h, k, end);
    UnparseConcat(lines[..k], lines[end..]);
    DropEmpty(Unparse(lines[..k]), Unparse(lines[end..]));
    left := Unparse(lines[..k]) + Unparse(lines[end..]);
  }

  // ---- nothing is left to remove ----------------------------------------------------------------

  lemma {:induction false} NoEntryFound(lines: seq<Line>, i: nat, end: nat, key: string)
    requires i <= end <= |lines| && forall j :: i <= j < end ==> !Declares(lines[j], key)
    ensures EntryFrom(lines, i, end, None, key) == Ok(None)
    decreases end - i
  {
    hide Declares;
    if i < end {
      NoEntryFound(lines, i + 1, end, key);
    }
  }

  /** Line `j` of the document without lines `k..end`. */
  lemma LeftLine(lines: seq<Line>, k: nat, end: nat, j: nat)
    requires k < end <= |lines| && j < |lines[..k] + lines[end..]|
    ensures (lines[..k] + lines[end..])[j] == lines[if j < k then j else j + (end - k)]
  {
  }

  lemma LeftHeaders(lines: seq<Line>, section: string, key: string, h: nat, k: nat, end: nat)
    requires RemovesAt(lines, section, key, h, k, end) && h < k < end <= |lines|
    ensures var now := lines[..k] + lines[end..];
            && h + 1 <= |now| && NextHeader(now, h + 1) == NextHeader(lines, h + 1) - (end - k)
            && NextHeader(now, 0) == NextHeader(lines, 0) <= h
  {
    hide SectionIs, EntryIsAt, OnlyInSection;
    assert lines[h].kind.Header? by { HeaderNamesIt(lines, section, h); }
    var now := lines[..k] + lines[end..];
    var n := NextHeader(lines, h + 1);
    assert forall j :: 0 <= j < k ==> now[j] == lines[j];
    assert forall j :: k <= j < |now| ==> now[j] == lines[j + (end - k)];
    NextHeaderIs(now, h + 1, n - (end - k));
    NextHeaderIs(now, 0, NextHeader(lines, 0));
  }

  lemma HeaderNamesIt(lines: seq<Line>, section: string, h: nat)
    requires SectionIs(lines, section, h)
    ensures h < |lines| && lines[h].kind.Header?
  {
  }

  lemma LeftSection(lines: seq<Line>, section: string, key: string, h: nat, k: nat, end: nat)
    requires RemovesAt(lines, section, key, h, k, end) && h < k < end <= |lines|
    ensures SectionIs(lines[..k] + lines[end..], section, h)
  {
    hide Names;
    var now := lines[..k] + lines[end..];
    assert forall j :: 0 <= j < k ==> now[j] == lines[j];
    assert forall j :: k <= j < |now| ==> now[j] == lines[j + (end - k)];
  }

  lemma LeftElsewhere(lines: seq<Line>, section: string, key: string, h: nat, k: nat, end: nat)
    requires RemovesAt(lines, section, key, h, k, end) && h < k < end <= |lines|
    requires NextHeader(lines[..k] + lines[end..], 0) == NextHeader(lines, 0) <= h
    ensures OnlyInSection(lines[..k] + lines[end..], section, key)
  {
    hide IsKeyTable, Declares, SectionIs, EntryIsAt;
    var now := lines[..k] + lines[end..];
    assert forall j :: 0 <= j < k ==> now[j] == lines[j];
    assert forall j :: k <= j < |now| ==> now[j] == lines[j + (end - k)];
  }

  lemma LeftUndeclared(lines: seq<Line>, section: string, key: string, h: nat, k: nat, end: nat)
    requires RemovesAt(lines, section, key, h, k, end) && h < k < end <= |lines|
    requires var now := lines[..k] + lines[end..];
             h + 1 <= |now| && NextHeader(now, h + 1) == NextHeader(lines, h + 1) - (end - k)
    ensures var now := lines[..k] + lines[end..];
            forall j :: h < j < NextHeader(now, h + 1) ==> !Declares(now[j], key)
  {
    hide Declares, SectionIs, OnlyInSection;
    var now := lines[..k] + lines[end..];
    forall j | h < j < NextHeader(now, h + 1)
      ensures !Declares(now[j], key)
    {
      LeftLine(lines, k, end, j);
    }
  }

  /** And the key is gone: removing it again finds nothing. */
  lemma RemovedIsGone(text: string, section: string, key: string)
    requires Removed(text, section, key).Ok? && Removed(text, section, key).value.Some?
    ensures Removed(Removed(text, section, key).value.value, section, key) == Ok(None)
  {
    hide Removed, RemovesAt, DocOf, SectionIs, OnlyInSection, Unparse;
    var h, k, end, left := RemovedLines(text, section, key);
    var lines, now := DocOf(text).lines, DocOf(left).lines;
    RemovalBounds(lines, section, key, h, k, end);
    LeftHeaders(lines, section, key, h, k, end);
    LeftSection(lines, section, key, h, k, end);
    LeftElsewhere(lines, section, key, h, k, end);
    LeftUndeclared(lines, section, key, h, k, end);
    SectionIsFound(now, 0, section, h);
    ElsewhereIs(now, 0, section, key);
    OnlyInSectionIs(now, section, key);
    NoEntryFound(now, h + 1, NextHeader(now, h + 1), key);
    NothingRemoved(left, section, key, h);
  }

  lemma RemovalBounds(lines: seq<Line>, section: string, key: string, h: nat, k: nat, end: nat)
    requires RemovesAt(lines, section, key, h, k, end)
    ensures h < k < end <= |lines|
  {
  }

  lemma NothingRemoved(text: string, section: string, key: string, h: nat)
    requires var lines := DocOf(text).lines;
             && ElsewhereFrom(lines, 0, true, section, key) == None
             && SectionFrom(lines, 0, None, section) == Ok(Some(h)) && h < |lines|
             && EntryFrom(lines, h + 1, NextHeader(lines, h + 1), None, key) == Ok(None)
    ensures Removed(text, section, key) == Ok(None)
  {
    hide SectionFrom, EntryFrom, ElsewhereFrom, NextHeader, Spliced, DocOf;
  }
}
