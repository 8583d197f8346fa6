/** Adding an entry. */
module TomlAdd {
  // Adding an entry to a section a document already has, and removing it again: the document's own bytes come
  // back.

  import opened Wrappers
  import opened Text
  import opened TomlKeys
  import opened TomlLexer
  import opened TomlScan
  import opened TomlEntries
  import opened TomlDoc
  import opened TomlLines
  import opened TomlEdit
  import opened TomlReplace
  import opened TomlEndings

  /** Where an entry is added, by what it is: past the content of the one plain section, which does
      not declare the key. */
  ghost predicate AddsAt(text: string, section: string, key: string, h: nat, at: nat) {
    var lines := DocOf(text).lines;
    && SectionIs(lines, section, h)
    && OnlyInSection(lines, section, key)
    && at == ContentEnd(lines, h, NextHeader(lines, h + 1))
    && forall k :: h < k < NextHeader(lines, h + 1) ==> !Declares(lines[k], key)
  }

  /** An addition to an existing section is one entry spliced in there. */
  lemma AdditionIs(text: string, section: string, key: string, value: string) returns (h: nat, at: nat, entry: string)
    requires Upserted(text, section, key, value).Ok? && Upserted(text, section, key, value).value.Added?
    requires SectionFrom(DocOf(text).lines, 0, None, section) != Ok(None)
    ensures AddsAt(text, section, key, h, at) && '\n' !in value && '\r' !in value
    ensures h < at <= NextHeader(DocOf(text).lines, h + 1)
    ensures exists single, indent ::
              && (forall c <- indent :: IsWhitespace(c) && c != '\n')
              && entry == NewEntry(indent, key, single, value)
    ensures Upserted(text, section, key, value) == Ok(Added(Spliced(DocOf(text), at, at, [entry])))
  {
    hide Upserted, SectionFrom, EntryFrom, ElsewhereFrom, LastIndent, AllSingleQuoted, Spliced, ContentEnd, DocOf;
    var lines := DocOf(text).lines;
    h := AdditionUnfolds(text, section, key, value);
    SectionFound(lines, 0, None, section);
    ElsewhereIs(lines, 0, section, key);
    var end := NextHeader(lines, h + 1);
    EntryFound(lines, h + 1, end, None, key);
    at := ContentEnd(lines, h, end);
    AfterHeader(lines, h, end);
    ProperDoc(text);
    IndentIsSpace(lines, h + 1, end);
    entry := NewEntry(LastIndent(lines, h + 1, end), key, AllSingleQuoted(lines, h + 1, end), value);
  }

  lemma ProperDoc(text: string)
    ensures Proper(DocOf(text).lines)
  {
    ParsedLines(CLOSED, text);
  }

  lemma AdditionUnfolds(text: string, section: string, key: string, value: string) returns (h: nat)
    requires Upserted(text, section, key, value).Ok? && Upserted(text, section, key, value).value.Added?
    requires SectionFrom(DocOf(text).lines, 0, None, section) != Ok(None)
    ensures '\n' !in value && '\r' !in value
    ensures var lines := DocOf(text).lines;
            && ElsewhereFrom(lines, 0, true, section, key) == None
            && SectionFrom(lines, 0, None, section) == Ok(Some(h)) && h < |lines|
            && var end := NextHeader(lines, h + 1);
            && EntryFrom(lines, h + 1, end, None, key) == Ok(None)
            && var entry := NewEntry(LastIndent(lines, h + 1, end), key, AllSingleQuoted(lines, h + 1, end), value);
            Upserted(text, section, key, value)
            == Ok(Added(Spliced(DocOf(text), ContentEnd(lines, h, end), ContentEnd(lines, h, end), [entry])))
  {
    hide SectionFrom, EntryFrom, ElsewhereFrom, LastIndent, AllSingleQuoted, NextHeader, Spliced, ContentEnd, NewSection, DocOf, SectionIs;
    SectionFound(DocOf(text).lines, 0, None, section);
    h := SectionFrom(DocOf(text).lines, 0, None, section).value.value;
  }

  lemma AfterHeader(lines: seq<Line>, h: nat, end: nat)
    requires h < end <= |lines| && lines[h].kind.Header?
    ensures h < ContentEnd(lines, h, end)
  {
  }

  lemma {:induction false} IndentIsSpace(lines: seq<Line>, from: nat, end: nat)
    requires Proper(lines) && from <= end <= |lines|
    ensures forall c <- LastIndent(lines, from, end) :: IsWhitespace(c) && c != '\n'
    decreases end - from
  {
    hide ProperLine, LeadingSpace, IsWhitespace;
    if from < end {
      if lines[end - 1].kind.Entry? {
        IndentOfLine(lines, end - 1);
      } else {
        IndentIsSpace(lines, from, end - 1);
      }
    }
  }

  lemma IndentOfLine(lines: seq<Line>, i: nat)
    requires Proper(lines) && i < |lines|
    ensures forall c <- LeadingSpace(lines[i].text) :: IsWhitespace(c) && c != '\n'
  {
    assert ProperLine(lines[i], i == |lines| - 1);
    var t := lines[i].text;
    forall c | c in t[..Indent(t)]
      ensures IsWhitespace(c) && c != '\n'
    {
      var k :| 0 <= k < Indent(t) && t[k] == c;
      assert t[k] in t;
    }
  }

  /** The insertion point is between lines, outside every value. */
  lemma ClosedAtContentEnd(lines: seq<Line>, h: nat, end: nat)
    requires Lexed(CLOSED, lines) && StateAfter(CLOSED, lines) == CLOSED
    requires h < end <= |lines| && (end < |lines| ==> lines[end].kind.Header?)
    ensures var at := ContentEnd(lines, h, end);
            StateAfter(CLOSED, lines[..at]) == CLOSED && (at < |lines| ==> !lines[at].kind.Continuation?)
  {
    hide Classify, StateAfter, Lexed;
    var at := ContentEnd(lines, h, end);
    if at < |lines| {
      ClosedBefore(CLOSED, lines, at);
    } else {
      assert lines[..at] == lines;
    }
  }

  /** The lines before a place outside every value, each of them ended. */
  lemma EndedHead(text: string, at: nat) returns (before: seq<Line>)
    requires at <= |DocOf(text).lines| && StateAfter(CLOSED, DocOf(text).lines[..at]) == CLOSED
    ensures var lines := DocOf(text).lines;
            && AllEnded(before) && Lexed(CLOSED, before) && StateAfter(CLOSED, before) == CLOSED && |before| == at
            && Lexed(CLOSED, lines[at..])
            && Unparse(before) == Unparse(lines[..at]) + MissingEol(DocOf(text), at, [""])
            && (at == 0 || lines[at - 1].ending != [] ==> before == lines[..at])
            && (at > 0 && lines[at - 1].ending == [] ==>
                  at == |lines| && before[..at - 1] == lines[..at - 1] && KeepsRole(lines[at - 1], before[at - 1], DocOf(text).eol))
  {
    hide Classify, StateAfter, Lexed, Proper, AllEnded, DocOf, KeepsRole;
    var lines := DocOf(text).lines;
    ParsedDoc(text);
    var head, tail := lines[..at], lines[at..];
    assert lines == head + tail;
    LexedConcat(CLOSED, head, tail);
    if at > 0 && lines[at - 1].ending == [] {
      EndingOnlyLast(lines, at);
      before := EndLast(head, DocOf(text).eol);
    } else {
      before := head;
      EndedBefore(lines, at);
      assert Unparse(head) + [] == Unparse(head);
    }
  }

  /** The lines the new entry joins: those before it, every one ended, and those after. */
  lemma Around(text: string, section: string, key: string, h: nat, at: nat) returns (before: seq<Line>)
    requires AddsAt(text, section, key, h, at) && h < at <= NextHeader(DocOf(text).lines, h + 1)
    requires StateAfter(CLOSED, DocOf(text).lines) == CLOSED
    ensures var lines := DocOf(text).lines;
            && AllEnded(before) && Lexed(CLOSED, before) && SameRoles(lines[..at], before)
            && StateAfter(CLOSED, before) == CLOSED && Lexed(CLOSED, lines[at..])
            && Unparse(before) == Unparse(lines[..at]) + MissingEol(DocOf(text), at, [""])
            && (at < |lines| ==> before == lines[..at] && !lines[at].kind.Continuation?)
            && (at > 0 && lines[at - 1].ending != [] ==> before == lines[..at])
  {
    hide Classify, StateAfter, Lexed, Proper, AllEnded, ContentEnd, DocOf, AddsAt, SectionIs, OnlyInSection, SameRole, NextHeader;
    var lines := DocOf(text).lines;
    ParsedDoc(text);
    AddsAtFacts(text, section, key, h, at);
    ClosedAtContentEnd(lines, h, NextHeader(lines, h + 1));
    before := EndedHead(text, at);
    LastRole(lines, section, h, at);
    RolesOfEnded(lines[..at], before, DocOf(text).eol);
  }

  lemma RolesOfEnded(lines: seq<Line>, ended: seq<Line>, eol: string)
    requires lines != [] && |ended| == |lines| && lines[|lines| - 1].kind != Header(None, false)
    requires ended == lines || (ended[..|lines| - 1] == lines[..|lines| - 1]
                                && KeepsRole(lines[|lines| - 1], ended[|lines| - 1], eol))
    ensures SameRoles(lines, ended)
  {
    forall k | 0 <= k < |lines|
      ensures SameRole(lines[k], ended[k])
    {
      assert k < |lines| - 1 && ended != lines ==> ended[..|lines| - 1][k] == lines[..|lines| - 1][k];
    }
  }

  lemma ParsedDoc(text: string)
    ensures var doc := DocOf(text);
            Proper(doc.lines) && Lexed(CLOSED, doc.lines) && (doc.eol == "\n" || doc.eol == "\r\n")
  {
    ParsedLines(CLOSED, text);
    EolIs(DocOf(text).lines);
  }

  lemma EndingOnlyLast(lines: seq<Line>, at: nat)
    requires Proper(lines) && 0 < at <= |lines| && lines[at - 1].ending == []
    ensures at == |lines| && lines[..at] == lines
  {
    assert ProperLine(lines[at - 1], at - 1 == |lines| - 1);
  }

  /** The last line of the section is its header or no header at all. */
  lemma LastRole(lines: seq<Line>, section: string, h: nat, at: nat)
    requires SectionIs(lines, section, h) && h < at <= NextHeader(lines, h + 1)
    ensures lines[at - 1].kind != Header(None, false)
  {
  }

  lemma EndedBefore(lines: seq<Line>, at: nat)
    requires Proper(lines) && at <= |lines| && (at > 0 ==> lines[at - 1].ending != [])
    ensures AllEnded(lines[..at])
  {
    forall k | 0 <= k < at
      ensures ProperLine(lines[..at][k], false)
    {
      assert ProperLine(lines[k], k == |lines| - 1);
    }
  }

  // ---- the document with the entry in it --------------------------------------------------------

  /** `now` is `lines` with an entry for `key` at `at`, every other line in its part. */
  ghost predicate Inserted(lines: seq<Line>, now: seq<Line>, at: nat, key: string) {
    && at <= |lines| && |now| == |lines| + 1
    && (forall k :: 0 <= k < at ==> SameRole(lines[k], now[k]))
    && (forall k :: at <= k < |lines| ==> now[k + 1] == lines[k])
    && now[at].kind.Entry? && now[at].kind.pair.Some? && now[at].kind.pair.value.path == [key]
  }

  lemma {:induction false} NextHeaderIs(lines: seq<Line>, from: nat, n: nat)
    requires from <= n <= |lines| && (forall k :: from <= k < n ==> !lines[k].kind.Header?)
    requires n < |lines| ==> lines[n].kind.Header?
    ensures NextHeader(lines, from) == n
  {
  }

  /** The entry is found where it was put. */
  lemma InsertedIsFound(lines: seq<Line>, now: seq<Line>, section: string, key: string, h: nat, at: nat)
    requires Inserted(lines, now, at, key) && SectionIs(lines, section, h) && OnlyInSection(lines, section, key)
    requires h < at <= NextHeader(lines, h + 1)
    requires forall k :: h < k < NextHeader(lines, h + 1) ==> !Declares(lines[k], key)
    ensures NextHeader(now, h + 1) == NextHeader(lines, h + 1) + 1
    ensures ElsewhereFrom(now, 0, true, section, key) == None
    ensures SectionFrom(now, 0, None, section) == Ok(Some(h))
    ensures EntryFrom(now, h + 1, NextHeader(now, h + 1), None, key) == Ok(Some(at))
  {
    var end := NextHeader(lines, h + 1);
    InsertedHeaders(lines, now, section, key, h, at);
    InsertedSection(lines, now, section, key, h, at);
    SectionIsFound(now, 0, section, h);
    InsertedElsewhere(lines, now, section, key, h, at);
    ElsewhereIs(now, 0, section, key);
    InsertedEntry(lines, now, section, key, h, at);
    EntryIsFound(now, h + 1, h + 1, end + 1, key, at);
  }

  lemma InsertedHeaders(lines: seq<Line>, now: seq<Line>, section: string, key: string, h: nat, at: nat)
    requires Inserted(lines, now, at, key) && SectionIs(lines, section, h) && h < at <= NextHeader(lines, h + 1)
    ensures NextHeader(now, h + 1) == NextHeader(lines, h + 1) + 1
    ensures NextHeader(now, 0) == NextHeader(lines, 0) <= h
  {
    var end, first := NextHeader(lines, h + 1), NextHeader(lines, 0);
    forall k | h + 1 <= k < end + 1
      ensures !now[k].kind.Header?
    {
      if k > at {
        assert now[(k - 1) + 1] == lines[k - 1];
      }
    }
    if end < |lines| {
      assert now[end + 1] == lines[end];
    }
    NextHeaderIs(now, h + 1, end + 1);
    NextHeaderIs(now, 0, first);
  }

  lemma InsertedSection(lines: seq<Line>, now: seq<Line>, section: string, key: string, h: nat, at: nat)
    requires Inserted(lines, now, at, key) && SectionIs(lines, section, h) && h < at
    ensures SectionIs(now, section, h)
  {
    assert SameRole(lines[h], now[h]);
    forall k | 0 <= k < |now| && k != h
      ensures !Names(now[k], section)
    {
      if k > at {
        assert now[(k - 1) + 1] == lines[k - 1];
      } else if k < at {
        assert SameRole(lines[k], now[k]);
      }
    }
  }

  lemma InsertedElsewhere(lines: seq<Line>, now: seq<Line>, section: string, key: string, h: nat, at: nat)
    requires Inserted(lines, now, at, key) && OnlyInSection(lines, section, key) && h < at
    requires NextHeader(now, 0) == NextHeader(lines, 0) <= h
    ensures OnlyInSection(now, section, key)
  {
    forall k | 0 <= k < |now|
      ensures !IsKeyTable(now[k], section, key)
    {
      if k > at {
        assert now[(k - 1) + 1] == lines[k - 1];
      } else if k < at {
        assert SameRole(lines[k], now[k]);
      }
    }
    forall k | 0 <= k < NextHeader(now, 0)
      ensures !Declares(now[k], section)
    {
      assert SameRole(lines[k], now[k]);
    }
  }

  lemma InsertedEntry(lines: seq<Line>, now: seq<Line>, section: string, key: string, h: nat, at: nat)
    requires Inserted(lines, now, at, key) && h < at <= NextHeader(lines, h + 1)
    requires h + 1 <= |lines| && NextHeader(now, h + 1) == NextHeader(lines, h + 1) + 1
    requires forall k :: h < k < NextHeader(lines, h + 1) ==> !Declares(lines[k], key)
    ensures EntryIsAt(now, h + 1, NextHeader(lines, h + 1) + 1, key, at)
  {
    forall j | h + 1 <= j < NextHeader(lines, h + 1) + 1 && j != at
      ensures !Declares(now[j], key)
    {
      if j > at {
        assert now[(j - 1) + 1] == lines[j - 1];
      } else {
        assert SameRole(lines[j], now[j]);
      }
    }
  }

  // ---- the laws ---------------------------------------------------------------------------------

  /** The document after an addition: its lines are the old ones with the new entry among them;
      those after it are unchanged, bytes and kinds, and so are those before it, but for an ending
      given to a last line that had none. */
  lemma AddedLines(text: string, section: string, key: string, value: string) returns (h: nat, at: nat, before: seq<Line>, added: Line)
    requires Upserted(text, section, key, value).Ok? && Upserted(text, section, key, value).value.Added?
    requires SectionFrom(DocOf(text).lines, 0, None, section) != Ok(None)
    requires StateAfter(CLOSED, DocOf(text).lines) == CLOSED && Scan(CLOSED, value, 0).0 == CLOSED
    ensures AddsAt(text, section, key, h, at) && h < at <= NextHeader(DocOf(text).lines, h + 1)
    ensures var lines := DocOf(text).lines;
            && DocOf(Upserted(text, section, key, value).value.text).lines == before + ([added] + lines[at..])
            && |before| == at && SameRoles(lines[..at], before)
            && Unparse(before) == Unparse(lines[..at]) + MissingEol(DocOf(text), at, [""])
            && (at < |lines| ==> before == lines[..at] && !lines[at].kind.Continuation?)
            && (lines[at - 1].ending != [] ==> before == lines[..at])
            && added.kind.Entry? && added.kind.pair.Some? && added.kind.pair.value.path == [key]
  {
    hide Upserted, AddsAt, Classify, StateAfter, Lexed, ProperLine, Spliced, Scan, DocOf;
    var entry;
    h, at, entry := AdditionIs(text, section, key, value);
    before := Around(text, section, key, h, at);
    var single, indent :| (forall c <- indent :: IsWhitespace(c) && c != '\n') && entry == NewEntry(indent, key, single, value);
    added := AddedLineIs(indent, key, single, value, DocOf(text).eol, text);
    OneLine(added);
    ReadInserted(text, at, at, before, [added]);
  }

  lemma AddedLineIs(indent: string, key: string, single: bool, value: string, eol: string, text: string) returns (added: Line)
    requires (forall c <- indent :: IsWhitespace(c) && c != '\n') && '\n' !in value && '\r' !in value
    requires Scan(CLOSED, value, 0).0 == CLOSED && eol == DocOf(text).eol
    ensures added.text == NewEntry(indent, key, single, value) && added.ending == eol
    ensures ProperLine(added, false) && Lexed(CLOSED, [added]) && StateAfter(CLOSED, [added]) == CLOSED
    ensures added.kind.Entry? && added.kind.pair.Some? && added.kind.pair.value.path == [key]
  {
    hide Scan, Classify, RenderKey;
    ParsedLines(CLOSED, text);
    EolIs(DocOf(text).lines);
    var pair := AddedLine(indent, key, single, value);
    assert value != [] ==> value[|value| - 1] in value;
    NewEntryIsOneLine(indent, key, single, value);
    added := Line(NewEntry(indent, key, single, value), eol, Entry(Some(pair), false));
  }

  lemma OneLine(l: Line)
    ensures TextsOf([l]) == [l.text] && (ProperLine(l, false) ==> AllEnded([l]))
  {
    assert [l][1..] == [];
  }

  function TextsOf(lines: seq<Line>): seq<string> {
    if lines == [] then [] else [lines[0].text] + TextsOf(lines[1..])
  }

  /** A document with whole lines spliced in reads as its lines with those among them. */
  lemma ReadInserted(text: string, start: nat, end: nat, before: seq<Line>, added: seq<Line>)
    requires var lines := DocOf(text).lines;
             && start <= end <= |lines| && AllEnded(before) && Lexed(CLOSED, before) && StateAfter(CLOSED, before) == CLOSED
             && Lexed(CLOSED, lines[end..])
             && Unparse(before) == Unparse(lines[..start]) + MissingEol(DocOf(text), start, TextsOf(added))
    requires forall k :: 0 <= k < |added| ==> added[k].ending == DocOf(text).eol
    requires AllEnded(added) && Lexed(CLOSED, added) && StateAfter(CLOSED, added) == CLOSED
    ensures DocOf(Spliced(DocOf(text), start, end, TextsOf(added))).lines == before + (added + DocOf(text).lines[end..])
  {
    hide Classify, ProperLine, StateAfter, Lexed;
    var lines := DocOf(text).lines;
    var tail := lines[end..];
    ParsedLines(CLOSED, text);
    LexedConcat(CLOSED, added, tail);
    LexedConcat(CLOSED, before, added + tail);
    ProperInserted(before, added, lines, end);
    ParseUnparse(CLOSED, before + (added + tail));
    WrittenAdded(before, added, tail, DocOf(text).eol);
  }

  lemma WrittenAdded(before: seq<Line>, added: seq<Line>, tail: seq<Line>, eol: string)
    requires forall k :: 0 <= k < |added| ==> added[k].ending == eol
    ensures Unparse(before + (added + tail)) == Unparse(before) + Ended(TextsOf(added), eol) + Unparse(tail)
  {
    hide Unparse, Ended;
    UnparseConcat(before, added + tail);
    UnparseConcat(added, tail);
    EndedTexts(added, eol);
    var x, y, z := Unparse(before), Unparse(added), Unparse(tail);
    assert x + (y + z) == (x + y) + z;
  }

  lemma {:induction false} EndedTexts(added: seq<Line>, eol: string)
    requires forall k :: 0 <= k < |added| ==> added[k].ending == eol
    ensures Ended(TextsOf(added), eol) == Unparse(added)
  {
    if added != [] {
      EndedTexts(added[1..], eol);
      assert TextsOf(added)[1..] == TextsOf(added[1..]);
    }
  }

  lemma ProperInserted(before: seq<Line>, added: seq<Line>, lines: seq<Line>, at: nat)
    requires AllEnded(before) && AllEnded(added) && Proper(lines) && at <= |lines|
    ensures Proper(before + (added + lines[at..]))
  {
    var now := before + (added + lines[at..]);
    forall k | 0 <= k < |now|
      ensures ProperLine(now[k], k == |now| - 1)
    {
      if k < |before| {
        assert ProperLine(before[k], false) && now[k] == before[k];
      } else if k < |before| + |added| {
        assert ProperLine(added[k - |before|], false) && now[k] == added[k - |before|];
      } else {
        var j := at + (k - |before| - |added|);
        assert now[k] == lines[j] && ProperLine(lines[j], j == |lines| - 1);
      }
    }
  }

  /** Removing a key that was just added gives back the document, byte for byte, up to the line
      ending given to a last line that had none. */
  lemma RemoveUndoesAdd(text: string, section: string, key: string, value: string)
    requires Upserted(text, section, key, value).Ok? && Upserted(text, section, key, value).value.Added?
    requires SectionFrom(DocOf(text).lines, 0, None, section) != Ok(None)
    requires StateAfter(CLOSED, DocOf(text).lines) == CLOSED && Scan(CLOSED, value, 0).0 == CLOSED
    ensures exists suffix ::
              && Removed(Upserted(text, section, key, value).value.text, section, key) == Ok(Some(text + suffix))
              && (suffix == [] || (suffix == DocOf(text).eol && text != [] && !EndsWith(text, '\n')))
  {
    hide Upserted, AddsAt, StateAfter, Scan, Removed, DocOf;
    var h, at, before, added := AddedLines(text, section, key, value);
    var added' := Upserted(text, section, key, value).value.text;
    var suffix := MissingEol(DocOf(text), at, [""]);
    AddsAtFacts(text, section, key, h, at);
    FoundAgain(text, added', section, key, h, at, before, added);
    Unterminated(text, at);
  }

  lemma AddsAtFacts(text: string, section: string, key: string, h: nat, at: nat)
    requires AddsAt(text, section, key, h, at)
    ensures var lines := DocOf(text).lines;
            && SectionIs(lines, section, h) && OnlyInSection(lines, section, key)
            && at == ContentEnd(lines, h, NextHeader(lines, h + 1))
            && forall k :: h < k < NextHeader(lines, h + 1) ==> !Declares(lines[k], key)
  {
  }

  lemma Unterminated(text: string, at: nat)
    requires at <= |DocOf(text).lines|
    ensures var suffix := MissingEol(DocOf(text), at, [""]);
            suffix == [] || (suffix == DocOf(text).eol && text != [] && !EndsWith(text, '\n'))
  {
    hide ProperLine, Lexed;
    var lines := DocOf(text).lines;
    ParsedLines(CLOSED, text);
    if at > 0 && lines[at - 1].ending == [] {
      EndingOnlyLast(lines, at);
      UnterminatedText(lines);
    }
  }

  lemma UnterminatedText(lines: seq<Line>)
    requires Proper(lines) && lines != [] && lines[|lines| - 1].ending == []
    ensures Unparse(lines) != [] && !EndsWith(Unparse(lines), '\n')
  {
    var n := |lines| - 1;
    var last := lines[n];
    assert ProperLine(last, n == |lines| - 1);
    assert last.text[|last.text| - 1] in last.text;
    UnparseNext(lines, n);
    assert lines[..n + 1] == lines;
    assert Unparse(lines[..n]) + last.text + [] == Unparse(lines[..n]) + last.text;
  }

  lemma FoundAgain(text: string, added': string, section: string, key: string, h: nat, at: nat, before: seq<Line>, added: Line)
    requires var lines := DocOf(text).lines;
             && SectionIs(lines, section, h) && OnlyInSection(lines, section, key)
             && h < at <= NextHeader(lines, h + 1)
             && (forall k :: h < k < NextHeader(lines, h + 1) ==> !Declares(lines[k], key))
             && DocOf(added').lines == before + ([added] + lines[at..])
             && |before| == at && SameRoles(lines[..at], before)
             && Unparse(before) == Unparse(lines[..at]) + MissingEol(DocOf(text), at, [""])
             && (at < |lines| ==> before == lines[..at] && !lines[at].kind.Continuation?)
             && added.kind.Entry? && added.kind.pair.Some? && added.kind.pair.value.path == [key]
    ensures Removed(added', section, key) == Ok(Some(text + MissingEol(DocOf(text), at, [""])))
  {
    hide DocOf, SectionFrom, EntryFrom, ElsewhereFrom, NextHeader, SectionIs, OnlyInSection, Inserted, Removed, Spliced;
    var lines, now := DocOf(text).lines, DocOf(added').lines;
    RolesInserted(lines, now, at, before, added, key);
    InsertedIsFound(lines, now, section, key, h, at);
    var end := NextHeader(now, h + 1);
    assert at + 1 < end ==> now[at + 1] == lines[at];
    RemovalUnfolds(added', section, key, h, at);
    RemovedText(text, added', at, before, added);
  }

  lemma RolesInserted(lines: seq<Line>, now: seq<Line>, at: nat, before: seq<Line>, added: Line, key: string)
    requires at <= |lines| && |before| == at && now == before + ([added] + lines[at..]) && SameRoles(lines[..at], before)
    requires added.kind.Entry? && added.kind.pair.Some? && added.kind.pair.value.path == [key]
    ensures Inserted(lines, now, at, key)
  {
    hide SameRole;
    forall k | 0 <= k < at
      ensures SameRole(lines[k], now[k])
    {
      assert SameRole(lines[..at][k], before[k]);
    }
  }

  lemma RemovalUnfolds(text: string, section: string, key: string, h: nat, k: nat)
    requires var lines := DocOf(text).lines;
             && ElsewhereFrom(lines, 0, true, section, key) == None
             && SectionFrom(lines, 0, None, section) == Ok(Some(h)) && h < |lines|
             && var end := NextHeader(lines, h + 1);
             && EntryFrom(lines, h + 1, end, None, key) == Ok(Some(k)) && h < k < end
             && (k + 1 < end ==> !lines[k + 1].kind.Continuation?)
    ensures Removed(text, section, key) == Ok(Some(Spliced(DocOf(text), k, k + 1, [])))
  {
    hide SectionFrom, EntryFrom, ElsewhereFrom, NextHeader, Spliced, DocOf;
  }

  lemma RemovedText(text: string, added': string, at: nat, before: seq<Line>, added: Line)
    requires var lines := DocOf(text).lines;
             && at <= |lines| && |before| == at
             && DocOf(added').lines == before + ([added] + lines[at..])
             && Unparse(before) == Unparse(lines[..at]) + MissingEol(DocOf(text), at, [""])
             && (at < |lines| ==> before == lines[..at])
    ensures Spliced(DocOf(added'), at, at + 1, []) == text + MissingEol(DocOf(text), at, [""])
  {
    hide DocOf;
    var lines, now := DocOf(text).lines, DocOf(added').lines;
    var suffix := MissingEol(DocOf(text), at, [""]);
    assert now[..at] == before && now[at + 1..] == lines[at..];
    TextOf(text);
    TextAround(lines, at, suffix);
    if at < |lines| {
      assert Unparse(before) == Unparse(before) + suffix;
    }
    DropEmpty(Unparse(before), Unparse(lines[at..]));
  }

  lemma DropEmpty(a: string, b: string)
    ensures a + [] + [] + b == a + b
  {
    assert a + [] == a;
  }

  /** An ending can be missing only at the very end. */
  lemma TextAround(lines: seq<Line>, at: nat, suffix: string)
    requires at <= |lines| && (at < |lines| ==> Unparse(lines[..at]) + suffix == Unparse(lines[..at]))
    ensures Unparse(lines[..at]) + suffix + Unparse(lines[at..]) == Unparse(lines) + suffix
  {
    hide Unparse;
    var a, b := Unparse(lines[..at]), Unparse(lines[at..]);
    assert lines == lines[..at] + lines[at..];
    UnparseConcat(lines[..at], lines[at..]);
    if at == |lines| {
      UnparseNone();
      assert a + suffix + [] == a + suffix && a + [] == a;
    } else {
      NothingAppended(a, suffix, b);
    }
  }

  lemma NothingAppended(a: string, suffix: string, b: string)
    requires a + suffix == a
    ensures a + suffix + b == (a + b) + suffix
  {
    assert |a + suffix| == |a| + |suffix|;
    assert suffix == [];
    assert (a + b) + [] == a + b;
  }

  lemma UnparseNone()
    ensures Unparse([]) == []
  {
  }
}
