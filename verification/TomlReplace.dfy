/** Replacing a value. */
module TomlReplace {
  // Replacing a value on its line, and writing the old one back: where the edit is made, what it leaves
  // alone, and that the document is restored.

  import opened Wrappers
  import opened Text
  import opened TomlKeys
  import opened TomlLexer
  import opened TomlScan
  import opened TomlEntries
  import opened TomlDoc
  import opened TomlLines
  import opened TomlEdit

  /** A replacement, by what it is: entry `k` of the section at `h` given another value. */
  ghost predicate ReplacesAt(text: string, section: string, key: string, h: nat, k: nat, pair: Pair) {
    var lines := DocOf(text).lines;
    && h < |lines|
    && ElsewhereFrom(lines, 0, true, section, key) == None
    && SectionFrom(lines, 0, None, section) == Ok(Some(h))
    && EntryFrom(lines, h + 1, NextHeader(lines, h + 1), None, key) == Ok(Some(k))
    && h < k < NextHeader(lines, h + 1)
    && lines[k].kind == Entry(Some(pair), false)
    && IsEntry(lines[k].text, pair)
    && StateAfter(CLOSED, lines[..k]) == CLOSED
    && pair.start <= pair.end <= |lines[k].text|
  }

  /** Where a replacement is made, and what it gives. */
  lemma ReplacedAt(text: string, section: string, key: string, value: string) returns (h: nat, k: nat, pair: Pair)
    requires Upserted(text, section, key, value).Ok? && Upserted(text, section, key, value).value.Replaced?
    ensures var lines := DocOf(text).lines;
            && ElsewhereFrom(lines, 0, true, section, key) == None
            && SectionFrom(lines, 0, None, section) == Ok(Some(h)) && h < |lines|
            && EntryFrom(lines, h + 1, NextHeader(lines, h + 1), None, key) == Ok(Some(k))
            && h < k < NextHeader(lines, h + 1)
            && lines[k].kind == Entry(Some(pair), false) && pair.start <= pair.end <= |lines[k].text|
            && Upserted(text, section, key, value)
               == Ok(Replaced(Unparse(WithLine(lines, k, WithValue(lines[k].text, pair.start, pair.end, value))),
                              lines[k].text[pair.start..pair.end]))
    ensures '\n' !in value && '\r' !in value
  {
    hide SectionFrom, EntryFrom, ElsewhereFrom, NextHeader, Unparse, WithLine, WithValue, DocOf, LastIndent, AllSingleQuoted, ContentEnd,
         NewSection, Spliced, NewEntry;
    var lines := DocOf(text).lines;
    h := SectionFrom(lines, 0, None, section).value.value;
    SectionFound(lines, 0, None, section);
    var end := NextHeader(lines, h + 1);
    k := EntryFrom(lines, h + 1, end, None, key).value.value;
    EntryFound(lines, h + 1, end, None, key);
    pair := lines[k].kind.pair.value;
    EntryRange(text, k);
  }

  /** Whatever is replaced is a one-line entry of the section, and what comes back is its value as
      written. */
  lemma ReplacementIs(text: string, section: string, key: string, value: string) returns (h: nat, k: nat, pair: Pair)
    requires Upserted(text, section, key, value).Ok? && Upserted(text, section, key, value).value.Replaced?
    ensures ReplacesAt(text, section, key, h, k, pair)
    ensures '\n' !in value && '\r' !in value
    ensures var lines := DocOf(text).lines;
            Upserted(text, section, key, value)
            == Ok(Replaced(Unparse(WithLine(lines, k, WithValue(lines[k].text, pair.start, pair.end, value))),
                           lines[k].text[pair.start..pair.end]))
  {
    hide SectionFrom, EntryFrom, ElsewhereFrom, Classify, NextHeader, Unparse, WithLine, WithValue, Upserted;
    h, k, pair := ReplacedAt(text, section, key, value);
    var lines := DocOf(text).lines;
    ParsedLines(CLOSED, text);
    ClosedBefore(CLOSED, lines, k);
    ClosedEntry(lines[k].text);
  }

  lemma ClosedEntry(line: string)
    requires Classify(CLOSED, line).0.Entry?
    ensures Classify(CLOSED, line).0.multiLine <==> Classify(CLOSED, line).1 != CLOSED
  {
    hide EntryKind, HeaderKind;
  }

  lemma UpsertOnto(text: string, section: string, key: string, value: string, h: nat, k: nat, pair: Pair)
    requires ReplacesAt(text, section, key, h, k, pair) && '\n' !in value && '\r' !in value
    ensures var lines := DocOf(text).lines;
            Upserted(text, section, key, value)
            == Ok(Replaced(Unparse(WithLine(lines, k, WithValue(lines[k].text, pair.start, pair.end, value))),
                           lines[k].text[pair.start..pair.end]))
  {
    hide SectionFrom, EntryFrom, ElsewhereFrom, Classify, NextHeader, Spliced, NewSection;
  }

  /** The two lines have the same part in the document: same header, or same key. */
  predicate SameRole(a: Line, b: Line) {
    && (a.kind.Header? || b.kind.Header? ==> a.kind == b.kind)
    && (a.kind.Entry? <==> b.kind.Entry?)
    && (a.kind.Entry? ==>
          && (a.kind.pair.Some? <==> b.kind.pair.Some?)
          && (a.kind.pair.Some? ==> a.kind.pair.value.path == b.kind.pair.value.path))
  }

  ghost predicate SameRoles(a: seq<Line>, b: seq<Line>) {
    |a| == |b| && forall k :: 0 <= k < |a| ==> SameRole(a[k], b[k])
  }

  lemma {:induction false} RolesDecideSection(a: seq<Line>, b: seq<Line>, i: nat, found: Option<nat>, section: string)
    requires SameRoles(a, b) && i <= |a|
    ensures SectionFrom(a, i, found, section) == SectionFrom(b, i, found, section)
    decreases |a| - i
  {
    if i < |a| {
      assert SameRole(a[i], b[i]);
      RolesDecideSection(a, b, i + 1, found, section);
      RolesDecideSection(a, b, i + 1, Some(i), section);
    }
  }

  lemma {:induction false} RolesDecideEntry(a: seq<Line>, b: seq<Line>, i: nat, end: nat, found: Option<nat>, key: string)
    requires SameRoles(a, b) && i <= end <= |a|
    ensures EntryFrom(a, i, end, found, key) == EntryFrom(b, i, end, found, key)
    decreases end - i
  {
    if i < end {
      assert SameRole(a[i], b[i]);
      RolesDecideEntry(a, b, i + 1, end, found, key);
      RolesDecideEntry(a, b, i + 1, end, Some(i), key);
    }
  }

  lemma {:induction false} RolesDecideElsewhere(a: seq<Line>, b: seq<Line>, i: nat, inRoot: bool, section: string, key: string)
    requires SameRoles(a, b) && i <= |a|
    ensures ElsewhereFrom(a, i, inRoot, section, key) == ElsewhereFrom(b, i, inRoot, section, key)
    decreases |a| - i
  {
    if i < |a| {
      assert SameRole(a[i], b[i]);
      RolesDecideElsewhere(a, b, i + 1, inRoot, section, key);
      RolesDecideElsewhere(a, b, i + 1, false, section, key);
    }
  }

  lemma {:induction false} RolesDecideNextHeader(a: seq<Line>, b: seq<Line>, i: nat)
    requires SameRoles(a, b) && i <= |a|
    ensures NextHeader(a, i) == NextHeader(b, i)
    decreases |a| - i
  {
    if i < |a| {
      assert SameRole(a[i], b[i]);
      RolesDecideNextHeader(a, b, i + 1);
    }
  }

  /** The lines after a replacement: every other line is what it was, bytes and kind alike, and the
      edited one has the new value in its old place. */
  lemma ReplacedLines(text: string, section: string, key: string, value: string, h: nat, k: nat, pair: Pair)
    requires ReplacesAt(text, section, key, h, k, pair) && CompleteValue(value) && '\n' !in value && '\r' !in value
    ensures var lines := DocOf(text).lines;
            var line := WithValue(lines[k].text, pair.start, pair.end, value);
            var pair' := pair.(end := pair.start + |value|);
            DocOf(Unparse(WithLine(lines, k, line))).lines
            == lines[k := Line(line, lines[k].ending, Entry(Some(pair'), false))]
  {
    hide SectionFrom, EntryFrom, ElsewhereFrom, Classify, NextHeader, CompleteValue;
    var lines := DocOf(text).lines;
    var line := WithValue(lines[k].text, pair.start, pair.end, value);
    ParsedLines(CLOSED, text);
    ReplacedLine(lines[k].text, pair, value);
    assert ProperLine(lines[k], k == |lines| - 1);
    NewLineIsProper(lines[k].text, pair.start, pair.end, value);
    SwapLine(lines, k, line);
  }

  lemma NewLineIsProper(line: string, start: nat, end: nat, value: string)
    requires start <= end <= |line| && '\n' !in line && '\n' !in value && '\r' !in value && CompleteValue(value)
    ensures var line' := WithValue(line, start, end, value);
            '\n' !in line' && line' != [] && (EndsWith(line', '\r') ==> EndsWith(line, '\r'))
  {
    hide Walks;
    var line' := WithValue(line, start, end, value);
    assert value[|value| - 1] in value;
    assert line'[|line'| - 1] == if end < |line| then line[|line| - 1] else value[|value| - 1];
  }

  /** After the first edit the same entry is found again, holding the new value. */
  lemma ReplacesAgain(text: string, section: string, key: string, value: string, h: nat, k: nat, pair: Pair) returns (text': string)
    requires ReplacesAt(text, section, key, h, k, pair) && CompleteValue(value) && '\n' !in value && '\r' !in value
    ensures var lines := DocOf(text).lines;
            text' == Unparse(WithLine(lines, k, WithValue(lines[k].text, pair.start, pair.end, value)))
    ensures ReplacesAt(text', section, key, h, k, pair.(end := pair.start + |value|))
    ensures |DocOf(text').lines| == |DocOf(text).lines|
    ensures DocOf(text').lines[k].text == WithValue(DocOf(text).lines[k].text, pair.start, pair.end, value)
    ensures forall j :: 0 <= j < |DocOf(text).lines| && j != k ==> DocOf(text').lines[j] == DocOf(text).lines[j]
    ensures DocOf(text').lines[k].ending == DocOf(text).lines[k].ending
  {
    hide SectionFrom, EntryFrom, ElsewhereFrom, Classify, NextHeader, CompleteValue, DocOf;
    var lines := DocOf(text).lines;
    text' := Unparse(WithLine(lines, k, WithValue(lines[k].text, pair.start, pair.end, value)));
    ReplacedLines(text, section, key, value, h, k, pair);
    ReplacedLine(lines[k].text, pair, value);
    var now := DocOf(text').lines;
    assert now[..k] == lines[..k];
    RolesDecideSection(lines, now, 0, None, section);
    RolesDecideElsewhere(lines, now, 0, true, section, key);
    RolesDecideNextHeader(lines, now, h + 1);
    RolesDecideEntry(lines, now, h + 1, NextHeader(lines, h + 1), None, key);
  }

  /** Writing the reported previous value back restores the document byte for byte, and the first
      edit changed nothing but the value's range on its own line - unless the old value held a bare
      carriage return, which no value to be written may hold. */
  lemma WritingBackRestores(text: string, section: string, key: string, value: string)
    requires Upserted(text, section, key, value).Ok? && Upserted(text, section, key, value).value.Replaced?
    requires CompleteValue(value)
    ensures var Replaced(edited, previous) := Upserted(text, section, key, value).value;
            Upserted(edited, section, key, previous)
            == if '\r' in previous then Err(MultiLineValue) else Ok(Replaced(text, value))
    ensures exists before, after ::
              var Replaced(edited, previous) := Upserted(text, section, key, value).value;
              text == before + (previous + after) && edited == before + (value + after)
  {
    hide Upserted, ReplacesAt, CompleteValue, DocOf;
    var h, k, pair := ReplacementIs(text, section, key, value);
    RangeOf(text, section, key, h, k, pair);
    var edited := ReplacesAgain(text, section, key, value, h, k, pair);
    var lines, now := DocOf(text).lines, DocOf(edited).lines;
    var previous := lines[k].text[pair.start..pair.end];
    TextOf(text);
    OneRange(lines, k, pair.start, pair.end, value);
    if '\r' in previous {
      CarriageReturnRefused(edited, section, key, previous);
    } else {
      PreviousIsOneLine(text, k, pair.start, pair.end);
      UpsertOnto(edited, section, key, previous, h, k, pair.(end := pair.start + |value|));
      BackAgain(lines, now, k, pair.start, pair.end, value);
    }
  }

  lemma TextOf(text: string)
    ensures Unparse(DocOf(text).lines) == text
  {
    ParsedLines(CLOSED, text);
  }

  lemma PreviousIsOneLine(text: string, k: nat, start: nat, end: nat)
    requires k < |DocOf(text).lines| && start <= end <= |DocOf(text).lines[k].text|
    ensures '\n' !in DocOf(text).lines[k].text[start..end]
  {
    ParsedLines(CLOSED, text);
    var lines := DocOf(text).lines;
    assert ProperLine(lines[k], k == |lines| - 1);
  }

  /** The line with its old value back is the line that was. */
  lemma BackAgain(lines: seq<Line>, now: seq<Line>, k: nat, start: nat, end: nat, value: string)
    requires |now| == |lines| && k < |lines| && start <= end <= |lines[k].text|
    requires now[k].text == WithValue(lines[k].text, start, end, value) && now[k].ending == lines[k].ending
    requires forall j :: 0 <= j < |lines| && j != k ==> now[j] == lines[j]
    ensures start + |value| <= |now[k].text| && now[k].text[start..start + |value|] == value
    ensures Unparse(WithLine(now, k, WithValue(now[k].text, start, start + |value|, lines[k].text[start..end]))) == Unparse(lines)
  {
    var line, line' := lines[k].text, now[k].text;
    assert line' == line[..start] + (value + line[end..]);
    assert WithValue(line', start, start + |value|, line[start..end]) == line;
    UnparseIgnoresKinds(WithLine(now, k, line), lines);
  }

  lemma CarriageReturnRefused(text: string, section: string, key: string, value: string)
    requires '\r' in value
    ensures Upserted(text, section, key, value) == Err(MultiLineValue)
  {
  }

  lemma RangeOf(text: string, section: string, key: string, h: nat, k: nat, pair: Pair)
    requires ReplacesAt(text, section, key, h, k, pair)
    ensures k < |DocOf(text).lines| && pair.start <= pair.end <= |DocOf(text).lines[k].text|
  {
  }

  /** The document before and after the value's range is the same. */
  lemma OneRange(lines: seq<Line>, k: nat, start: nat, end: nat, value: string)
    requires k < |lines| && start <= end <= |lines[k].text|
    ensures var line := lines[k].text;
            exists before, after ::
              && Unparse(lines) == before + (line[start..end] + after)
              && Unparse(WithLine(lines, k, WithValue(line, start, end, value))) == before + (value + after)
  {
    var line := lines[k].text;
    var head, tail := Unparse(lines[..k]), lines[k].ending + Unparse(lines[k + 1..]);
    LineInPlace(lines, k, line);
    LineInPlace(lines, k, WithValue(line, start, end, value));
    assert WithLine(lines, k, line) == lines;
    assert line == line[..start] + (line[start..end] + line[end..]);
    Nest(head, line[..start], line[start..end], line[end..], tail);
    Nest(head, line[..start], value, line[end..], tail);
  }

  lemma Nest(a: string, b: string, v: string, c: string, d: string)
    ensures a + ((b + (v + c)) + d) == (a + b) + (v + (c + d))
  {
  }

  lemma LineInPlace(lines: seq<Line>, k: nat, line: string)
    requires k < |lines|
    ensures Unparse(WithLine(lines, k, line)) == Unparse(lines[..k]) + (line + (lines[k].ending + Unparse(lines[k + 1..])))
  {
    var swapped := WithLine(lines, k, line);
    assert swapped == lines[..k] + ([swapped[k]] + lines[k + 1..]);
    UnparseConcat(lines[..k], [swapped[k]] + lines[k + 1..]);
    assert ([swapped[k]] + lines[k + 1..])[1..] == lines[k + 1..];
  }
}
