/** A document as lines. */
module TomlDoc {
  // Reading it, finding a section and an entry, splicing lines.

  import opened Wrappers
  import opened Text
  import opened TomlKeys
  import opened TomlLexer

  /** A line without its ending, the ending (`\r\n`, `\n`, or nothing), and what it is. */
  datatype Line = Line(text: string, ending: string, kind: Kind)

  datatype Doc = Doc(lines: seq<Line>, eol: string)

  /** Why an edit is refused. */
  datatype Refusal =
    | MultiLineValue
    | SpansLines
    | DeclaredAsTable
    | ArrayOfTables
    | SectionRepeated
    | KeyRepeated
    | InlineAtTop

  // ---- reading ----------------------------------------------------------------------------------

  /** Where the first line's text and its ending stop. */
  function Cut(text: string): (r: (nat, nat))
    requires text != []
    ensures r.0 <= r.1 <= |text| && 0 < r.1
  {
    var n := Find(text, '\n', 0);
    if n == |text| then (n, n)
    else if n > 0 && text[n - 1] == '\r' then (n - 1, n + 1)
    else (n, n + 1)
  }

  function ParseLines(st: State, text: string): seq<Line>
    decreases |text|
  {
    if text == [] then []
    else
      var (body, end) := Cut(text);
      var (kind, st') := Classify(st, text[..body]);
      [Line(text[..body], text[body..end], kind)] + ParseLines(st', text[end..])
  }

  function EolOf(lines: seq<Line>): string {
    if lines == [] then "\n"
    else if lines[0].ending != [] then lines[0].ending
    else EolOf(lines[1..])
  }

  function DocOf(text: string): Doc {
    var lines := ParseLines(CLOSED, text);
    Doc(lines, EolOf(lines))
  }

  method FirstEol(lines: seq<Line>) returns (eol: string)
    ensures eol == EolOf(lines)
  {
    for i := 0 to |lines|
      invariant EolOf(lines) == EolOf(lines[i..])
    {
      assert lines[i..][0] == lines[i] && lines[i..][1..] == lines[i + 1..];
      if lines[i].ending != [] {
        return lines[i].ending;
      }
    }
    assert lines[|lines|..] == [];
    return "\n";
  }

  lemma ParseLinesUnfolds(st: State, text: string)
    requires text != []
    ensures var (body, end) := Cut(text);
            var (kind, next) := Classify(st, text[..body]);
            ParseLines(st, text) == [Line(text[..body], text[body..end], kind)] + ParseLines(next, text[end..])
  {
    hide Cut, Classify;
  }

  lemma ParseLinesEnd(st: State)
    ensures ParseLines(st, []) == []
  {
  }

  method Parse(text: string) returns (doc: Doc)
    ensures doc == DocOf(text)
  {
    hide Cut, Classify, ParseLines, EolOf;
    var lexer := new Lexer();
    var lines: seq<Line> := [];
    var rest := text;
    while rest != []
      invariant fresh(lexer)
      invariant lines + ParseLines(lexer.Current(), rest) == ParseLines(CLOSED, text)
      decreases |rest|
    {
      ghost var st := lexer.Current();
      ParseLinesUnfolds(st, rest);
      var (body, end) := Cut(rest);
      var kind := lexer.ClassifyLine(rest[..body]);
      var line := Line(rest[..body], rest[body..end], kind);
      assert lines + ([line] + ParseLines(lexer.Current(), rest[end..])) == (lines + [line]) + ParseLines(lexer.Current(), rest[end..]);
      lines := lines + [line];
      rest := rest[end..];
    }
    ParseLinesEnd(lexer.Current());
    assert lines + [] == lines;
    var eol := FirstEol(lines);
    doc := Doc(lines, eol);
  }

  // ---- finding ----------------------------------------------------------------------------------

  predicate Names(l: Line, section: string) {
    l.kind.Header? && l.kind.path == Some([section])
  }

  function SectionFrom(lines: seq<Line>, i: nat, found: Option<nat>, section: string): Result<Option<nat>, Refusal>
    requires i <= |lines|
    decreases |lines| - i
  {
    if i == |lines| then Ok(found)
    else if !Names(lines[i], section) then SectionFrom(lines, i + 1, found, section)
    else if lines[i].kind.double then Err(ArrayOfTables)
    else if found.Some? then Err(SectionRepeated)
    else SectionFrom(lines, i + 1, Some(i), section)
  }

  /** The one line that is the section's header, in single brackets; none; or why there is no such line. */
  method FindSection(lines: seq<Line>, section: string) returns (r: Result<Option<nat>, Refusal>)
    ensures r == SectionFrom(lines, 0, None, section)
  {
    var found: Option<nat> := None;
    for i := 0 to |lines|
      invariant SectionFrom(lines, 0, None, section) == SectionFrom(lines, i, found, section)
    {
      if !Names(lines[i], section) {
        continue;
      }
      if lines[i].kind.double {
        return Err(ArrayOfTables);
      }
      if found.Some? {
        return Err(SectionRepeated);
      }
      found := Some(i);
    }
    return Ok(found);
  }

  function NextHeader(lines: seq<Line>, from: nat): (n: nat)
    requires from <= |lines|
    ensures from <= n <= |lines|
    ensures forall k :: from <= k < n ==> !lines[k].kind.Header?
    ensures n < |lines| ==> lines[n].kind.Header?
    decreases |lines| - from
  {
    if from < |lines| && !lines[from].kind.Header? then NextHeader(lines, from + 1) else from
  }

  /** A line that declares `key`, alone or as the head of a dotted key. */
  predicate Declares(l: Line, key: string) {
    l.kind.Entry? && l.kind.pair.Some? && l.kind.pair.value.path != [] && l.kind.pair.value.path[0] == key
  }

  function EntryFrom(lines: seq<Line>, i: nat, end: nat, found: Option<nat>, key: string): Result<Option<nat>, Refusal>
    requires i <= end <= |lines|
    decreases end - i
  {
    if i == end then Ok(found)
    else if !Declares(lines[i], key) then EntryFrom(lines, i + 1, end, found, key)
    else if |lines[i].kind.pair.value.path| > 1 then Err(DeclaredAsTable)
    else if found.Some? then Err(KeyRepeated)
    else EntryFrom(lines, i + 1, end, Some(i), key)
  }

  method FindEntry(lines: seq<Line>, from: nat, end: nat, key: string) returns (r: Result<Option<nat>, Refusal>)
    requires from <= end <= |lines|
    ensures r == EntryFrom(lines, from, end, None, key)
  {
    var found: Option<nat> := None;
    for i := from to end
      invariant EntryFrom(lines, from, end, None, key) == EntryFrom(lines, i, end, found, key)
    {
      if !Declares(lines[i], key) {
        continue;
      }
      if |lines[i].kind.pair.value.path| > 1 {
        return Err(DeclaredAsTable);
      }
      if found.Some? {
        return Err(KeyRepeated);
      }
      found := Some(i);
    }
    return Ok(found);
  }

  /** A `[section."key"]` table. */
  predicate IsKeyTable(l: Line, section: string, key: string) {
    && l.kind.Header? && l.kind.path.Some? && |l.kind.path.value| >= 2
    && l.kind.path.value[0] == section && l.kind.path.value[1] == key
  }

  function ElsewhereFrom(lines: seq<Line>, i: nat, inRoot: bool, section: string, key: string): Option<Refusal>
    requires i <= |lines|
    decreases |lines| - i
  {
    if i == |lines| then None
    else if lines[i].kind.Header? then
      if IsKeyTable(lines[i], section, key) then Some(DeclaredAsTable)
      else ElsewhereFrom(lines, i + 1, false, section, key)
    else if inRoot && Declares(lines[i], section) then Some(InlineAtTop)
    else ElsewhereFrom(lines, i + 1, inRoot, section, key)
  }

  /** The refusal, if any, that a table for the key calls for, or the section spelled out above all headers. */
  method CheckNotDeclaredElsewhere(lines: seq<Line>, section: string, key: string) returns (r: Option<Refusal>)
    ensures r == ElsewhereFrom(lines, 0, true, section, key)
  {
    var inRoot := true;
    for i := 0 to |lines|
      invariant ElsewhereFrom(lines, 0, true, section, key) == ElsewhereFrom(lines, i, inRoot, section, key)
    {
      if lines[i].kind.Header? {
        inRoot := false;
        if IsKeyTable(lines[i], section, key) {
          return Some(DeclaredAsTable);
        }
      } else if inRoot && Declares(lines[i], section) {
        return Some(InlineAtTop);
      }
    }
    return None;
  }

  // ---- where a new entry goes -------------------------------------------------------------------

  function CommentRunStart(lines: seq<Line>, from: nat): (n: nat)
    requires from <= |lines|
    ensures n <= from
    ensures forall k :: n <= k < from ==> lines[k].kind.Comment?
    ensures n > 0 ==> !lines[n - 1].kind.Comment?
  {
    if from > 0 && lines[from - 1].kind.Comment? then CommentRunStart(lines, from - 1) else from
  }

  /** Where the comments that go with the line at `header` begin: all that stand right above it, if what is
      above them is blank or nothing; none of them otherwise. */
  function AttachedCommentStart(lines: seq<Line>, header: nat): (n: nat)
    requires header <= |lines|
    ensures n <= header
    ensures forall k :: n <= k < header ==> lines[k].kind.Comment?
    ensures n < header ==> n == 0 || lines[n - 1].kind.Blank?
  {
    var start := CommentRunStart(lines, header);
    if start < header && (start == 0 || lines[start - 1].kind.Blank?) then start else header
  }

  function BlankRunStart(lines: seq<Line>, body: nat, from: nat): (n: nat)
    requires body <= |lines| && from <= |lines|
    ensures n <= from && (body <= from ==> body <= n)
    ensures forall k :: n <= k < from ==> lines[k].kind.Blank?
    ensures body < n ==> !lines[n - 1].kind.Blank?
  {
    if from > body && lines[from - 1].kind.Blank? then BlankRunStart(lines, body, from - 1) else from
  }

  /** Where the content of the section that ends at `end` does: the line before is the header or is not
      blank, and after it come blank lines and then the comments of the next header. */
  function ContentEnd(lines: seq<Line>, header: nat, end: nat): (n: nat)
    requires header < end <= |lines|
    ensures n <= end
  {
    BlankRunStart(lines, header + 1, if end < |lines| then AttachedCommentStart(lines, end) else end)
  }

  /** Up to `n`, past the header, the section has its content, which does not end in a blank line; from there
      to `end`, blank lines, and below them the comments of the next header. */
  ghost predicate ContentEndsAt(lines: seq<Line>, header: nat, end: nat, n: nat)
    requires header < end <= |lines|
  {
    var comments := if end < |lines| then AttachedCommentStart(lines, end) else end;
    && header < n <= comments
    && (header + 1 < n ==> !lines[n - 1].kind.Blank?)
    && (forall k :: n <= k < comments ==> lines[k].kind.Blank?)
    && (forall k :: comments <= k < end ==> lines[k].kind.Comment?)
  }

  lemma ContentEndIs(lines: seq<Line>, header: nat, end: nat)
    requires header < end <= |lines|
    ensures lines[header].kind.Header? ==> ContentEndsAt(lines, header, end, ContentEnd(lines, header, end))
  {
    var comments := if end < |lines| then AttachedCommentStart(lines, end) else end;
    assert lines[header].kind.Header? ==> header < comments;
  }

  method FindAttachedCommentStart(lines: seq<Line>, header: nat) returns (n: nat)
    requires header <= |lines|
    ensures n == AttachedCommentStart(lines, header)
  {
    var start := header;
    while start > 0 && lines[start - 1].kind.Comment?
      invariant 0 <= start <= header && CommentRunStart(lines, header) == CommentRunStart(lines, start)
    {
      start := start - 1;
    }
    var setApart := start == 0 || lines[start - 1].kind.Blank?;
    n := if start < header && setApart then start else header;
  }

  method FindContentEnd(lines: seq<Line>, header: nat, end: nat) returns (n: nat)
    requires header < end <= |lines|
    ensures n == ContentEnd(lines, header, end)
    ensures lines[header].kind.Header? ==> ContentEndsAt(lines, header, end, n)
  {
    ContentEndIs(lines, header, end);
    var body := header + 1;
    n := end;
    if n < |lines| {
      n := FindAttachedCommentStart(lines, n);
    }
    ghost var at := ContentEnd(lines, header, end);
    while n > body && lines[n - 1].kind.Blank?
      invariant n <= |lines| && BlankRunStart(lines, body, n) == at
    {
      n := n - 1;
    }
  }

  predicate IsSingleQuoted(l: Line) {
    l.kind.Entry? && l.kind.pair.Some? && l.kind.pair.value.quote == Some('\'')
  }

  predicate HasEntries(lines: seq<Line>, from: nat, end: nat)
    requires from <= end <= |lines|
  {
    exists k :: from <= k < end && lines[k].kind.Entry?
  }

  predicate SingleQuotedOnly(lines: seq<Line>, from: nat, end: nat)
    requires from <= end <= |lines|
  {
    forall k :: from <= k < end && lines[k].kind.Entry? ==> IsSingleQuoted(lines[k])
  }

  /** The section has entries, and a single quote opens the key of each. */
  predicate AllSingleQuoted(lines: seq<Line>, from: nat, end: nat)
    requires from <= end <= |lines|
  {
    HasEntries(lines, from, end) && SingleQuotedOnly(lines, from, end)
  }

  lemma OneMoreLine(lines: seq<Line>, from: nat, i: nat)
    requires from <= i < |lines|
    ensures HasEntries(lines, from, i + 1) <==> HasEntries(lines, from, i) || lines[i].kind.Entry?
    ensures SingleQuotedOnly(lines, from, i + 1) <==>
            SingleQuotedOnly(lines, from, i) && (lines[i].kind.Entry? ==> IsSingleQuoted(lines[i]))
  {
    hide IsSingleQuoted;
  }

  /** The white space before the section's last entry; none when it has no entry. */
  function LastIndent(lines: seq<Line>, from: nat, end: nat): string
    requires from <= end <= |lines|
    decreases end - from
  {
    if from == end then ""
    else if lines[end - 1].kind.Entry? then LeadingSpace(lines[end - 1].text)
    else LastIndent(lines, from, end - 1)
  }

  function LeadingSpace(text: string): string {
    text[..Indent(text)]
  }

  lemma {:induction false} LastIndentIs(lines: seq<Line>, from: nat, end: nat)
    requires from <= end <= |lines|
    ensures !HasEntries(lines, from, end) ==> LastIndent(lines, from, end) == ""
    ensures HasEntries(lines, from, end) ==>
              exists k :: from <= k < end && lines[k].kind.Entry? && LastIndent(lines, from, end) == LeadingSpace(lines[k].text)
                && forall j :: k < j < end ==> !lines[j].kind.Entry?
    decreases end - from
  {
    hide LeadingSpace;
    if from < end && !lines[end - 1].kind.Entry? {
      LastIndentIs(lines, from, end - 1);
      OneMoreLine(lines, from, end - 1);
    }
  }

  /** How a new entry is to be written: like the section's other entries. */
  method EntryStyle(lines: seq<Line>, from: nat, end: nat) returns (single: bool, indent: string)
    requires from <= end <= |lines|
    ensures single <==> AllSingleQuoted(lines, from, end)
    ensures indent == LastIndent(lines, from, end)
  {
    hide HasEntries, SingleQuotedOnly, IsSingleQuoted, LeadingSpace;
    var any, allSingle := false, true;
    indent := "";
    NoLines(lines, from);
    for i := from to end
      invariant any <==> HasEntries(lines, from, i)
      invariant allSingle <==> SingleQuotedOnly(lines, from, i)
      invariant indent == LastIndent(lines, from, i)
    {
      OneMoreLine(lines, from, i);
      if lines[i].kind.Entry? {
        any := true;
        allSingle := allSingle && IsSingleQuoted(lines[i]);
        indent := LeadingSpace(lines[i].text);
      }
    }
    single := any && allSingle;
  }

  lemma NoLines(lines: seq<Line>, from: nat)
    requires from <= |lines|
    ensures !HasEntries(lines, from, from) && SingleQuotedOnly(lines, from, from)
  {
  }

  // ---- writing ----------------------------------------------------------------------------------

  function Unparse(lines: seq<Line>): string {
    if lines == [] then [] else lines[0].text + (lines[0].ending + Unparse(lines[1..]))
  }

  function Ended(insert: seq<string>, eol: string): string {
    if insert == [] then [] else insert[0] + (eol + Ended(insert[1..], eol))
  }

  /** The ending a last line without one is given before lines are inserted after it. */
  function MissingEol(doc: Doc, start: nat, insert: seq<string>): string
    requires start <= |doc.lines|
  {
    if insert != [] && start > 0 && doc.lines[start - 1].ending == [] then doc.eol else []
  }

  /** The document's text with `insert` in the place of lines `start..end`, each text of it given `doc.eol`. */
  function Spliced(doc: Doc, start: nat, end: nat, insert: seq<string>): string
    requires start <= end <= |doc.lines|
  {
    Unparse(doc.lines[..start]) + MissingEol(doc, start, insert) + Ended(insert, doc.eol) + Unparse(doc.lines[end..])
  }

  lemma Nested(t: string, e: string, x: string, y: string)
    ensures t + (e + (x + y)) == (t + (e + x)) + y
  {
  }

  lemma {:induction false} UnparseConcat(a: seq<Line>, b: seq<Line>)
    ensures Unparse(a + b) == Unparse(a) + Unparse(b)
  {
    if a == [] {
      assert a + b == b;
    } else {
      UnparseConcat(a[1..], b);
      assert (a + b)[1..] == a[1..] + b;
      Nested(a[0].text, a[0].ending, Unparse(a[1..]), Unparse(b));
    }
  }

  lemma {:induction false} EndedConcat(a: seq<string>, b: seq<string>, eol: string)
    ensures Ended(a + b, eol) == Ended(a, eol) + Ended(b, eol)
  {
    if a == [] {
      assert a + b == b;
    } else {
      EndedConcat(a[1..], b, eol);
      assert (a + b)[1..] == a[1..] + b;
      Nested(a[0], eol, Ended(a[1..], eol), Ended(b, eol));
    }
  }

  /** One line more. */
  lemma UnparseNext(lines: seq<Line>, i: nat)
    requires i < |lines|
    ensures Unparse(lines[..i + 1]) == Unparse(lines[..i]) + lines[i].text + lines[i].ending
  {
    assert lines[..i + 1] == lines[..i] + [lines[i]];
    UnparseConcat(lines[..i], [lines[i]]);
    assert Unparse([lines[i]]) == lines[i].text + (lines[i].ending + []);
  }

  lemma UnparseRange(out: string, lines: seq<Line>, from: nat, i: nat)
    requires from <= i < |lines|
    ensures out + Unparse(lines[from..i + 1]) == out + Unparse(lines[from..i]) + lines[i].text + lines[i].ending
  {
    hide Unparse;
    var before, one := Unparse(lines[from..i]), lines[i].text + lines[i].ending;
    assert lines[from..i + 1] == lines[from..i] + [lines[i]];
    UnparseConcat(lines[from..i], [lines[i]]);
    UnparseOne(lines[i]);
    assert out + (before + one) == ((out + before) + lines[i].text) + lines[i].ending;
  }

  lemma UnparseOne(line: Line)
    ensures Unparse([line]) == line.text + line.ending
  {
    assert [line][1..] == [];
    assert line.text + (line.ending + []) == line.text + line.ending;
  }

  method WriteLines(out: string, lines: seq<Line>, from: nat, to: nat) returns (r: string)
    requires from <= to <= |lines|
    ensures r == out + Unparse(lines[from..to])
  {
    r := out;
    for i := from to to
      invariant r == out + Unparse(lines[from..i])
    {
      UnparseRange(out, lines, from, i);
      r := r + lines[i].text + lines[i].ending;
    }
  }

  method WriteInserted(out: string, insert: seq<string>, eol: string) returns (r: string)
    ensures r == out + Ended(insert, eol)
  {
    r := out;
    for i := 0 to |insert|
      invariant r + Ended(insert[i..], eol) == out + Ended(insert, eol)
    {
      assert insert[i..][0] == insert[i] && insert[i..][1..] == insert[i + 1..];
      InsertedNext(r, insert[i], insert[i + 1..], eol);
      r := r + insert[i] + eol;
    }
    assert r + [] == r;
  }

  lemma InsertedNext(out: string, line: string, rest: seq<string>, eol: string)
    ensures out + (line + (eol + Ended(rest, eol))) == (out + line + eol) + Ended(rest, eol)
  {
    hide Ended;
    var more := Ended(rest, eol);
    assert out + (line + (eol + more)) == (out + line) + (eol + more);
  }

  method Splice(doc: Doc, start: nat, end: nat, insert: seq<string>) returns (out: string)
    requires start <= end <= |doc.lines|
    ensures out == Spliced(doc, start, end, insert)
  {
    hide Unparse, Ended;
    assert doc.lines[0..start] == doc.lines[..start] && doc.lines[end..|doc.lines|] == doc.lines[end..];
    out := WriteLines("", doc.lines, 0, start);
    assert out + [] == out && [] + out == out;
    if insert != [] && start > 0 && doc.lines[start - 1].ending == [] {
      out := out + doc.eol;
    }
    out := WriteInserted(out, insert, doc.eol);
    out := WriteLines(out, doc.lines, end, |doc.lines|);
  }

  /** The text of one line swapped, its ending kept. */
  function WithLine(lines: seq<Line>, index: nat, text: string): seq<Line>
    requires index < |lines|
  {
    lines[index := lines[index].(text := text)]
  }

  method ReplaceLine(doc: Doc, index: nat, text: string) returns (out: string)
    requires index < |doc.lines|
    ensures out == Unparse(WithLine(doc.lines, index, text))
  {
    var lines := doc.lines;
    ghost var swapped := WithLine(lines, index, text);
    out := "";
    for i := 0 to |lines|
      invariant out == Unparse(swapped[..i])
    {
      UnparseNext(swapped, i);
      out := out + if i == index then text else lines[i].text;
      out := out + lines[i].ending;
    }
    assert swapped[..|lines|] == swapped;
  }
}
