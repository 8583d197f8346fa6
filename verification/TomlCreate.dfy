/** Creating a section. */
module TomlCreate {
  // What an addition does to a document that lacks the section: where the header and its entry stand, and
  // that the section is then there, with the key in it.

  import opened Wrappers
  import opened Text
  import opened TomlKeys
  import opened TomlLexer
  import opened TomlScan
  import opened TomlEntries
  import opened TomlDoc
  import opened TomlLines
  import opened TomlEdit
  import opened TomlReplace
  import opened TomlEndings
  import opened TomlAdd

  // ---- the header ---------------------------------------------------------------------------------

  /** A name a header can hold without quotes, as the names of the dependency tables are. */
  predicate IsBareKey(s: string) {
    s != [] && forall c <- s :: IsBareKeyChar(c)
  }

  function HeaderText(section: string): string {
    "[" + section + "]"
  }

  lemma HeaderKeyPath(section: string)
    requires IsBareKey(section)
    ensures KeyPath(HeaderText(section), 1) == Some(Path([section], None, 1 + |section|))
  {
    var line := HeaderText(section);
    var end := 1 + |section|;
    forall k | 1 <= k < end
      ensures IsBareKeyChar(line[k])
    {
      assert line[k] == section[k - 1] && section[k - 1] in section;
    }
    assert line[end] == ']';
    SkipBlanksIs(line, 1, 1);
    BareEndIs(line, 1, end);
    SkipBlanksIs(line, end, end);
    assert line[1..end] == section;
  }

  /** The header that is written names the section. */
  lemma HeaderIsRead(section: string)
    requires IsBareKey(section)
    ensures Classify(CLOSED, HeaderText(section)) == (Header(Some([section]), false), CLOSED)
    ensures '\n' !in HeaderText(section) && !EndsWith(HeaderText(section), '\r') && HeaderText(section) != []
  {
    hide KeyPath;
    var line := HeaderText(section);
    var end := 1 + |section|;
    HeaderKeyPath(section);
    assert line[1] == section[0] && section[0] in section;
    assert line[end] == ']' && line[0..] == line;
    SkipBlanksIs(line, end, end);
    SkipBlanksIs(line, end + 1, end + 1);
    IndentIs(line, 0);
    assert forall c <- section :: c != '\n';
  }

  // ---- where it goes ------------------------------------------------------------------------------

  /** Lines `start..end` are blank and give way to the new section. It stands between values, with no entry of
      another section below it, and with blank lines around it. */
  ghost predicate Placed(lines: seq<Line>, start: nat, end: nat, above: bool, below: bool) {
    && start <= end <= |lines|
    && (start == end || end == |lines|)
    && (forall k :: start <= k < end ==> lines[k].kind.Blank?)
    && (start < |lines| ==> !lines[start].kind.Continuation?)
    && (forall k :: end <= k < NextHeader(lines, end) ==> lines[k].kind.Blank? || lines[k].kind.Comment?)
    && (start == 0 || above || lines[start - 1].kind.Blank?)
    && (end == |lines| || below || lines[end].kind.Blank?)
  }

  function Inserts(section: string, entry: string, above: bool, below: bool): seq<string> {
    (if above then [[]] else []) + ([HeaderText(section), entry] + if below then [[]] else [])
  }

  lemma {:induction false} PlainHeaderIs(lines: seq<Line>, i: nat, section: string)
    requires i <= |lines|
    ensures var h := PlainHeaderFrom(lines, i, section); h < |lines| ==> Names(lines[h], section)
    decreases |lines| - i
  {
    if i < |lines| && !(Names(lines[i], section) && !lines[i].kind.double) {
      PlainHeaderIs(lines, i + 1, section);
    }
  }

  /** After the content of another section: the rest of it is blank lines and comments. */
  lemma PlacedAfter(lines: seq<Line>, h: nat)
    requires h < |lines| && lines[h].kind.Header?
    ensures var at := ContentEnd(lines, h, NextHeader(lines, h + 1));
            at <= |lines| && Placed(lines, at, at, true, at < |lines| && !lines[at].kind.Blank?)
  {
    hide ContentEnd, AttachedCommentStart;
    var end := NextHeader(lines, h + 1);
    ContentEndIs(lines, h, end);
    var at := ContentEnd(lines, h, end);
    NextHeaderIs(lines, at, end);
  }

  /** On top of another section: its own comments follow. */
  lemma PlacedBefore(lines: seq<Line>, h: nat)
    requires h < |lines| && lines[h].kind.Header?
    ensures var at := AttachedCommentStart(lines, h);
            Placed(lines, at, at, at > 0 && !lines[at - 1].kind.Blank?, true)
  {
    hide CommentRunStart;
    NextHeaderIs(lines, AttachedCommentStart(lines, h), h);
  }

  lemma PlacedLast(lines: seq<Line>)
    ensures BlankTailStart(lines) <= |lines| && Placed(lines, BlankTailStart(lines), |lines|, BlankTailStart(lines) > 0, false)
  {
  }

  /** What is inserted, and where. */
  lemma NewSectionIs(lines: seq<Line>, section: string, entry: string)
    returns (start: nat, end: nat, above: bool, below: bool)
    ensures Placed(lines, start, end, above, below)
    ensures NewSection(lines, section, entry) == (start, end, Inserts(section, entry, above, below))
  {
    hide ContentEnd, AttachedCommentStart, BlankTailStart, PlainHeaderFrom, NextHeader, Placed, Names, Inserts;
    var other := if section == "dev-dependencies" then "dependencies" else "dev-dependencies";
    var h := PlainHeaderFrom(lines, 0, other);
    PlainHeaderIs(lines, 0, other);
    if section == "dev-dependencies" && h < |lines| {
      start := ContentEnd(lines, h, NextHeader(lines, h + 1));
      end, above, below := start, true, start < |lines| && !lines[start].kind.Blank?;
      PlacedAfter(lines, h);
    } else if section == "dependencies" && h < |lines| {
      start := AttachedCommentStart(lines, h);
      end, above, below := start, start > 0 && !lines[start - 1].kind.Blank?, true;
      PlacedBefore(lines, h);
    } else {
      start := BlankTailStart(lines);
      end, above, below := |lines|, start > 0, false;
      PlacedLast(lines);
    }
    InsertsIs(section, entry, above, below);
    assert NewSection(lines, section, entry).2 == Inserts(section, entry, above, below);
  }

  /** The first header of `section` in single brackets. */
  ghost predicate IsFirstHeader(lines: seq<Line>, h: nat, section: string) {
    && h < |lines| && Names(lines[h], section) && !lines[h].kind.double
    && forall j :: 0 <= j < h ==> Names(lines[j], section) ==> lines[j].kind.double
  }

  lemma {:induction false} FirstHeaderFrom(lines: seq<Line>, i: nat, section: string)
    requires i <= |lines|
    ensures var h := PlainHeaderFrom(lines, i, section);
            && (h < |lines| ==> Names(lines[h], section) && !lines[h].kind.double)
            && forall j :: i <= j < h ==> Names(lines[j], section) ==> lines[j].kind.double
    decreases |lines| - i
  {
    hide Names;
    if i < |lines| {
      FirstHeaderFrom(lines, i + 1, section);
    }
  }

  /** The two dependency tables stand next to each other: the one for development below what the other holds,
      the other one above it and above the comments it has for itself. Any other section, and one of these
      without the other, goes last. */
  lemma NewSectionStands(lines: seq<Line>, section: string, entry: string)
    ensures var (start, end, _) := NewSection(lines, section, entry);
            && (section == "dev-dependencies" ==> forall h: nat :: IsFirstHeader(lines, h, "dependencies") ==>
                 start == end && ContentEndsAt(lines, h, NextHeader(lines, h + 1), start))
            && (section == "dependencies" ==> forall h: nat :: IsFirstHeader(lines, h, "dev-dependencies") ==>
                 start == end <= h && forall k :: start <= k < h ==> lines[k].kind.Comment?)
            && (end == |lines| || exists h: nat ::
                 (section == "dev-dependencies" && IsFirstHeader(lines, h, "dependencies"))
                 || (section == "dependencies" && IsFirstHeader(lines, h, "dev-dependencies")))
  {
    hide ContentEnd, AttachedCommentStart, BlankTailStart, PlainHeaderFrom, NextHeader, Names, ContentEndsAt;
    var other := if section == "dev-dependencies" then "dependencies" else "dev-dependencies";
    var h := PlainHeaderFrom(lines, 0, other);
    FirstHeaderFrom(lines, 0, other);
    if h < |lines| {
      assert IsFirstHeader(lines, h, other);
      HeaderNamed(lines[h], other);
      ContentEndIs(lines, h, NextHeader(lines, h + 1));
      forall g: nat | IsFirstHeader(lines, g, other)
        ensures g == h
      {
      }
    }
  }

  lemma HeaderNamed(l: Line, section: string)
    requires Names(l, section)
    ensures l.kind.Header?
  {
  }

  lemma InsertsIs(section: string, entry: string, above: bool, below: bool)
    ensures above ==> Inserts(section, entry, above, below) == [[], HeaderText(section), entry] + if below then [[]] else []
    ensures !above ==> Inserts(section, entry, above, below) == [HeaderText(section), entry] + if below then [[]] else []
    ensures below ==> Inserts(section, entry, above, below) == (if above then [[]] else []) + [HeaderText(section), entry, []]
  {
  }

  lemma ClosedWhere(lines: seq<Line>, at: nat)
    requires Lexed(CLOSED, lines) && StateAfter(CLOSED, lines) == CLOSED && at <= |lines|
    requires at < |lines| ==> !lines[at].kind.Continuation?
    ensures StateAfter(CLOSED, lines[..at]) == CLOSED
  {
    hide Classify, StateAfter, Lexed;
    if at < |lines| {
      ClosedBefore(CLOSED, lines, at);
    } else {
      assert lines[..at] == lines;
    }
  }

  // ---- the document with the section in it --------------------------------------------------------

  function NewLines(section: string, entry: string, pair: Pair, above: bool, below: bool, eol: string): seq<Line> {
    var blank := Line([], eol, Blank);
    (if above then [blank] else [])
    + ([Line(HeaderText(section), eol, Header(Some([section]), false)), Line(entry, eol, Entry(Some(pair), false))]
       + if below then [blank] else [])
  }

  lemma BlankIsRead()
    ensures Classify(CLOSED, []) == (Blank, CLOSED)
  {
  }

  /** Lines that stand between values, written with the document's ending. */
  ghost predicate AreRead(added: seq<Line>, texts: seq<string>, eol: string) {
    && AllEnded(added) && Lexed(CLOSED, added) && StateAfter(CLOSED, added) == CLOSED
    && TextsOf(added) == texts
    && forall k :: 0 <= k < |added| ==> added[k].ending == eol
  }

  lemma NewLinesAreRead(section: string, entry: string, pair: Pair, above: bool, below: bool, eol: string)
    requires IsBareKey(section) && IsEntry(entry, pair) && (eol == "\n" || eol == "\r\n")
    requires '\n' !in entry && !EndsWith(entry, '\r')
    ensures AreRead(NewLines(section, entry, pair, above, below, eol), Inserts(section, entry, above, below), eol)
  {
    hide Classify, IsBareKey, HeaderText, AreRead;
    HeaderIsRead(section);
    BlankIsRead();
    var blank := Line([], eol, Blank);
    var header, item := Line(HeaderText(section), eol, Header(Some([section]), false)), Line(entry, eol, Entry(Some(pair), false));
    var last, lastText := if below then [blank] else [], if below then [""] else [];
    NoneAreRead(eol);
    OneMoreIsRead(blank, [], [], eol);
    assert [blank] + [] == [blank] && [""] + [] == [""];
    OneMoreIsRead(item, last, lastText, eol);
    OneMoreIsRead(header, [item] + last, [entry] + lastText, eol);
    var core, coreText := [header, item] + last, [HeaderText(section), entry] + lastText;
    assert [header] + ([item] + last) == core && [HeaderText(section)] + ([entry] + lastText) == coreText;
    OneMoreIsRead(blank, core, coreText, eol);
    assert [] + core == core && [] + coreText == coreText;
  }

  lemma NoneAreRead(eol: string)
    ensures AreRead([], [], eol)
  {
  }

  lemma OneMoreIsRead(l: Line, rest: seq<Line>, texts: seq<string>, eol: string)
    requires ProperLine(l, false) && Classify(CLOSED, l.text) == (l.kind, CLOSED) && l.ending == eol
    requires AreRead(rest, texts, eol)
    ensures AreRead([l] + rest, [l.text] + texts, eol)
  {
    hide Classify, ProperLine;
    var all := [l] + rest;
    assert all[0] == l && all[1..] == rest;
    assert forall k :: 0 < k < |all| ==> all[k] == rest[k - 1];
  }

  /** `before` is `lines[..start]`, the last of them given an ending if it had none. */
  ghost predicate EndedAs(lines: seq<Line>, before: seq<Line>, start: nat, eol: string) {
    && |before| == start <= |lines|
    && if start == 0 || lines[start - 1].ending != [] then before == lines[..start]
       else
         && start == |lines|
         && before[..start - 1] == lines[..start - 1]
         && KeepsRole(lines[start - 1], before[start - 1], eol)
  }

  lemma CreationUnfolds(text: string, section: string, key: string, value: string)
    requires Upserted(text, section, key, value).Ok? && Upserted(text, section, key, value).value.Added?
    requires SectionFrom(DocOf(text).lines, 0, None, section) == Ok(None)
    ensures '\n' !in value && '\r' !in value && ElsewhereFrom(DocOf(text).lines, 0, true, section, key) == None
    ensures var (start, end, insert) := NewSection(DocOf(text).lines, section, NewEntry("", key, false, value));
            Upserted(text, section, key, value) == Ok(Added(Spliced(DocOf(text), start, end, insert)))
  {
    hide SectionFrom, ElsewhereFrom, Spliced, NewSection, DocOf, NewEntry;
  }

  /** After an addition that creates the section the lines are the old ones, less blank ones at the end where
      the section goes there, and among them the new header, its entry and the blank lines around them. The
      others keep their bytes and kinds; only an unterminated line above the new ones is given an ending. */
  lemma CreatedLines(text: string, section: string, key: string, value: string)
    returns (start: nat, end: nat, above: bool, below: bool, before: seq<Line>, pair: Pair)
    requires Upserted(text, section, key, value).Ok? && Upserted(text, section, key, value).value.Added?
    requires SectionFrom(DocOf(text).lines, 0, None, section) == Ok(None) && IsBareKey(section)
    requires StateAfter(CLOSED, DocOf(text).lines) == CLOSED && Scan(CLOSED, value, 0).0 == CLOSED
    ensures var lines, eol := DocOf(text).lines, DocOf(text).eol;
            var added := NewLines(section, NewEntry("", key, false, value), pair, above, below, eol);
            && Placed(lines, start, end, above, below) && start <= end <= |lines|
            && NewSection(lines, section, NewEntry("", key, false, value)).0 == start
            && DocOf(Upserted(text, section, key, value).value.text).lines == before + (added + lines[end..])
            && pair.path == [key] && |before| == start && EndedAs(lines, before, start, eol)
            && Unparse(before) == Unparse(lines[..start]) + MissingEol(DocOf(text), start, [""])
  {
    hide Upserted, Classify, StateAfter, Lexed, ProperLine, Spliced, Scan, DocOf, NewSection, NewLines, SectionFrom, IsBareKey,
         KeepsRole, RenderKey, NextHeader, NewEntry, Inserts;
    var lines, eol := DocOf(text).lines, DocOf(text).eol;
    var entry := NewEntry("", key, false, value);
    CreationUnfolds(text, section, key, value);
    start, end, above, below := NewSectionIs(lines, section, entry);
    ParsedDoc(text);
    ClosedWhere(lines, start);
    before := EndedHead(text, start);
    ClosedTail(lines, start, end);
    pair := AddedLine("", key, false, value);
    NewEntryIsPlain(key, value);
    NewLinesAreRead(section, entry, pair, above, below, eol);
    InsertsSomething(section, entry, above, below);
    ReadInserted(text, start, end, before, NewLines(section, entry, pair, above, below, eol));
  }

  lemma NewEntryIsPlain(key: string, value: string)
    requires '\n' !in value && '\r' !in value
    ensures var entry := NewEntry("", key, false, value); '\n' !in entry && !EndsWith(entry, '\r')
  {
    hide RenderKey;
    assert value != [] ==> value[|value| - 1] in value;
    NewEntryIsOneLine("", key, false, value);
  }

  lemma InsertsSomething(section: string, entry: string, above: bool, below: bool)
    ensures Inserts(section, entry, above, below) != []
  {
  }

  lemma ClosedTail(lines: seq<Line>, start: nat, end: nat)
    requires start <= end <= |lines| && (start == end || end == |lines|) && Lexed(CLOSED, lines[start..])
    ensures Lexed(CLOSED, lines[end..])
  {
    hide Classify;
    if end == |lines| {
      assert lines[end..] == [];
    }
  }

  // ---- the section is there -----------------------------------------------------------------------

  /** Given an ending, the document's last line becomes a header of the very section, or of a table for the
      key: it is taken for no header without one. */
  predicate Revives(lines: seq<Line>, eol: string, section: string, key: string) {
    && lines != []
    && var last := lines[|lines| - 1];
    && last.ending == [] && last.kind == Header(None, false)
    && var read := Line([], [], HeaderEnded(last.text, eol));
    (Names(read, section) || IsKeyTable(read, section, key))
  }

  /** `now` is `before`, then the new lines, then `lines[end..]`; line by line. */
  ghost predicate Created(lines: seq<Line>, now: seq<Line>, before: seq<Line>, added: seq<Line>, end: nat) {
    && end <= |lines| && |now| == |before| + |added| + (|lines| - end)
    && (forall k :: 0 <= k < |before| ==> now[k] == before[k])
    && (forall k :: 0 <= k < |added| ==> now[|before| + k] == added[k])
    && (forall k :: |before| + |added| <= k < |now| ==> now[k] == lines[k - |before| - |added| + end])
  }

  lemma CreatedByLine(lines: seq<Line>, before: seq<Line>, added: seq<Line>, end: nat)
    requires end <= |lines|
    ensures Created(lines, before + (added + lines[end..]), before, added, end)
  {
    var now := before + (added + lines[end..]);
    forall k | 0 <= k < |added|
      ensures now[|before| + k] == added[k]
    {
      assert now[|before| + k] == (added + lines[end..])[k];
    }
    forall k | |before| + |added| <= k < |now|
      ensures now[k] == lines[k - |before| - |added| + end]
    {
      assert now[k] == (added + lines[end..])[k - |before|] == lines[end..][k - |before| - |added|];
    }
  }

  function HeaderAt(start: nat, above: bool): nat {
    start + if above then 1 else 0
  }

  lemma NewLinesAre(section: string, entry: string, pair: Pair, above: bool, below: bool, eol: string)
    ensures var added := NewLines(section, entry, pair, above, below, eol);
            var h := if above then 1 else 0;
            && |added| == h + 2 + (if below then 1 else 0)
            && added[h].kind == Header(Some([section]), false) && added[h + 1].kind == Entry(Some(pair), false)
            && (forall k :: 0 <= k < |added| && k != h && k != h + 1 ==> added[k].kind.Blank?)
  {
    hide HeaderText;
  }

  /** Every line but those two is a blank, or one of the document's as it was - but for the last, which may
      have been given an ending. */
  lemma OtherLines(lines: seq<Line>, now: seq<Line>, before: seq<Line>, added: seq<Line>, start: nat, end: nat,
                   h: nat, k: nat, eol: string)
    requires Created(lines, now, before, added, end) && |before| == start <= end && k < |now| && start <= h
    requires h - start + 1 < |added| && k != h && k != h + 1
    requires forall i :: 0 <= i < |added| && i != h - start && i != h - start + 1 ==> added[i].kind.Blank?
    requires EndedAs(lines, before, start, eol)
    ensures now[k].kind.Blank? || now[k] in lines || (k == start - 1 && now[k] == before[k])
  {
    if k < start {
      assert k < start - 1 && before != lines[..start] ==> before[..start - 1][k] == lines[..start - 1][k];
      assert before == lines[..start] ==> now[k] == lines[k];
    } else if k < start + |added| {
      assert now[start + (k - start)] == added[k - start];
    }
  }

  /** The section that was created is found, under its one header, and nothing refuses the key, exactly when no
      last line is revived as another header for it. */
  lemma CreatedSection(text: string, section: string, key: string, value: string) returns (h: nat)
    requires Upserted(text, section, key, value).Ok? && Upserted(text, section, key, value).value.Added?
    requires SectionFrom(DocOf(text).lines, 0, None, section) == Ok(None) && IsBareKey(section)
    requires StateAfter(CLOSED, DocOf(text).lines) == CLOSED && Scan(CLOSED, value, 0).0 == CLOSED
    ensures var lines, now := DocOf(text).lines, DocOf(Upserted(text, section, key, value).value.text).lines;
            var last := NewSection(lines, section, NewEntry("", key, false, value)).0 == |lines|;
            && (SectionIs(now, section, h) && OnlyInSection(now, section, key)
                <==> !(last && Revives(lines, DocOf(text).eol, section, key)))
            && h + 1 < |now| && Names(now[h], section)
            && EntryIsAt(now, h + 1, NextHeader(now, h + 1), key, h + 1)
            && forall k :: h + 1 < k < NextHeader(now, h + 1) ==> now[k].kind.Blank? || now[k].kind.Comment?
  {
    hide Upserted, Classify, StateAfter, Lexed, ProperLine, Spliced, Scan, DocOf, NewSection, NewLines, SectionFrom, IsBareKey,
         RenderKey, NewEntry, NextHeader, SectionIs, OnlyInSection, EntryIsAt, Placed, EndedAs, Created, Revives, Names;
    var start, end, above, below, before, pair := CreatedLines(text, section, key, value);
    var lines, eol := DocOf(text).lines, DocOf(text).eol;
    var added := NewLines(section, NewEntry("", key, false, value), pair, above, below, eol);
    var now := DocOf(Upserted(text, section, key, value).value.text).lines;
    CreationUnfolds(text, section, key, value);
    SectionFound(lines, 0, None, section);
    ElsewhereIs(lines, 0, section, key);
    CreatedByLine(lines, before, added, end);
    OnlyLastUnended(text);
    NewLinesAre(section, NewEntry("", key, false, value), pair, above, below, eol);
    h := HeaderAt(start, above);
    EntryCreated(lines, now, before, added, start, end, above, below, h, pair, section, key);
    SectionCreated(lines, now, before, added, start, end, h, pair, section, key, eol);
  }

  lemma EntryCreated(lines: seq<Line>, now: seq<Line>, before: seq<Line>, added: seq<Line>, start: nat, end: nat,
                     above: bool, below: bool, h: nat, pair: Pair, section: string, key: string)
    requires Created(lines, now, before, added, end) && |before| == start && Placed(lines, start, end, above, below)
    requires start <= h && h - start + 1 < |added| && pair.path == [key]
    requires added[h - start].kind == Header(Some([section]), false) && added[h - start + 1].kind == Entry(Some(pair), false)
    requires forall i :: 0 <= i < |added| && i != h - start && i != h - start + 1 ==> added[i].kind.Blank?
    ensures h + 1 < |now| && Names(now[h], section)
    ensures EntryIsAt(now, h + 1, NextHeader(now, h + 1), key, h + 1)
    ensures forall k :: h + 1 < k < NextHeader(now, h + 1) ==> now[k].kind.Blank? || now[k].kind.Comment?
  {
    var shift := start + |added|;
    var n := NextHeader(lines, end) - end + shift;
    assert now[start + (h - start)] == added[h - start] && now[start + (h - start + 1)] == added[h - start + 1];
    forall k | h + 1 < k < n
      ensures now[k].kind.Blank? || now[k].kind.Comment?
    {
      if k < shift {
        assert now[start + (k - start)] == added[k - start];
      } else {
        assert now[k] == lines[k - shift + end];
      }
    }
    assert n < |now| ==> now[n] == lines[n - shift + end];
    NextHeaderIs(now, h + 1, n);
  }

  lemma OnlyLastUnended(text: string)
    ensures var lines := DocOf(text).lines; forall k :: 0 <= k < |lines| - 1 ==> lines[k].ending != []
  {
    ParsedLines(CLOSED, text);
    var lines := DocOf(text).lines;
    forall k | 0 <= k < |lines| - 1
      ensures lines[k].ending != []
    {
      assert ProperLine(lines[k], k == |lines| - 1);
    }
  }

  /** No line but the new header, and perhaps the one above the new lines, names the section or is a table for
      the key. */
  lemma OthersNameNothing(lines: seq<Line>, now: seq<Line>, before: seq<Line>, added: seq<Line>, start: nat, end: nat,
                          h: nat, section: string, key: string, eol: string)
    requires Created(lines, now, before, added, end) && |before| == start <= end
    requires start <= h && h - start + 1 < |added| && added[h - start + 1].kind.Entry?
    requires forall i :: 0 <= i < |added| && i != h - start && i != h - start + 1 ==> added[i].kind.Blank?
    requires EndedAs(lines, before, start, eol)
    requires forall k :: 0 <= k < |lines| ==> !Names(lines[k], section) && !IsKeyTable(lines[k], section, key)
    ensures forall k :: 0 <= k < |now| && k != h && k != start - 1 ==> !Names(now[k], section) && !IsKeyTable(now[k], section, key)
  {
    hide Created, EndedAs, Names, IsKeyTable;
    forall k | 0 <= k < |now| && k != h && k != start - 1
      ensures !Names(now[k], section) && !IsKeyTable(now[k], section, key)
    {
      if k == h + 1 {
        NewLine(lines, now, before, added, end, h - start + 1);
        NamesNothing(now[k], section, key);
      } else {
        OtherLines(lines, now, before, added, start, end, h, k, eol);
        if now[k].kind.Blank? {
          NamesNothing(now[k], section, key);
        }
      }
    }
  }

  lemma NamesNothing(l: Line, section: string, key: string)
    requires l.kind.Blank? || l.kind.Entry?
    ensures !Names(l, section) && !IsKeyTable(l, section, key)
  {
  }

  lemma NewLine(lines: seq<Line>, now: seq<Line>, before: seq<Line>, added: seq<Line>, end: nat, i: nat)
    requires Created(lines, now, before, added, end) && i < |added|
    ensures |before| + i < |now| && now[|before| + i] == added[i]
    ensures forall k :: 0 <= k < |before| ==> now[k] == before[k]
  {
  }

  /** Where a name of the section, or a table for the key, could stand in the new document. */
  lemma SectionCreated(lines: seq<Line>, now: seq<Line>, before: seq<Line>, added: seq<Line>, start: nat, end: nat,
                       h: nat, pair: Pair, section: string, key: string, eol: string)
    requires Created(lines, now, before, added, end) && |before| == start <= end
    requires start <= h && h - start + 1 < |added|
    requires added[h - start].kind == Header(Some([section]), false) && added[h - start + 1].kind == Entry(Some(pair), false)
    requires forall i :: 0 <= i < |added| && i != h - start && i != h - start + 1 ==> added[i].kind.Blank?
    requires EndedAs(lines, before, start, eol)
    requires forall k :: 0 <= k < |lines| ==> !Names(lines[k], section) && !IsKeyTable(lines[k], section, key)
    requires forall k :: 0 <= k < NextHeader(lines, 0) ==> !Declares(lines[k], section)
    requires forall k :: 0 <= k < |lines| - 1 ==> lines[k].ending != []
    ensures SectionIs(now, section, h) && OnlyInSection(now, section, key)
            <==> !(start == |lines| && Revives(lines, eol, section, key))
  {
    hide EndedAs, Created, Revives, Declares, NextHeader, Names, IsKeyTable, SectionIs, OnlyInSection;
    OthersNameNothing(lines, now, before, added, start, end, h, section, key, eol);
    RootUndeclared(lines, now, before, added, start, end, h, section, eol);
    NewLine(lines, now, before, added, end, h - start);
    BeforeKeeps(lines, before, start, section, eol);
    if start > 0 {
      LastKeeps(lines, before, start, section, key, eol);
      NamedOnce(now, section, key, h, start - 1);
    } else {
      NothingRevived(lines, eol, section, key);
      NamedOnce(now, section, key, h, h);
    }
  }

  lemma NothingRevived(lines: seq<Line>, eol: string, section: string, key: string)
    ensures |lines| == 0 ==> !Revives(lines, eol, section, key)
  {
  }

  /** A header names the section alone, and no table is for the key, if only line `j` could have. */
  lemma NamedOnce(now: seq<Line>, section: string, key: string, h: nat, j: nat)
    requires h < |now| && now[h].kind == Header(Some([section]), false) && j < |now|
    requires forall k :: 0 <= k < |now| && k != h && k != j ==> !Names(now[k], section) && !IsKeyTable(now[k], section, key)
    requires forall k :: 0 <= k < NextHeader(now, 0) ==> !Declares(now[k], section)
    ensures SectionIs(now, section, h) && OnlyInSection(now, section, key)
            <==> j == h || (!Names(now[j], section) && !IsKeyTable(now[j], section, key))
  {
    hide Declares, NextHeader;
  }

  /** The line above the new ones names the section, or is a table for the key, only if it is revived. */
  lemma LastKeeps(lines: seq<Line>, before: seq<Line>, start: nat, section: string, key: string, eol: string)
    requires 0 < start && EndedAs(lines, before, start, eol)
    requires !Names(lines[start - 1], section) && !IsKeyTable(lines[start - 1], section, key)
    requires start < |lines| ==> lines[start - 1].ending != []
    ensures Names(before[start - 1], section) || IsKeyTable(before[start - 1], section, key)
            <==> start == |lines| && Revives(lines, eol, section, key)
  {
    hide Classify;
  }

  lemma RootUndeclared(lines: seq<Line>, now: seq<Line>, before: seq<Line>, added: seq<Line>, start: nat, end: nat,
                       h: nat, section: string, eol: string)
    requires Created(lines, now, before, added, end) && |before| == start <= end
    requires start <= h && h - start + 1 < |added| && added[h - start].kind.Header?
    requires forall i :: 0 <= i < |added| && i != h - start && i != h - start + 1 ==> added[i].kind.Blank?
    requires EndedAs(lines, before, start, eol)
    requires forall k :: 0 <= k < NextHeader(lines, 0) ==> !Declares(lines[k], section)
    ensures forall k :: 0 <= k < NextHeader(now, 0) ==> !Declares(now[k], section)
  {
    hide EndedAs, Declares;
    BeforeKeeps(lines, before, start, section, eol);
    NewLine(lines, now, before, added, end, h - start);
    forall k | 0 <= k < NextHeader(now, 0)
      ensures !Declares(now[k], section)
    {
      if k < start {
        NextHeaderPast(lines, k);
      } else {
        NewLine(lines, now, before, added, end, k - start);
        BlankDeclaresNothing(now[k], section);
      }
    }
  }

  lemma BlankDeclaresNothing(l: Line, section: string)
    requires l.kind.Blank?
    ensures !Declares(l, section)
  {
  }

  lemma BeforeKeeps(lines: seq<Line>, before: seq<Line>, start: nat, section: string, eol: string)
    requires EndedAs(lines, before, start, eol)
    ensures |before| == start <= |lines|
    ensures forall k :: 0 <= k < start ==> (before[k].kind.Header? <==> lines[k].kind.Header?)
    ensures forall k :: 0 <= k < start ==> (Declares(before[k], section) ==> Declares(lines[k], section))
  {
    hide HeaderEnded;
    forall k | 0 <= k < start
      ensures (before[k].kind.Header? <==> lines[k].kind.Header?) && (Declares(before[k], section) ==> Declares(lines[k], section))
    {
      assert k < start - 1 && before != lines[..start] ==> before[..start - 1][k] == lines[..start - 1][k];
    }
  }

  /** Where no header stands up to `k`, the first one is past it. */
  lemma NextHeaderPast(lines: seq<Line>, k: nat)
    requires k < |lines| && forall i :: 0 <= i <= k ==> !lines[i].kind.Header?
    ensures k < NextHeader(lines, 0)
  {
  }
}
