/** Registries. */
module RegistryFiles {
  // What registry files say. A properties file by what is written on its lines: entries over any number of
  // continued lines, comments and blank lines; a list of values, and the lines of an imports file, with the
  // space around them.

  import opened FirstSeen
  import opened Registries
  import opened RegistryReading
  import opened Splitting
  import opened Text
  import opened Wrappers

  // ---- lines and their ends -----------------------------------------------------------------------

  datatype Line = Line(text: string, crlf: bool)

  predicate IsOneLine(line: Line) {
    '\n' !in line.text && !EndsWith(line.text, '\r')
  }

  /** The lines with their ends; the last has none unless the text is closed. */
  function TextOf(lines: seq<Line>, closed: bool): string {
    if lines == [] then ""
    else if |lines| == 1 && !closed then lines[0].text
    else lines[0].text + ((if lines[0].crlf then "\r\n" else "\n") + TextOf(lines[1..], closed))
  }

  function Texts(lines: seq<Line>): seq<string> {
    if lines == [] then [] else [lines[0].text] + Texts(lines[1..])
  }

  /** A text that is not closed ends in its last line, not before an empty one. */
  predicate IsText(lines: seq<Line>, closed: bool) {
    && (forall line <- lines :: IsOneLine(line))
    && (closed || lines == [] || lines[|lines| - 1].text != [])
  }

  lemma OneLineFirst(line: Line, rest: string)
    requires IsOneLine(line)
    ensures Lines(line.text + ((if line.crlf then "\r\n" else "\n") + rest)) == [line.text] + Lines(rest)
  {
    hide Lines;
    if line.crlf {
      var written := line.text + "\r";
      assert line.text + ("\r\n" + rest) == written + ("\n" + rest);
      FirstLine(written, rest);
      assert written[..|written| - 1] == line.text;
    } else {
      FirstLine(line.text, rest);
    }
  }

  lemma OnlyLine(text: string)
    requires text != [] && '\n' !in text
    ensures Lines(text) == [text]
  {
    FindIs(text, '\n', 0, |text|);
  }

  lemma {:induction false} LinesAreRead(lines: seq<Line>, closed: bool)
    requires IsText(lines, closed)
    ensures Lines(TextOf(lines, closed)) == Texts(lines)
  {
    hide Lines;
    if lines == [] {
      assert Lines([]) == [] by { NoText(); }
    } else {
      assert lines[0] in lines && forall line <- lines[1..] :: line in lines;
      if |lines| == 1 && !closed {
        OnlyLine(lines[0].text);
        assert Texts(lines[1..]) == [];
      } else {
        LinesAreRead(lines[1..], closed);
        OneLineFirst(lines[0], TextOf(lines[1..], closed));
      }
    }
  }

  lemma NoText()
    ensures Lines([]) == []
  {
  }

  lemma {:induction false} TextsConcat(a: seq<Line>, b: seq<Line>)
    ensures Texts(a + b) == Texts(a) + Texts(b)
  {
    if a == [] {
      assert a + b == b;
    } else {
      assert (a + b)[1..] == a[1..] + b;
      TextsConcat(a[1..], b);
    }
  }

  // ---- properties ---------------------------------------------------------------------------------

  predicate IsSpace(s: string) {
    forall c <- s :: IsWhitespace(c)
  }

  function Slashes(pairs: nat): string {
    if pairs == 0 then [] else Slashes(pairs - 1) + "\\\\"
  }

  /** What one line adds to its logical line, behind indentation; backslashes at its end come in pairs. */
  datatype Piece = Piece(indent: string, body: string, escapes: nat, crlf: bool) {
    function Said(): string {
      body + Slashes(escapes)
    }

    predicate IsPiece() {
      && IsSpace(indent) && '\n' !in indent && !EndsWith(indent, '\r')
      && '\n' !in body && !EndsWith(body, '\\') && !EndsWith(body, '\r')
      && (body != [] ==> !IsWhitespace(body[0]))
    }

    /** It can begin an entry: neither a comment nor blank. */
    predicate Begins(continued: bool) {
      && (body != [] ==> body[0] != '#' && body[0] != '!')
      && (continued || Said() != [])
    }
  }

  /** What a logical line says: a key and its value, with the space around them, or nothing. */
  datatype Content =
    | Assignment(key: string, before: string, sign: char, after: string, value: string, rest: string)
    | Plain(text: string)
  {
    function Said(): string {
      match this
      case Assignment(key, before, sign, after, value, rest) => key + before + ([sign] + (after + value + rest))
      case Plain(text) => text
    }

    predicate IsContent() {
      match this
      case Assignment(key, before, sign, after, value, rest) =>
        && IsTrimmed(key) && '=' !in key && ':' !in key
        && (sign == '=' || sign == ':')
        && IsTrimmed(value) && IsSpace(before) && IsSpace(after) && IsSpace(rest)
      case Plain(text) => '=' !in text && ':' !in text
    }

    function Meaning(): seq<Pair> {
      match this
      case Assignment(key, _, _, _, value, _) => [Pair(key, value)]
      case Plain(_) => []
    }
  }

  /** An entry is written over its pieces, every line but the last continued by a backslash. One that is
      open has a backslash on its last line too, where the text ends. */
  datatype Item =
    | Blank(space: string, crlf: bool)
    | Comment(space: string, mark: char, text: string, crlf: bool)
    | Entry(pieces: seq<Piece>, open: bool, content: Content)
  {
    predicate IsItem() {
      match this
      case Blank(space, _) => IsSpace(space) && '\n' !in space && !EndsWith(space, '\r')
      case Comment(space, mark, text, _) =>
        IsSpace(space) && '\n' !in space && (mark == '#' || mark == '!') && '\n' !in text && !EndsWith(text, '\r')
      case Entry(pieces, open, content) =>
        && pieces != [] && (forall piece <- pieces :: piece.IsPiece()) && pieces[0].Begins(open || |pieces| > 1)
        && content.IsContent() && Joined(pieces) == content.Said()
    }

    function Written(): seq<Line> {
      match this
      case Blank(space, crlf) => [Line(space, crlf)]
      case Comment(space, mark, text, crlf) => [Line(space + ([mark] + text), crlf)]
      case Entry(pieces, open, _) => PieceLines(pieces, open)
    }
  }

  function Joined(pieces: seq<Piece>): string {
    if pieces == [] then [] else pieces[0].Said() + Joined(pieces[1..])
  }

  function PieceLines(pieces: seq<Piece>, open: bool): seq<Line> {
    if pieces == [] then []
    else
      var end := if open || |pieces| > 1 then "\\" else "";
      [Line(pieces[0].indent + (pieces[0].Said() + end), pieces[0].crlf)] + PieceLines(pieces[1..], open)
  }

  function WrittenItems(items: seq<Item>): seq<Line> {
    if items == [] then [] else items[0].Written() + WrittenItems(items[1..])
  }

  function PairsOfItems(items: seq<Item>): seq<Pair> {
    if items == [] then []
    else (if items[0].Entry? then items[0].content.Meaning() else []) + PairsOfItems(items[1..])
  }

  predicate AreItems(items: seq<Item>) {
    && (forall item <- items :: item.IsItem())
    && forall k :: 0 <= k < |items| - 1 ==> items[k].Entry? ==> !items[k].open
  }

  /** The characters Unicode calls white space. */
  lemma WhitespaceIs(c: char)
    ensures IsWhitespace(c)
            <==> c in "\t\n\r " || c as int in {0xB, 0xC, 0x85, 0xA0, 0x1680, 0x2028, 0x2029, 0x202F, 0x205F, 0x3000}
                 || 0x2000 <= c as int < 0x200B
  {
  }

  // ---- white space --------------------------------------------------------------------------------

  lemma TrimPadded(a: string, s: string, b: string)
    requires IsSpace(a) && IsSpace(b) && IsTrimmed(s)
    ensures Trim(a + s + b) == s
  {
    hide IsWhitespace;
    var text := a + s + b;
    if s == [] {
      assert forall k :: 0 <= k < |text| ==> text[k] in a || text[k] in b;
      assert Indent(text) == |text|;
    } else {
      assert text[|a|] == s[0];
      assert forall k :: 0 <= k < |a| ==> text[k] in a;
      IndentIs(text, |a|);
      var start := TrimStart(text);
      assert start == s + b;
      assert forall k :: |s| <= k < |start| ==> start[k] in b;
      TrimmedLengthIs(start, |s|);
    }
  }

  /** A line's indentation goes; what is behind it stays, unless it starts with white space itself. */
  lemma IndentGoes(indent: string, said: string)
    requires IsSpace(indent) && (said == [] || !IsWhitespace(said[0]))
    ensures TrimStart(indent + said) == said
  {
    hide IsWhitespace;
    var line := indent + said;
    assert forall k :: 0 <= k < |indent| ==> line[k] in indent;
    if said == [] {
      assert Indent(line) == |line|;
    } else {
      assert line[|indent|] == said[0];
      IndentIs(line, |indent|);
    }
  }

  // ---- one entry ----------------------------------------------------------------------------------

  /** Backslashes in pairs continue nothing, and one more does. */
  lemma {:induction false} PairsDoNotContinue(body: string, pairs: nat)
    requires !EndsWith(body, '\\')
    ensures !Continues(body + Slashes(pairs)) && Continues(body + Slashes(pairs) + "\\")
  {
    var line := body + Slashes(pairs);
    if pairs == 0 {
      assert line == body;
    } else {
      PairsDoNotContinue(body, pairs - 1);
      var fewer := body + Slashes(pairs - 1);
      assert line == fewer + "\\" + "\\";
      assert line[..|line| - 1] == fewer + "\\";
    }
    assert (line + "\\")[..|line|] == line;
  }

  function Pending(pending: Option<string>): string {
    match pending case Some(logical) => logical case None => []
  }

  /** One more line of a logical line that is pending or begins here. */
  lemma LineIsRead(line: string, rest: seq<string>, pending: Option<string>)
    requires pending.Some? || !IsSkipped(TrimStart(line))
    ensures var said := TrimStart(line);
            var logical := Pending(pending);
            PairsFrom([line] + rest, pending)
            == if Continues(said) then PairsFrom(rest, Some(logical + said[..|said| - 1]))
               else PairOn(logical + said) + PairsFrom(rest, None)
  {
    hide PairOn, TrimStart, IsSkipped;
    assert ([line] + rest)[1..] == rest;
  }

  lemma PieceStarts(piece: Piece, end: string)
    requires piece.IsPiece() && (end == "\\" || end == "")
    ensures TrimStart(piece.indent + (piece.Said() + end)) == piece.Said() + end
    ensures piece.Begins(end != "") ==> !IsSkipped(piece.Said() + end)
  {
    var said := piece.Said() + end;
    if piece.body == [] && said != [] {
      SlashesFirst(piece.escapes);
      var slashes := Slashes(piece.escapes);
      if slashes != [] {
        assert said[0] == slashes[0] && slashes[0] in slashes;
      }
    }
    assert piece.body != [] ==> said[0] == piece.body[0];
    IndentGoes(piece.indent, said);
  }

  lemma {:induction false} SlashesFirst(pairs: nat)
    ensures forall c <- Slashes(pairs) :: c == '\\'
  {
    if pairs > 0 {
      SlashesFirst(pairs - 1);
    }
  }

  lemma PieceIsRead(piece: Piece, end: string, below: seq<string>, pending: Option<string>)
    requires piece.IsPiece() && (end == "\\" || end == "") && (pending.Some? || piece.Begins(end != ""))
    ensures var longer := Pending(pending) + piece.Said();
            PairsFrom([piece.indent + (piece.Said() + end)] + below, pending)
            == if end == "" then PairOn(longer) + PairsFrom(below, None) else PairsFrom(below, Some(longer))
  {
    hide PairOn, PairsFrom, TrimStart, IsSkipped, Continues, Piece.IsPiece, Piece.Said, Piece.Begins;
    PieceStarts(piece, end);
    LineIsRead(piece.indent + (piece.Said() + end), below, pending);
    SaidContinues(piece, end);
  }

  lemma {:induction false} PiecesAreRead(pieces: seq<Piece>, open: bool, pending: Option<string>, rest: seq<string>)
    requires pieces != [] && (forall piece <- pieces :: piece.IsPiece())
    requires pending.Some? || pieces[0].Begins(open || |pieces| > 1)
    requires open ==> rest == []
    ensures PairsFrom(Texts(PieceLines(pieces, open)) + rest, pending)
            == PairOn(Pending(pending) + Joined(pieces)) + PairsFrom(rest, None)
  {
    hide PairOn, PairsFrom, TrimStart, IsSkipped, Continues, Piece.IsPiece, Piece.Said, Piece.Begins;
    var piece, more := pieces[0], pieces[1..];
    assert piece in pieces && forall p <- more :: p in pieces;
    var lines := PieceLines(pieces, open);
    var end := if open || |pieces| > 1 then "\\" else "";
    var line := piece.indent + (piece.Said() + end);
    var below := Texts(PieceLines(more, open)) + rest;
    assert lines[0].text == line && lines[1..] == PieceLines(more, open);
    assert Texts(lines) + rest == [line] + below;
    PieceIsRead(piece, end, below, pending);
    if more == [] {
      LastPiece(piece);
      assert pieces == [piece] && Texts(PieceLines(more, open)) == [] && below == rest;
      if open {
        NothingBelow(Pending(pending) + piece.Said());
      }
    } else {
      var longer := Pending(pending) + piece.Said();
      PiecesAreRead(more, open, Some(longer), rest);
      assert longer + Joined(more) == Pending(pending) + Joined(pieces);
    }
  }

  lemma LastPiece(piece: Piece)
    ensures Joined([piece]) == piece.Said()
  {
    hide Piece.Said;
    assert [piece][1..] == [] && Joined([]) == [];
    assert piece.Said() + [] == piece.Said();
  }

  lemma SaidContinues(piece: Piece, end: string)
    requires piece.IsPiece() && (end == "\\" || end == "")
    ensures Continues(piece.Said() + end) <==> end == "\\"
    ensures piece.Said() + "" == piece.Said() && (piece.Said() + "\\")[..|piece.Said()|] == piece.Said()
  {
    PairsDoNotContinue(piece.body, piece.escapes);
    assert piece.Said() + "" == piece.Said();
  }

  lemma NothingBelow(logical: string)
    ensures PairsFrom([], Some(logical)) == PairOn(logical) + PairsFrom([], None)
  {
    hide PairOn;
    assert PairOn(logical) + [] == PairOn(logical);
  }

  lemma ContentIsRead(content: Content)
    requires content.IsContent()
    ensures PairOn(content.Said()) == content.Meaning()
  {
    hide Trim, IsTrimmed, IsWhitespace;
    var said := content.Said();
    match content
    case Assignment(key, before, sign, after, value, rest) =>
      var left, right := key + before, after + value + rest;
      assert said == left + ([sign] + right);
      assert said[..|left|] == left && said[|left|] == sign && said[|left| + 1..] == right;
      forall k | 0 <= k < |left|
        ensures !IsSeparator(said[k])
      {
        if k < |key| {
          assert said[k] == key[k] && key[k] in key;
        } else {
          assert said[k] == before[k - |key|] && before[k - |key|] in before;
          SpaceIsNoSeparator(said[k]);
        }
      }
      SeparatorIs(said, 0, |left|);
      assert [] + key + before == left;
      TrimPadded([], key, before);
      TrimPadded(after, value, rest);
    case Plain(text) =>
      assert forall k :: 0 <= k < |text| ==> text[k] in text;
  }

  lemma SpaceIsNoSeparator(c: char)
    requires IsWhitespace(c)
    ensures !IsSeparator(c)
  {
  }

  // ---- whole files --------------------------------------------------------------------------------

  lemma SkippedLine(line: string, rest: seq<string>)
    requires IsSkipped(TrimStart(line))
    ensures PairsFrom([line] + rest, None) == PairsFrom(rest, None)
  {
    hide PairOn, TrimStart, IsSkipped;
    assert ([line] + rest)[1..] == rest;
  }

  lemma ItemIsRead(item: Item, rest: seq<string>)
    requires item.IsItem() && (item.Entry? && item.open ==> rest == [])
    ensures PairsFrom(Texts(item.Written()) + rest, None)
            == (if item.Entry? then item.content.Meaning() else []) + PairsFrom(rest, None)
  {
    hide PairsFrom, TrimStart, PieceLines, Piece.IsPiece, Piece.Begins, Content.Said, Content.IsContent,
         Content.Meaning, PairOn;
    match item
    case Blank(space, crlf) =>
      IndentGoes(space, []);
      assert space + [] == space;
      OneText(space, crlf);
      SkippedLine(space, rest);
    case Comment(space, mark, text, crlf) =>
      var line := space + ([mark] + text);
      MarkIsNoSpace(mark);
      IndentGoes(space, [mark] + text);
      OneText(line, crlf);
      SkippedLine(line, rest);
    case Entry(pieces, open, content) =>
      PiecesAreRead(pieces, open, None, rest);
      assert [] + Joined(pieces) == Joined(pieces);
      ContentIsRead(content);
  }

  lemma OneText(text: string, crlf: bool)
    ensures Texts([Line(text, crlf)]) == [text]
  {
    assert [Line(text, crlf)][1..] == [];
  }

  lemma MarkIsNoSpace(mark: char)
    requires mark == '#' || mark == '!'
    ensures !IsWhitespace(mark)
  {
  }

  lemma {:induction false} ItemsAreRead(items: seq<Item>)
    requires AreItems(items)
    ensures PairsFrom(Texts(WrittenItems(items)), None) == PairsOfItems(items)
  {
    hide PairsFrom, Item.IsItem, Item.Written, Content.Meaning;
    if items == [] {
      NoLinesNoPairs();
    } else {
      assert items[0] in items && forall item <- items[1..] :: item in items;
      ItemsAreRead(items[1..]);
      TextsConcat(items[0].Written(), WrittenItems(items[1..]));
      if |items| == 1 {
        assert items[1..] == [];
      }
      ItemIsRead(items[0], Texts(WrittenItems(items[1..])));
    }
  }

  lemma NoLinesNoPairs()
    ensures PairsFrom([], None) == []
  {
  }

  /** A properties file says what its entries say, in order: each logical line is its pieces joined, however
      many lines it is written over, without their indentation. */
  lemma PropertiesAreRead(items: seq<Item>, closed: bool)
    requires AreItems(items) && IsText(WrittenItems(items), closed)
    ensures Properties(TextOf(WrittenItems(items), closed)) == PairsOfItems(items)
  {
    hide PairsFrom, Lines, TextOf, AreItems, IsText;
    LinesAreRead(WrittenItems(items), closed);
    ItemsAreRead(items);
  }

  // ---- lists --------------------------------------------------------------------------------------

  datatype Word = Word(before: string, text: string, after: string) {
    predicate IsWord() {
      IsSpace(before) && IsSpace(after) && IsTrimmed(text) && ',' !in text
    }
  }

  function ListText(words: seq<Word>): string {
    if words == [] then []
    else words[0].before + words[0].text + words[0].after + (if |words| == 1 then [] else "," + ListText(words[1..]))
  }

  function WordTexts(words: seq<Word>): seq<string> {
    if words == [] then [] else [words[0].text] + WordTexts(words[1..])
  }

  /** The values of a list are its words, without the space around them. */
  lemma {:induction false} ListIsRead(words: seq<Word>)
    requires words != [] && forall word <- words :: word.IsWord()
    ensures Values(ListText(words)) == WordTexts(words)
  {
    hide IsTrimmed, IsWhitespace, Trim, Split;
    var word := words[0];
    var padded := word.before + word.text + word.after;
    assert word in words && forall w <- words[1..] :: w in words;
    TrimPadded(word.before, word.text, word.after);
    NoComma(word);
    if |words| == 1 {
      assert padded + [] == padded == ListText(words);
      UnsplitText(padded);
      assert words[1..] == [];
      OneTrimmed(padded);
    } else {
      ListIsRead(words[1..]);
      SplitFirst(padded, ListText(words[1..]), ',');
      assert ([padded] + Split(ListText(words[1..]), ','))[1..] == Split(ListText(words[1..]), ',');
    }
  }

  lemma OneTrimmed(part: string)
    ensures Trimmed([part]) == [Trim(part)]
  {
    hide Trim;
    assert [part][1..] == [] && Trimmed([]) == [];
    assert [Trim(part)] + [] == [Trim(part)];
  }

  lemma UnsplitText(s: string)
    requires ',' !in s
    ensures Split(s, ',') == [s]
  {
    FindIs(s, ',', 0, |s|);
  }

  lemma NoComma(word: Word)
    requires word.IsWord()
    ensures ',' !in word.before + word.text + word.after
  {
    assert !IsWhitespace(',');
  }

  // ---- imports ------------------------------------------------------------------------------------

  datatype ImportLine = ImportLine(before: string, name: string, after: string, comment: Option<string>, crlf: bool) {
    predicate IsImportLine() {
      IsSpace(before) && IsSpace(after) && IsTrimmed(name) && '#' !in name
    }

    function Written(): Line {
      Line(before + name + after + (match comment case Some(text) => "#" + text case None => ""), crlf)
    }
  }

  lemma ImportIsRead(line: ImportLine)
    requires line.IsImportLine()
    ensures Import(line.Written().text) == line.name
  {
    hide IsTrimmed, Trim;
    var front := line.before + line.name + line.after;
    var text := line.Written().text;
    assert '#' !in front by { assert !IsWhitespace('#'); }
    assert text[..|front|] == front && forall k :: 0 <= k < |front| ==> text[k] == front[k] && front[k] in front;
    FindIs(text, '#', 0, |front|);
    TrimPadded(line.before, line.name, line.after);
  }

  function WrittenImports(lines: seq<ImportLine>): seq<Line> {
    if lines == [] then [] else [lines[0].Written()] + WrittenImports(lines[1..])
  }

  function Names(lines: seq<ImportLine>): seq<string> {
    if lines == [] then [] else [lines[0].name] + Names(lines[1..])
  }

  /** An imports file names what stands on its lines before any `#`, without the space around it. */
  lemma ImportsAreRead(lines: seq<ImportLine>, closed: bool)
    requires (forall line <- lines :: line.IsImportLine()) && IsText(WrittenImports(lines), closed)
    ensures Imports(Lines(TextOf(WrittenImports(lines), closed))) == Names(lines)
  {
    hide Lines, TextOf, Import, ImportLine.IsImportLine, IsText;
    LinesAreRead(WrittenImports(lines), closed);
    NamesAreRead(lines);
  }

  lemma {:induction false} NamesAreRead(lines: seq<ImportLine>)
    requires forall line <- lines :: line.IsImportLine()
    ensures Imports(Texts(WrittenImports(lines))) == Names(lines)
  {
    hide Import, ImportLine.IsImportLine, ImportLine.Written;
    if lines != [] {
      assert lines[0] in lines && forall line <- lines[1..] :: line in lines;
      ImportIsRead(lines[0]);
      NamesAreRead(lines[1..]);
      var texts := Texts(WrittenImports(lines));
      assert WrittenImports(lines)[1..] == WrittenImports(lines[1..]);
      assert texts[0] == lines[0].Written().text && texts[1..] == Texts(WrittenImports(lines[1..]));
    }
  }
}
