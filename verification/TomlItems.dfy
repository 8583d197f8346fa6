/** Items of a document. */
module TomlItems {
  // What is written on the lines of a document - blank lines, comments, headers and pairs - and how each is read.

  import opened Wrappers
  import opened Text
  import opened TomlKeys
  import opened TomlLexer
  import opened TomlScan
  import opened TomlDoc
  import opened TomlLines
  import opened TomlValues
  import opened TomlValueLines
  import opened TomlValueScan
  import opened Trees = TomlKeyTrees

  // ---- the grammar ----------------------------------------------------------------------------------

  /** The end of a line: blanks, and a comment perhaps. */
  datatype Trail = Trail(blank: string, note: Option<string>)

  datatype Item =
    | Empty(blank: string)
    | Remark(indent: string, text: string)
    | Head(indent: string, double: bool, key: seq<KeyPart>, trail: Trail)
    | Entered(indent: string, key: seq<KeyPart>, blank: string, value: Value, trail: Trail)

  function TrailText(t: Trail): string {
    t.blank + match t.note { case None => [] case Some(text) => "#" + text }
  }

  predicate OkItem(item: Item) {
    match item
    case Empty(blank) => IsBlank(blank)
    case Remark(indent, _) => IsBlank(indent)
    case Head(indent, _, key, trail) => IsBlank(indent) && OkKey(key) && IsBlank(trail.blank)
    case Entered(indent, key, blank, value, trail) =>
      IsBlank(indent) && OkKey(key) && key[0].before == [] && IsBlank(blank) && OkValue(value) && IsBlank(trail.blank)
  }

  /** The lines a value and what follows it take. */
  function ValueLines(value: Value, trail: Trail): (lines: seq<string>)
    ensures lines != []
  {
    PutValue(value, [TrailText(trail)])
  }

  /** The lines an item is written on. */
  function ItemLines(item: Item): (lines: seq<string>)
    ensures lines != []
  {
    match item
    case Empty(blank) => [blank]
    case Remark(indent, text) => [indent + ("#" + text)]
    case Head(indent, double, key, trail) =>
      [indent + if double then "[[" + KeyThen(key, "]]" + TrailText(trail)) else "[" + KeyThen(key, "]" + TrailText(trail))]
    case Entered(indent, key, blank, value, trail) =>
      var lines := ValueLines(value, trail);
      [indent + KeyThen(key, "=" + (blank + lines[0]))] + lines[1..]
  }

  /** What the line an item begins on is read as. */
  ghost predicate ReadsAs(item: Item, line: string, kind: Kind)
    requires OkItem(item)
  {
    match item
    case Empty(_) => kind == Blank
    case Remark(_, _) => kind == Comment
    case Head(_, double, key, _) => kind == Header(Some(Trees.Names(key)), double)
    case Entered(_, key, _, value, trail) =>
      && kind.Entry? && kind.pair.Some?
      && kind.pair.value.path == Trees.Names(key)
      && kind.pair.value.quote == QuoteOf(key[0].segment)
      && (kind.multiLine <==> |ValueLines(value, trail)| > 1)
      && kind.pair.value.start <= kind.pair.value.end <= |line|
      && (!kind.multiLine ==> line[kind.pair.value.start..] == Lines(value)[0] + TrailText(trail)
                              && kind.pair.value.end == kind.pair.value.start + |Lines(value)[0]|)
  }

  // ---- blank lines, comments and headers ------------------------------------------------------------

  lemma IndentRead(indent: string, rest: string)
    requires IsBlank(indent) && rest != [] && !IsWhitespace(rest[0])
    ensures Indent(indent + rest) == |indent|
  {
    var line := indent + rest;
    forall k | 0 <= k < |indent|
      ensures IsWhitespace(line[k])
    {
      assert line[k] == indent[k] && indent[k] in indent;
    }
    IndentIs(line, |indent|);
  }

  lemma {:induction false} BlankIsAllIndent(blank: string)
    requires IsBlank(blank)
    ensures Indent(blank) == |blank|
  {
    forall k | 0 <= k < |blank|
      ensures IsWhitespace(blank[k])
    {
      assert blank[k] in blank;
    }
  }

  lemma EmptyRead(blank: string)
    requires IsBlank(blank)
    ensures Classify(CLOSED, blank) == (Blank, CLOSED)
  {
    BlankIsAllIndent(blank);
  }

  lemma RemarkRead(indent: string, text: string)
    requires IsBlank(indent)
    ensures Classify(CLOSED, indent + ("#" + text)) == (Comment, CLOSED)
  {
    IndentRead(indent, "#" + text);
    assert (indent + ("#" + text))[|indent|] == '#';
  }

  lemma TrailRead(s: string, i: nat, trail: Trail)
    requires IsBlank(trail.blank) && From(s, i, TrailText(trail))
    ensures i <= |s|
    ensures var rest := SkipBlanks(s, i); rest == |s| || s[rest] == '#'
  {
    var note := match trail.note { case None => [] case Some(text) => "#" + text };
    BlanksRead(s, i, trail.blank, note);
    var j := SkipBlanks(s, i);
    assert j < |s| ==> s[j] == s[j..][0] == note[0];
  }

  lemma HeadRead(double: bool, key: seq<KeyPart>, trail: Trail)
    requires OkKey(key) && IsBlank(trail.blank)
    ensures var code := if double then "[[" + KeyThen(key, "]]" + TrailText(trail)) else "[" + KeyThen(key, "]" + TrailText(trail));
            ParseHeader(code) == Some((Trees.Names(key), double))
  {
    hide KeyPath, SkipBlanks, KeyThen, OkSegment, IsBlank, TrailText, ParseHeader, From, QuoteOf, Trees.Names;
    var open, close := if double then "[[" else "[", if double then "]]" else "]";
    var rest := close + TrailText(trail);
    var inner := KeyThen(key, rest);
    var code := open + inner;
    KeyStarts(key, rest);
    OpenedFrom(open, inner);
    ClosedRest(double, TrailText(trail));
    var end := KeyRead(code, |open|, key, rest);
    var at := SkipBlanks(code, end);
    Bracketed(code, at, double, TrailText(trail));
    TrailRead(code, at + |open|, trail);
    SecondBracket(double, inner);
    ParsedHeader(code, double, Path(Trees.Names(key), QuoteOf(key[0].segment), end), at);
  }

  lemma OpenedFrom(open: string, inner: string)
    ensures From(open + inner, |open|, inner)
  {
  }

  lemma ClosedRest(double: bool, trail: string)
    ensures EndsKey((if double then "]]" else "]") + trail)
  {
  }

  lemma Bracketed(code: string, at: nat, double: bool, trail: string)
    requires From(code, at, (if double then "]]" else "]") + trail)
    ensures var n := if double then 2 else 1;
            at + n <= |code| && (forall k :: at <= k < at + n ==> code[k] == ']') && From(code, at + n, trail)
  {
    var close := if double then "]]" else "]";
    FromSplit(code, at, close, trail);
    assert code[at + 0] == ']' && (double ==> code[at + 1] == ']');
  }

  lemma SecondBracket(double: bool, inner: string)
    requires inner != [] && inner[0] != '['
    ensures var code := (if double then "[[" else "[") + inner;
            |code| > 1 && code[0] == '[' && (code[1] == '[' <==> double)
  {
  }

  lemma ParsedHeader(code: string, double: bool, p: Path, at: nat)
    requires |code| > 1 && code[0] == '[' && (code[1] == '[' <==> double)
    requires var n := if double then 2 else 1;
             && KeyPath(code, n) == Some(p) && SkipBlanks(code, p.end) == at && at + n <= |code|
             && (forall k :: at <= k < at + n ==> code[k] == ']')
             && (SkipBlanks(code, at + n) == |code| || code[SkipBlanks(code, at + n)] == '#')
    ensures ParseHeader(code) == Some((p.segments, double))
  {
    hide KeyPath, SkipBlanks;
  }

  /** A key does not begin like another bracket, or a comment. */
  lemma KeyStarts(key: seq<KeyPart>, rest: string)
    requires OkKey(key)
    ensures KeyThen(key, rest) != [] && KeyThen(key, rest)[0] != '[' && KeyThen(key, rest)[0] != '#'
  {
    var p := key[0];
    assert p in key && Trees.OkPart(p);
    var text := SegmentText(p.segment);
    var tail := p.after + if |key| == 1 then rest else "." + KeyThen(key[1..], rest);
    assert KeyThen(key, rest) == p.before + (text + tail);
    FirstOfSegment(p.segment);
    if p.before != [] {
      assert p.before[0] in p.before;
    }
  }

  lemma FirstOfSegment(g: Trees.Segment)
    requires OkSegment(g)
    ensures SegmentText(g) != [] && SegmentText(g)[0] != '[' && SegmentText(g)[0] != '#' &&
            !IsWhitespace(SegmentText(g)[0])
  {
    if g.BareKey? {
      assert g.text[0] in g.text;
    }
  }

  lemma HeadLineRead(item: Item)
    requires item.Head? && OkItem(item)
    ensures Classify(CLOSED, ItemLines(item)[0]) == (Header(Some(Trees.Names(item.key)), item.double), CLOSED)
  {
    hide ParseHeader, KeyThen, OkKey, IsBlank;
    var Head(indent, double, key, trail) := item;
    var code := if double then "[[" + KeyThen(key, "]]" + TrailText(trail)) else "[" + KeyThen(key, "]" + TrailText(trail));
    assert code[0] == '[';
    IndentRead(indent, code);
    HeadRead(double, key, trail);
    var line := indent + code;
    assert line[|indent|] == '[' && line[|indent|..] == code;
  }

  // ---- pairs ----------------------------------------------------------------------------------------

  lemma {:induction false} KeyThenMore(key: seq<KeyPart>, a: string, b: string)
    ensures KeyThen(key, a + b) == KeyThen(key, a) + b
  {
    if key != [] {
      KeyThenMore(key[1..], a, b);
      var p := key[0];
      var x := p.after + if |key| == 1 then a else "." + KeyThen(key[1..], a);
      if |key| == 1 {
        assert p.after + (a + b) == x + b;
      } else {
        var t := KeyThen(key[1..], a);
        assert "." + (t + b) == ("." + t) + b;
        assert p.after + (("." + t) + b) == x + b;
      }
      var text := SegmentText(p.segment);
      assert text + (x + b) == (text + x) + b;
      assert p.before + ((text + x) + b) == (p.before + (text + x)) + b;
    }
  }

  /** A value's first line: it begins with the value, and not with a blank; a value on one line is what stands
      before the trail, and does not end in white space. */
  lemma ValueFirst(value: Value, trail: Trail)
    requires OkValue(value)
    ensures var line := ValueLines(value, trail)[0]; line != [] && !IsWhitespace(line[0])
    ensures |ValueLines(value, trail)| == |Lines(value)|
    ensures |Lines(value)| == 1 ==>
              && ValueLines(value, trail) == [Lines(value)[0] + TrailText(trail)]
              && Lines(value)[0] != [] && !IsWhitespace(Lines(value)[0][|Lines(value)[0]| - 1])
  {
    hide OkValue, PutValue;
    ValueBelow(value, [TrailText(trail)]);
    ValueEnds(value);
    ValueStarts(value, [TrailText(trail)]);
  }

  lemma TrailScan(trail: Trail)
    requires IsBlank(trail.blank)
    ensures Scan(CLOSED, TrailText(trail), 0) == (CLOSED, |trail.blank|)
  {
    var s := TrailText(trail);
    forall k | 0 <= k < |trail.blank|
      ensures IsWhitespace(s[k])
    {
      assert s[k] == trail.blank[k] && trail.blank[k] in trail.blank;
    }
    ScanTrailing(s, 0, |trail.blank|);
  }

  /** The scan over a value's lines: open to the last, and there closed before the trail's comment. */
  lemma ValueTracked(value: Value, trail: Trail)
    requires OkValue(value) && IsBlank(trail.blank)
    ensures var lines := ValueLines(value, trail);
            var t := Track(CLOSED, lines);
            && (forall k :: 0 <= k < |lines| - 1 ==> t[k].0 != CLOSED)
            && t[|lines| - 1] == (CLOSED, |TrailText(trail)| - |trail.blank|)
  {
    hide PutValue, Track, OkValue;
    var lines, below := ValueLines(value, trail), [TrailText(trail)];
    TrailOpensNoQuote(trail);
    ValueGoes(value, 0, below);
    TrailScan(trail);
    TrackOne(CLOSED, TrailText(trail));
    assert Track(CLOSED, lines)[|lines| - 1] == Track(CLOSED, lines)[|lines| - 1..][0];
  }

  lemma TrackOne(st: State, line: string)
    ensures Track(st, [line]) == [(Scan(st, line, 0).0, |line| - Scan(st, line, 0).1)]
  {
    hide Scan;
  }

  lemma TrailOpensNoQuote(trail: Trail)
    requires IsBlank(trail.blank)
    ensures NoQuoteBelow([TrailText(trail)])
  {
    if trail.blank != [] {
      assert TrailText(trail)[0] == trail.blank[0] && trail.blank[0] in trail.blank;
    }
  }

  /** The key and the equals sign read, up to the value. */
  lemma PairHeadRead(indent: string, key: seq<KeyPart>, blank: string, first: string) returns (start: nat)
    requires IsBlank(indent) && OkKey(key) && key[0].before == [] && IsBlank(blank) && first != [] &&
             !IsWhitespace(first[0])
    ensures var line := indent + KeyThen(key, "=" + (blank + first));
            && Indent(line) == |indent| < |line| && line[|indent|] != '#' && line[|indent|] != '['
            && start <= |line| && line[start..] == first && line == line[..start] + first
            && PairHead(line, |indent|).Some?
            && PairHead(line, |indent|).value.1 == start
            && PairHead(line, |indent|).value.0.segments == Trees.Names(key)
            && PairHead(line, |indent|).value.0.quote == QuoteOf(key[0].segment)
  {
    hide KeyPath, SkipBlanks, KeyThen, OkSegment, IsBlank, From;
    var rest := "=" + (blank + first);
    var inner := KeyThen(key, rest);
    var line := indent + inner;
    KeyStarts(key, rest);
    KeyStartsSolid(key, rest);
    IndentRead(indent, inner);
    OpenedFrom(indent, inner);
    assert line[|indent|] == inner[0];
    var end := KeyRead(line, |indent|, key, rest);
    var eq := SkipBlanks(line, end);
    FromFirst(line, eq, '=', blank + first);
    WhiteIsBlank(first[0]);
    BlanksRead(line, eq + 1, blank, first);
    start := eq + 1 + |blank|;
    FromEnds(line, start, first);
  }

  lemma WhiteIsBlank(c: char)
    requires !IsWhitespace(c)
    ensures !IsBlankChar(c)
  {
  }

  lemma FromEnds(s: string, i: nat, p: string)
    requires From(s, i, p)
    ensures i <= |s| && s[i..] == p && s == s[..i] + p
  {
  }

  lemma KeyStartsSolid(key: seq<KeyPart>, rest: string)
    requires OkKey(key) && key[0].before == []
    ensures KeyThen(key, rest) != [] && !IsWhitespace(KeyThen(key, rest)[0])
  {
    var p := key[0];
    assert p in key && Trees.OkPart(p);
    var text := SegmentText(p.segment);
    var tail := p.after + if |key| == 1 then rest else "." + KeyThen(key[1..], rest);
    FirstOfSegment(p.segment);
    assert KeyThen(key, rest) == [] + (text + tail);
    assert (text + tail)[0] == text[0];
  }

  lemma SingleValueEnd(line: string, start: nat, value: string, trail: Trail)
    requires IsBlank(trail.blank) && value != [] && !IsWhitespace(value[|value| - 1])
    requires start <= |line| && line[start..] == value + TrailText(trail)
    ensures var codeEnd := start + |value| + |trail.blank|;
            codeEnd <= |line| && ValueEnd(line, start, codeEnd) == start + |value|
  {
    var codeEnd := start + |value| + |trail.blank|;
    var after := value + TrailText(trail);
    assert |line[start..]| == |after|;
    assert forall k :: start <= k < |line| ==> line[k] == after[k - start];
    forall k | start + |value| <= k < codeEnd
      ensures IsWhitespace(line[k])
    {
      assert line[k] == trail.blank[k - start - |value|] && trail.blank[k - start - |value|] in trail.blank;
    }
    assert line[start + |value| - 1] == value[|value| - 1];
    TrimmedLengthIs(line[..codeEnd], start + |value|);
  }

  /** A pair's line reads as the pair. */
  lemma PairLineRead(item: Item)
    requires item.Entered? && OkItem(item)
    ensures var line := ItemLines(item)[0];
            && ReadsAs(item, line, Classify(CLOSED, line).0)
            && Classify(CLOSED, line).1 == Track(CLOSED, ValueLines(item.value, item.trail))[0].0
  {
    hide KeyThen, OkSegment, OkValue, PairHead, Scan, ValueEnd, Lines, ValueLines, Indent, OkKey;
    var Entered(indent, key, blank, value, trail) := item;
    var lines := ValueLines(value, trail);
    ValueFirst(value, trail);
    var start := PairHeadRead(indent, key, blank, lines[0]);
    var line := ItemLines(item)[0];
    ScanShift(CLOSED, line[..start], lines[0], 0);
    ValueTracked(value, trail);
    var (st, codeEnd) := Scan(CLOSED, line, start);
    assert (st, |lines[0]| - (codeEnd - start)) == Track(CLOSED, lines)[0] by { TrackFirst(CLOSED, lines); }
    if |lines| == 1 {
      SingleValueEnd(line, start, Lines(value)[0], trail);
    }
  }

  lemma TrackFirst(st: State, lines: seq<string>)
    requires lines != []
    ensures Track(st, lines)[0] == (Scan(st, lines[0], 0).0, |lines[0]| - Scan(st, lines[0], 0).1)
  {
    hide Scan;
  }
}
