/**
 Giving an unterminated last line an ending. When the line ends in a bare carriage return and the
 ending is `\n`, the two read as one `\r\n`: the line loses its last character and nothing else.
 */
module TomlEndings {
  import opened Wrappers
  import opened Numerals
  import opened Text
  import opened TomlKeys
  import opened TomlLexer
  import opened TomlDoc
  import opened TomlLines
  import opened TomlReplace

  const CR: string := ['\r']

  // ---- a trailing carriage return changes no key ------------------------------------------------

  lemma SkipBlanksCr(s: string, i: nat)
    requires i <= |s|
    ensures SkipBlanks(s + CR, i) == SkipBlanks(s, i)
  {
    SkipBlanksIs(s + CR, i, SkipBlanks(s, i));
  }

  lemma NoHexWithCr(t: string)
    requires EndsWith(t, '\r')
    ensures ParseHex(t) == None
  {
    if t[0] == '+' && |t| > 1 {
      assert t[1..][|t| - 2] == '\r';
    }
  }

  lemma BasicCharCr(s: string, i: nat)
    requires i < |s|
    ensures BasicChar(s + CR, i) == BasicChar(s, i)
  {
    if s[i] == '\\' && i + 1 < |s| && (s[i + 1] == 'u' || s[i + 1] == 'U') {
      var n := i + 2 + if s[i + 1] == 'u' then 4 else 8;
      if n <= |s| {
        assert (s + CR)[i + 2..n] == s[i + 2..n];
      } else if n == |s| + 1 {
        NoHexWithCr((s + CR)[i + 2..n]);
      }
    }
  }

  lemma {:induction false} BasicRestCr(s: string, i: nat)
    requires i <= |s|
    ensures BasicRest(s + CR, i) == BasicRest(s, i)
    decreases |s| - i
  {
    hide BasicChar;
    if i < |s| {
      BasicCharCr(s, i);
      if s[i] != '\"' && BasicChar(s, i).Some? {
        BasicRestCr(s, BasicChar(s, i).value.1);
      }
    } else {
      CrIsNoKey(s);
    }
  }

  lemma CrIsNoKey(s: string)
    ensures BasicRest(s + CR, |s|) == None
    ensures Segment(s + CR, |s|) == None
  {
    assert (s + CR)[|s|] == '\r';
    assert BasicRest(s + CR, |s| + 1) == None;
  }

  lemma SegmentCr(s: string, i: nat)
    requires i < |s|
    ensures Segment(s + CR, i) == Segment(s, i)
  {
    hide BasicRest;
    var t := s + CR;
    if s[i] == '\"' {
      BasicRestCr(s, i + 1);
    } else if s[i] == '\'' {
      var close := Find(s, '\'', i + 1);
      if close < |s| {
        FindIs(t, '\'', i + 1, close);
        assert t[i + 1..close] == s[i + 1..close];
      } else {
        FindIs(t, '\'', i + 1, |t|);
      }
    } else {
      var end := BareEnd(s, i);
      BareEndCr(s, i);
      assert t[i..end] == s[i..end];
    }
  }

  lemma {:induction false} BareEndCr(s: string, i: nat)
    requires i <= |s|
    ensures BareEnd(s + CR, i) == BareEnd(s, i)
    decreases |s| - i
  {
    if i < |s| {
      BareEndCr(s, i + 1);
    }
  }

  lemma {:induction false} KeyPathCr(s: string, at: nat)
    requires at <= |s|
    ensures KeyPath(s + CR, at) == KeyPath(s, at)
    decreases |s| - at
  {
    hide Segment, SkipBlanks, KeyPath, PathOnto;
    var t := s + CR;
    var i := SkipBlanks(s, at);
    KeyPathUnfolds(s, at);
    KeyPathUnfolds(t, at);
    SkipBlanksCr(s, at);
    if i == |s| {
      CrIsNoKey(s);
    } else {
      SegmentCr(s, i);
      assert t[i] == s[i];
      if Segment(s, i).Some? {
        var next := Segment(s, i).value.1;
        var j := SkipBlanks(s, next);
        SkipBlanksCr(s, next);
        assert t[j] == if j < |s| then s[j] else '\r';
        if j < |s| && s[j] == '.' {
          KeyPathCr(s, j + 1);
        }
      }
    }
  }

  lemma PairHeadCr(s: string, at: nat)
    requires at <= |s|
    ensures PairHead(s + CR, at) == PairHead(s, at)
  {
    hide KeyPath;
    KeyPathCr(s, at);
    if KeyPath(s, at).Some? {
      var p := KeyPath(s, at).value;
      SkipBlanksCr(s, p.end);
      var eq := SkipBlanks(s, p.end);
      if eq < |s| && s[eq] == '=' {
        SkipBlanksCr(s, eq + 1);
      }
    }
  }

  /** A header's parts: its path, the brackets that close it, and where what follows them starts. */
  ghost predicate HeaderParts(code: string, open: nat, p: Path, close: nat, rest: nat) {
    && code != [] && code[0] == '[' && open == (if |code| > 1 && code[1] == '[' then 2 else 1)
    && open <= |code| && KeyPath(code, open) == Some(p)
    && close == SkipBlanks(code, p.end) && close + open <= |code| && (forall k :: close <= k < close + open ==> code[k] == ']')
    && rest == SkipBlanks(code, close + open) && (rest == |code| || code[rest] == '#')
  }

  lemma PartsOfHeader(code: string) returns (open: nat, p: Path, close: nat, rest: nat)
    requires ParseHeader(code).Some?
    ensures HeaderParts(code, open, p, close, rest)
  {
    hide KeyPath, SkipBlanks;
    open := if |code| > 1 && code[1] == '[' then 2 else 1;
    p := KeyPath(code, open).value;
    close := SkipBlanks(code, p.end);
    rest := SkipBlanks(code, close + open);
  }

  lemma HeaderOfParts(code: string, open: nat, p: Path, close: nat, rest: nat)
    requires HeaderParts(code, open, p, close, rest)
    ensures ParseHeader(code) == Some((p.segments, open == 2))
  {
    hide KeyPath, SkipBlanks;
  }

  /** A header read with the carriage return - inside its comment - is read without it. */
  lemma HeaderCr(s: string)
    requires ParseHeader(s + CR).Some?
    ensures s != [] && ParseHeader(s) == ParseHeader(s + CR)
  {
    hide ParseHeader, KeyPath, SkipBlanks;
    var t := s + CR;
    var open, p, close, rest := PartsOfHeader(t);
    HeaderOfParts(t, open, p, close, rest);
    var rest' := PartsCr(s, open, p, close, rest);
    HeaderOfParts(s, open, p, close, rest');
  }

  lemma PartsCr(s: string, open: nat, p: Path, close: nat, rest: nat) returns (rest': nat)
    requires HeaderParts(s + CR, open, p, close, rest)
    ensures HeaderParts(s, open, p, close, rest')
  {
    hide KeyPath, SkipBlanks;
    var t := s + CR;
    assert forall k :: 0 <= k < |s| ==> t[k] == s[k];
    assert t[|s|] == '\r';
    KeyPathCr(s, open);
    SkipBlanksCr(s, p.end);
    assert t[close + open - 1] == ']';
    SkipBlanksCr(s, close + open);
    rest' := SkipBlanks(s, close + open);
  }

  // ---- nor the lexer's state --------------------------------------------------------------------

  lemma {:induction false} RunEndCr(s: string, i: nat, c: char)
    requires i <= |s| && c != '\r'
    ensures RunEnd(s + CR, i, c) == RunEnd(s, i, c)
    decreases |s| - i
  {
    if i < |s| && s[i] == c {
      RunEndCr(s, i + 1, c);
    }
  }

  lemma {:induction false} BasicCloseCr(s: string, i: nat)
    requires i <= |s| + 1
    ensures BasicClose(s, i) < |s| ==> BasicClose(s + CR, i) == BasicClose(s, i)
    ensures BasicClose(s, i) == |s| ==> BasicClose(s + CR, i) == |s| + 1
    decreases |s| + 1 - i
  {
    if i < |s| {
      assert (s + CR)[i] == s[i];
      BasicCloseCr(s, i + 1);
      if s[i] == '\\' {
        BasicCloseCr(s, i + 2);
      }
    } else if i == |s| {
      assert (s + CR)[i] == '\r';
    }
  }

  lemma FindCr(s: string, c: char, i: nat)
    requires i <= |s| && c != '\r'
    ensures Find(s, c, i) < |s| ==> Find(s + CR, c, i) == Find(s, c, i)
    ensures Find(s, c, i) == |s| ==> Find(s + CR, c, i) == |s| + 1
  {
    var j := Find(s, c, i);
    FindIs(s + CR, c, i, if j < |s| then j else |s| + 1);
  }

  lemma TripledCr(s: string, i: nat, c: char)
    requires i < |s| && c != '\r'
    ensures Tripled(s + CR, i, c) == Tripled(s, i, c)
  {
    assert forall k :: 0 <= k < |s| ==> (s + CR)[k] == s[k];
    assert (s + CR)[|s|] == '\r';
  }

  /** A step leaves the same state and goes on to the same place, or past the end. */
  lemma StepCr(st: State, s: string, i: nat)
    requires i < |s| && (st.open.None? ==> s[i] != '#')
    ensures Step(st, s + CR, i).0 == Step(st, s, i).0
    ensures Step(st, s + CR, i).1 == Step(st, s, i).1
            || (Step(st, s, i).1 == |s| && Step(st, s + CR, i).1 == |s| + 1)
  {
    hide RunEnd, BasicClose, Find, Tripled;
    assert (s + CR)[i] == s[i];
    TripledCr(s, i, '\"');
    TripledCr(s, i, '\'');
    RunEndCr(s, i, '\"');
    RunEndCr(s, i, '\'');
    BasicCloseCr(s, i + 1);
    FindCr(s, '\'', i + 1);
  }

  lemma {:induction false} ScanCr(st: State, s: string, i: nat)
    requires i <= |s| + 1
    ensures Scan(st, s + CR, i).0 == Scan(st, s, i).0
    decreases |s| + 1 - i
  {
    hide Step;
    var t := s + CR;
    if i < |s| {
      assert t[i] == s[i];
      if st.open.Some? || s[i] != '#' {
        StepCr(st, s, i);
        var (st', next) := Step(st, s, i);
        ScanCr(st', s, next);
        if next == |s| {
          LastIsCr(st', s);
        }
      }
    } else if i == |s| {
      LastIsCr(st, s);
    }
  }

  lemma LastIsCr(st: State, s: string)
    ensures Scan(st, s + CR, |s|).0 == st && Scan(st, s + CR, |s| + 1).0 == st && Scan(st, s, |s|).0 == st
  {
    var t := s + CR;
    assert t[|s|] == '\r';
    assert Step(st, t, |s|) == (st, |s| + 1);
  }

  /** Without its trailing carriage return a line has the same part in the document. */
  lemma ClassifyCr(st: State, s: string)
    requires Classify(st, s + CR).0 != Header(None, false)
    ensures Classify(st, s).1 == Classify(st, s + CR).1
    ensures forall a, b, c, d :: SameRole(Line(a, b, Classify(st, s + CR).0), Line(c, d, Classify(st, s).0))
  {
    hide Scan, ParseHeader, PairHead, ValueEnd, Indent;
    var t := s + CR;
    if st != CLOSED {
      ScanCr(st, s, 0);
    } else {
      IndentCr(s);
      var indent := Indent(s);
      if indent < |s| {
        if s[indent] == '[' {
          assert t[indent..] == s[indent..] + CR;
          HeaderCr(s[indent..]);
        } else if s[indent] != '#' {
          PairHeadCr(s, indent);
          ScanCr(CLOSED, s, match PairHead(s, indent) { case Some(h) => h.1 case None => indent });
        }
      }
    }
  }

  lemma IndentCr(s: string)
    ensures Indent(s) < |s| ==> Indent(s + CR) == Indent(s)
    ensures Indent(s) == |s| ==> Indent(s + CR) == |s| + 1
  {
    var t := s + CR;
    assert forall k :: 0 <= k < |s| ==> t[k] == s[k];
    if Indent(s) < |s| {
      IndentIs(t, Indent(s));
    } else {
      var n := Indent(t);
      assert t[|s|] == '\r' && IsWhitespace(t[|s|]);
    }
  }

  // ---- the last line given an ending ------------------------------------------------------------

  /** Every line ended. */
  ghost predicate AllEnded(lines: seq<Line>) {
    forall k :: 0 <= k < |lines| ==> ProperLine(lines[k], false)
  }

  /** What a malformed header becomes when `eol` is put after it: proper, perhaps, if all that was wrong
      with it was a carriage return at its end. */
  function HeaderEnded(text: string, eol: string): Kind {
    if eol == "\n" && EndsWith(text, '\r') then Classify(CLOSED, text[..|text| - 1]).0 else Header(None, false)
  }

  /** A line keeps its role, or is a malformed header and becomes what it is with an ending. */
  ghost predicate KeepsRole(was: Line, now: Line, eol: string) {
    if was.kind == Header(None, false) then now.kind == HeaderEnded(was.text, eol) && now.kind.Header?
    else SameRole(was, now)
  }

  /** `lines` read again with `eol` after the last: the same roles, the same state at the end. */
  lemma EndLast(lines: seq<Line>, eol: string) returns (ended: seq<Line>)
    requires Proper(lines) && Lexed(CLOSED, lines) && lines != []
    requires lines[|lines| - 1].ending == [] && (eol == "\n" || eol == "\r\n")
    ensures AllEnded(ended) && Lexed(CLOSED, ended) && |ended| == |lines|
    ensures Unparse(ended) == Unparse(lines) + eol
    ensures StateAfter(CLOSED, ended) == StateAfter(CLOSED, lines)
    ensures ended[..|lines| - 1] == lines[..|lines| - 1] && KeepsRole(lines[|lines| - 1], ended[|lines| - 1], eol)
  {
    hide Classify, Lexed, StateAfter, ProperLine, KeepsRole;
    var n := |lines| - 1;
    var head, last := lines[..n], lines[n];
    var st := StateAfter(CLOSED, head);
    assert lines == head + [last];
    LexedConcat(CLOSED, head, [last]);
    StateAfterConcat(CLOSED, head, [last]);
    assert ProperLine(last, true);
    var now := EndOne(st, last, eol);
    ended := head + [now];
    LexedConcat(CLOSED, head, [now]);
    StateAfterConcat(CLOSED, head, [now]);
    UnparseEnded(head, last, now, eol);
    EndedLines(lines, head, now);
  }

  lemma UnparseEnded(head: seq<Line>, last: Line, now: Line, eol: string)
    requires last.ending == [] && now.text + now.ending == last.text + eol
    ensures Unparse(head + [now]) == Unparse(head + [last]) + eol
  {
    UnparseConcat(head, [last]);
    UnparseConcat(head, [now]);
    assert Unparse([last]) == last.text + (last.ending + []) == last.text;
    assert Unparse([now]) == now.text + (now.ending + []) == now.text + now.ending;
    assert Unparse(head) + (last.text + eol) == (Unparse(head) + last.text) + eol;
  }

  lemma EndedLines(lines: seq<Line>, head: seq<Line>, now: Line)
    requires Proper(lines) && lines != [] && head == lines[..|lines| - 1] && ProperLine(now, false)
    ensures AllEnded(head + [now])
  {
    var ended := head + [now];
    forall k | 0 <= k < |ended|
      ensures ProperLine(ended[k], false)
    {
      assert ProperLine(lines[k], k == |lines| - 1);
    }
  }

  lemma EndOne(st: State, last: Line, eol: string) returns (now: Line)
    requires ProperLine(last, true) && last.ending == []
    requires Lexed(st, [last]) && (eol == "\n" || eol == "\r\n")
    ensures ProperLine(now, false) && Lexed(st, [now]) && StateAfter(st, [now]) == StateAfter(st, [last])
    ensures KeepsRole(last, now, eol) && now.text + now.ending == last.text + eol
  {
    hide Classify;
    if eol == "\n" && EndsWith(last.text, '\r') {
      var s := last.text[..|last.text| - 1];
      assert last.text == s + [last.text[|last.text| - 1]];
      assert last.text == s + CR;
      now := Line(s, "\r\n", Classify(st, s).0);
      assert last == Line(last.text, last.ending, Classify(st, s + CR).0);
      if last.kind == Header(None, false) {
        HeaderStaysHeader(st, s);
      } else {
        ClassifyCr(st, s);
      }
    } else {
      now := Line(last.text, eol, last.kind);
    }
  }

  lemma HeaderStaysHeader(st: State, s: string)
    requires Classify(st, s + CR).0.Header?
    ensures st == CLOSED && Classify(st, s).0.Header? && Classify(st, s).1 == CLOSED && Classify(st, s + CR).1 == CLOSED
  {
    hide ParseHeader, PairHead, Scan;
    IndentCr(s);
    assert Indent(s) < |s| ==> (s + CR)[Indent(s)] == s[Indent(s)];
  }
}
