/**
 Lines and documents. Reading and writing are inverse, line by line, with the lexer's state carried
 through.
 */
module TomlLines {
  import opened Wrappers
  import opened Text
  import opened TomlKeys
  import opened TomlLexer
  import opened TomlDoc

  /** A line as reading gives it: only the last can lack an ending, and then it holds something. */
  predicate ProperLine(l: Line, last: bool) {
    && '\n' !in l.text
    && (l.ending == "\n" || l.ending == "\r\n" || (l.ending == [] && last && l.text != []))
    && (l.ending == "\n" ==> !EndsWith(l.text, '\r'))
  }

  ghost predicate Proper(lines: seq<Line>) {
    forall k :: 0 <= k < |lines| ==> ProperLine(lines[k], k == |lines| - 1)
  }

  /** The lexer's state after some lines. */
  function StateAfter(st: State, lines: seq<Line>): State
    decreases |lines|
  {
    if lines == [] then st else StateAfter(Classify(st, lines[0].text).1, lines[1..])
  }

  /** Every line is classified as the state it starts in makes it. */
  predicate Lexed(st: State, lines: seq<Line>)
    decreases |lines|
  {
    lines == [] || (lines[0].kind == Classify(st, lines[0].text).0 && Lexed(Classify(st, lines[0].text).1, lines[1..]))
  }

  lemma {:induction false} StateAfterConcat(st: State, a: seq<Line>, b: seq<Line>)
    ensures StateAfter(st, a + b) == StateAfter(StateAfter(st, a), b)
    decreases |a|
  {
    hide Classify;
    if a == [] {
      assert a + b == b;
    } else {
      assert (a + b)[1..] == a[1..] + b;
      StateAfterConcat(Classify(st, a[0].text).1, a[1..], b);
    }
  }

  lemma {:induction false} LexedConcat(st: State, a: seq<Line>, b: seq<Line>)
    ensures Lexed(st, a + b) <==> Lexed(st, a) && Lexed(StateAfter(st, a), b)
    decreases |a|
  {
    hide Classify;
    if a == [] {
      assert a + b == b;
    } else {
      assert (a + b)[1..] == a[1..] + b;
      LexedConcat(Classify(st, a[0].text).1, a[1..], b);
    }
  }

  // ---- written lines read back ------------------------------------------------------------------

  /** The first line of a text is cut where it was joined. */
  lemma CutJoined(l: Line, rest: string)
    requires ProperLine(l, rest == [])
    ensures l.text + l.ending + rest != []
    ensures Cut(l.text + l.ending + rest) == (|l.text|, |l.text| + |l.ending|)
  {
    var text := l.text + l.ending + rest;
    if l.ending != [] {
      var n := |l.text| + |l.ending| - 1;
      forall k | 0 <= k < n
        ensures text[k] != '\n'
      {
        if k < |l.text| {
          assert text[k] == l.text[k] && l.text[k] in l.text;
        }
      }
      assert text[n] == '\n';
      FindIs(text, '\n', 0, n);
    } else {
      assert text == l.text;
      FindIs(text, '\n', 0, |text|);
    }
  }

  lemma {:induction false} UnparseEmpty(lines: seq<Line>)
    requires Proper(lines)
    ensures Unparse(lines) == [] <==> lines == []
  {
    if lines != [] {
      assert ProperLine(lines[0], 0 == |lines| - 1);
    }
  }

  lemma ProperTail(lines: seq<Line>)
    requires Proper(lines) && lines != []
    ensures Proper(lines[1..]) && ProperLine(lines[0], Unparse(lines[1..]) == [])
  {
    forall k | 0 <= k < |lines| - 1
      ensures ProperLine(lines[1..][k], k == |lines| - 2)
    {
      assert ProperLine(lines[k + 1], k + 1 == |lines| - 1);
    }
    UnparseEmpty(lines[1..]);
    assert ProperLine(lines[0], 0 == |lines| - 1);
  }

  lemma {:induction false} ParseUnparse(st: State, lines: seq<Line>)
    requires Proper(lines) && Lexed(st, lines)
    ensures ParseLines(st, Unparse(lines)) == lines
    decreases |lines|
  {
    hide Classify, Cut, Proper, ProperLine;
    if lines != [] {
      var l, rest := lines[0], Unparse(lines[1..]);
      ProperTail(lines);
      CutJoined(l, rest);
      var text := l.text + l.ending + rest;
      assert Unparse(lines) == text;
      assert text[..|l.text|] == l.text;
      assert text[|l.text|..|l.text| + |l.ending|] == l.ending;
      assert text[|l.text| + |l.ending|..] == rest;
      ParseUnparse(Classify(st, l.text).1, lines[1..]);
    }
  }

  // ---- read lines are proper, lexed, and write back ---------------------------------------------

  lemma CutIsProper(text: string, kind: Kind)
    requires text != []
    ensures var (body, end) := Cut(text); ProperLine(Line(text[..body], text[body..end], kind), end == |text|)
  {
    var (body, end) := Cut(text);
    var n := Find(text, '\n', 0);
    if n < |text| {
      if body < n {
        assert text[body..end] == "\r\n";
      } else {
        assert text[body..end] == "\n";
      }
    } else {
      assert text[body..end] == [];
    }
  }

  lemma {:induction false} ParsedLines(st: State, text: string)
    ensures var lines := ParseLines(st, text);
            Proper(lines) && Lexed(st, lines) && Unparse(lines) == text && (lines == [] <==> text == [])
    decreases |text|
  {
    hide Classify, Cut, ProperLine;
    if text != [] {
      var (body, end) := Cut(text);
      var (kind, st') := Classify(st, text[..body]);
      ParsedLines(st', text[end..]);
      CutIsProper(text, kind);
      var lines := ParseLines(st, text);
      var tail := ParseLines(st', text[end..]);
      assert lines[0] == Line(text[..body], text[body..end], kind) && lines[1..] == tail;
      assert text == text[..body] + (text[body..end] + text[end..]);
      forall k | 0 <= k < |lines|
        ensures ProperLine(lines[k], k == |lines| - 1)
      {
        if k > 0 {
          assert lines[k] == tail[k - 1] && ProperLine(tail[k - 1], k - 1 == |tail| - 1);
        }
      }
    }
  }

  /** A line that is no continuation starts with the lexer closed. */
  lemma {:induction false} ClosedBefore(st: State, lines: seq<Line>, k: nat)
    requires Lexed(st, lines) && k < |lines|
    ensures lines[k].kind == Classify(StateAfter(st, lines[..k]), lines[k].text).0
    ensures lines[k].kind.Continuation? <==> StateAfter(st, lines[..k]) != CLOSED
    decreases k
  {
    hide Classify;
    if k == 0 {
      assert lines[..0] == [];
    } else {
      var st' := Classify(st, lines[0].text).1;
      ClosedBefore(st', lines[1..], k - 1);
      assert lines[..k][1..] == lines[1..][..k - 1];
    }
  }

  lemma {:induction false} EolIs(lines: seq<Line>)
    requires Proper(lines)
    ensures EolOf(lines) == "\n" || EolOf(lines) == "\r\n"
  {
    if lines != [] {
      ProperTail(lines);
      EolIs(lines[1..]);
    }
  }

  /** One line's text changed for one that leaves the lexer as it was: every other line reads as
      before. */
  lemma SwapLine(lines: seq<Line>, k: nat, text: string)
    requires Proper(lines) && Lexed(CLOSED, lines) && k < |lines|
    requires '\n' !in text && text != [] && (EndsWith(text, '\r') ==> EndsWith(lines[k].text, '\r'))
    requires StateAfter(CLOSED, lines[..k]) == CLOSED
    requires Classify(CLOSED, text).1 == Classify(CLOSED, lines[k].text).1
    ensures ParseLines(CLOSED, Unparse(WithLine(lines, k, text)))
            == lines[k := Line(text, lines[k].ending, Classify(CLOSED, text).0)]
  {
    hide Classify, ProperLine;
    var now := lines[k := Line(text, lines[k].ending, Classify(CLOSED, text).0)];
    SwapLexed(lines, k, now[k]);
    SwapProper(lines, k, now[k]);
    ParseUnparse(CLOSED, now);
    UnparseIgnoresKinds(WithLine(lines, k, text), now);
  }

  lemma SwapLexed(lines: seq<Line>, k: nat, now: Line)
    requires Lexed(CLOSED, lines) && k < |lines| && StateAfter(CLOSED, lines[..k]) == CLOSED
    requires Classify(CLOSED, lines[k].text).1 == Classify(CLOSED, now.text).1
    requires now.kind == Classify(CLOSED, now.text).0
    ensures Lexed(CLOSED, lines[k := now])
  {
    hide Classify, Lexed, StateAfter;
    var head, tail := lines[..k], lines[k + 1..];
    assert lines == head + ([lines[k]] + tail);
    assert lines[k := now] == head + ([now] + tail);
    LexedConcat(CLOSED, head, [lines[k]] + tail);
    LexedConcat(CLOSED, head, [now] + tail);
    SwapHead(lines[k], now, tail);
  }

  lemma SwapHead(was: Line, now: Line, tail: seq<Line>)
    requires Classify(CLOSED, was.text).1 == Classify(CLOSED, now.text).1 && now.kind == Classify(CLOSED, now.text).0
    requires Lexed(CLOSED, [was] + tail)
    ensures Lexed(CLOSED, [now] + tail)
  {
    hide Classify;
    assert ([was] + tail)[1..] == tail && ([now] + tail)[1..] == tail;
  }

  lemma SwapProper(lines: seq<Line>, k: nat, now: Line)
    requires Proper(lines) && k < |lines| && now.ending == lines[k].ending
    requires '\n' !in now.text && now.text != [] && (EndsWith(now.text, '\r') ==> EndsWith(lines[k].text, '\r'))
    ensures Proper(lines[k := now])
  {
    var swapped := lines[k := now];
    forall j | 0 <= j < |swapped|
      ensures ProperLine(swapped[j], j == |swapped| - 1)
    {
      assert ProperLine(lines[j], j == |lines| - 1);
    }
  }

  predicate SameText(a: Line, b: Line) {
    a.text == b.text && a.ending == b.ending
  }

  lemma {:induction false} UnparseIgnoresKinds(a: seq<Line>, b: seq<Line>)
    requires |a| == |b| && forall k :: 0 <= k < |a| ==> SameText(a[k], b[k])
    ensures Unparse(a) == Unparse(b)
  {
    if a != [] {
      assert SameText(a[0], b[0]);
      UnparseIgnoresKinds(a[1..], b[1..]);
    }
  }
}
