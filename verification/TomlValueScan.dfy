/**
 Values, scanned. Over every line a value is printed on, the lexer knows that it is inside it, and after the
 last that it is not.
 */
module TomlValueScan {
  import opened Wrappers
  import opened Text
  import opened TomlKeys
  import opened TomlLexer
  import opened TomlScan
  import opened TomlValues

  // ---- line by line ---------------------------------------------------------------------------------

  /** For each line the state the scan leaves it in, and how much of the line it left as a comment. */
  function Track(st: State, lines: seq<string>): (t: seq<(State, nat)>)
    requires lines != []
    ensures |t| == |lines|
    decreases |lines|
  {
    var (end, stop) := Scan(st, lines[0], 0);
    [(end, |lines[0]| - stop)] + if |lines| == 1 then [] else Track(end, lines[1..])
  }

  /** The scan of `lines` from `st` comes to `below` in `then`, and leaves no line before in the closed state. */
  ghost predicate Goes(st: State, lines: seq<string>, then_: State, below: seq<string>) {
    && 0 < |below| <= |lines|
    && var n := |lines| - |below|;
    && Track(st, lines)[n..] == Track(then_, below)
    && forall k :: 0 <= k < n ==> Track(st, lines)[k].0 != CLOSED
  }

  lemma GoesOn(a: State, x: seq<string>, b: State, y: seq<string>, c: State, z: seq<string>)
    requires Goes(a, x, b, y) && Goes(b, y, c, z)
    ensures Goes(a, x, c, z)
  {
    hide Track;
    var n, m := |x| - |y|, |y| - |z|;
    var t := Track(a, x);
    assert t[n + m..] == t[n..][m..];
    forall k | 0 <= k < n + m
      ensures t[k].0 != CLOSED
    {
      if k >= n {
        assert t[k] == t[n..][k - n];
      }
    }
  }

  lemma GoesNowhere(st: State, below: seq<string>)
    requires below != []
    ensures Goes(st, below, st, below)
  {
    hide Track;
    assert Track(st, below)[0..] == Track(st, below);
  }

  lemma PutGoes(st: State, s: string, then_: State, below: seq<string>)
    requires below != []
    requires Scan(st, s + below[0], 0) == (Scan(then_, below[0], 0).0, |s| + Scan(then_, below[0], 0).1)
    ensures Goes(st, Put(s, below), then_, below)
  {
    hide Scan;
    assert Put(s, below)[1..] == below[1..];
    assert Track(st, Put(s, below))[0..] == Track(then_, below);
  }

  /** One step over exactly `s`. */
  lemma StepGoes(st: State, s: string, then_: State, below: seq<string>)
    requires below != [] && s != [] && (st.open.None? ==> s[0] != '#') && Step(st, s + below[0], 0) == (then_, |s|)
    ensures Goes(st, Put(s, below), then_, below)
  {
    hide Step, Scan;
    var line := s + below[0];
    assert line[0] == s[0];
    ScanSteps(st, line, 0);
    ScanShift(then_, s, below[0], 0);
    PutGoes(st, s, then_, below);
  }

  /** A line that ends inside a value. */
  lemma LineGoes(st: State, line: string, below: seq<string>)
    requires below != [] && st != CLOSED && Scan(st, line, 0).0 == st
    ensures Goes(st, [line] + below, st, below)
  {
    hide Scan;
    var lines := [line] + below;
    assert lines[1..] == below;
    var t := Track(st, lines);
    assert t[1..] == Track(st, below);
  }

  // ---- strings on one line --------------------------------------------------------------------------

  predicate NoQuoteBelow(below: seq<string>) {
    below != [] && NoQuoteFirst(below[0])
  }

  lemma {:induction false} UnitsClose(us: seq<Unit>, rest: string)
    requires forall u <- us :: OkUnit(u)
    ensures BasicClose(UnitsText(us) + ("\"" + rest), 0) == |UnitsText(us)|
  {
    var s := UnitsText(us) + ("\"" + rest);
    if us == [] {
      assert s[0] == '\"';
    } else {
      var head, more := UnitText(us[0]), UnitsText(us[1..]) + ("\"" + rest);
      assert us[0] in us && forall u <- us[1..] :: u in us;
      UnitsClose(us[1..], rest);
      assert s == head + more;
      assert s[0] == head[0];
      BasicCloseShift(head, more, 0);
    }
  }

  lemma UnitsFirst(us: seq<Unit>)
    requires us != [] && OkUnit(us[0])
    ensures UnitsText(us) != [] && UnitsText(us)[0] != '\"'
  {
  }

  lemma BasicGoes(d: nat, us: seq<Unit>, below: seq<string>)
    requires (forall u <- us :: OkUnit(u)) && NoQuoteBelow(below)
    ensures Goes(State(d, None), Put("\"" + UnitsText(us) + "\"", below), State(d, None), below)
  {
    hide OkUnit, UnitsText, BasicClose;
    var text, rest := UnitsText(us), below[0];
    var s := "\"" + text + "\"";
    var inner := text + ("\"" + rest);
    assert s + rest == "\"" + inner;
    UnitsClose(us, rest);
    BasicCloseShift("\"", inner, 0);
    if us != [] {
      assert us[0] in us;
      UnitsFirst(us);
    } else {
      NoUnits();
    }
    assert !Tripled(s + rest, 0, '\"') by {
      assert (s + rest)[1] == inner[0];
      assert text == [] ==> (inner == "\"" + rest && (rest != [] ==> (s + rest)[2] == rest[0]));
    }
    StepGoes(State(d, None), s, State(d, None), below);
  }

  lemma NoUnits()
    ensures UnitsText([]) == []
  {
  }

  lemma LiteralGoes(d: nat, text: string, below: seq<string>)
    requires (forall c <- text :: c != '\'') && NoQuoteBelow(below)
    ensures Goes(State(d, None), Put("\'" + text + "\'", below), State(d, None), below)
  {
    var rest := below[0];
    var s := "\'" + text + "\'";
    var line := s + rest;
    var close := 1 + |text|;
    forall k | 1 <= k < close
      ensures line[k] != '\''
    {
      assert line[k] == text[k - 1] && text[k - 1] in text;
    }
    assert line[close] == '\'';
    FindIs(line, '\'', 1, close);
    assert !Tripled(line, 0, '\'') by {
      assert text == [] && rest != [] ==> line[2] == rest[0];
    }
    StepGoes(State(d, None), s, State(d, None), below);
  }

  // ---- strings on several lines ---------------------------------------------------------------------

  lemma {:induction false} QuotesGo(d: nat, m: Multi, n: nat, below: seq<string>)
    requires n <= 2 && below != [] && (below[0] != [] ==> below[0][0] != Delimiter(m))
    ensures Goes(State(d, Some(m)), Put(Quotes(Delimiter(m), n), below), State(d, Some(m)), below)
  {
    hide Goes, Step;
    var c, st := Delimiter(m), State(d, Some(m));
    QuotesPut(c, n, below);
    if n == 0 {
      GoesNowhere(st, below);
    } else {
      var more := Put(Quotes(c, n - 1), below);
      QuotesGo(d, m, n - 1, below);
      QuoteSteps(d, m, n, more[0], below[0]);
      StepGoes(st, [c], st, more);
      GoesOn(st, Put([c], more), st, more, st, below);
    }
  }

  lemma QuotesPut(c: char, n: nat, below: seq<string>)
    requires below != []
    ensures n == 0 ==> Put(Quotes(c, 0), below) == below
    ensures n > 0 ==> Put(Quotes(c, n), below) == Put([c], Put(Quotes(c, n - 1), below))
  {
    if n == 0 {
      assert Quotes(c, 0) + below[0] == below[0];
    } else {
      assert Quotes(c, n) == [c] + Quotes(c, n - 1);
      assert Quotes(c, n) + below[0] == [c] + (Quotes(c, n - 1) + below[0]);
      assert Put(Quotes(c, n - 1), below)[1..] == below[1..];
    }
  }

  lemma QuoteSteps(d: nat, m: Multi, n: nat, more: string, rest: string)
    requires 1 <= n <= 2 && (rest != [] ==> rest[0] != Delimiter(m)) && more == Quotes(Delimiter(m), n - 1) + rest
    ensures var st := State(d, Some(m)); Step(st, [Delimiter(m)] + more, 0) == (st, 1)
  {
    var s := [Delimiter(m)] + more;
    assert s[0] == Delimiter(m);
    assert rest != [] ==> s[n] == rest[0];
  }

  lemma UnitGoes(d: nat, m: Multi, q: nat, u: LongUnit, below: seq<string>)
    requires OkChunk(Chunk(q, u), m == Multi.Basic) && below != []
    ensures Goes(State(d, Some(m)), PutUnit(u, below), State(d, Some(m)), below)
    ensures PutUnit(u, below)[0] != [] ==> PutUnit(u, below)[0][0] != Delimiter(m)
  {
    var st := State(d, Some(m));
    match u
    case LongPlain(c) =>
      assert ([c] + below[0])[0] == c;
      StepGoes(st, [c], st, below);
    case LongEscape(c) =>
      assert (['\\', c] + below[0])[0] == '\\';
      StepGoes(st, ['\\', c], st, below);
    case NewLine => LineGoes(st, [], below);
    case EscapedNewLine =>
      assert Step(st, ['\\'], 0) == (st, 2);
      LineGoes(st, ['\\'], below);
  }

  lemma {:induction false} ChunksGo(d: nat, m: Multi, ks: seq<Chunk>, below: seq<string>)
    requires (forall k <- ks :: OkChunk(k, m == Multi.Basic)) && below != []
    ensures Goes(State(d, Some(m)), PutChunks(ks, Delimiter(m), below), State(d, Some(m)), below)
  {
    hide Goes, OkChunk, PutUnit;
    var st := State(d, Some(m));
    if ks == [] {
      GoesNowhere(st, below);
    } else {
      var k, more := ks[0], PutChunks(ks[1..], Delimiter(m), below);
      assert k in ks && forall x <- ks[1..] :: x in ks;
      ChunksGo(d, m, ks[1..], below);
      UnitGoes(d, m, k.quotes, k.unit, more);
      QuotesGo(d, m, k.quotes, PutUnit(k.unit, more)) by { FewQuotes(k, m); }
      GoesOn(st, PutUnit(k.unit, more), st, more, st, below);
      GoesOn(st, PutChunks(ks, Delimiter(m), below), st, PutUnit(k.unit, more), st, below);
    }
  }

  lemma FewQuotes(k: Chunk, m: Multi)
    requires OkChunk(k, m == Multi.Basic)
    ensures k.quotes <= 2 && k == Chunk(k.quotes, k.unit)
  {
  }

  lemma {:induction false} RunOf(c: char, n: nat, rest: string, i: nat)
    requires i <= n && (rest != [] ==> rest[0] != c)
    ensures RunEnd(Quotes(c, n) + rest, i, c) == n
    decreases n - i
  {
    var s := Quotes(c, n) + rest;
    if i < n {
      assert s[i] == c;
      RunOf(c, n, rest, i + 1);
    } else {
      assert rest != [] ==> s[n] == rest[0];
    }
  }

  lemma LongGoes(d: nat, m: Multi, ks: seq<Chunk>, quotes: nat, below: seq<string>)
    requires (forall k <- ks :: OkChunk(k, m == Multi.Basic)) && quotes <= 2 && NoQuoteBelow(below)
    ensures Goes(State(d, None), PutLong(Delimiter(m), ks, quotes, below), State(d, None), below)
  {
    hide Goes, OkChunk, PutChunks, RunEnd;
    var c, closed, open := Delimiter(m), State(d, None), State(d, Some(m));
    var end := Put(Quotes(c, quotes + 3), below);
    RunOf(c, quotes + 3, below[0], 0);
    EndSteps(d, m, quotes, below[0]);
    StepGoes(open, Quotes(c, quotes + 3), closed, below);
    ChunksGo(d, m, ks, end);
    var inner := PutChunks(ks, c, end);
    OpenSteps(d, m, inner[0]);
    StepGoes(closed, [c, c, c], open, inner);
    GoesOn(open, inner, open, end, closed, below);
    GoesOn(closed, PutLong(c, ks, quotes, below), open, inner, closed, below);
  }

  lemma OpenSteps(d: nat, m: Multi, rest: string)
    ensures var c := Delimiter(m); Step(State(d, None), [c, c, c] + rest, 0) == (State(d, Some(m)), 3)
  {
    var c := Delimiter(m);
    var s := [c, c, c] + rest;
    assert s[0] == c && s[1] == c && s[2] == c;
  }

  lemma EndSteps(d: nat, m: Multi, quotes: nat, rest: string)
    requires quotes <= 2 && NoQuoteFirst(rest)
    ensures var c := Delimiter(m); Step(State(d, Some(m)), Quotes(c, quotes + 3) + rest, 0) == (State(d, None), quotes + 3)
  {
    hide RunEnd;
    var c := Delimiter(m);
    var s := Quotes(c, quotes + 3) + rest;
    assert s[0] == c && s[1] == c && s[2] == c;
    RunOf(c, quotes + 3, rest, 0);
  }

  // ---- values ---------------------------------------------------------------------------------------

  lemma {:induction false} PlainGoes(d: nat, text: string, below: seq<string>)
    requires (forall c <- text :: IsPlain(c)) && below != []
    ensures Goes(State(d, None), Put(text, below), State(d, None), below)
  {
    hide Goes, Step, IsPlain;
    var st := State(d, None);
    if text == [] {
      assert text + below[0] == below[0];
      assert Put(text, below) == below;
      GoesNowhere(st, below);
    } else {
      var c, more := text[0], Put(text[1..], below);
      assert c in text && forall x <- text[1..] :: x in text;
      PlainGoes(d, text[1..], below);
      PlainPut(text, below);
      PlainSteps(d, c, more[0]);
      StepGoes(st, [c], st, more);
      GoesOn(st, Put(text, below), st, more, st, below);
    }
  }

  lemma PlainPut(text: string, below: seq<string>)
    requires text != [] && below != []
    ensures Put(text, below) == Put([text[0]], Put(text[1..], below))
  {
    assert text + below[0] == [text[0]] + (text[1..] + below[0]);
    assert Put(text[1..], below)[1..] == below[1..];
  }

  lemma PlainSteps(d: nat, c: char, rest: string)
    requires IsPlain(c)
    ensures Step(State(d, None), [c] + rest, 0) == (State(d, None), 1) && c != '#'
  {
    assert ([c] + rest)[0] == c;
  }

  lemma OpenBracket(d: nat, c: char, below: seq<string>)
    requires (c == '[' || c == '{') && below != []
    ensures Goes(State(d, None), Put([c], below), State(d + 1, None), below)
  {
    assert ([c] + below[0])[0] == c;
    StepGoes(State(d, None), [c], State(d + 1, None), below);
  }

  lemma CloseBracket(d: nat, c: char, below: seq<string>)
    requires (c == ']' || c == '}') && below != []
    ensures Goes(State(d + 1, None), Put([c], below), State(d, None), below)
  {
    assert ([c] + below[0])[0] == c;
    StepGoes(State(d + 1, None), [c], State(d, None), below);
  }

  /** The scan of a value comes to what follows it as it came to the value. */
  lemma {:induction false} ValueGoes(v: Value, d: nat, below: seq<string>)
    requires OkValue(v) && NoQuoteBelow(below)
    ensures Goes(State(d, None), PutValue(v, below), State(d, None), below)
    decreases v, 1
  {
    hide Goes, OkParts, PutParts, IsPlain, OkUnit, OkChunk, PutLong, NoQuoteBelow, UnitsText;
    assert below != [] by { BelowIsSome(below); }
    match v
    case Bare(text) => PlainGoes(d, text, below);
    case Basic(units) => BasicGoes(d, units, below);
    case Literal(text) => LiteralGoes(d, text, below);
    case LongBasic(chunks, quotes) => LongGoes(d, Multi.Basic, chunks, quotes, below);
    case LongLiteral(chunks, quotes) => LongGoes(d, Multi.Literal, chunks, quotes, below);
    case Array(parts) => BracketedGoes(parts, d, '[', ']', below);
    case Table(parts) => BracketedGoes(parts, d, '{', '}', below);
  }

  lemma BelowIsSome(below: seq<string>)
    requires NoQuoteBelow(below)
    ensures below != []
  {
  }

  lemma {:induction false} BracketedGoes(parts: seq<Part>, d: nat, open: char, close: char, below: seq<string>)
    requires OkParts(parts) && below != [] && ((open == '[' && close == ']') || (open == '{' && close == '}'))
    ensures Goes(State(d, None), Put([open], PutParts(parts, Put([close], below))), State(d, None), below)
    decreases parts, 1
  {
    hide Goes, OkParts, PutParts;
    var closed, inside := State(d, None), State(d + 1, None);
    var end := Put([close], below);
    var inner := PutParts(parts, end);
    CloseBracket(d, close, below);
    assert end[0][0] == close;
    PartsGo(parts, d + 1, end);
    OpenBracket(d, open, inner);
    GoesOn(inside, inner, inside, end, closed, below);
    GoesOn(closed, Put([open], inner), inside, inner, closed, below);
  }

  lemma {:induction false} PartsGo(parts: seq<Part>, d: nat, below: seq<string>)
    requires OkParts(parts) && d > 0 && NoQuoteBelow(below)
    ensures Goes(State(d, None), PutParts(parts, below), State(d, None), below)
    decreases parts, 0
  {
    hide Goes, OkPart, PutPart;
    var st := State(d, None);
    if parts == [] {
      GoesNowhere(st, below);
    } else {
      var more := PutParts(parts[1..], below);
      PartsGo(parts[1..], d, below);
      NoQuoteAfter(parts, below);
      PartGoes(parts[0], d, more);
      GoesOn(st, PutParts(parts, below), st, more, st, below);
    }
  }

  /** What follows a value between brackets does not begin with a quote. */
  lemma NoQuoteAfter(parts: seq<Part>, below: seq<string>)
    requires parts != [] && OkParts(parts) && NoQuoteBelow(below)
    ensures parts[0].Item? ==> NoQuoteBelow(PutParts(parts[1..], below))
  {
    if parts[0].Item? && |parts| > 1 {
      var rest := parts[1..];
      assert OkPart(rest[0]) && !rest[0].Item?;
      assert PutParts(rest, below) == PutPart(rest[0], PutParts(rest[1..], below));
    }
  }

  lemma {:induction false} PartGoes(p: Part, d: nat, below: seq<string>)
    requires OkPart(p) && d > 0 && below != [] && (p.Item? ==> NoQuoteBelow(below))
    ensures Goes(State(d, None), PutPart(p, below), State(d, None), below)
    decreases p, 2
  {
    hide Goes, PutValue, OkValue, IsPlain;
    var st := State(d, None);
    match p
    case Mark(c) =>
      PlainSteps(d, c, below[0]);
      StepGoes(st, [c], st, below);
    case Break => LineGoes(st, [], below);
    case Note(text) =>
      CommentStops(st, text);
      LineGoes(st, "#" + text, below);
    case Item(v) => ValueGoes(v, d, below);
  }

  lemma CommentStops(st: State, text: string)
    requires st.open.None?
    ensures Scan(st, "#" + text, 0) == (st, 0)
  {
    ScanStops(st, "#" + text, 0);
  }
}
