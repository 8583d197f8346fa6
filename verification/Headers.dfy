/**
 Manifest headers. Folded to the 72-byte lines of the JAR File Specification.
 */
module Headers {
  import opened ByteStrings
  import opened Sequences
  import opened Utf8

  const NEWLINE: Byte := '\n' as Byte
  const SPACE: Byte := ' ' as Byte

  const MAX_LINE: nat := 72

  // ---- what folding means -----------------------------------------------------------------------

  /** How many characters at the start of `text` fit in `limit` bytes. */
  function Fit(text: string, limit: nat): (n: nat)
    ensures n <= |text|
    ensures limit >= 4 && text != [] ==> n > 0
    decreases |text|
  {
    if text == [] || |EncodeChar(text[0])| > limit then 0
    else 1 + Fit(text[1..], limit - |EncodeChar(text[0])|)
  }

  /** The text cut into what goes on each line, the first of them with room for `limit` bytes. */
  function Pieces(text: string, limit: nat): seq<string>
    requires limit >= 4
    decreases |text|
  {
    if text == [] then []
    else
      var n := Fit(text, limit);
      [text[..n]] + Pieces(text[n..], MAX_LINE - 2)
  }

  /** The lines as written: every one but the first starts with a space. */
  function WriteLines(pieces: seq<string>, first: bool): Bytes {
    if pieces == [] then []
    else Line(pieces[0], first) + WriteLines(pieces[1..], false)
  }

  function Line(piece: string, first: bool): Bytes {
    (if first then [] else [SPACE]) + (Encode(piece) + [NEWLINE])
  }

  function Header(name: string, value: string): string {
    name + ": " + value
  }

  function Folded(name: string, value: string): Bytes {
    WriteLines(Pieces(Header(name, value), MAX_LINE - 1), true)
  }

  // ---- folding as it runs: on bytes, stepping back to a character's first byte --------------------

  predicate IsBoundary(b: Bytes, k: nat)
    requires k <= |b|
  {
    k == 0 || k == |b| || !IsTail(b[k])
  }

  lemma EncodedCharTails(c: char)
    ensures !IsTail(EncodeChar(c)[0])
    ensures forall k :: 0 < k < |EncodeChar(c)| ==> IsTail(EncodeChar(c)[k])
  {
  }

  lemma {:induction false} FitsInLimit(rest: string, limit: nat)
    ensures |Encode(rest[..Fit(rest, limit)])| <= limit
  {
    hide EncodeChar;
    var n := Fit(rest, limit);
    if n > 0 {
      FitsInLimit(rest[1..], limit - |EncodeChar(rest[0])|);
      assert rest[..n][0] == rest[0] && rest[..n][1..] == rest[1..][..n - 1];
    } else {
      assert rest[..0] == [];
    }
  }

  /** After the bytes of what fits, no boundary comes within the limit. */
  lemma {:induction false} NoLaterBoundary(b: Bytes, start: nat, rest: string, limit: nat, m: nat)
    requires start <= |b| && b[start..] == Encode(rest)
    requires start + |Encode(rest[..Fit(rest, limit)])| < m <= |b| && m <= start + limit
    ensures !IsBoundary(b, m)
    decreases |rest|
  {
    hide EncodeChar, IsTail;
    assert rest != [] by { assert |b[start..]| > 0; }
    var n, len := Fit(rest, limit), |EncodeChar(rest[0])|;
    TakeAll(b, start, EncodeChar(rest[0]), Encode(rest[1..]));
    EncodedCharTails(rest[0]);
    if len <= limit {
      assert rest[..n][0] == rest[0] && rest[..n][1..] == rest[1..][..n - 1];
      NoLaterBoundary(b, start + len, rest[1..], limit - len, m);
    } else {
      assert b[m] == b[start..start + len][m - start];
    }
  }

  /** The bytes of what fits end at a boundary, and up to `limit` there is no later one. */
  lemma LastBoundary(b: Bytes, start: nat, rest: string, limit: nat)
    requires start <= |b| && b[start..] == Encode(rest)
    ensures var e := start + |Encode(rest[..Fit(rest, limit)])|;
            && e <= |b| && e <= start + limit && IsBoundary(b, e)
            && (forall m :: e < m <= |b| && m <= start + limit ==> !IsBoundary(b, m))
            && b[start..e] == Encode(rest[..Fit(rest, limit)]) && b[e..] == Encode(rest[Fit(rest, limit)..])
  {
    hide Encode, Fit, IsBoundary;
    var n := Fit(rest, limit);
    var e := start + |Encode(rest[..n])|;
    EncodeConcat(rest[..n], rest[n..]);
    assert rest[..n] + rest[n..] == rest;
    TakeAll(b, start, Encode(rest[..n]), Encode(rest[n..]));
    FitsInLimit(rest, limit);
    StartsCharacter(b, e, rest[n..]);
    forall m | e < m <= |b| && m <= start + limit
      ensures !IsBoundary(b, m)
    {
      NoLaterBoundary(b, start, rest, limit, m);
    }
  }

  /** Where a character's bytes start is a boundary. */
  lemma StartsCharacter(b: Bytes, i: nat, rest: string)
    requires i <= |b| && b[i..] == Encode(rest)
    ensures IsBoundary(b, i)
  {
    hide EncodeChar;
    if rest != [] {
      EncodedCharTails(rest[0]);
      assert b[i..][0] == EncodeChar(rest[0])[0];
    } else {
      assert |b[i..]| == 0;
    }
  }

  method WrapHeader(name: string, value: string) returns (out: Bytes)
    ensures out == Folded(name, value)
  {
    hide Fit, Encode, IsBoundary;
    var b := Encode(Header(name, value));
    ghost var text := Header(name, value);
    var start: nat := 0;
    var limit: nat := MAX_LINE - 1;
    out := [];
    ghost var rest := text;
    assert b[0..] == b;
    while start < |b|
      invariant start <= |b| && b[start..] == Encode(rest)
      invariant limit == if start == 0 then MAX_LINE - 1 else MAX_LINE - 2
      invariant out + WriteLines(Pieces(rest, limit), start == 0) == Folded(name, value)
      decreases |b| - start
    {
      NotOver(rest);
      var end := LineEnd(b, start, rest, limit);
      ghost var piece := rest[..Fit(rest, limit)];
      ghost var later := Pieces(rest[|piece|..], MAX_LINE - 2);
      assert Pieces(rest, limit) == [piece] + later;
      assert ([piece] + later)[1..] == later;
      ghost var before := out;
      if start > 0 {
        out := out + [SPACE];
      }
      out := out + b[start..end];
      out := out + [NEWLINE];
      LineAdded(before, piece, start == 0, later);
      start := end;
      rest := rest[|piece|..];
      limit := MAX_LINE - 2;
    }
    AllOver(rest);
    assert out + [] == out;
  }

  lemma NotOver(rest: string)
    ensures |Encode(rest)| > 0 ==> rest != []
  {
  }

  lemma AllOver(rest: string)
    ensures |Encode(rest)| == 0 ==> rest == []
  {
  }

  lemma LineAdded(before: Bytes, piece: string, first: bool, later: seq<string>)
    ensures before + WriteLines([piece] + later, first)
            == ((if first then before else before + [SPACE]) + Encode(piece) + [NEWLINE]) + WriteLines(later, false)
  {
    hide Encode;
    var line := Line(piece, first);
    assert ([piece] + later)[1..] == later;
    assert before + (line + WriteLines(later, false)) == (before + line) + WriteLines(later, false);
    assert before + line == (if first then before else before + [SPACE]) + Encode(piece) + [NEWLINE];
  }

  /** Back from as far as the line could go, to the start of a character: never to the line's start. */
  method LineEnd(b: Bytes, start: nat, ghost rest: string, limit: nat) returns (end: nat)
    requires start < |b| && rest != [] && b[start..] == Encode(rest) && limit >= 4
    ensures start < end <= |b| && end <= start + limit
    ensures b[start..end] == Encode(rest[..Fit(rest, limit)])
    ensures b[end..] == Encode(rest[Fit(rest, limit)..])
  {
    hide Fit, Encode, IsBoundary;
    LastBoundary(b, start, rest, limit);
    ghost var e := start + |Encode(rest[..Fit(rest, limit)])|;
    SomethingFits(rest, Fit(rest, limit));
    end := if start + limit < |b| then start + limit else |b|;
    while end > start && !IsBoundary(b, end)
      invariant e <= end <= |b| && end <= start + limit
    {
      end := end - 1;
    }
  }

  lemma SomethingFits(rest: string, n: nat)
    requires 0 < n <= |rest|
    ensures |Encode(rest[..n])| > 0
  {
    assert rest[..n][0] == rest[0];
  }

  // ---- what the lines keep ----------------------------------------------------------------------

  /** No line is over 72 bytes with its newline, and each is a run of whole characters: together, the text. */
  lemma {:induction false} LinesAreShort(text: string, limit: nat, first: bool)
    requires limit >= 4 && limit + (if first then 1 else 2) <= 72
    ensures Flatten(Pieces(text, limit)) == text
    ensures forall k :: 0 <= k < |Pieces(text, limit)| ==>
              Pieces(text, limit)[k] != [] && |Line(Pieces(text, limit)[k], first && k == 0)| <= 72
    decreases |text|
  {
    hide Encode, Fit;
    if text != [] {
      var n := Fit(text, limit);
      LinesAreShort(text[n..], MAX_LINE - 2, false);
      assert text == text[..n] + text[n..];
      assert Encode(text)[0..] == Encode(text);
      LastBoundary(Encode(text), 0, text, limit);
      var ps, later := Pieces(text, limit), Pieces(text[n..], MAX_LINE - 2);
      assert ps[1..] == later;
      forall k | 0 <= k < |ps|
        ensures ps[k] != [] && |Line(ps[k], first && k == 0)| <= MAX_LINE
      {
        if k > 0 {
          assert ps[k] == later[k - 1];
        }
      }
    }
  }

  /** A reader of the manifest: a line break and the space after it join a line to the one before. */
  function Unfold(b: Bytes): Bytes {
    if |b| <= 1 then if b == [10] then [] else b
    else if b[0] == 10 && b[1] == 32 then Unfold(b[2..])
    else [b[0]] + Unfold(b[1..])
  }

  lemma UnfoldHead(b: Bytes)
    requires |b| > 1 && b[0] != NEWLINE
    ensures Unfold(b) == [b[0]] + Unfold(b[1..])
  {
  }

  lemma {:induction false} UnfoldOver(a: Bytes, rest: Bytes)
    requires NEWLINE !in a && rest != []
    ensures Unfold(a + rest) == a + Unfold(rest)
  {
    hide Unfold;
    if a == [] {
      assert a + rest == rest;
    } else {
      assert a[0] in a && forall x <- a[1..] :: x in a;
      UnfoldOver(a[1..], rest);
      assert (a + rest)[1..] == a[1..] + rest;
      UnfoldHead(a + rest);
      assert [a[0]] + (a[1..] + Unfold(rest)) == a + Unfold(rest);
    }
  }

  lemma {:induction false} EncodedHasNone(s: string)
    requires '\n' !in s
    ensures NEWLINE !in Encode(s)
  {
    hide EncodeChar;
    if s != [] {
      assert s[0] in s && forall c <- s[1..] :: c in s;
      EncodedHasNone(s[1..]);
      EncodedCharHasNone(s[0]);
    }
  }

  lemma EncodedCharHasNone(c: char)
    requires c != '\n'
    ensures NEWLINE !in EncodeChar(c)
  {
  }

  lemma {:induction false} UnfoldLines(pieces: seq<string>, first: bool)
    requires forall k :: 0 <= k < |pieces| ==> '\n' !in pieces[k]
    ensures first && pieces != [] ==> Unfold(WriteLines(pieces, true)) == Encode(Flatten(pieces))
    ensures Unfold([NEWLINE] + WriteLines(pieces, false)) == Encode(Flatten(pieces))
    decreases |pieces|
  {
    hide Encode, Unfold;
    if pieces == [] {
      assert [NEWLINE] + [] == [NEWLINE];
      UnfoldEnd();
    } else {
      var e, later := Encode(pieces[0]), WriteLines(pieces[1..], false);
      EncodedHasNone(pieces[0]);
      UnfoldLines(pieces[1..], false);
      EncodeConcat(pieces[0], Flatten(pieces[1..]));
      UnfoldOver(e, [NEWLINE] + later);
      assert WriteLines(pieces, true) == e + ([NEWLINE] + later);
      assert [NEWLINE] + WriteLines(pieces, false) == [NEWLINE, SPACE] + (e + ([NEWLINE] + later));
      UnfoldJoin(e + ([NEWLINE] + later));
    }
  }

  lemma UnfoldEnd()
    ensures Unfold([NEWLINE]) == Encode([])
  {
  }

  lemma UnfoldJoin(b: Bytes)
    ensures Unfold([NEWLINE, SPACE] + b) == Unfold(b)
  {
    assert ([NEWLINE, SPACE] + b)[2..] == b;
  }

  /** A folded header, unfolded, is the header. */
  lemma FoldedUnfolds(name: string, value: string)
    requires '\n' !in name && '\n' !in value
    ensures Unfold(Folded(name, value)) == Encode(name + ": " + value)
  {
    hide Unfold, Encode, WriteLines;
    var text := Header(name, value);
    LinesAreShort(text, MAX_LINE - 1, true);
    var pieces := Pieces(text, MAX_LINE - 1);
    assert ':' in text && '\n' !in text;
    PiecesHaveNone(pieces);
    UnfoldLines(pieces, true);
  }

  lemma {:induction false} PiecesHaveNone(pieces: seq<string>)
    requires '\n' !in Flatten(pieces)
    ensures forall k :: 0 <= k < |pieces| ==> '\n' !in pieces[k]
  {
    if pieces != [] {
      assert forall c <- Flatten(pieces[1..]) :: c in Flatten(pieces);
      PiecesHaveNone(pieces[1..]);
      assert forall c <- pieces[0] :: c in Flatten(pieces);
    }
  }

  /** A line breaks only where it must: the next line's first character would not have fitted. */
  lemma {:induction false} LinesAreFull(text: string, limit: nat, first: bool, k: nat)
    requires limit >= 4 && limit + (if first then 1 else 2) == 72
    requires k + 1 < |Pieces(text, limit)| && Pieces(text, limit)[k + 1] != []
    ensures |Line(Pieces(text, limit)[k] + Pieces(text, limit)[k + 1][..1], first && k == 0)| > 72
    decreases k
  {
    hide Encode, Fit;
    var n := Fit(text, limit);
    var ps, later := Pieces(text, limit), Pieces(text[n..], MAX_LINE - 2);
    assert ps[1..] == later && ps[k + 1] == later[k];
    if k == 0 {
      NextDoesNotFit(text, limit);
      FirstOfPieces(text, n);
      assert text[..n] + text[n..n + 1] == text[..n + 1];
    } else {
      assert ps[k] == later[k - 1];
      LinesAreFull(text[n..], MAX_LINE - 2, false, k - 1);
    }
  }

  lemma FirstOfPieces(text: string, n: nat)
    requires n <= |text| && Pieces(text[n..], MAX_LINE - 2) != []
    ensures n < |text| && Pieces(text[n..], MAX_LINE - 2)[0] != []
    ensures Pieces(text[n..], MAX_LINE - 2)[0][..1] == text[n..n + 1]
  {
    hide Fit;
    var rest := text[n..];
    FitIsPrefix(rest);
    assert rest[..Fit(rest, MAX_LINE - 2)][..1] == text[n..n + 1];
  }

  lemma FitIsPrefix(text: string)
    requires text != []
    ensures Fit(text, MAX_LINE - 2) > 0
  {
  }

  lemma {:induction false} NextDoesNotFit(text: string, limit: nat)
    requires Fit(text, limit) < |text|
    ensures |Encode(text[..Fit(text, limit) + 1])| > limit
    decreases |text|
  {
    hide EncodeChar;
    var n := Fit(text, limit);
    var some := text[..n + 1];
    assert some[0] == text[0] && some[1..] == text[1..][..n];
    if n > 0 {
      NextDoesNotFit(text[1..], limit - |EncodeChar(text[0])|);
    }
  }
}
