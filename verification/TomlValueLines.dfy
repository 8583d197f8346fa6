/**
 A value's own lines. What follows a value stands right after its last line; how its lines begin and end.
 */
module TomlValueLines {
  import opened Text
  import opened TomlValues

  /** The last line goes on with the first of the others. */
  function Attach(lines: seq<string>, below: seq<string>): (all: seq<string>)
    requires lines != [] && below != []
    ensures |all| == |lines| + |below| - 1
    ensures forall k :: 0 <= k < |lines| - 1 ==> all[k] == lines[k]
    ensures all[|lines| - 1] == lines[|lines| - 1] + below[0]
    ensures forall k :: 0 < k < |below| ==> all[|lines| - 1 + k] == below[k]
  {
    lines[..|lines| - 1] + [lines[|lines| - 1] + below[0]] + below[1..]
  }

  lemma AttachNothing(below: seq<string>)
    requires below != []
    ensures Attach([[]], below) == below
  {
    assert [] + below[0] == below[0];
  }

  lemma PutAttach(s: string, lines: seq<string>, below: seq<string>)
    requires lines != [] && below != []
    ensures Put(s, Attach(lines, below)) == Attach(Put(s, lines), below)
  {
    var a, b := Put(s, Attach(lines, below)), Attach(Put(s, lines), below);
    assert s + (lines[0] + below[0]) == (s + lines[0]) + below[0];
    assert Put(s, lines)[1..] == lines[1..];
    forall k | 0 <= k < |a|
      ensures a[k] == b[k]
    {
      assert k > 0 ==> a[k] == Attach(lines, below)[k];
      assert 0 < k < |lines| ==> Put(s, lines)[k] == lines[k];
    }
  }

  lemma LineAttach(line: string, lines: seq<string>, below: seq<string>)
    requires lines != [] && below != []
    ensures [line] + Attach(lines, below) == Attach([line] + lines, below)
  {
    var a, b := [line] + Attach(lines, below), Attach([line] + lines, below);
    forall k | 0 <= k < |a|
      ensures a[k] == b[k]
    {
      assert k > 0 ==> a[k] == Attach(lines, below)[k - 1];
      assert 0 < k < |lines| ==> ([line] + lines)[k] == lines[k - 1];
    }
  }

  lemma {:induction false} ChunksAttach(ks: seq<Chunk>, quote: char, lines: seq<string>, below: seq<string>)
    requires lines != [] && below != []
    ensures PutChunks(ks, quote, Attach(lines, below)) == Attach(PutChunks(ks, quote, lines), below)
  {
    hide Put, Attach;
    if ks != [] {
      var inner := PutChunks(ks[1..], quote, lines);
      ChunksAttach(ks[1..], quote, lines, below);
      match ks[0].unit {
        case LongPlain(c) => PutAttach([c], inner, below);
        case LongEscape(c) => PutAttach(['\\', c], inner, below);
        case NewLine => LineAttach([], inner, below);
        case EscapedNewLine => LineAttach(['\\'], inner, below);
      }
      PutAttach(Quotes(quote, ks[0].quotes), PutUnit(ks[0].unit, inner), below);
    }
  }

  lemma LongAttach(quote: char, ks: seq<Chunk>, quotes: nat, lines: seq<string>, below: seq<string>)
    requires lines != [] && below != []
    ensures PutLong(quote, ks, quotes, Attach(lines, below)) == Attach(PutLong(quote, ks, quotes, lines), below)
  {
    hide Put, Attach, PutChunks;
    var end := Quotes(quote, quotes + 3);
    PutAttach(end, lines, below);
    ChunksAttach(ks, quote, Put(end, lines), below);
    PutAttach([quote, quote, quote], PutChunks(ks, quote, Put(end, lines)), below);
  }

  lemma {:induction false} ValueAttach(v: Value, lines: seq<string>, below: seq<string>)
    requires lines != [] && below != []
    ensures PutValue(v, Attach(lines, below)) == Attach(PutValue(v, lines), below)
    decreases v
  {
    hide Put, Attach, PutLong, PutParts;
    match v
    case Bare(text) => PutAttach(text, lines, below);
    case Basic(units) => PutAttach("\"" + UnitsText(units) + "\"", lines, below);
    case Literal(text) => PutAttach("\'" + text + "\'", lines, below);
    case LongBasic(chunks, quotes) => LongAttach('\"', chunks, quotes, lines, below);
    case LongLiteral(chunks, quotes) => LongAttach('\'', chunks, quotes, lines, below);
    case Array(parts) =>
      PutAttach("]", lines, below);
      PartsAttach(parts, Put("]", lines), below);
      PutAttach("[", PutParts(parts, Put("]", lines)), below);
    case Table(parts) =>
      PutAttach("}", lines, below);
      PartsAttach(parts, Put("}", lines), below);
      PutAttach("{", PutParts(parts, Put("}", lines)), below);
  }

  lemma {:induction false} PartAttach(p: Part, lines: seq<string>, below: seq<string>)
    requires lines != [] && below != []
    ensures PutPart(p, Attach(lines, below)) == Attach(PutPart(p, lines), below)
    decreases p
  {
    hide Put, Attach, PutValue;
    match p
    case Mark(c) => PutAttach([c], lines, below);
    case Break => LineAttach([], lines, below);
    case Note(text) => LineAttach("#" + text, lines, below);
    case Item(v) => ValueAttach(v, lines, below);
  }

  lemma {:induction false} PartsAttach(parts: seq<Part>, lines: seq<string>, below: seq<string>)
    requires lines != [] && below != []
    ensures PutParts(parts, Attach(lines, below)) == Attach(PutParts(parts, lines), below)
    decreases parts
  {
    hide Put, Attach, PutPart;
    if parts != [] {
      PartsAttach(parts[1..], lines, below);
      PartAttach(parts[0], PutParts(parts[1..], lines), below);
    }
  }

  /** A value's lines are the same whatever follows it. */
  lemma ValueBelow(v: Value, below: seq<string>)
    requires below != []
    ensures PutValue(v, below) == Attach(Lines(v), below)
  {
    hide PutValue, Attach;
    AttachNothing(below);
    ValueAttach(v, [[]], below);
  }

  // ---- how the lines begin and end ------------------------------------------------------------------

  predicate EndsSolid(lines: seq<string>) {
    lines != [] && lines[|lines| - 1] != [] && !IsWhitespace(lines[|lines| - 1][|lines[|lines| - 1]| - 1])
  }

  lemma AttachEnds(lines: seq<string>, s: string)
    requires lines != [] && s != [] && !IsWhitespace(s[|s| - 1])
    ensures EndsSolid(Attach(lines, [s]))
  {
    var last := lines[|lines| - 1] + s;
    assert last[|last| - 1] == s[|s| - 1];
  }

  lemma PutEnds(s: string, lines: seq<string>)
    requires EndsSolid(lines)
    ensures EndsSolid(Put(s, lines))
  {
    var last := lines[|lines| - 1];
    if |lines| == 1 {
      assert (s + last)[|s| + |last| - 1] == last[|last| - 1];
    }
  }

  lemma OneLineEnds(s: string)
    requires s != [] && !IsWhitespace(s[|s| - 1])
    ensures EndsSolid(Put(s, [[]]))
  {
    assert s + [] == s;
  }

  lemma PartsEnd(parts: seq<Part>, open: string, close: string)
    requires close != [] && !IsWhitespace(close[|close| - 1])
    ensures EndsSolid(Put(open, PutParts(parts, Put(close, [[]]))))
  {
    hide PutParts, EndsSolid, Attach;
    assert close + [] == close;
    assert Put(close, [[]]) == [close];
    AttachNothing([close]);
    PartsAttach(parts, [[]], [close]);
    AttachEnds(PutParts(parts, [[]]), close);
    PutEnds(open, PutParts(parts, [close]));
  }

  lemma LongEnds(quote: char, ks: seq<Chunk>, quotes: nat)
    requires quote == '\"' || quote == '\''
    ensures EndsSolid(PutLong(quote, ks, quotes, [[]]))
  {
    hide PutChunks, EndsSolid, Attach;
    var end := Quotes(quote, quotes + 3);
    assert end + [] == end;
    assert Put(end, [[]]) == [end];
    AttachNothing([end]);
    ChunksAttach(ks, quote, [[]], [end]);
    AttachEnds(PutChunks(ks, quote, [[]]), end);
    PutEnds([quote, quote, quote], PutChunks(ks, quote, [end]));
  }

  lemma ValueEnds(v: Value)
    requires OkValue(v)
    ensures EndsSolid(Lines(v))
  {
    hide PutParts, PutLong, UnitsText, OkParts, EndsSolid;
    match v
    case Bare(text) => OneLineEnds(text);
    case Basic(units) => OneLineEnds("\"" + UnitsText(units) + "\"");
    case Literal(text) => OneLineEnds("\'" + text + "\'");
    case LongBasic(chunks, quotes) => LongEnds('\"', chunks, quotes);
    case LongLiteral(chunks, quotes) => LongEnds('\'', chunks, quotes);
    case Array(parts) => PartsEnd(parts, "[", "]");
    case Table(parts) => PartsEnd(parts, "{", "}");
  }

  lemma ValueStarts(v: Value, below: seq<string>)
    requires OkValue(v) && below != []
    ensures PutValue(v, below)[0] != [] && !IsWhitespace(PutValue(v, below)[0][0])
  {
    hide PutParts, PutChunks, UnitsText, OkParts;
  }
}
