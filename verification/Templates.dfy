/** What text expands to. */
module Templates {
  // Resource text is pieces, each standing for text of its own, never read again.

  import ByteStrings
  import opened Expanding
  import opened Text
  import opened Wrappers

  datatype Piece =
    | Plain(c: char)
    | Dollar
    | Hole(inner: string)

  function Written(p: Piece): (s: string)
    ensures s != []
  {
    match p
    case Plain(c) => [c]
    case Dollar => ESCAPED
    case Hole(inner) => OPENING + (inner + "}")
  }

  /** The pieces as text, before `tail`. */
  function Source(ps: seq<Piece>, tail: string): string {
    if ps == [] then tail else Written(ps[0]) + Source(ps[1..], tail)
  }

  predicate StartsWith(s: string, c: char) {
    s != [] && s[0] == c
  }

  /** A piece that reads as itself before `next`. */
  predicate Stands(p: Piece, next: string) {
    match p
    case Plain(c) => !(c == '\\' && StartsWith(next, '$')) && !(c == '$' && StartsWith(next, '{'))
    case Dollar => true
    case Hole(inner) => '}' !in inner && '\n' !in inner
  }

  predicate Canonical(ps: seq<Piece>, tail: string) {
    ps == [] || (Stands(ps[0], Source(ps[1..], tail)) && Canonical(ps[1..], tail))
  }

  /** Nothing, or a placeholder that does not close on its line. */
  predicate Stuck(tail: string) {
    tail == [] || (At(tail, 0, OPENING) && Closing(tail, 2).None?)
  }

  /** What the pieces stand for, the first of them on line `line`. */
  function Meaning(properties: seq<Property>, ps: seq<Piece>, tail: string, line: nat): Expanded {
    if ps == [] then if tail == [] then Ok([]) else Err(Unclosed(line))
    else
      match ps[0]
      case Plain(c) => Before([c], Meaning(properties, ps[1..], tail, if c == '\n' then line + 1 else line))
      case Dollar => Before("$", Meaning(properties, ps[1..], tail, line))
      case Hole(inner) =>
        match Lookup(properties, Trim(inner))
        case None => Err(Unknown(line, Trim(inner)))
        case Some(value) => Before(value, Meaning(properties, ps[1..], tail, line))
  }

  // ---- reading text as pieces -------------------------------------------------------------------

  lemma FindIn(s: string, c: char, i: nat, k: nat)
    requires i + k <= |s|
    ensures Find(s, c, i + k) == i + Find(s[i..], c, k)
  {
    var j := Find(s[i..], c, k);
    assert forall m :: i + k <= m < i + j ==> s[m] == s[i..][m - i];
    FindIs(s, c, i + k, i + j);
  }

  lemma ClosingIn(s: string, i: nat)
    requires i + 2 <= |s|
    ensures Closing(s, i + 2) == match Closing(s[i..], 2) { case None => None case Some(end) => Some(i + end) }
  {
    FindIn(s, '}', i, 2);
    var end := Find(s[i..], '}', 2);
    assert s[i..][2..end] == s[i + 2..i + end];
  }

  /** What expansion does with a text depends only on what is left of it. */
  lemma AtStart(s: string, i: nat, p: string)
    requires i <= |s|
    ensures At(s, i, p) <==> At(s[i..], 0, p)
  {
    if i + |p| <= |s| {
      assert s[i..][0..|p|] == s[i..i + |p|];
    }
  }

  lemma PieceFirst(s: string, ps: seq<Piece>, tail: string, i: nat)
    requires ps != [] && i <= |s| && s[i..] == Source(ps, tail)
    ensures i + |Written(ps[0])| <= |s| && s[i..i + |Written(ps[0])|] == Written(ps[0])
    ensures s[i + |Written(ps[0])|..] == Source(ps[1..], tail)
  {
    hide Written;
    SplitHere(s, i, Written(ps[0]), Source(ps[1..], tail));
  }

  lemma SplitHere(s: string, i: nat, first: string, rest: string)
    requires i <= |s| && s[i..] == first + rest
    ensures i + |first| <= |s| && s[i..i + |first|] == first && s[i + |first|..] == rest
  {
    assert s[i..i + |first|] == s[i..][..|first|] && s[i + |first|..] == s[i..][|first|..];
  }

  /** A hole closes where it says. */
  lemma HoleCloses(s: string, i: nat, inner: string)
    requires '}' !in inner && '\n' !in inner
    requires i + |inner| + 3 <= |s| && s[i..i + |inner| + 3] == OPENING + (inner + "}")
    ensures At(s, i, OPENING) && Closing(s, i + 2) == Some(i + 2 + |inner|) && s[i + 2..i + 2 + |inner|] == inner
  {
    var w := OPENING + (inner + "}");
    ByteStrings.SliceOfSlice(s, i, i + |w|, 0, 2);
    ByteStrings.SliceOfSlice(s, i, i + |w|, 2, 2 + |inner|);
    assert w[0..2] == OPENING && w[2..2 + |inner|] == inner;
    assert s[i + 2 + |inner|] == s[i..i + |w|][2 + |inner|] == '}';
    assert forall k :: i + 2 <= k < i + 2 + |inner| ==> s[k] in inner;
    FindIs(s, '}', i + 2, i + 2 + |inner|);
  }

  lemma PlainStands(s: string, i: nat, c: char)
    requires i < |s| && s[i] == c && Stands(Plain(c), s[i + 1..])
    ensures !At(s, i, ESCAPED) && !At(s, i, OPENING)
  {
    assert i + 2 <= |s| ==> s[i..i + 2] == [s[i], s[i + 1]] && s[i + 1..][0] == s[i + 1];
  }

  lemma ExpandPlain(properties: seq<Property>, s: string, i: nat, line: nat)
    requires i < |s| && !At(s, i, ESCAPED) && !At(s, i, OPENING)
    ensures ExpandFrom(properties, s, i, line)
            == Before([s[i]], ExpandFrom(properties, s, i + 1, if s[i] == '\n' then line + 1 else line))
  {
    hide At;
  }

  lemma ExpandDollar(properties: seq<Property>, s: string, i: nat, line: nat)
    requires i + 2 <= |s| && s[i] == '\\' && At(s, i, ESCAPED)
    ensures ExpandFrom(properties, s, i, line) == Before("$", ExpandFrom(properties, s, i + 2, line))
  {
    hide At;
  }

  lemma ExpandHole(properties: seq<Property>, s: string, i: nat, end: nat, line: nat)
    requires i + 2 <= |s| && s[i] == '$' && At(s, i, OPENING) && !At(s, i, ESCAPED)
    requires i + 2 <= end < |s| && Closing(s, i + 2) == Some(end)
    ensures ExpandFrom(properties, s, i, line)
            == match Lookup(properties, Trim(s[i + 2..end]))
               case None => Err(Unknown(line, Trim(s[i + 2..end])))
               case Some(value) => Before(value, ExpandFrom(properties, s, end + 1, line))
  {
    hide At, Closing, Lookup, Trim;
  }

  lemma {:induction false} MeaningFrom(
    properties: seq<Property>, s: string, i: nat, ps: seq<Piece>, tail: string, line: nat)
    requires Canonical(ps, tail) && Stuck(tail) && i <= |s| && s[i..] == Source(ps, tail)
    ensures ExpandFrom(properties, s, i, line) == Meaning(properties, ps, tail, line)
    decreases |ps|
  {
    hide ExpandFrom, Lookup, Closing, Trim, At, Source;
    if ps == [] {
      assert Source(ps, tail) == tail by { SourceOfNone(tail); }
      StuckFrom(properties, s, i, line);
    } else {
      PieceFirst(s, ps, tail, i);
      var next := i + |Written(ps[0])|;
      match ps[0]
      case Plain(c) =>
        assert s[i] == s[i..i + 1][0];
        PlainStands(s, i, c);
        ExpandPlain(properties, s, i, line);
        MeaningFrom(properties, s, next, ps[1..], tail, if c == '\n' then line + 1 else line);
      case Dollar =>
        EscapedHere(s, i);
        ExpandDollar(properties, s, i, line);
        MeaningFrom(properties, s, next, ps[1..], tail, line);
      case Hole(inner) =>
        HoleCloses(s, i, inner);
        OpensHere(s, i);
        ExpandHole(properties, s, i, i + 2 + |inner|, line);
        MeaningFrom(properties, s, next, ps[1..], tail, line);
    }
  }

  lemma SourceOfNone(tail: string)
    ensures Source([], tail) == tail
  {
  }

  lemma EscapedHere(s: string, i: nat)
    requires i + 2 <= |s| && s[i..i + 2] == ESCAPED
    ensures At(s, i, ESCAPED) && s[i] == '\\'
  {
    assert s[i] == s[i..i + 2][0];
  }

  lemma OpensHere(s: string, i: nat)
    requires At(s, i, OPENING)
    ensures s[i] == '$' && !At(s, i, ESCAPED)
  {
    assert s[i] == s[i..i + 2][0];
  }

  lemma StuckFrom(properties: seq<Property>, s: string, i: nat, line: nat)
    requires i <= |s| && Stuck(s[i..])
    ensures ExpandFrom(properties, s, i, line) == if i == |s| then Ok([]) else Err(Unclosed(line))
  {
    if i < |s| {
      AtStart(s, i, OPENING);
      OpensHere(s, i);
      ClosingIn(s, i);
    }
  }

  /** Every text is pieces that read as themselves, and then nothing or an unclosed placeholder. */
  lemma {:induction false} EveryTextIsPieces(s: string) returns (ps: seq<Piece>, tail: string)
    ensures s == Source(ps, tail) && Canonical(ps, tail) && Stuck(tail)
    decreases |s|
  {
    hide Closing, At;
    if Stuck(s) {
      ps, tail := [], s;
    } else {
      var p, next := FirstPiece(s);
      var more;
      more, tail := EveryTextIsPieces(next);
      ps := [p] + more;
      assert ps[1..] == more;
    }
  }

  lemma FirstPiece(s: string) returns (p: Piece, next: string)
    requires !Stuck(s)
    ensures s == Written(p) + next && Stands(p, next)
  {
    if At(s, 0, ESCAPED) {
      p, next := Dollar, s[2..];
      assert s == s[..2] + s[2..] && s[..2] == s[0..2];
    } else if At(s, 0, OPENING) {
      var end := Closing(s, 2).value;
      p, next := Hole(s[2..end]), s[end + 1..];
      assert s[0..2] == OPENING;
      assert forall k :: 2 <= k < end ==> s[k] != '}';
      assert s == s[0..2] + (s[2..end] + [s[end]]) + s[end + 1..];
    } else {
      p, next := Plain(s[0]), s[1..];
      if next != [] {
        assert s[0..2] == [s[0], next[0]];
      }
    }
  }

  /** Expansion is what a text's pieces mean: each placeholder its property's value as it is, each
      `\$` a dollar, everything else itself; the first unknown name or the unclosed placeholder, with
      its line, otherwise. */
  lemma ExpansionIsMeaning(properties: seq<Property>, ps: seq<Piece>, tail: string)
    requires Canonical(ps, tail) && Stuck(tail)
    ensures Expansion(properties, Source(ps, tail)) == Meaning(properties, ps, tail, 1)
  {
    hide ExpandFrom, Meaning, Canonical, Stuck, Source;
    var s := Source(ps, tail);
    assert s[0..] == s;
    MeaningFrom(properties, s, 0, ps, tail, 1);
  }

  /** A name stands for the value of the first property that has it, and for nothing when none has. */
  lemma {:induction false} LookupIsFirst(properties: seq<Property>, name: string)
    ensures Lookup(properties, name) == None <==> forall p <- properties :: p.name != name
    ensures forall k :: 0 <= k < |properties| && properties[k].name == name
                        && (forall i :: 0 <= i < k ==> properties[i].name != name) ==>
                          Lookup(properties, name) == Some(properties[k].value)
  {
    if properties != [] {
      var rest := properties[1..];
      LookupIsFirst(rest, name);
      assert properties == [properties[0]] + rest;
      forall k | 0 <= k < |properties| && properties[k].name == name && forall i :: 0 <= i < k ==> properties[i].name != name
        ensures Lookup(properties, name) == Some(properties[k].value)
      {
        if k > 0 {
          assert rest[k - 1] == properties[k] && forall i :: 0 <= i < k - 1 ==> rest[i] == properties[i + 1];
        }
      }
    }
  }

  // ---- escaping ---------------------------------------------------------------------------------

  function EscapeDollars(text: string): string {
    if text == [] then []
    else (if text[0] == '$' then ESCAPED else [text[0]]) + EscapeDollars(text[1..])
  }

  function EscapedPieces(text: string): seq<Piece> {
    if text == [] then []
    else [if text[0] == '$' then Dollar else Plain(text[0])] + EscapedPieces(text[1..])
  }

  lemma {:induction false} EscapedSource(text: string)
    ensures EscapeDollars(text) == Source(EscapedPieces(text), []) && Canonical(EscapedPieces(text), [])
    ensures !StartsWith(EscapeDollars(text), '$')
  {
    if text != [] {
      EscapedSource(text[1..]);
      assert EscapedPieces(text)[1..] == EscapedPieces(text[1..]);
    }
  }

  lemma {:induction false} EscapedMeaning(properties: seq<Property>, text: string, line: nat)
    ensures Meaning(properties, EscapedPieces(text), [], line) == Ok(text)
  {
    if text != [] {
      EscapedMeaning(properties, text[1..], if text[0] == '\n' then line + 1 else line);
      assert EscapedPieces(text)[1..] == EscapedPieces(text[1..]);
      assert [text[0]] + text[1..] == text;
    }
  }

  /** Any text, its dollars escaped, expands to itself. */
  lemma EscapedExpandsBack(properties: seq<Property>, text: string)
    ensures Expansion(properties, EscapeDollars(text)) == Ok(text)
  {
    hide Expansion, Meaning, Canonical;
    EscapedSource(text);
    ExpansionIsMeaning(properties, EscapedPieces(text), []);
    EscapedMeaning(properties, text, 1);
  }

  // ---- the line of an error ---------------------------------------------------------------------

  function Newlines(s: string): nat {
    if s == [] then 0 else (if s[|s| - 1] == '\n' then 1 else 0) + Newlines(s[..|s| - 1])
  }

  lemma {:induction false} NewlinesConcat(a: string, b: string)
    ensures Newlines(a + b) == Newlines(a) + Newlines(b)
    decreases |b|
  {
    if b == [] {
      assert a + b == a;
    } else {
      var m := |b| - 1;
      assert (a + b)[..|a| + m] == a + b[..m];
      NewlinesConcat(a, b[..m]);
    }
  }

  lemma {:induction false} NoNewlines(s: string)
    requires '\n' !in s
    ensures Newlines(s) == 0
  {
    if s != [] {
      assert s[|s| - 1] in s && forall c <- s[..|s| - 1] :: c in s;
      NoNewlines(s[..|s| - 1]);
    }
  }

  function Line(f: Failure): nat {
    match f
    case Unclosed(line) => line
    case Unknown(line, _) => line
  }

  /** The pieces before the first that fails, and the failure. */
  lemma {:induction false} FailingPiece(
    properties: seq<Property>, ps: seq<Piece>, tail: string, line: nat) returns (j: nat)
    requires Canonical(ps, tail) && Meaning(properties, ps, tail, line).Err?
    ensures j <= |ps| && (j < |ps| ==> ps[j].Hole?) && (j == |ps| ==> tail != [])
    ensures Source(ps, tail) == Source(ps[..j], []) + Source(ps[j..], tail)
    ensures Meaning(properties, ps[..j], [], line).Ok?
    ensures Line(Meaning(properties, ps, tail, line).error) == line + Newlines(Source(ps[..j], []))
    decreases |ps|
  {
    hide Lookup, Trim, Stands, Written, Newlines, Source, Meaning;
    if ps == [] {
      j := 0;
      FailsAtOnce(properties, ps, tail, line);
    } else if ps[0].Hole? && Lookup(properties, Trim(ps[0].inner)).None? {
      j := 0;
      FailsAtOnce(properties, ps, tail, line);
      assert ps[0..] == ps;
    } else {
      var next := if ps[0] == Plain('\n') then line + 1 else line;
      MeaningUnfolds(properties, ps, tail, line);
      var k := FailingPiece(properties, ps[1..], tail, next);
      j := k + 1;
      var done := ps[..j];
      assert done[0] == ps[0] && done[1..] == ps[1..][..k] && ps[j..] == ps[1..][k..];
      MeaningUnfolds(properties, done, [], line);
      SourceUnfolds(ps, tail);
      SourceUnfolds(done, []);
      assert Written(ps[0]) + (Source(done[1..], []) + Source(ps[j..], tail)) == (Written(ps[0]) + Source(done[1..], [])) + Source(ps[j..], tail);
      NewlinesConcat(Written(ps[0]), Source(done[1..], []));
      WrittenNewlines(ps[0], Source(ps[1..], tail));
    }
  }

  lemma FailsAtOnce(properties: seq<Property>, ps: seq<Piece>, tail: string, line: nat)
    requires ps == [] || (ps[0].Hole? && Lookup(properties, Trim(ps[0].inner)).None?)
    requires Meaning(properties, ps, tail, line).Err?
    ensures ps == [] ==> tail != []
    ensures Line(Meaning(properties, ps, tail, line).error) == line
    ensures Source(ps[..0], []) == [] && Newlines([]) == 0 && Meaning(properties, ps[..0], [], line) == Ok([])
  {
    hide Lookup, Trim;
    assert ps[..0] == [];
  }

  lemma SourceUnfolds(ps: seq<Piece>, tail: string)
    requires ps != []
    ensures Source(ps, tail) == Written(ps[0]) + Source(ps[1..], tail)
  {
  }

  lemma MeaningUnfolds(properties: seq<Property>, ps: seq<Piece>, tail: string, line: nat)
    requires ps != [] && !(ps[0].Hole? && Lookup(properties, Trim(ps[0].inner)).None?)
    ensures var rest := Meaning(properties, ps[1..], tail, if ps[0] == Plain('\n') then line + 1 else line);
            var all := Meaning(properties, ps, tail, line);
            all.Ok? == rest.Ok? && (rest.Err? ==> all.error == rest.error)
  {
    hide Lookup, Trim;
  }

  lemma WrittenNewlines(p: Piece, next: string)
    requires Stands(p, next)
    ensures Newlines(Written(p)) == if p == Plain('\n') then 1 else 0
  {
    match p
    case Plain(c) => assert [c][..0] == [];
    case Dollar => NoNewlines(ESCAPED);
    case Hole(inner) => NoNewlines(OPENING + (inner + "}"));
  }

  lemma {:induction false} CanonicalPrefix(ps: seq<Piece>, tail: string, j: nat)
    requires Canonical(ps, tail) && j <= |ps|
    ensures Canonical(ps[..j], []) && Source(ps[..j], []) <= Source(ps, tail)
    decreases j
  {
    if j > 0 {
      CanonicalPrefix(ps[1..], tail, j - 1);
      assert ps[..j][1..] == ps[1..][..j - 1];
    } else {
      assert ps[..0] == [];
    }
  }

  lemma FailureOpens(ps: seq<Piece>, tail: string, j: nat)
    requires j <= |ps| && (j < |ps| ==> ps[j].Hole?) && (j == |ps| ==> tail != []) && Stuck(tail)
    ensures At(Source(ps[j..], tail), 0, OPENING)
  {
    hide At, Closing;
    if j < |ps| {
      var rest := Source(ps[j..][1..], tail);
      assert ps[j..][0] == ps[j];
      assert OPENING + ((ps[j].inner + "}") + rest) == Written(ps[j]) + rest;
      OpensText((ps[j].inner + "}") + rest);
    } else {
      assert ps[j..] == [];
      StuckOpens(tail);
    }
  }

  lemma OpensText(rest: string)
    ensures At(OPENING + rest, 0, OPENING)
  {
    assert (OPENING + rest)[0..2] == OPENING;
  }

  lemma StuckOpens(tail: string)
    requires Stuck(tail) && tail != []
    ensures At(tail, 0, OPENING)
  {
  }

  /** An error's line is one plus the line breaks before the `${` it is about: the first that does not
      expand, since all before it does. */
  lemma ErrorIsOnItsLine(properties: seq<Property>, text: string) returns (k: nat)
    requires Expansion(properties, text).Err?
    ensures At(text, k, OPENING)
    ensures Expansion(properties, text[..k]).Ok?
    ensures Line(Expansion(properties, text).error) == 1 + Newlines(text[..k])
  {
    hide Expansion, Meaning, Canonical, Source, Newlines, Closing;
    var ps, tail := EveryTextIsPieces(text);
    ExpansionIsMeaning(properties, ps, tail);
    var j := FailingPiece(properties, ps, tail, 1);
    CanonicalPrefix(ps, tail, j);
    var before, from := Source(ps[..j], []), Source(ps[j..], tail);
    k := |before|;
    assert text[..k] == before && text[k..] == from;
    ExpansionIsMeaning(properties, ps[..j], []);
    FailureOpens(ps, tail, j);
    AtStart(text, k, OPENING);
  }
}
