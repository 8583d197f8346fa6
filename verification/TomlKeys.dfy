/**
 TOML keys. Reading a dotted key path off a line, and writing one key back.
 */
module TomlKeys {
  import opened Wrappers
  import opened Numerals
  import opened Text

  // ---- one quoted string ------------------------------------------------------------------------

  function Unescape(c: char): Option<char> {
    match c
    case '\"' => Some('\"')
    case '\\' => Some('\\')
    case 'n' => Some('\n')
    case 't' => Some('\t')
    case 'r' => Some('\r')
    case 'b' => Some('\U{8}')
    case 'f' => Some('\U{C}')
    case 'e' => Some('\U{1B}')
    case _ => None
  }

  function UnicodeEscape(s: string, i: nat, digits: nat): Option<char> {
    if i + digits > |s| then None
    else
      match ParseHex(s[i..i + digits])
      case Some(n) => if IsScalar(n) then Some(n as char) else None
      case None => None
  }

  /** One character of a basic string at `i`, escapes decoded: the character and what follows it. */
  function BasicChar(s: string, i: nat): (r: Option<(char, nat)>)
    requires i < |s|
    ensures r.Some? ==> i < r.value.1 <= |s|
  {
    if s[i] != '\\' then Some((s[i], i + 1))
    else if i + 1 == |s| then None
    else if s[i + 1] == 'u' || s[i + 1] == 'U' then
      var digits := if s[i + 1] == 'u' then 4 else 8;
      match UnicodeEscape(s, i + 2, digits)
      case Some(c) => Some((c, i + 2 + digits))
      case None => None
    else
      match Unescape(s[i + 1])
      case Some(c) => Some((c, i + 2))
      case None => None
  }

  /** A basic string read on from `i`, inside it: what it says from there, and where the line goes on. */
  function BasicRest(s: string, i: nat): (r: Option<(string, nat)>)
    requires i <= |s|
    ensures r.Some? ==> i < r.value.1 <= |s|
    decreases |s| - i
  {
    if i == |s| then None
    else if s[i] == '\"' then Some(([], i + 1))
    else
      match BasicChar(s, i)
      case None => None
      case Some((c, next)) =>
        Onto([c], BasicRest(s, next))
  }

  /** What a string reads as when `out` was read before the rest. */
  function Onto(out: string, rest: Option<(string, nat)>): Option<(string, nat)> {
    match rest
    case None => None
    case Some((text, end)) => Some((out + text, end))
  }

  lemma OntoNext(out: string, c: char, rest: Option<(string, nat)>)
    ensures Onto([], rest) == rest
    ensures Onto(out, Onto([c], rest)) == Onto(out + [c], rest)
  {
    match rest
    case None =>
    case Some((text, _)) =>
      assert [] + text == text;
      assert out + ([c] + text) == (out + [c]) + text;
  }

  /** The same, character by character, for the string whose quote is at `at`. */
  method ParseBasic(s: string, at: nat) returns (r: Option<(string, nat)>)
    requires at < |s|
    ensures r == BasicRest(s, at + 1)
  {
    hide BasicChar;
    var out: string := [];
    var i := at + 1;
    OntoNext([], 'x', BasicRest(s, i));
    while i < |s|
      invariant at + 1 <= i <= |s|
      invariant BasicRest(s, at + 1) == Onto(out, BasicRest(s, i))
    {
      if s[i] == '\"' {
        assert out + [] == out;
        return Some((out, i + 1));
      }
      var c := BasicChar(s, i);
      if c.None? {
        return None;
      }
      OntoNext(out, c.value.0, BasicRest(s, c.value.1));
      out := out + [c.value.0];
      i := c.value.1;
    }
    return None;
  }

  // ---- a key path -------------------------------------------------------------------------------

  predicate IsBareKeyChar(c: char) {
    'a' <= c <= 'z' || 'A' <= c <= 'Z' || '0' <= c <= '9' || c == '_' || c == '-'
  }

  function BareEnd(s: string, i: nat): (j: nat)
    requires i <= |s|
    ensures i <= j <= |s|
    ensures forall k :: i <= k < j ==> IsBareKeyChar(s[k])
    ensures j < |s| ==> !IsBareKeyChar(s[j])
    decreases |s| - i
  {
    if i < |s| && IsBareKeyChar(s[i]) then BareEnd(s, i + 1) else i
  }

  predicate IsQuote(c: char) {
    c == '\"' || c == '\''
  }

  /** The segment at `i` - basic, literal or bare - with what it means and where it ends. */
  function Segment(s: string, i: nat): (r: Option<(string, nat)>)
    requires i < |s|
    ensures r.Some? ==> i < r.value.1 <= |s|
  {
    if s[i] == '\"' then BasicRest(s, i + 1)
    else if s[i] == '\'' then
      var close := Find(s, '\'', i + 1);
      if close == |s| then None else Some((s[i + 1..close], close + 1))
    else
      var end := BareEnd(s, i);
      if end == i then None else Some((s[i..end], end))
  }

  datatype Path = Path(segments: seq<string>, quote: Option<char>, end: nat)

  /** A key path read at `at`: every segment as it is meant, how the first was quoted, and where the path ends,
      blanks after it not counted. */
  function KeyPath(s: string, at: nat): (r: Option<Path>)
    requires at <= |s|
    ensures r.Some? ==> r.value.segments != [] && at < r.value.end <= |s|
    decreases |s| - at
  {
    var i := SkipBlanks(s, at);
    if i == |s| then None
    else
      match Segment(s, i)
      case None => None
      case Some((segment, next)) =>
        var j := SkipBlanks(s, next);
        var quote := if IsQuote(s[i]) then Some(s[i]) else None;
        if j < |s| && s[j] == '.' then
          PathOnto([segment], quote, KeyPath(s, j + 1))
        else Some(Path([segment], quote, next))
  }

  /** A path after the segments read before it, the first of them quoted by `quote`. */
  function PathOnto(read: seq<string>, quote: Option<char>, rest: Option<Path>): Option<Path> {
    match rest
    case None => None
    case Some(p) => Some(Path(read + p.segments, if read == [] then p.quote else quote, p.end))
  }

  lemma PathOntoNext(read: seq<string>, quote: Option<char>, segment: string, q: Option<char>, rest: Option<Path>)
    ensures PathOnto([], quote, rest) == rest
    ensures PathOnto(read, quote, PathOnto([segment], q, rest))
            == PathOnto(read + [segment], if read == [] then q else quote, rest)
  {
    match rest
    case None =>
    case Some(p) =>
      assert [] + p.segments == p.segments;
      assert read + ([segment] + p.segments) == (read + [segment]) + p.segments;
  }

  method ParseSegment(s: string, i: nat) returns (r: Option<(string, nat)>)
    requires i < |s|
    ensures r == Segment(s, i)
  {
    if s[i] == '\"' {
      r := ParseBasic(s, i);
    } else {
      r := Segment(s, i);
    }
  }

  /** One segment of a key, and what comes after it. */
  lemma KeyPathUnfolds(s: string, at: nat)
    requires at <= |s|
    ensures var i := SkipBlanks(s, at);
            KeyPath(s, at)
            == if i == |s| then None
               else match Segment(s, i)
                 case None => None
                 case Some((segment, next)) =>
                   var j := SkipBlanks(s, next);
                   var quote := if IsQuote(s[i]) then Some(s[i]) else None;
                   if j < |s| && s[j] == '.' then PathOnto([segment], quote, KeyPath(s, j + 1))
                   else Some(Path([segment], quote, next))
  {
    hide Segment, SkipBlanks, PathOnto;
  }

  method ParseKeyPath(s: string, at: nat) returns (r: Option<Path>)
    requires at <= |s|
    ensures r == KeyPath(s, at)
  {
    hide Segment, SkipBlanks, KeyPath;
    var path: seq<string> := [];
    var quote: Option<char> := None;
    var i := at;
    PathOntoNext([], None, "", None, KeyPath(s, at));
    while true
      invariant i <= |s|
      invariant path == [] ==> quote == None
      invariant KeyPath(s, at) == PathOnto(path, quote, KeyPath(s, i))
      decreases |s| - i
    {
      KeyPathUnfolds(s, i);
      var start := SkipBlanks(s, i);
      if start == |s| {
        return None;
      }
      var segment := ParseSegment(s, start);
      if segment.None? {
        return None;
      }
      var q := if IsQuote(s[start]) then Some(s[start]) else None;
      var j := SkipBlanks(s, segment.value.1);
      if j < |s| && s[j] == '.' {
        PathOntoNext(path, quote, segment.value.0, q, KeyPath(s, j + 1));
      }
      if path == [] {
        quote := q;
      }
      path := path + [segment.value.0];
      if j < |s| && s[j] == '.' {
        i := j + 1;
      } else {
        return Some(Path(path, quote, segment.value.1));
      }
    }
  }

  // ---- writing a key ----------------------------------------------------------------------------

  function RenderChar(c: char): string {
    if c == '\"' then "\\\""
    else if c == '\\' then "\\\\"
    else if IsControl(c) then
      var n := c as nat;
      "\\u00" + [HexUpper(n / 16), HexUpper(n % 16)]
    else [c]
  }

  function RenderChars(key: string): string {
    if key == [] then [] else RenderChar(key[0]) + RenderChars(key[1..])
  }

  predicate AllowsSingleQuotes(key: string) {
    forall c <- key :: c != '\'' && !IsControl(c)
  }

  function RenderKey(key: string, single: bool): string {
    if single && AllowsSingleQuotes(key) then "\'" + key + "\'"
    else "\"" + RenderChars(key) + "\""
  }

  lemma RenderCharsFrom(key: string, i: nat)
    requires i < |key|
    ensures RenderChars(key[i..]) == RenderChar(key[i]) + RenderChars(key[i + 1..])
  {
    assert key[i..][0] == key[i] && key[i..][1..] == key[i + 1..];
  }

  lemma RenderedAll(s: string, key: string)
    ensures key[|key|..] == [] && s + RenderChars([]) == s
  {
  }

  method WriteKey(key: string, single: bool) returns (s: string)
    ensures s == RenderKey(key, single)
  {
    hide RenderChar, RenderChars, AllowsSingleQuotes;
    if single && AllowsSingleQuotes(key) {
      return "\'" + key + "\'";
    }
    s := "\"";
    assert key[0..] == key;
    for i := 0 to |key|
      invariant s + RenderChars(key[i..]) == "\"" + RenderChars(key)
    {
      RenderCharsFrom(key, i);
      assert s + (RenderChar(key[i]) + RenderChars(key[i + 1..])) == (s + RenderChar(key[i])) + RenderChars(key[i + 1..]);
      s := s + RenderChar(key[i]);
    }
    RenderedAll(s, key);
    s := s + "\"";
  }

  // ---- reading and writing are inverse ----------------------------------------------------------

  /** `p` stands in `s` at `i`. */
  predicate StandsAt(s: string, i: nat, p: string) {
    i + |p| <= |s| && s[i..i + |p|] == p
  }

  lemma StandsSplit(s: string, i: nat, p: string, q: string)
    requires StandsAt(s, i, p + q)
    ensures StandsAt(s, i, p) && StandsAt(s, i + |p|, q)
  {
    assert s[i..i + |p|] == s[i..i + |p + q|][..|p|];
    assert s[i + |p|..i + |p| + |q|] == s[i..i + |p + q|][|p|..];
  }

  lemma StandsElements(s: string, i: nat, p: string)
    requires StandsAt(s, i, p)
    ensures forall k :: 0 <= k < |p| ==> s[i + k] == p[k]
  {
    forall k | 0 <= k < |p|
      ensures s[i + k] == p[k]
    {
      assert s[i..i + |p|][k] == s[i + k];
    }
  }

  lemma ControlBack(c: char)
    requires IsControl(c)
    ensures ParseHex(['0', '0', HexUpper(c as nat / 16), HexUpper(c as nat % 16)]) == Some(c as nat)
  {
    HexBack(c as nat / 16);
    HexBack(c as nat % 16);
    FourDigits(['0', '0', HexUpper(c as nat / 16), HexUpper(c as nat % 16)]);
  }

  lemma ControlCharBack(s: string, i: nat, c: char)
    requires IsControl(c) && c != '\"' && c != '\\' && StandsAt(s, i, RenderChar(c))
    ensures i + 6 <= |s| && s[i] == '\\' && s[i + 1] == 'u' && |RenderChar(c)| == 6
    ensures s[i + 2..i + 6] == ['0', '0', HexUpper(c as nat / 16), HexUpper(c as nat % 16)]
    ensures ParseHex(s[i + 2..i + 6]) == Some(c as nat)
  {
    hide HexUpper, ParseHex;
    var r := RenderChar(c);
    var digits := ['0', '0', HexUpper(c as nat / 16), HexUpper(c as nat % 16)];
    assert r == "\\u" + digits;
    StandsSplit(s, i, "\\u", digits);
    StandsElements(s, i, "\\u");
    assert s[i + 0] == '\\' && s[i + 1] == 'u';
    ControlBack(c);
  }

  /** A written character reads back. */
  lemma CharBack(s: string, i: nat, c: char)
    requires StandsAt(s, i, RenderChar(c))
    ensures i < |s| && s[i] != '\"' && BasicChar(s, i) == Some((c, i + |RenderChar(c)|))
  {
    StandsElements(s, i, RenderChar(c));
    if c == '\"' || c == '\\' {
      assert s[i + 0] == '\\' && s[i + 1] == c;
    } else if IsControl(c) {
      ControlCharBack(s, i, c);
    } else {
      assert s[i + 0] == c;
    }
  }

  lemma {:induction false} CharsBack(s: string, i: nat, key: string)
    requires StandsAt(s, i, RenderChars(key) + "\"")
    ensures BasicRest(s, i) == Some((key, i + |RenderChars(key)| + 1))
    decreases |key|
  {
    hide RenderChar, BasicChar;
    if key == [] {
      StandsElements(s, i, "\"");
      assert s[i + 0] == '\"';
    } else {
      var head, tail := RenderChar(key[0]), RenderChars(key[1..]) + "\"";
      assert RenderChars(key) + "\"" == head + tail;
      StandsSplit(s, i, head, tail);
      CharBack(s, i, key[0]);
      CharsBack(s, i + |head|, key[1..]);
      assert key == [key[0]] + key[1..];
    }
  }

  /** A written key reads back as the one segment it was, whatever it holds and however it is
      quoted, wherever it stands, when what follows is not a dot. */
  lemma KeyReadsBack(s: string, at: nat, key: string, single: bool)
    requires StandsAt(s, at, RenderKey(key, single))
    requires var j := SkipBlanks(s, at + |RenderKey(key, single)|); j < |s| ==> s[j] != '.'
    ensures KeyPath(s, at) == Some(Path([key], Some(s[at]), at + |RenderKey(key, single)|))
    ensures IsQuote(s[at])
  {
    hide Segment;
    var k := RenderKey(key, single);
    StandsElements(s, at, k);
    assert s[at + 0] == k[0] && IsQuote(s[at]);
    SkipBlanksIs(s, at, at);
    SegmentReadsBack(s, at, key, single);
  }

  lemma SegmentReadsBack(s: string, at: nat, key: string, single: bool)
    requires StandsAt(s, at, RenderKey(key, single))
    ensures Segment(s, at) == Some((key, at + |RenderKey(key, single)|))
  {
    hide BasicRest, RenderChars;
    var k := RenderKey(key, single);
    StandsElements(s, at, k);
    assert s[at + 0] == k[0];
    if single && AllowsSingleQuotes(key) {
      var close := at + 1 + |key|;
      assert k[1..1 + |key|] == key;
      assert s[at + 1..close] == key;
      assert s[at + (1 + |key|)] == k[1 + |key|] == '\'';
      forall n | at + 1 <= n < close
        ensures s[n] != '\''
      {
        assert s[at + 1..close][n - at - 1] == s[n];
        assert key[n - at - 1] in key;
      }
      FindIs(s, '\'', at + 1, close);
    } else {
      assert k == "\"" + (RenderChars(key) + "\"");
      StandsSplit(s, at, "\"", RenderChars(key) + "\"");
      CharsBack(s, at + 1, key);
    }
  }
}
