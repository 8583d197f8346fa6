/** Keys as they are written. */
module TomlKeyTrees {
  // Dotted keys as syntax trees, and that the reader takes them for what they mean.

  import opened Wrappers
  import opened Numerals
  import opened Text
  import opened TomlKeys

  // ---- the grammar ----------------------------------------------------------------------------------

  /** A character of a key in double quotes: itself, a letter that stands for it, or its code in four or eight
      hexadecimal digits, each in either case. */
  datatype KeyChar = Itself(c: char) | Short(letter: char) | Coded(c: char, cases: seq<bool>)

  datatype Segment = BareKey(text: string) | LiteralKey(text: string) | BasicKey(chars: seq<KeyChar>)

  /** One part of a dotted key, with the blanks around it. */
  datatype KeyPart = KeyPart(before: string, segment: Segment, after: string)

  function ShortMeaning(letter: char): Option<char> {
    match letter
    case '\"' => Some('\"')
    case '\\' => Some('\\')
    case 'b' => Some('\U{8}')
    case 't' => Some('\U{9}')
    case 'n' => Some('\U{A}')
    case 'f' => Some('\U{C}')
    case 'r' => Some('\U{D}')
    case 'e' => Some('\U{1B}')
    case _ => None
  }

  function Power(n: nat): nat {
    if n == 0 then 1 else 16 * Power(n - 1)
  }

  predicate OkChar(k: KeyChar) {
    match k
    case Itself(c) => c != '\"' && c != '\\'
    case Short(l) => ShortMeaning(l).Some?
    case Coded(c, cases) => (|cases| == 4 || |cases| == 8) && c as nat < Power(|cases|)
  }

  predicate IsBlank(s: string) {
    forall c <- s :: c == ' ' || c == '\t'
  }

  predicate IsBareChar(c: char) {
    'A' <= c <= 'Z' || 'a' <= c <= 'z' || '0' <= c <= '9' || c == '-' || c == '_'
  }

  predicate OkSegment(g: Segment) {
    match g
    case BareKey(text) => text != [] && forall c <- text :: IsBareChar(c)
    case LiteralKey(text) => '\'' !in text
    case BasicKey(chars) => forall k <- chars :: OkChar(k)
  }

  predicate OkPart(p: KeyPart) {
    IsBlank(p.before) && OkSegment(p.segment) && IsBlank(p.after)
  }

  predicate OkKey(key: seq<KeyPart>) {
    key != [] && forall p <- key :: OkPart(p)
  }

  // ---- what a key says, and how it is spelled -------------------------------------------------------

  function CharMeaning(k: KeyChar): char
    requires OkChar(k)
  {
    match k
    case Itself(c) => c
    case Short(l) => ShortMeaning(l).value
    case Coded(c, _) => c
  }

  function CharMeanings(ks: seq<KeyChar>): string
    requires forall k <- ks :: OkChar(k)
  {
    if ks == [] then [] else [CharMeaning(ks[0])] + CharMeanings(ks[1..])
  }

  function SegmentMeaning(g: Segment): string
    requires OkSegment(g)
  {
    match g
    case BareKey(text) => text
    case LiteralKey(text) => text
    case BasicKey(chars) => CharMeanings(chars)
  }

  /** The path a key names. */
  function Names(key: seq<KeyPart>): (names: seq<string>)
    requires forall p <- key :: OkPart(p)
    ensures |names| == |key|
  {
    if key == [] then []
    else
      assert key[0] in key && OkPart(key[0]);
      [SegmentMeaning(key[0].segment)] + Names(key[1..])
  }

  function QuoteOf(g: Segment): Option<char> {
    match g case BareKey(_) => None case LiteralKey(_) => Some('\'') case BasicKey(_) => Some('\"')
  }

  function CodeText(n: nat, cases: seq<bool>): (s: string)
    ensures |s| == |cases|
    decreases |cases|
  {
    if cases == [] then []
    else
      var last := |cases| - 1;
      CodeText(n / 16, cases[..last]) + [if cases[last] then HexUpper(n % 16) else HexLower(n % 16)]
  }

  function CharText(k: KeyChar): (s: string)
    ensures s != []
  {
    match k
    case Itself(c) => [c]
    case Short(l) => ['\\', l]
    case Coded(c, cases) => ['\\', if |cases| == 4 then 'u' else 'U'] + CodeText(c as nat, cases)
  }

  function CharsText(ks: seq<KeyChar>): string {
    if ks == [] then [] else CharText(ks[0]) + CharsText(ks[1..])
  }

  function SegmentText(g: Segment): string {
    match g
    case BareKey(text) => text
    case LiteralKey(text) => "\'" + (text + "\'")
    case BasicKey(chars) => "\"" + (CharsText(chars) + "\"")
  }

  /** A key in front of what follows it. */
  function KeyThen(key: seq<KeyPart>, rest: string): string {
    if key == [] then rest
    else
      key[0].before + (SegmentText(key[0].segment) + (key[0].after + if |key| == 1 then rest else "." + KeyThen(key[1..], rest)))
  }

  // ---- reading a segment ----------------------------------------------------------------------------

  /** What stands at `i` in `s`, up to the end. */
  predicate From(s: string, i: nat, p: string) {
    i <= |s| && s[i..] == p
  }

  lemma FromSplit(s: string, i: nat, p: string, rest: string)
    requires From(s, i, p + rest)
    ensures i + |p| <= |s| && s[i..i + |p|] == p && From(s, i + |p|, rest)
    ensures forall k :: 0 <= k < |p| ==> s[i + k] == p[k]
  {
    assert |s[i..]| == |p| + |rest|;
    assert s[i..i + |p|] == s[i..][..|p|] && s[i + |p|..] == s[i..][|p|..];
    forall k | 0 <= k < |p|
      ensures s[i + k] == p[k]
    {
      assert s[i + k] == s[i..i + |p|][k];
    }
  }

  lemma FromFirst(s: string, i: nat, c: char, rest: string)
    requires From(s, i, [c] + rest)
    ensures i < |s| && s[i] == c && From(s, i + 1, rest)
  {
    FromSplit(s, i, [c], rest);
    assert s[i + 0] == c;
  }

  lemma {:induction false} CodeBack(n: nat, cases: seq<bool>)
    requires n < Power(|cases|)
    ensures HexDigits(CodeText(n, cases)) == Some(n)
    ensures forall c <- CodeText(n, cases) :: c != '+'
    decreases |cases|
  {
    hide HexUpper, HexLower, HexDigit;
    if cases != [] {
      var last := |cases| - 1;
      var s := CodeText(n, cases);
      CodeBack(n / 16, cases[..last]);
      HexBack(n % 16);
      HexIsNoPlus(n % 16);
      assert s[..|s| - 1] == CodeText(n / 16, cases[..last]);
      assert n == 16 * (n / 16) + n % 16;
    }
  }

  lemma HexIsNoPlus(d: nat)
    requires d < 16
    ensures HexUpper(d) != '+' && HexLower(d) != '+'
  {
  }

  lemma CodedRead(s: string, i: nat, c: char, cases: seq<bool>, rest: string)
    requires OkChar(Coded(c, cases)) && From(s, i, CharText(Coded(c, cases)) + rest)
    ensures i < |s| && BasicChar(s, i) == Some((c, i + 2 + |cases|)) && From(s, i + 2 + |cases|, rest)
  {
    hide HexDigits, CodeText, Power;
    var letter := if |cases| == 4 then 'u' else 'U';
    var code := CodeText(c as nat, cases);
    assert (['\\', letter] + code) + rest == ['\\', letter] + (code + rest);
    FromSplit(s, i, ['\\', letter], code + rest);
    assert s[i + 0] == '\\' && s[i + 1] == letter;
    FromSplit(s, i + 2, code, rest);
    CodeBack(c as nat, cases);
    assert code[0] in code;
    assert ParseHex(s[i + 2..i + 2 + |cases|]) == Some(c as nat);
  }

  lemma ShortLettersAre(letter: char)
    ensures Unescape(letter) == ShortMeaning(letter) && (ShortMeaning(letter).Some? ==> letter != 'u' && letter != 'U')
  {
  }

  lemma CharRead(s: string, i: nat, k: KeyChar, rest: string)
    requires OkChar(k) && From(s, i, CharText(k) + rest)
    ensures var next := i + |CharText(k)|;
            i < |s| && s[i] != '\"' && BasicChar(s, i) == Some((CharMeaning(k), next)) && From(s, next, rest)
  {
    hide Unescape, UnicodeEscape, ShortMeaning, CodeText;
    FromSplit(s, i, CharText(k), rest);
    assert s[i + 0] == CharText(k)[0];
    match k
    case Itself(c) =>
    case Short(l) =>
      ShortLettersAre(l);
      assert s[i + 1] == l;
    case Coded(c, cases) => CodedRead(s, i, c, cases, rest);
  }

  lemma {:induction false} CharsRead(s: string, i: nat, ks: seq<KeyChar>, rest: string)
    requires (forall k <- ks :: OkChar(k)) && From(s, i, CharsText(ks) + ("\"" + rest))
    ensures var end := i + |CharsText(ks)| + 1;
            i <= |s| && BasicRest(s, i) == Some((CharMeanings(ks), end)) && From(s, end, rest)
    decreases |ks|
  {
    hide BasicChar, CharText, OkChar, CharMeaning, From;
    if ks == [] {
      assert [] + ("\"" + rest) == "\"" + rest;
      FromFirst(s, i, '\"', rest);
    } else {
      var head, more := CharText(ks[0]), CharsText(ks[1..]) + ("\"" + rest);
      assert ks[0] in ks && forall k <- ks[1..] :: k in ks;
      assert (head + CharsText(ks[1..])) + ("\"" + rest) == head + more;
      CharRead(s, i, ks[0], more);
      CharsRead(s, i + |head|, ks[1..], rest);
    }
  }

  lemma BareRead(s: string, i: nat, text: string, rest: string)
    requires text != [] && (forall c <- text :: IsBareChar(c)) && From(s, i, text + rest) &&
             (rest != [] ==> !IsBareChar(rest[0]))
    ensures i < |s| && TomlKeys.Segment(s, i) == Some((text, i + |text|)) && From(s, i + |text|, rest)
  {
    FromSplit(s, i, text, rest);
    var end := i + |text|;
    forall k | i <= k < end
      ensures IsBareKeyChar(s[k])
    {
      assert s[i + (k - i)] == text[k - i] && text[k - i] in text;
    }
    assert end < |s| ==> s[end] == s[end..][0] == rest[0];
    BareEndAt(s, i, end);
    assert s[i + 0] == text[0] && text[0] in text;
  }

  lemma {:induction false} BareEndAt(s: string, i: nat, end: nat)
    requires i <= end <= |s| && (forall k :: i <= k < end ==> IsBareKeyChar(s[k])) &&
             (end < |s| ==> !IsBareKeyChar(s[end]))
    ensures BareEnd(s, i) == end
  {
  }

  lemma LiteralRead(s: string, i: nat, text: string, rest: string)
    requires '\'' !in text && From(s, i, "\'" + (text + "\'") + rest)
    ensures i < |s| && TomlKeys.Segment(s, i) == Some((text, i + |text| + 2)) && From(s, i + |text| + 2, rest)
  {
    assert "\'" + (text + "\'") + rest == "\'" + (text + ("\'" + rest));
    FromFirst(s, i, '\'', text + ("\'" + rest));
    FromSplit(s, i + 1, text, "\'" + rest);
    FromFirst(s, i + 1 + |text|, '\'', rest);
    forall k | i + 1 <= k < i + 1 + |text|
      ensures s[k] != '\''
    {
      assert s[i + 1 + (k - i - 1)] == text[k - i - 1] && text[k - i - 1] in text;
    }
    FindIs(s, '\'', i + 1, i + 1 + |text|);
  }

  lemma SegmentRead(s: string, i: nat, g: Segment, rest: string)
    requires OkSegment(g) && From(s, i, SegmentText(g) + rest) && (rest != [] ==> !IsBareChar(rest[0]))
    ensures var end := i + |SegmentText(g)|;
            i < |s| && TomlKeys.Segment(s, i) == Some((SegmentMeaning(g), end)) && From(s, end, rest)
    ensures QuoteOf(g) == if IsQuote(s[i]) then Some(s[i]) else None
    ensures s[i] != ' ' && s[i] != '\t' && s[i] != '#' && s[i] != '[' && !IsWhitespace(s[i])
  {
    hide BasicRest, CharsText, From, OkChar, CharMeanings;
    match g
    case BareKey(text) =>
      BareRead(s, i, text, rest);
      FromSplit(s, i, text, rest);
      assert s[i + 0] == text[0] && text[0] in text;
    case LiteralKey(text) =>
      LiteralRead(s, i, text, rest);
      FromSplit(s, i, SegmentText(g), rest);
      assert s[i + 0] == '\'';
    case BasicKey(chars) =>
      assert ("\"" + (CharsText(chars) + "\"")) + rest == "\"" + (CharsText(chars) + ("\"" + rest));
      FromFirst(s, i, '\"', CharsText(chars) + ("\"" + rest));
      CharsRead(s, i + 1, chars, rest);
  }

  // ---- reading a key --------------------------------------------------------------------------------

  /** What may follow a key: the equals sign of a pair, or a header's bracket. */
  predicate EndsKey(rest: string) {
    rest != [] && (rest[0] == '=' || rest[0] == ']')
  }

  lemma BlanksRead(s: string, i: nat, blank: string, rest: string)
    requires IsBlank(blank) && From(s, i, blank + rest) && (rest != [] ==> !IsBlankChar(rest[0]))
    ensures i <= |s| && SkipBlanks(s, i) == i + |blank| && From(s, i + |blank|, rest)
  {
    FromSplit(s, i, blank, rest);
    forall k | i <= k < i + |blank|
      ensures IsBlankChar(s[k])
    {
      assert s[i + (k - i)] == blank[k - i] && blank[k - i] in blank;
    }
    assert i + |blank| < |s| ==> s[i + |blank|] == s[i + |blank|..][0] == rest[0];
    SkipBlanksIs(s, i, i + |blank|);
  }

  /** A key reads as the path it names, with the quote of its first part; the path ends before the blanks after
      the last. */
  lemma {:induction false} KeyRead(s: string, at: nat, key: seq<KeyPart>, rest: string) returns (end: nat)
    requires OkKey(key) && EndsKey(rest) && From(s, at, KeyThen(key, rest))
    ensures at < end <= |s| && KeyPath(s, at) == Some(Path(Names(key), QuoteOf(key[0].segment), end))
    ensures |rest| <= |s| && SkipBlanks(s, end) == |s| - |rest| && From(s, |s| - |rest|, rest)
    decreases |key|
  {
    hide TomlKeys.Segment, SkipBlanks, KeyPath, OkSegment, SegmentText, SegmentMeaning, From, IsBareChar, IsBlankChar,
         QuoteOf;
    hide OkPart, Names, KeyThen;
    KeyParts(key, rest);
    var p := key[0];
    var more := if |key| == 1 then rest else "." + KeyThen(key[1..], rest);
    var i, next := PartRead(s, at, p, more);
    KeyPathUnfolds(s, at);
    var j := SkipBlanks(s, next);
    if |key| == 1 {
      end := next;
      RestAt(s, j, rest);
    } else {
      FromFirst(s, j, '.', KeyThen(key[1..], rest));
      end := KeyRead(s, j + 1, key[1..], rest);
    }
  }

  /** A key's first part, and the rest of it. */
  lemma KeyParts(key: seq<KeyPart>, rest: string)
    requires OkKey(key)
    ensures OkPart(key[0]) && (|key| > 1 ==> OkKey(key[1..]))
    ensures OkSegment(key[0].segment)
    ensures Names(key) == if |key| == 1 then [SegmentMeaning(key[0].segment)]
                          else [SegmentMeaning(key[0].segment)] + Names(key[1..])
    ensures var p := key[0];
            var more := if |key| == 1 then rest else "." + KeyThen(key[1..], rest);
            KeyThen(key, rest) == p.before + (SegmentText(p.segment) + (p.after + more))
  {
    hide OkSegment, SegmentText, SegmentMeaning;
    assert key[0] in key && OkPart(key[0]);
    assert forall q <- key[1..] :: q in key;
    if |key| == 1 {
      assert key[1..] == [] && Names(key[1..]) == [];
    }
  }

  /** One part read, and the blanks after it. */
  lemma PartRead(s: string, at: nat, p: KeyPart, more: string) returns (i: nat, next: nat)
    requires OkPart(p) && more != [] && (more[0] == '=' || more[0] == ']' || more[0] == '.')
    requires From(s, at, p.before + (SegmentText(p.segment) + (p.after + more)))
    ensures at <= i < next <= |s| && SkipBlanks(s, at) == i &&
            TomlKeys.Segment(s, i) == Some((SegmentMeaning(p.segment), next))
    ensures QuoteOf(p.segment) == if IsQuote(s[i]) then Some(s[i]) else None
    ensures next <= SkipBlanks(s, next) && From(s, SkipBlanks(s, next), more)
  {
    hide TomlKeys.Segment, SkipBlanks, OkSegment, SegmentText, SegmentMeaning, From, IsBareChar, IsBlankChar, QuoteOf;
    var tail := p.after + more;
    TailIsNoBareKey(p.after, more);
    SegmentStarts(p.segment, tail);
    BlanksRead(s, at, p.before, SegmentText(p.segment) + tail);
    i := at + |p.before|;
    SegmentRead(s, i, p.segment, tail);
    next := i + |SegmentText(p.segment)|;
    BlanksRead(s, next, p.after, more);
  }

  lemma RestAt(s: string, j: nat, rest: string)
    requires From(s, j, rest) && EndsKey(rest)
    ensures j == |s| - |rest| && j < |s| && s[j] == rest[0] && s[j] != '.'
  {
    assert s[j..][0] == rest[0];
  }

  lemma TailIsNoBareKey(after: string, more: string)
    requires IsBlank(after) && more != [] && (more[0] == '=' || more[0] == ']' || more[0] == '.')
    ensures !IsBareChar((after + more)[0]) && !IsBlankChar(more[0])
  {
    if after != [] {
      assert after[0] in after;
    }
  }

  lemma SegmentStarts(g: Segment, tail: string)
    requires OkSegment(g)
    ensures SegmentText(g) + tail != [] && !IsBlankChar((SegmentText(g) + tail)[0])
  {
    if g.BareKey? {
      assert g.text[0] in g.text;
    }
  }

  // ---- the keys an edit writes ----------------------------------------------------------------------

  /** A character no key holds as itself. */
  predicate IsUnprintable(c: char) {
    c as int < 32 || 127 <= c as int < 160
  }

  /** How a key is written: in single quotes where that is asked for and can be, in double quotes otherwise, with
      quotes and backslashes by their letters and unprintable characters by four capital digits. */
  function KeySegment(key: string, single: bool): Segment {
    if single && forall c <- key :: c != '\'' && !IsUnprintable(c) then LiteralKey(key) else BasicKey(KeyChars(key))
  }

  function KeyChars(key: string): seq<KeyChar> {
    if key == [] then []
    else
      var c := key[0];
      var first :=
        if c == '\"' || c == '\\' then Short(c)
        else if IsUnprintable(c) then Coded(c, [true, true, true, true])
        else Itself(c);
      [first] + KeyChars(key[1..])
  }

  lemma FourCapitals(n: nat)
    requires n < 256
    ensures CodeText(n, [true, true, true, true]) == "00" + [HexUpper(n / 16), HexUpper(n % 16)]
  {
    var a: seq<bool>, b, c, d := [], [true], [true, true], [true, true, true];
    var all := [true, true, true, true];
    assert all[..3] == d && d[..2] == c && c[..1] == b && b[..0] == a;
    assert n / 16 / 16 == 0;
    assert CodeText(n / 16 / 16 / 16, b) == CodeText(0, a) + ['0'];
    assert CodeText(n / 16 / 16, c) == "00";
  }

  lemma {:induction false} CharsAreWritten(key: string)
    ensures RenderChars(key) == CharsText(KeyChars(key))
    ensures (forall k <- KeyChars(key) :: OkChar(k)) && CharMeanings(KeyChars(key)) == key
  {
    hide CodeText;
    if key != [] {
      CharsAreWritten(key[1..]);
      OneCharIsWritten(key);
      var ks := KeyChars(key);
      assert ks[1..] == KeyChars(key[1..]);
      assert forall k <- ks :: k == ks[0] || k in ks[1..];
    }
  }

  lemma OneCharIsWritten(key: string)
    requires key != []
    ensures var k := KeyChars(key)[0]; OkChar(k) && CharText(k) == RenderChar(key[0]) && CharMeaning(k) == key[0]
  {
    hide CodeText;
    var c := key[0];
    if c != '\"' && c != '\\' && IsUnprintable(c) {
      FourCapitals(c as nat);
      FourIsEnough(c as nat);
    }
  }

  lemma FourIsEnough(n: nat)
    requires n < 256
    ensures n < Power(4)
  {
    assert Power(4) == 16 * Power(3) && Power(3) == 16 * Power(2) && Power(2) == 16 * Power(1) && Power(1) == 16;
  }

  lemma KeyIsWritten(key: string, single: bool)
    ensures RenderKey(key, single) == SegmentText(KeySegment(key, single))
    ensures OkSegment(KeySegment(key, single)) && SegmentMeaning(KeySegment(key, single)) == key
  {
    hide CodeText, RenderChars, CharsText, KeyChars, CharMeanings, OkChar;
    CharsAreWritten(key);
    var chars := RenderChars(key);
    assert "\"" + (chars + "\"") == "\"" + chars + "\"";
    assert "\'" + (key + "\'") == "\'" + key + "\'";
  }
}
