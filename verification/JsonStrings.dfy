/**
 JSON strings. Every way RFC 8259 lets a string be spelled reads back to the characters it spells.
 */
module JsonStrings {
  import opened ByteStrings
  import opened Json
  import opened JsonReader
  import opened Numerals
  import opened Utf8
  import opened Wrappers

  /** One character as section 7 of RFC 8259 may write it: itself, a two-character escape, a `\u`
      escape, or a `\u` surrogate pair - the digits in either case. */
  datatype Spelling =
    | Raw(c: char)
    | Short(letter: char)
    | Unit(digits: string)
    | Pair(c: char, high: string, low: string)

  /** The two-character escapes, by their letters. */
  function ShortMeaning(letter: char): Option<char> {
    match letter
    case '\"' => Some('\"')
    case '\\' => Some('\\')
    case '/' => Some('/')
    case 'b' => Some('\U{8}')
    case 'f' => Some('\U{C}')
    case 'n' => Some('\U{A}')
    case 'r' => Some('\U{D}')
    case 't' => Some('\U{9}')
    case _ => None
  }

  /** The reader's table is this one. */
  lemma ShortEscapesAre(b: Byte)
    ensures ShortEscape(b) == if b < 0x80 then ShortMeaning(b as int as char) else None
  {
  }

  predicate IsHex4(d: string) {
    |d| == 4 && forall k :: 0 <= k < 4 ==> HexDigit(d[k]).Some?
  }

  function Value4(d: string): nat
    requires IsHex4(d)
  {
    HexValue4(HexDigit(d[0]).value, HexDigit(d[1]).value, HexDigit(d[2]).value, HexDigit(d[3]).value)
  }

  predicate OkSpelling(s: Spelling) {
    match s
    case Raw(c) => c != '\"' && c != '\\'
    case Short(l) => ShortMeaning(l).Some?
    case Unit(d) => IsHex4(d) && IsScalar(Value4(d))
    case Pair(c, h, l) =>
      var n := c as int - 0x10000;
      n >= 0 && IsHex4(h) && IsHex4(l) && Value4(h) == 0xD800 + n / 0x400 && Value4(l) == 0xDC00 + n % 0x400
  }

  function Meaning(s: Spelling): char
    requires OkSpelling(s)
  {
    match s
    case Raw(c) => c
    case Short(l) => ShortMeaning(l).value
    case Unit(d) => Value4(d) as char
    case Pair(c, _, _) => c
  }

  function Written(s: Spelling): string {
    match s
    case Raw(c) => [c]
    case Short(l) => ['\\', l]
    case Unit(d) => ['\\', 'u'] + d
    case Pair(_, h, l) => ['\\', 'u'] + (h + (['\\', 'u'] + l))
  }

  function AllWritten(ss: seq<Spelling>): string {
    if ss == [] then [] else Written(ss[0]) + AllWritten(ss[1..])
  }

  function Meanings(ss: seq<Spelling>): string
    requires forall s <- ss :: OkSpelling(s)
  {
    if ss == [] then [] else [Meaning(ss[0])] + Meanings(ss[1..])
  }

  // ---- reading one spelling ---------------------------------------------------------------------

  lemma {:induction false} AsciiEncodes(s: string)
    requires forall c <- s :: c as int < 0x80
    ensures |Encode(s)| == |s| && forall k :: 0 <= k < |s| ==> Encode(s)[k] as int == s[k] as int
  {
    if s != [] {
      assert s[0] in s;
      assert forall c <- s[1..] :: c in s;
      AsciiEncodes(s[1..]);
      var e := Encode(s);
      assert e == [s[0] as Byte] + Encode(s[1..]);
      forall k | 0 <= k < |s|
        ensures e[k] as int == s[k] as int
      {
        if k > 0 {
          assert e[k] == Encode(s[1..])[k - 1] && s[k] == s[1..][k - 1];
        }
      }
    }
  }

  lemma HexIsAscii(d: string)
    requires IsHex4(d)
    ensures forall c <- d :: c as int < 0x80
  {
  }

  /** Four digits in the bytes. */
  lemma DigitsRead(b: Bytes, at: nat, d: string, rest: Bytes)
    requires IsHex4(d) && at <= |b| && b[at..] == Encode(d) + rest
    ensures Hex4(b, at) == Ok((Value4(d), at + 4)) && at + 4 <= |b| && b[at + 4..] == rest
  {
    HexIsAscii(d);
    AsciiEncodes(d);
    TakeAll(b, at, Encode(d), rest);
    var text := Chars(b[at..at + 4]);
    assert b[at..at + 4] == Encode(d);
    assert text == d;
    FourDigits(d);
  }

  /** Bytes that are neither quote nor backslash are copied. */
  lemma {:induction false} RawBytes(b: Bytes, at: nat, e: Bytes, rest: Bytes)
    requires at <= |b| && b[at..] == e + rest && forall x <- e :: x != QUOTE && x != BACKSLASH
    ensures at + |e| <= |b| && StringBytes(b, at) == Before(e, StringBytes(b, at + |e|))
    decreases |e|
  {
    TakeAll(b, at, e, rest);
    if e == [] {
      NothingBefore(StringBytes(b, at));
    } else {
      assert e[0] in e;
      assert forall x <- e[1..] :: x in e;
      assert e + rest == [e[0]] + (e[1..] + rest);
      TakeOne(b, at, e[0], e[1..] + rest);
      RawBytes(b, at + 1, e[1..], rest);
      OneBefore([e[0]], e[1..], StringBytes(b, at + |e|));
      assert [e[0]] + e[1..] == e;
    }
  }

  lemma ShortRead(b: Bytes, at: nat, l: char, rest: Bytes)
    requires l as int < 0x80 && ShortEscape(l as Byte).Some? && at <= |b|
    requires b[at..] == [BACKSLASH, l as Byte] + rest
    ensures at + 2 <= |b| && b[at + 2..] == rest
    ensures StringBytes(b, at) == Before(EncodeChar(ShortEscape(l as Byte).value), StringBytes(b, at + 2))
  {
    hide EncodeChar, Unicode;
    assert [BACKSLASH, l as Byte] + rest == [BACKSLASH] + ([l as Byte] + rest);
    TakeOne(b, at, BACKSLASH, [l as Byte] + rest);
    TakeOne(b, at + 1, l as Byte, rest);
    assert l as Byte != 'u' as Byte;
  }

  lemma UnicodeRead(b: Bytes, at: nat, c: char, end: nat)
    requires at + 2 <= end <= |b| && b[at] == BACKSLASH && b[at + 1] == 'u' as Byte
    requires Unicode(b, at + 2) == Ok((c, end))
    ensures StringBytes(b, at) == Before(EncodeChar(c), StringBytes(b, end))
  {
    hide EncodeChar, Unicode, ShortEscape;
    assert Escaped(b, at + 1) == Ok((c, end));
  }

  const ESCAPE_U: Bytes := [BACKSLASH, 'u' as Byte]

  lemma UnitRead(b: Bytes, at: nat, d: string, rest: Bytes)
    requires IsHex4(d) && IsScalar(Value4(d)) && at <= |b| && b[at..] == ESCAPE_U + (Encode(d) + rest)
    ensures at + 6 <= |b| && b[at + 6..] == rest
    ensures StringBytes(b, at) == Before(EncodeChar(Value4(d) as char), StringBytes(b, at + 6))
  {
    hide Hex4, Encode, StringBytes, Value4;
    TakeAll(b, at, ESCAPE_U, Encode(d) + rest);
    assert b[at] == b[at..at + 2][0] && b[at + 1] == b[at..at + 2][1];
    DigitsRead(b, at + 2, d, rest);
    UnicodeRead(b, at, Value4(d) as char, at + 6);
  }

  /** The two halves of a character beyond the first plane. */
  lemma HalvesCombine(c: char, high: nat, low: nat)
    requires var n := c as int - 0x10000; n >= 0 && high == 0xD800 + n / 0x400 && low == 0xDC00 + n % 0x400
    ensures IsHighSurrogate(high) && IsLowSurrogate(low) && Combined(high, low) == c as nat
  {
  }

  /** Any two surrogates are the halves of a character. */
  lemma HalvesOf(high: nat, low: nat) returns (c: char)
    requires IsHighSurrogate(high) && IsLowSurrogate(low)
    ensures var n := c as int - 0x10000; n >= 0 && high == 0xD800 + n / 0x400 && low == 0xDC00 + n % 0x400
  {
    var n := (high - 0xD800) * 0x400 + (low - 0xDC00);
    c := (0x10000 + n) as char;
    assert n / 0x400 == high - 0xD800 && n % 0x400 == low - 0xDC00;
  }

  lemma PairRead(b: Bytes, at: nat, c: char, h: string, l: string, rest: Bytes)
    requires OkSpelling(Pair(c, h, l)) && at <= |b|
    requires b[at..] == ESCAPE_U + (Encode(h) + (ESCAPE_U + (Encode(l) + rest)))
    ensures at + 12 <= |b| && b[at + 12..] == rest
    ensures StringBytes(b, at) == Before(EncodeChar(c), StringBytes(b, at + 12))
  {
    hide Hex4, Encode, StringBytes, Value4, IsHighSurrogate, IsLowSurrogate, Combined;
    HalvesCombine(c, Value4(h), Value4(l));
    var second := ESCAPE_U + (Encode(l) + rest);
    TakeAll(b, at, ESCAPE_U, Encode(h) + second);
    assert b[at] == b[at..at + 2][0] && b[at + 1] == b[at..at + 2][1];
    DigitsRead(b, at + 2, h, second);
    TakeAll(b, at + 6, ESCAPE_U, Encode(l) + rest);
    assert b[at + 6] == b[at + 6..at + 8][0] && b[at + 7] == b[at + 6..at + 8][1];
    DigitsRead(b, at + 8, l, rest);
    UnicodeRead(b, at, c, at + 12);
  }

  lemma EncodeEscape(l: char)
    requires l as int < 0x80
    ensures Encode(['\\', l]) == [BACKSLASH, l as Byte]
  {
    assert ['\\', l][1..] == [l];
    EncodeOne(l);
    assert Encode(['\\', l]) == EncodeChar('\\') + Encode([l]);
  }

  /** One spelling read: its character's encoding, and the reader past it. */
  lemma SpellingRead(b: Bytes, at: nat, s: Spelling, rest: Bytes) returns (next: nat)
    requires OkSpelling(s) && at <= |b| && b[at..] == Encode(Written(s)) + rest
    ensures at < next <= |b| && b[next..] == rest
    ensures StringBytes(b, at) == Before(EncodeChar(Meaning(s)), StringBytes(b, next))
  {
    hide StringBytes, Encode, Value4;
    match s
    case Raw(c) =>
      EncodeOne(c);
      TakeAll(b, at, EncodeChar(c), rest);
      RawBytes(b, at, EncodeChar(c), rest);
      next := at + |EncodeChar(c)|;
    case Short(l) =>
      ShortEscapesAre(l as Byte);
      EncodeEscape(l);
      ShortRead(b, at, l, rest);
      next := at + 2;
    case Unit(d) =>
      EncodeEscape('u');
      EncodeConcat(['\\', 'u'], d);
      assert (ESCAPE_U + Encode(d)) + rest == ESCAPE_U + (Encode(d) + rest);
      UnitRead(b, at, d, rest);
      next := at + 6;
    case Pair(c, h, l) =>
      EncodePair(h, l, rest);
      PairRead(b, at, c, h, l, rest);
      next := at + 12;
  }

  lemma EncodePair(h: string, l: string, rest: Bytes)
    ensures Encode(['\\', 'u'] + (h + (['\\', 'u'] + l))) + rest == ESCAPE_U + (Encode(h) + (ESCAPE_U + (Encode(l) + rest)))
  {
    hide Encode;
    EncodeEscape('u');
    EncodeConcat(['\\', 'u'], h + (['\\', 'u'] + l));
    EncodeConcat(h, ['\\', 'u'] + l);
    EncodeConcat(['\\', 'u'], l);
    var u, x, y := ESCAPE_U, Encode(h), Encode(l);
    assert (u + y) + rest == u + (y + rest);
    assert (x + (u + y)) + rest == x + ((u + y) + rest);
    assert (u + (x + (u + y))) + rest == u + ((x + (u + y)) + rest);
  }

  // ---- reading a whole string -------------------------------------------------------------------

  lemma {:induction false} SpellingsRead(b: Bytes, at: nat, ss: seq<Spelling>, rest: Bytes)
    requires (forall s <- ss :: OkSpelling(s)) && at <= |b| && b[at..] == Encode(AllWritten(ss)) + ([QUOTE] + rest)
    ensures |rest| < |b| && StringBytes(b, at) == Ok((Encode(Meanings(ss)), |b| - |rest|))
    decreases |ss|
  {
    hide EncodeChar, Written, OkSpelling, Escaped;
    if ss == [] {
      assert b[at..] == [QUOTE] + rest;
      TakeOne(b, at, QUOTE, rest);
      assert |b[at + 1..]| == |b| - at - 1;
    } else {
      var head, tail := Written(ss[0]), AllWritten(ss[1..]);
      EncodeConcat(head, tail);
      assert (Encode(head) + Encode(tail)) + ([QUOTE] + rest) == Encode(head) + (Encode(tail) + ([QUOTE] + rest));
      var next := SpellingRead(b, at, ss[0], Encode(tail) + ([QUOTE] + rest));
      SpellingsRead(b, next, ss[1..], rest);
      assert Meanings(ss)[0] == Meaning(ss[0]) && Meanings(ss)[1..] == Meanings(ss[1..]);
    }
  }

  /** A quoted string, however its characters are spelled, reads as those characters. */
  lemma SpelledStringReadsBack(b: Bytes, at: nat, ss: seq<Spelling>, rest: Bytes)
    requires (forall s <- ss :: OkSpelling(s)) && at <= |b|
    requires b[at..] == [QUOTE] + (Encode(AllWritten(ss)) + ([QUOTE] + rest))
    ensures at < |b| && |rest| < |b| && StringAt(b, at) == Ok((Meanings(ss), |b| - |rest|))
  {
    hide Encode, StringBytes, OkSpelling;
    TakeOne(b, at, QUOTE, Encode(AllWritten(ss)) + ([QUOTE] + rest));
    SpellingsRead(b, at + 1, ss, rest);
    EncodedBack(Meanings(ss));
  }

  // ---- the writer's spelling --------------------------------------------------------------------

  function SpellingOf(c: char): Spelling {
    match c
    case '\"' => Short('\"')
    case '\\' => Short('\\')
    case '\n' => Short('n')
    case '\r' => Short('r')
    case '\t' => Short('t')
    case '\U{8}' => Short('b')
    case '\U{C}' => Short('f')
    case _ => if NeedsUnicodeEscape(c) then Unit(Hex4Lower(c as nat)) else Raw(c)
  }

  function Spellings(s: string): seq<Spelling> {
    if s == [] then [] else [SpellingOf(s[0])] + Spellings(s[1..])
  }

  lemma FourHexDigits(n: nat)
    ensures n == HexValue4(n / 0x1000, n / 0x100 % 0x10, n / 0x10 % 0x10, n % 0x10)
  {
    assert n / 0x10 / 0x10 == n / 0x100 && n / 0x100 / 0x10 == n / 0x1000;
  }

  lemma Hex4LowerBack(n: nat)
    requires n < 0x10000
    ensures IsHex4(Hex4Lower(n)) && Value4(Hex4Lower(n)) == n
  {
    hide HexLower, HexDigit, HexValue4;
    HexBack(n / 0x1000);
    HexBack(n / 0x100 % 0x10);
    HexBack(n / 0x10 % 0x10);
    HexBack(n % 0x10);
    FourHexDigits(n);
  }

  lemma WriterSpells(c: char)
    ensures OkSpelling(SpellingOf(c)) && Meaning(SpellingOf(c)) == c && Written(SpellingOf(c)) == EscapeChar(c)
  {
    hide Hex4Lower, Value4;
    if NeedsUnicodeEscape(c) {
      Hex4LowerBack(c as nat);
    }
  }

  lemma {:induction false} WriterSpellsAll(s: string)
    ensures (forall x <- Spellings(s) :: OkSpelling(x))
    ensures Meanings(Spellings(s)) == s && AllWritten(Spellings(s)) == EscapeChars(s)
  {
    hide SpellingOf, OkSpelling, Meaning, Written, EscapeChar;
    if s != [] {
      WriterSpells(s[0]);
      WriterSpellsAll(s[1..]);
      assert Spellings(s)[0] == SpellingOf(s[0]) && Spellings(s)[1..] == Spellings(s[1..]);
      assert s == [s[0]] + s[1..];
    }
  }

  /** A written string reads back. */
  lemma WrittenStringReadsBack(b: Bytes, at: nat, s: string, rest: Bytes)
    requires at <= |b| && b[at..] == Encode(Escape(s)) + rest
    ensures at < |b| && b[at] == QUOTE && |rest| < |b| && StringAt(b, at) == Ok((s, |b| - |rest|)) && b[|b| - |rest|..] == rest
  {
    hide Encode, StringAt, OkSpelling, Meanings, AllWritten, Spellings;
    WriterSpellsAll(s);
    EncodeConcat("\"", EscapeChars(s) + "\"");
    EncodeConcat(EscapeChars(s), "\"");
    EncodeOne('\"');
    var e := Encode(EscapeChars(s));
    assert Encode(Escape(s)) == [QUOTE] + (e + [QUOTE]);
    assert ([QUOTE] + (e + [QUOTE])) + rest == [QUOTE] + (e + ([QUOTE] + rest));
    TakeOne(b, at, QUOTE, e + ([QUOTE] + rest));
    SpelledStringReadsBack(b, at, Spellings(s), rest);
    TakeAll(b, at, Encode(Escape(s)), rest);
    assert |b[at..]| == |Encode(Escape(s))| + |rest|;
  }
}
