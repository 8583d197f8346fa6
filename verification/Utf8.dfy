/**
 UTF-8: encoding, and strict decoding, which undoes it; overlong forms, surrogates and numbers that are no
 character are refused.
 */
module Utf8 {
  import opened ByteStrings
  import opened Numerals
  import opened Wrappers

  function Lead(base: nat, high: nat): Byte
    requires base + high < 0x100
  {
    (base + high) as Byte
  }

  function Tail(n: nat): Byte {
    (0x80 + n % 0x40) as Byte
  }

  function EncodeChar(c: char): (b: Bytes)
    ensures 1 <= |b| <= 4
    ensures c as int < 0x80 ==> b == [c as Byte]
    ensures c as int >= 0x80 ==> forall x <- b :: x >= 0x80
  {
    var n := c as nat;
    if n < 0x80 then [n as Byte]
    else if n < 0x800 then [Lead(0xC0, n / 0x40), Tail(n)]
    else if n < 0x10000 then [Lead(0xE0, n / 0x1000), Tail(n / 0x40), Tail(n)]
    else [Lead(0xF0, n / 0x40000), Tail(n / 0x1000), Tail(n / 0x40), Tail(n)]
  }

  function Encode(s: string): Bytes {
    if s == [] then [] else EncodeChar(s[0]) + Encode(s[1..])
  }

  predicate IsTail(b: Byte) {
    0x80 <= b < 0xC0
  }

  /** How long the character opened by `b` is; 0 when no character opens so. */
  function Length(b: Byte): nat {
    if b < 0x80 then 1
    else if b < 0xC0 then 0
    else if b < 0xE0 then 2
    else if b < 0xF0 then 3
    else if b < 0xF8 then 4
    else 0
  }

  /** The number a well-formed sequence of that length spells. */
  function Spelled(b: Bytes, i: nat, len: nat): (n: nat)
    requires 1 <= len <= 4 && i + len <= |b|
    requires Length(b[i]) == len && forall k :: i < k < i + len ==> IsTail(b[k])
  {
    var first := b[i] as int;
    if len == 1 then first
    else if len == 2 then (first - 0xC0) * 0x40 + Low(b[i + 1])
    else if len == 3 then ((first - 0xE0) * 0x40 + Low(b[i + 1])) * 0x40 + Low(b[i + 2])
    else (((first - 0xF0) * 0x40 + Low(b[i + 1])) * 0x40 + Low(b[i + 2])) * 0x40 + Low(b[i + 3])
  }

  function Low(b: Byte): nat
    requires IsTail(b)
  {
    b as int - 0x80
  }

  /** The least number each length may spell: anything smaller is overlong. */
  function Least(len: nat): nat {
    if len <= 1 then 0 else if len == 2 then 0x80 else if len == 3 then 0x800 else 0x10000
  }

  function DecodeChar(b: Bytes, i: nat): (r: Option<(char, nat)>)
    requires i < |b|
    ensures r.Some? ==> i < r.value.1 <= |b|
  {
    var len := Length(b[i]);
    if len == 0 || i + len > |b| || !(forall k :: i < k < i + len ==> IsTail(b[k])) then None
    else
      var n := Spelled(b, i, len);
      if n >= Least(len) && IsScalar(n) then Some((n as char, i + len)) else None
  }

  function DecodeFrom(b: Bytes, i: nat): Option<string>
    requires i <= |b|
    decreases |b| - i
  {
    if i == |b| then Some([])
    else
      match DecodeChar(b, i)
      case None => None
      case Some((c, next)) =>
        match DecodeFrom(b, next)
        case None => None
        case Some(s) => Some([c] + s)
  }

  /** Text from bytes, when they are UTF-8. */
  function Decode(b: Bytes): Option<string> {
    DecodeFrom(b, 0)
  }

  lemma DecodeTwo(b: Bytes, i: nat, high: nat, low: nat)
    requires i + 2 <= |b| && high < 0x20 && low < 0x40 && high * 0x40 + low >= 0x80
    requires b[i] as nat == 0xC0 + high && b[i + 1] as nat == 0x80 + low
    ensures DecodeChar(b, i) == Some(((high * 0x40 + low) as char, i + 2))
  {
  }

  lemma DecodeThree(b: Bytes, i: nat, high: nat, mid: nat, low: nat)
    requires i + 3 <= |b| && high < 0x10 && mid < 0x40 && low < 0x40
    requires b[i] as nat == 0xE0 + high && b[i + 1] as nat == 0x80 + mid && b[i + 2] as nat == 0x80 + low
    requires var n := (high * 0x40 + mid) * 0x40 + low; n >= 0x800 && IsScalar(n)
    ensures DecodeChar(b, i) == Some((((high * 0x40 + mid) * 0x40 + low) as char, i + 3))
  {
  }

  lemma DecodeFour(b: Bytes, i: nat, high: nat, upper: nat, mid: nat, low: nat)
    requires i + 4 <= |b| && high < 0x8 && upper < 0x40 && mid < 0x40 && low < 0x40
    requires b[i] as nat == 0xF0 + high && b[i + 1] as nat == 0x80 + upper
    requires b[i + 2] as nat == 0x80 + mid && b[i + 3] as nat == 0x80 + low
    requires var n := ((high * 0x40 + upper) * 0x40 + mid) * 0x40 + low; n >= 0x10000 && IsScalar(n)
    ensures DecodeChar(b, i) == Some(((((high * 0x40 + upper) * 0x40 + mid) * 0x40 + low) as char, i + 4))
  {
  }

  lemma EncodedCharBack(b: Bytes, i: nat, c: char)
    requires OccursAt(b, i, EncodeChar(c))
    ensures i < |b| && DecodeChar(b, i) == Some((c, i + |EncodeChar(c)|))
  {
    hide DecodeChar;
    var e := EncodeChar(c);
    OccursElements(b, i, e);
    var n := c as nat;
    assert b[i + 0] == e[0];
    if n < 0x80 {
      DecodeOne(b, i);
    } else if n < 0x800 {
      assert b[i + 1] == e[1];
      TwoBytes(n);
      DecodeTwo(b, i, n / 0x40, n % 0x40);
    } else if n < 0x10000 {
      assert b[i + 1] == e[1] && b[i + 2] == e[2];
      ThreeBytes(n);
      DecodeThree(b, i, n / 0x1000, n / 0x40 % 0x40, n % 0x40);
    } else {
      assert b[i + 1] == e[1] && b[i + 2] == e[2] && b[i + 3] == e[3];
      FourBytes(n);
      DecodeFour(b, i, n / 0x40000, n / 0x1000 % 0x40, n / 0x40 % 0x40, n % 0x40);
    }
  }

  lemma DecodeOne(b: Bytes, i: nat)
    requires i < |b| && b[i] < 0x80
    ensures DecodeChar(b, i) == Some((b[i] as char, i + 1))
  {
  }

  lemma TwoBytes(n: nat)
    ensures n == (n / 0x40) * 0x40 + n % 0x40
  {
  }

  lemma ThreeBytes(n: nat)
    ensures n == ((n / 0x1000) * 0x40 + n / 0x40 % 0x40) * 0x40 + n % 0x40
  {
    assert n / 0x40 / 0x40 == n / 0x1000;
    TwoBytes(n);
    TwoBytes(n / 0x40);
  }

  lemma FourBytes(n: nat)
    ensures n == (((n / 0x40000) * 0x40 + n / 0x1000 % 0x40) * 0x40 + n / 0x40 % 0x40) * 0x40 + n % 0x40
  {
    var m := n / 0x40;
    assert m / 0x1000 == n / 0x40000 && m / 0x40 == n / 0x1000;
    ThreeBytes(m);
    TwoBytes(n);
  }

  lemma {:induction false} EncodedBackFrom(b: Bytes, i: nat, s: string)
    requires i <= |b| && b[i..] == Encode(s)
    ensures DecodeFrom(b, i).Some? && DecodeFrom(b, i).value == s
    decreases |s|
  {
    hide EncodeChar, DecodeChar;
    if s == [] {
      assert |b[i..]| == |b| - i == 0;
    } else {
      var e, rest := EncodeChar(s[0]), Encode(s[1..]);
      assert b[i..i + |e|] == (b[i..])[..|e|] == e;
      assert b[i + |e|..] == (b[i..])[|e|..] == rest;
      EncodedCharBack(b, i, s[0]);
      EncodedBackFrom(b, i + |e|, s[1..]);
    }
  }

  /** Encoded text decodes to itself. */
  lemma EncodedBack(s: string)
    ensures Decode(Encode(s)) == Some(s)
  {
    assert Encode(s)[0..] == Encode(s);
    EncodedBackFrom(Encode(s), 0, s);
  }

  lemma EncodeMore(c: char, s: string)
    ensures Encode([c] + s) == EncodeChar(c) + Encode(s)
  {
    hide EncodeChar;
    assert ([c] + s)[1..] == s;
  }

  lemma EncodeNothing(b: string)
    ensures Encode([] + b) == Encode([]) + Encode(b)
  {
    assert [] + b == b && [] + Encode(b) == Encode(b);
  }

  lemma {:induction false} EncodeConcat(a: string, b: string)
    ensures Encode(a + b) == Encode(a) + Encode(b)
  {
    hide Encode, EncodeChar;
    if a == [] {
      EncodeNothing(b);
    } else {
      var rest := a[1..];
      assert [a[0]] + rest == a && [a[0]] + (rest + b) == a + b;
      EncodeMore(a[0], rest);
      EncodeMore(a[0], rest + b);
      EncodeConcat(rest, b);
      assert EncodeChar(a[0]) + (Encode(rest) + Encode(b)) == (EncodeChar(a[0]) + Encode(rest)) + Encode(b);
    }
  }

  lemma EncodeOne(c: char)
    ensures Encode([c]) == EncodeChar(c)
  {
    hide EncodeChar;
    assert Encode([c]) == EncodeChar(c) + [];
  }

  // ---- and only encoded text decodes --------------------------------------------------------------

  lemma SplitNumber(high: nat, low: nat)
    requires low < 0x40
    ensures (high * 0x40 + low) / 0x40 == high && (high * 0x40 + low) % 0x40 == low
  {
  }

  lemma TwoEncoded(b: Bytes, i: nat)
    requires i + 2 <= |b| && Length(b[i]) == 2 && DecodeChar(b, i).Some?
    ensures EncodeChar(DecodeChar(b, i).value.0) == b[i..i + 2]
  {
    SplitNumber(b[i] as int - 0xC0, Low(b[i + 1]));
  }

  lemma ThreeEncoded(b: Bytes, i: nat)
    requires i + 3 <= |b| && Length(b[i]) == 3 && DecodeChar(b, i).Some?
    ensures EncodeChar(DecodeChar(b, i).value.0) == b[i..i + 3]
  {
    var n := DecodeChar(b, i).value.0 as nat;
    var high := b[i] as int - 0xE0;
    SplitNumber(high, Low(b[i + 1]));
    SplitNumber(high * 0x40 + Low(b[i + 1]), Low(b[i + 2]));
    assert n / 0x40 / 0x40 == n / 0x1000;
  }

  lemma FourEncoded(b: Bytes, i: nat)
    requires i + 4 <= |b| && Length(b[i]) == 4 && DecodeChar(b, i).Some?
    ensures EncodeChar(DecodeChar(b, i).value.0) == b[i..i + 4]
  {
    var n := DecodeChar(b, i).value.0 as nat;
    var high := b[i] as int - 0xF0;
    var two := high * 0x40 + Low(b[i + 1]);
    var three := two * 0x40 + Low(b[i + 2]);
    SplitNumber(high, Low(b[i + 1]));
    SplitNumber(two, Low(b[i + 2]));
    SplitNumber(three, Low(b[i + 3]));
    assert n / 0x40 == three && n / 0x1000 == three / 0x40 && n / 0x40000 == two / 0x40;
  }

  lemma DecodedChar(b: Bytes, i: nat)
    requires i < |b| && DecodeChar(b, i).Some?
    ensures var (c, next) := DecodeChar(b, i).value; EncodeChar(c) == b[i..next]
  {
    hide EncodeChar;
    if Length(b[i]) == 1 {
      OneEncoded(b, i);
    } else if Length(b[i]) == 2 {
      TwoEncoded(b, i);
    } else if Length(b[i]) == 3 {
      ThreeEncoded(b, i);
    } else {
      FourEncoded(b, i);
    }
  }

  lemma OneEncoded(b: Bytes, i: nat)
    requires i < |b| && Length(b[i]) == 1 && DecodeChar(b, i).Some?
    ensures EncodeChar(DecodeChar(b, i).value.0) == b[i..i + 1]
  {
  }

  lemma {:induction false} DecodedFrom(b: Bytes, i: nat)
    requires i <= |b| && DecodeFrom(b, i).Some?
    ensures Encode(DecodeFrom(b, i).value) == b[i..]
    decreases |b| - i
  {
    hide EncodeChar, DecodeChar;
    if i < |b| {
      var (c, next) := DecodeChar(b, i).value;
      DecodedChar(b, i);
      DecodedFrom(b, next);
      EncodeMore(c, DecodeFrom(b, next).value);
      assert b[i..] == b[i..next] + b[next..];
    }
  }

  /** Bytes decode exactly when they are some text's encoding, and then to that text. */
  lemma DecodesWhatIsEncoded(b: Bytes)
    ensures Decode(b).Some? ==> Encode(Decode(b).value) == b
    ensures forall s: string :: Encode(s) == b ==> Decode(b) == Some(s)
  {
    hide Encode, DecodeFrom;
    if Decode(b).Some? {
      DecodedFrom(b, 0);
      assert b[0..] == b;
    }
    forall s: string | Encode(s) == b
      ensures Decode(b) == Some(s)
    {
      EncodedBack(s);
    }
  }

  // ---- the bytes themselves -----------------------------------------------------------------------

  /** Six bits of a character, in a byte that continues it. */
  predicate Carries(b: Byte, bits: int) {
    128 <= b < 192 && b as int == 128 + bits
  }

  /** A character's bytes as section 3 of RFC 3629 lays its bits out, the highest first. */
  lemma BytesAre(c: char)
    ensures var n, e := c as int, EncodeChar(c);
            && (n < 128 ==> |e| == 1 && e[0] as int == n)
            && (128 <= n < 2048 ==> |e| == 2 && e[0] as int == 192 + n / 64 && Carries(e[1], n % 64))
            && (2048 <= n < 65536 ==>
                  |e| == 3 && e[0] as int == 224 + n / 4096 && Carries(e[1], n / 64 % 64) && Carries(e[2], n % 64))
            && (65536 <= n ==>
                  && |e| == 4 && e[0] as int == 240 + n / 262144 && Carries(e[1], n / 4096 % 64)
                  && Carries(e[2], n / 64 % 64) && Carries(e[3], n % 64))
  {
  }
}
