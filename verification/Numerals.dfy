/**
 Digits, hexadecimal and decimal, read and written as the standard library does: an optional sign, no
 overflow, no empty numbers.
 */
module Numerals {
  import opened Wrappers

  // ---- hexadecimal ------------------------------------------------------------------------------

  function HexDigit(c: char): Option<nat> {
    if '0' <= c <= '9' then Some(c as nat - '0' as nat)
    else if 'a' <= c <= 'f' then Some(10 + (c as nat - 'a' as nat))
    else if 'A' <= c <= 'F' then Some(10 + (c as nat - 'A' as nat))
    else None
  }

  function HexDigits(s: string): Option<nat> {
    if s == [] then Some(0)
    else
      match (HexDigits(s[..|s| - 1]), HexDigit(s[|s| - 1]))
      case (Some(n), Some(d)) => Some(16 * n + d)
      case _ => None
  }

  /** Digits with an optional leading `+`. */
  function ParseHex(s: string): Option<nat> {
    if s == [] || s == "+" then None
    else if s[0] == '+' then HexDigits(s[1..])
    else HexDigits(s)
  }

  predicate IsScalar(n: nat) {
    n < 0xD800 || 0xE000 <= n < 0x110000
  }

  function HexUpper(d: nat): char
    requires d < 16
  {
    if d < 10 then ('0' as nat + d) as char else ('A' as nat + (d - 10)) as char
  }

  function HexLower(d: nat): char
    requires d < 16
  {
    if d < 10 then ('0' as nat + d) as char else ('a' as nat + (d - 10)) as char
  }

  lemma HexBack(d: nat)
    requires d < 16
    ensures HexDigit(HexUpper(d)) == Some(d) && HexDigit(HexLower(d)) == Some(d)
  {
  }

  function HexValue4(a: nat, b: nat, c: nat, d: nat): nat {
    ((16 * a + b) * 16 + c) * 16 + d
  }

  /** Four digits make a number. */
  lemma FourDigits(s: string)
    requires |s| == 4 && forall k :: 0 <= k < 4 ==> HexDigit(s[k]).Some?
    ensures ParseHex(s) == Some(HexValue4(HexDigit(s[0]).value, HexDigit(s[1]).value, HexDigit(s[2]).value, HexDigit(s[3]).value))
  {
    var a, b, c := s[..1], s[..2], s[..3];
    assert a[..0] == [] && b[..1] == a && c[..2] == b && s[..3] == c;
    assert HexDigits(a) == HexDigit(s[0]) by { assert HexDigits(a[..0]) == Some(0); }
    assert HexDigits(b).Some? && HexDigits(c).Some?;
  }

  // ---- decimal ----------------------------------------------------------------------------------

  function Digit(c: char): Option<nat> {
    if '0' <= c <= '9' then Some(c as nat - '0' as nat) else None
  }

  function Digits(s: string): Option<nat> {
    if s == [] then Some(0)
    else
      match (Digits(s[..|s| - 1]), Digit(s[|s| - 1]))
      case (Some(n), Some(d)) => Some(10 * n + d)
      case _ => None
  }

  const MIN_I64: int := -0x8000_0000_0000_0000
  const MAX_I64: int := 0x7FFF_FFFF_FFFF_FFFF

  /** A signed 64-bit number: an optional sign, digits, no overflow. */
  function ParseI64(s: string): Option<int> {
    var signed := s != [] && (s[0] == '-' || s[0] == '+');
    var digits := if signed then s[1..] else s;
    if digits == [] then None
    else
      match Digits(digits)
      case None => None
      case Some(n) =>
        var size: int := n;
        var value := if s[0] == '-' then -size else size;
        if MIN_I64 <= value <= MAX_I64 then Some(value) else None
  }

  function Decimal(n: nat): (s: string)
    ensures s != [] && forall c <- s :: '0' <= c <= '9'
  {
    var last := ('0' as nat + n % 10) as char;
    if n < 10 then [last] else Decimal(n / 10) + [last]
  }

  function IntText(n: int): string {
    if n < 0 then "-" + Decimal(-n) else Decimal(n)
  }

  lemma {:induction false} DigitsBack(n: nat)
    ensures Digits(Decimal(n)) == Some(n)
  {
    var s := Decimal(n);
    var last := ('0' as nat + n % 10) as char;
    assert Digit(last) == Some(n % 10);
    if n < 10 {
      assert s[..0] == [];
    } else {
      DigitsBack(n / 10);
      assert s[..|s| - 1] == Decimal(n / 10);
    }
  }

  /** A written number reads back. */
  lemma IntBack(n: int)
    requires MIN_I64 <= n <= MAX_I64
    ensures ParseI64(IntText(n)) == Some(n)
  {
    DigitsBack(if n < 0 then -n else n);
    var s := IntText(n);
    if n < 0 {
      assert s[0] == '-' && s[1..] == Decimal(-n);
    } else {
      assert s[0] in s && s[0] != '-' && s[0] != '+';
    }
  }
}
