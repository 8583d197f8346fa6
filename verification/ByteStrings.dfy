/**
 Byte strings, what occurs in them where, and the few facts about slices of them that every component
 uses.
 */
module ByteStrings {

  newtype Byte = b: int | 0 <= b < 0x100
  type Bytes = seq<Byte>

  /** An ASCII literal as bytes. */
  function Ascii(s: string): (b: Bytes)
    requires forall c <- s :: c as int < 0x80
    ensures |b| == |s| && forall k :: 0 <= k < |s| ==> s[k] in s && b[k] == s[k] as Byte
  {
    seq(|s|, k requires 0 <= k < |s| => assert s[k] in s; s[k] as Byte)
  }

  /** `p` occurs in `text` at `i`. */
  predicate OccursAt(text: Bytes, i: nat, p: Bytes) {
    i + |p| <= |text| && text[i..i + |p|] == p
  }

  predicate IsDigit(b: Byte) {
    '0' as Byte <= b <= '9' as Byte
  }

  predicate IsAlpha(b: Byte) {
    'a' as Byte <= b <= 'z' as Byte || 'A' as Byte <= b <= 'Z' as Byte
  }

  lemma SliceOfSlice<T>(s: seq<T>, i: nat, j: nat, k: nat, m: nat)
    requires i <= j <= |s| && k <= m <= j - i
    ensures s[i..j][k..m] == s[i + k..i + m]
  {
    forall x | 0 <= x < m - k
      ensures s[i..j][k..m][x] == s[i + k..i + m][x]
    {
      assert s[i..j][k..m][x] == s[i..j][k + x];
    }
  }

  /** A word at `i` that splits in two is the two parts side by side. */
  lemma OccursSplit(text: Bytes, i: nat, p: Bytes, q: Bytes)
    ensures OccursAt(text, i, p + q) <==> OccursAt(text, i, p) && OccursAt(text, i + |p|, q)
  {
    if OccursAt(text, i, p + q) {
      SliceOfSlice(text, i, i + |p + q|, 0, |p|);
      SliceOfSlice(text, i, i + |p + q|, |p|, |p + q|);
      assert (p + q)[0..|p|] == p && (p + q)[|p|..|p + q|] == q;
    }
  }

  lemma OccursElements(text: Bytes, i: nat, p: Bytes)
    requires OccursAt(text, i, p)
    ensures forall k :: 0 <= k < |p| ==> text[i + k] == p[k]
  {
    forall k | 0 <= k < |p|
      ensures text[i + k] == p[k]
    {
      assert text[i..i + |p|][k] == text[i + k];
    }
  }

  lemma ElementsOccur(text: Bytes, i: nat, p: Bytes)
    requires i + |p| <= |text| && forall k :: 0 <= k < |p| ==> text[i + k] == p[k]
    ensures OccursAt(text, i, p)
  {
  }

  lemma OneOccurs(text: Bytes, i: nat, x: Byte)
    ensures OccursAt(text, i, [x]) <==> i < |text| && text[i] == x
  {
    if i < |text| {
      assert text[i..i + 1] == [text[i]];
    }
  }

  lemma TakeOne(b: Bytes, at: nat, x: Byte, rest: Bytes)
    requires at <= |b| && b[at..] == [x] + rest
    ensures at < |b| && b[at] == x && b[at + 1..] == rest
  {
    assert b[at..][0] == x;
    assert b[at + 1..] == b[at..][1..];
  }

  lemma TakeAll(b: Bytes, at: nat, p: Bytes, rest: Bytes)
    requires at <= |b| && b[at..] == p + rest
    ensures at + |p| <= |b| && b[at..at + |p|] == p && b[at + |p|..] == rest
  {
    assert |b[at..]| == |p| + |rest|;
    assert b[at..at + |p|] == b[at..][..|p|];
    assert b[at + |p|..] == b[at..][|p|..];
  }
}
