/**
 Text as Unicode scalar values: white space and control characters, indentation and trimming, and searching
 for a character.
 */
module Text {

  predicate IsWhitespace(c: char) {
    var n := c as int;
    || 9 <= n <= 13 || n == 32 || n == 0x85 || n == 0xA0 || n == 0x1680
    || 0x2000 <= n <= 0x200A || n == 0x2028 || n == 0x2029 || n == 0x202F || n == 0x205F || n == 0x3000
  }

  predicate IsControl(c: char) {
    var n := c as int;
    n < 0x20 || 0x7F <= n < 0xA0
  }

  predicate IsBlankChar(c: char) {
    c == ' ' || c == '\t'
  }

  /** The first index from `i` whose character is not a space or a tab. */
  function SkipBlanks(s: string, i: nat): (j: nat)
    requires i <= |s|
    ensures i <= j <= |s|
    ensures forall k :: i <= k < j ==> IsBlankChar(s[k])
    ensures j < |s| ==> !IsBlankChar(s[j])
    decreases |s| - i
  {
    if i < |s| && IsBlankChar(s[i]) then SkipBlanks(s, i + 1) else i
  }

  /** How much leading white space `s` has. */
  function Indent(s: string): (n: nat)
    ensures n <= |s|
    ensures forall k :: 0 <= k < n ==> IsWhitespace(s[k])
    ensures n < |s| ==> !IsWhitespace(s[n])
  {
    if s != [] && IsWhitespace(s[0]) then 1 + Indent(s[1..]) else 0
  }

  /** The length of `s` without trailing white space. */
  function TrimmedLength(s: string): (n: nat)
    ensures n <= |s|
    ensures forall k :: n <= k < |s| ==> IsWhitespace(s[k])
    ensures n > 0 ==> !IsWhitespace(s[n - 1])
  {
    if s != [] && IsWhitespace(s[|s| - 1]) then TrimmedLength(s[..|s| - 1]) else |s|
  }

  function TrimStart(s: string): string {
    s[Indent(s)..]
  }

  function TrimEnd(s: string): string {
    s[..TrimmedLength(s)]
  }

  function Trim(s: string): string {
    TrimEnd(TrimStart(s))
  }

  /** The first index from `i` holding `c`, or the length. */
  function Find(s: string, c: char, i: nat): (j: nat)
    requires i <= |s|
    ensures i <= j <= |s|
    ensures forall k :: i <= k < j ==> s[k] != c
    ensures j < |s| ==> s[j] == c
    decreases |s| - i
  {
    if i < |s| && s[i] != c then Find(s, c, i + 1) else i
  }

  predicate EndsWith(s: string, c: char) {
    s != [] && s[|s| - 1] == c
  }

  /** Indentation is where it says: the first character that is not white space. */
  lemma {:induction false} IndentIs(s: string, n: nat)
    requires n < |s| && !IsWhitespace(s[n]) && forall k :: 0 <= k < n ==> IsWhitespace(s[k])
    ensures Indent(s) == n
  {
    if n > 0 {
      IndentIs(s[1..], n - 1);
    }
  }

  lemma TrimmedLengthIs(s: string, n: nat)
    requires n <= |s| && (n > 0 ==> !IsWhitespace(s[n - 1])) && forall k :: n <= k < |s| ==> IsWhitespace(s[k])
    ensures TrimmedLength(s) == n
  {
  }

  lemma SkipBlanksIs(s: string, i: nat, j: nat)
    requires i <= j <= |s| && (forall k :: i <= k < j ==> IsBlankChar(s[k])) && (j < |s| ==> !IsBlankChar(s[j]))
    ensures SkipBlanks(s, i) == j
  {
  }

  lemma FindIs(s: string, c: char, i: nat, j: nat)
    requires i <= j <= |s| && (forall k :: i <= k < j ==> s[k] != c) && (j < |s| ==> s[j] == c)
    ensures Find(s, c, i) == j
  {
  }

  /** No white space at either end. */
  predicate IsTrimmed(s: string) {
    s == [] || (!IsWhitespace(s[0]) && !IsWhitespace(s[|s| - 1]))
  }

  lemma TrimIsTrimmed(s: string)
    ensures IsTrimmed(Trim(s)) && forall c <- Trim(s) :: c in s
  {
    var start := TrimStart(s);
    assert forall c <- start :: c in s;
    assert Trim(s) != [] ==> Trim(s)[0] == start[0];
  }

  lemma TrimmedStays(s: string)
    requires IsTrimmed(s)
    ensures Trim(s) == s && TrimStart(s) == s
  {
    if s != [] {
      IndentIs(s, 0);
      TrimmedLengthIs(s, |s|);
    }
  }
}
