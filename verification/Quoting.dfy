/** Quoting arguments. */
module Quoting {
  // Arguments quoted for a `.bat` line, and how the launched program reads them back.

  import opened Text

  // ---- quoting ----------------------------------------------------------------------------------

  /** Every percent sign twice, as `cmd` needs it. */
  function Doubled(s: string): string {
    if s == [] then [] else (if s[0] == '%' then "%%" else [s[0]]) + Doubled(s[1..])
  }

  function Repeat(c: char, n: nat): (s: string)
    ensures |s| == n && forall k :: 0 <= k < n ==> s[k] == c
  {
    if n == 0 then [] else [c] + Repeat(c, n - 1)
  }

  predicate IsOperator(c: char) {
    c == '\"' || c == '&' || c == '|' || c == '<' || c == '>' || c == '^'
  }

  predicate NeedsQuotes(s: string) {
    s == [] || HasSpecial(s)
  }

  predicate HasSpecial(s: string) {
    exists k :: 0 <= k < |s| && (IsWhitespace(s[k]) || IsOperator(s[k]))
  }

  /** The rest of a quoted argument, after `n` backslashes not yet written. */
  function QuotedFrom(s: string, n: nat): string
    decreases |s|
  {
    if s == [] then Repeat('\\', 2 * n) + "\""
    else if s[0] == '\\' then QuotedFrom(s[1..], n + 1)
    else if s[0] == '\"' then Repeat('\\', 2 * n + 1) + ("\"" + QuotedFrom(s[1..], 0))
    else Repeat('\\', n) + ([s[0]] + QuotedFrom(s[1..], 0))
  }

  function Quoted(s: string): string {
    if NeedsQuotes(s) then "\"" + QuotedFrom(s, 0) else s
  }

  function BatQuoted(arg: string): string {
    Quoted(Doubled(arg))
  }

  function DoubledChar(c: char): string {
    if c == '%' then "%%" else [c]
  }

  lemma DoubledMore(c: char, s: string)
    ensures Doubled([c] + s) == DoubledChar(c) + Doubled(s)
  {
    assert ([c] + s)[1..] == s;
  }

  lemma DoubledAll(out: string)
    ensures out + Doubled([]) == out
  {
  }

  method DoublePercents(s: string) returns (out: string)
    ensures out == Doubled(s)
  {
    hide Doubled;
    out := [];
    assert s[0..] == s;
    for k := 0 to |s|
      invariant out + Doubled(s[k..]) == Doubled(s)
    {
      assert s[k..] == [s[k]] + s[k + 1..];
      DoubledMore(s[k], s[k + 1..]);
      var piece := if s[k] == '%' then "%%" else [s[k]];
      assert out + (piece + Doubled(s[k + 1..])) == (out + piece) + Doubled(s[k + 1..]);
      out := out + piece;
    }
    assert s[|s|..] == [];
    DoubledAll(out);
  }

  method BatQuote(arg: string) returns (out: string)
    ensures out == BatQuoted(arg)
  {
    hide Doubled;
    var doubled := DoublePercents(arg);
    if !NeedsQuotes(doubled) {
      return doubled;
    }
    out := "\"";
    var backslashes: nat := 0;
    for k := 0 to |doubled|
      invariant out + QuotedFrom(doubled[k..], backslashes) == "\"" + QuotedFrom(doubled, 0)
    {
      ghost var rest := doubled[k + 1..];
      assert doubled[k..][0] == doubled[k] && doubled[k..][1..] == rest;
      if doubled[k] == '\\' {
        backslashes := backslashes + 1;
      } else if doubled[k] == '\"' {
        Onto(out, Repeat('\\', 2 * backslashes + 1), "\"", QuotedFrom(rest, 0));
        out := out + Repeat('\\', backslashes * 2 + 1);
        out := out + "\"";
        backslashes := 0;
      } else {
        Onto(out, Repeat('\\', backslashes), [doubled[k]], QuotedFrom(rest, 0));
        out := out + Repeat('\\', backslashes);
        out := out + [doubled[k]];
        backslashes := 0;
      }
    }
    assert (out + Repeat('\\', 2 * backslashes)) + "\"" == out + (Repeat('\\', 2 * backslashes) + "\"");
    out := out + Repeat('\\', backslashes * 2);
    out := out + "\"";
  }

  lemma Onto(out: string, a: string, b: string, rest: string)
    ensures out + (a + (b + rest)) == ((out + a) + b) + rest
  {
    assert out + (a + (b + rest)) == (out + a) + (b + rest);
  }

  // ---- reading back: `cmd`, then the program's start-up code --------------------------------------

  /** What `cmd` makes of doubled percent signs. */
  function Collapsed(s: string): string
    decreases |s|
  {
    if s == [] then []
    else if |s| >= 2 && s[0] == '%' && s[1] == '%' then ['%'] + Collapsed(s[2..])
    else [s[0]] + Collapsed(s[1..])
  }

  /** An argument and the command line after it. */
  datatype Taken = Taken(arg: string, rest: string)

  function Before(s: string, taken: Taken): Taken {
    Taken(s + taken.arg, taken.rest)
  }

  /** One argument read by the rules of the Microsoft C run-time: `n` backslashes before a quote stand
      for half as many, and an odd one makes the quote a character; other backslashes are themselves;
      a quote opens or closes quoting, and two inside it are one character. */
  function TakeArgument(s: string, n: nat, quoting: bool): (taken: Taken)
    ensures |taken.rest| <= |s|
    decreases |s|
  {
    if s == [] then Taken(Repeat('\\', n), [])
    else if s[0] == '\\' then TakeArgument(s[1..], n + 1, quoting)
    else if s[0] == '\"' then
      if n % 2 == 1 then Before(Repeat('\\', n / 2) + "\"", TakeArgument(s[1..], 0, quoting))
      else if quoting && |s| >= 2 && s[1] == '\"' then Before(Repeat('\\', n / 2) + "\"", TakeArgument(s[2..], 0, true))
      else Before(Repeat('\\', n / 2), TakeArgument(s[1..], 0, !quoting))
    else if IsBlankChar(s[0]) && !quoting then Taken(Repeat('\\', n), s)
    else Before(Repeat('\\', n) + [s[0]], TakeArgument(s[1..], 0, quoting))
  }

  /** Whatever is not blank is taken. */
  lemma {:induction false} TakesSome(s: string, quoting: bool)
    requires s != [] && !IsBlankChar(s[0])
    ensures |TakeArgument(s, 0, quoting).rest| < |s|
  {
  }

  /** The command line as arguments. */
  function Arguments(s: string): seq<string>
    decreases |s|
  {
    var rest := s[SkipBlanks(s, 0)..];
    if rest == [] then []
    else
      var taken := TakeArgument(rest, 0, false);
      TakesSome(rest, false);
      [taken.arg] + Arguments(taken.rest)
  }
}
