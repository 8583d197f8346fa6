/**
 Text split at a separator and joined again, and the lines of a text as the standard library reads them,
 with what they leave out.
 */
module Splitting {
  import opened Text

  function Split(s: string, c: char): (parts: seq<string>)
    ensures parts != []
    decreases |s|
  {
    var j := Find(s, c, 0);
    if j == |s| then [s] else [s[..j]] + Split(s[j + 1..], c)
  }

  function Join(parts: seq<string>, c: char): string {
    if parts == [] then []
    else if |parts| == 1 then parts[0]
    else parts[0] + ([c] + Join(parts[1..], c))
  }

  lemma {:induction false} JoinSplit(s: string, c: char)
    ensures Join(Split(s, c), c) == s
    decreases |s|
  {
    var j := Find(s, c, 0);
    if j < |s| {
      JoinSplit(s[j + 1..], c);
      assert Split(s, c)[1..] == Split(s[j + 1..], c);
      assert s == s[..j] + ([c] + s[j + 1..]);
    }
  }

  lemma {:induction false} SplitHasNone(s: string, c: char)
    ensures forall part <- Split(s, c) :: c !in part
    decreases |s|
  {
    var j := Find(s, c, 0);
    if j < |s| {
      SplitHasNone(s[j + 1..], c);
    }
  }

  lemma SplitFirst(head: string, rest: string, c: char)
    requires c !in head
    ensures Split(head + ([c] + rest), c) == [head] + Split(rest, c)
  {
    var s := head + ([c] + rest);
    FindIs(s, c, 0, |head|);
    assert s[..|head|] == head && s[|head| + 1..] == rest;
  }

  lemma {:induction false} SplitJoin(parts: seq<string>, c: char)
    requires parts != [] && forall part <- parts :: c !in part
    ensures Split(Join(parts, c), c) == parts
  {
    assert parts[0] in parts;
    if |parts| == 1 {
      FindIs(parts[0], c, 0, |parts[0]|);
    } else {
      hide Split;
      assert forall part <- parts[1..] :: part in parts;
      SplitJoin(parts[1..], c);
      SplitFirst(parts[0], Join(parts[1..], c), c);
    }
  }

  predicate InSome(parts: seq<string>, x: char) {
    exists k :: 0 <= k < |parts| && x in parts[k]
  }

  /** A character other than the separator is in some part exactly when it is in the text. */
  lemma {:induction false} InSomePart(s: string, c: char, x: char)
    requires x != c
    ensures x in s <==> InSome(Split(s, c), x)
    decreases |s|
  {
    hide InSome;
    var j := Find(s, c, 0);
    if j < |s| {
      var first, rest := s[..j], s[j + 1..];
      InSomePart(rest, c, x);
      assert s == first + [c] + rest;
      InFirstOrRest(first, Split(rest, c), x);
    } else {
      InFirstOrRest(s, [], x);
      assert [s] + [] == [s];
      NoParts(x);
    }
  }

  lemma NoParts(x: char)
    ensures !InSome([], x)
  {
  }

  lemma InFirstOrRest(first: string, rest: seq<string>, x: char)
    ensures InSome([first] + rest, x) <==> x in first || InSome(rest, x)
  {
    var parts := [first] + rest;
    assert parts[0] == first;
    assert forall k :: 0 <= k < |rest| ==> rest[k] == parts[k + 1];
    assert forall k :: 1 <= k < |parts| ==> parts[k] == rest[k - 1];
  }

  // ---- lines ------------------------------------------------------------------------------------

  /** A line without the carriage return before its line feed. */
  function StripReturn(line: string): string {
    if EndsWith(line, '\r') then line[..|line| - 1] else line
  }

  /** The lines of a text: a carriage return goes with the line feed after it, and nothing follows the
      last line feed. */
  function Lines(s: string): seq<string>
    decreases |s|
  {
    if s == [] then []
    else
      var j := Find(s, '\n', 0);
      if j == |s| then [s] else [StripReturn(s[..j])] + Lines(s[j + 1..])
  }

  function WriteLines(lines: seq<string>): string {
    if lines == [] then [] else lines[0] + ("\n" + WriteLines(lines[1..]))
  }

  /** A line that reads back as written. */
  predicate IsLine(line: string) {
    '\n' !in line && !EndsWith(line, '\r')
  }

  lemma FirstLine(line: string, rest: string)
    requires '\n' !in line
    ensures Lines(line + ("\n" + rest)) == [StripReturn(line)] + Lines(rest)
  {
    var s := line + ("\n" + rest);
    FindIs(s, '\n', 0, |line|);
    assert s[..|line|] == line && s[|line| + 1..] == rest;
  }

  lemma {:induction false} WrittenLinesBack(lines: seq<string>)
    requires forall line <- lines :: IsLine(line)
    ensures Lines(WriteLines(lines)) == lines
  {
    if lines != [] {
      hide Lines;
      assert lines[0] in lines && forall line <- lines[1..] :: line in lines;
      WrittenLinesBack(lines[1..]);
      FirstLine(lines[0], WriteLines(lines[1..]));
    } else {
      assert WriteLines(lines) == [];
    }
  }

  lemma {:induction false} LinesHaveNone(s: string)
    ensures forall line <- Lines(s) :: '\n' !in line
    decreases |s|
  {
    hide Find, StripReturn;
    if s != [] {
      var j := Find(s, '\n', 0);
      if j < |s| {
        StrippedHasNone(s[..j]);
        LinesHaveNone(s[j + 1..]);
      }
    }
  }

  lemma StrippedHasNone(line: string)
    requires '\n' !in line
    ensures '\n' !in StripReturn(line)
  {
  }
}
