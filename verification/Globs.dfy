/** Globs over paths. */
module Globs {
  // Segments match one to one, and `**` matches any number of them.

  import opened Sequences
  import opened Splitting
  import opened Wildcards

  const ANY_SEGMENTS: string := "**"

  // ---- what a pattern means ---------------------------------------------------------------------

  ghost predicate CoversSegments(part: string, run: seq<string>) {
    part == "**" || (|run| == 1 && Language(part, run[0]))
  }

  /** The path cut into one run of segments per part of the pattern, each a run its part covers. */
  ghost predicate IsPathReading(pattern: seq<string>, runs: seq<seq<string>>, path: seq<string>) {
    && |runs| == |pattern|
    && Flatten(runs) == path
    && forall i :: 0 <= i < |pattern| ==> CoversSegments(pattern[i], runs[i])
  }

  ghost predicate PathLanguage(pattern: seq<string>, path: seq<string>) {
    exists runs: seq<seq<string>> :: IsPathReading(pattern, runs, path)
  }

  ghost predicate GlobLanguage(pattern: string, path: string) {
    PathLanguage(Split(pattern, '/'), Split(path, '/'))
  }

  // ---- the match --------------------------------------------------------------------------------

  predicate SegmentsMatch(pattern: seq<string>, path: seq<string>)
    decreases |pattern|
  {
    if pattern == [] then path == []
    else if pattern[0] == ANY_SEGMENTS then
      exists skip :: 0 <= skip <= |path| && SegmentsMatch(pattern[1..], path[skip..])
    else
      path != [] && GreedyMatches(pattern[0], path[0]) && SegmentsMatch(pattern[1..], path[1..])
  }

  predicate GlobMatches(pattern: string, path: string) {
    SegmentsMatch(Split(pattern, '/'), Split(path, '/'))
  }

  /** Whether any of the patterns matches. */
  predicate AppliesTo(patterns: seq<string>, path: string) {
    exists k :: 0 <= k < |patterns| && GlobMatches(patterns[k], path)
  }

  // ---- the match against the language -----------------------------------------------------------

  lemma {:induction false} MatchHasReading(pattern: seq<string>, path: seq<string>) returns (runs: seq<seq<string>>)
    requires SegmentsMatch(pattern, path)
    ensures IsPathReading(pattern, runs, path)
    decreases |pattern|
  {
    hide Language, GreedyMatches;
    if pattern == [] {
      runs := [];
    } else if pattern[0] == ANY_SEGMENTS {
      var skip :| 0 <= skip <= |path| && SegmentsMatch(pattern[1..], path[skip..]);
      var more := MatchHasReading(pattern[1..], path[skip..]);
      runs := [path[..skip]] + more;
      assert runs[1..] == more && path[..skip] + path[skip..] == path;
    } else {
      GreedyIsLanguage(pattern[0], path[0]);
      var more := MatchHasReading(pattern[1..], path[1..]);
      runs := [path[..1]] + more;
      assert runs[1..] == more && path[..1] + path[1..] == path;
    }
  }

  lemma {:induction false} ReadingIsMatched(pattern: seq<string>, runs: seq<seq<string>>, path: seq<string>)
    requires IsPathReading(pattern, runs, path) && forall segment <- path :: '*' !in segment
    ensures SegmentsMatch(pattern, path)
    decreases |pattern|
  {
    hide Language, GreedyMatches;
    if pattern != [] {
      var rest := Flatten(runs[1..]);
      assert path == runs[0] + rest;
      ReadingIsMatched(pattern[1..], runs[1..], rest);
      assert CoversSegments(pattern[0], runs[0]);
      if pattern[0] == ANY_SEGMENTS {
        assert path[|runs[0]|..] == rest;
      } else {
        assert path[0] == runs[0][0] && path[1..] == rest;
        GreedyIsLanguage(pattern[0], path[0]);
      }
    }
  }

  /** What a glob matches is in its language; for a path without a literal `*`, nothing else is. */
  lemma GlobIsLanguage(pattern: string, path: string)
    ensures GlobMatches(pattern, path) ==> GlobLanguage(pattern, path)
    ensures '*' !in path ==> (GlobMatches(pattern, path) <==> GlobLanguage(pattern, path))
  {
    hide SegmentsMatch, IsPathReading, Split;
    var ps, ss := Split(pattern, '/'), Split(path, '/');
    if SegmentsMatch(ps, ss) {
      var runs := MatchHasReading(ps, ss);
    }
    if '*' !in path {
      NoStarInParts(path);
      if runs: seq<seq<string>> :| IsPathReading(ps, runs, ss) {
        ReadingIsMatched(ps, runs, ss);
      }
    }
  }

  lemma NoStarInParts(path: string)
    requires '*' !in path
    ensures forall segment <- Split(path, '/') :: '*' !in segment
  {
    hide Split;
    InSomePart(path, '/', '*');
    forall segment | segment in Split(path, '/')
      ensures '*' !in segment
    {
      var k :| 0 <= k < |Split(path, '/')| && Split(path, '/')[k] == segment;
      assert '*' !in Split(path, '/')[k];
    }
  }

  // ---- a path with a star -----------------------------------------------------------------------

  /** Question marks for every segment but one. */
  function Around(segments: seq<string>, j: nat, part: string): (ps: seq<string>)
    requires j < |segments|
    ensures |ps| == |segments|
  {
    seq(|segments|, k requires 0 <= k < |segments| => if k == j then part else Questions(|segments[k]|))
  }

  lemma {:induction false} FailsAt(ps: seq<string>, ss: seq<string>, j: nat)
    requires j < |ps| == |ss| && (forall part <- ps :: part != ANY_SEGMENTS) && !GreedyMatches(ps[j], ss[j])
    ensures !SegmentsMatch(ps, ss)
    decreases j
  {
    hide GreedyMatches;
    assert ps[0] in ps;
    if j > 0 {
      assert forall part <- ps[1..] :: part in ps;
      FailsAt(ps[1..], ss[1..], j - 1);
    }
  }

  lemma {:induction false} Singles(ss: seq<string>) returns (runs: seq<seq<string>>)
    ensures |runs| == |ss| && Flatten(runs) == ss && forall k :: 0 <= k < |ss| ==> runs[k] == [ss[k]]
  {
    if ss == [] {
      runs := [];
    } else {
      var more := Singles(ss[1..]);
      runs := [[ss[0]]] + more;
      assert runs[1..] == more;
    }
  }

  lemma AllCovered(ps: seq<string>, ss: seq<string>)
    requires |ps| == |ss| && forall k :: 0 <= k < |ps| ==> Language(ps[k], ss[k])
    ensures PathLanguage(ps, ss)
  {
    hide Language, Flatten;
    var runs := Singles(ss);
    forall i | 0 <= i < |ps|
      ensures CoversSegments(ps[i], runs[i])
    {
      assert runs[i][0] == ss[i];
    }
    assert IsPathReading(ps, runs, ss);
  }

  lemma QuestionsAreSimple(n: nat)
    ensures Questions(n) != ANY_SEGMENTS && '/' !in Questions(n)
  {
    assert n > 0 ==> Questions(n)[0] == '?' != ANY_SEGMENTS[0];
  }

  lemma DefeatedIsSimple(segment: string, k: nat)
    requires k < |segment| && segment[k] == '*' && '*' !in segment[..k] && '/' !in segment
    ensures Defeated(segment, k) != ANY_SEGMENTS && '/' !in Defeated(segment, k)
  {
    var q := Questions(|segment| - k);
    var p := Defeated(segment, k);
    assert p[|p| - 1] == q[|q| - 1] == '?';
    assert forall c <- segment[..k] :: c in segment;
  }

  /** A path with a star in it is missed by a pattern whose language it is in. */
  lemma StarInPathIsMissed(path: string) returns (pattern: string)
    requires '*' in path
    ensures GlobLanguage(pattern, path) && !GlobMatches(pattern, path)
  {
    hide Split, Language, GreedyMatches, SegmentsMatch, PathLanguage, Defeated, Questions, FirstStar;
    var ss := Split(path, '/');
    SplitHasNone(path, '/');
    InSomePart(path, '/', '*');
    var j :| 0 <= j < |ss| && '*' in ss[j];
    var k := FirstStar(ss[j]);
    var part := Defeated(ss[j], k);
    var ps := Around(ss, j, part);
    DefeatedIsSimple(ss[j], k);
    StarIsMissed(ss[j], k);
    forall i | 0 <= i < |ps|
      ensures ps[i] != ANY_SEGMENTS && '/' !in ps[i] && Language(ps[i], ss[i])
    {
      if i != j {
        QuestionsAreSimple(|ss[i]|);
        QuestionsMatch(|ss[i]|, ss[i]);
        MatchesIsLanguage(ps[i], ss[i]);
      }
    }
    AllCovered(ps, ss);
    FailsAt(ps, ss, j);
    pattern := Join(ps, '/');
    SplitJoin(ps, '/');
  }

  /** Globs are right about a path, whatever the pattern, exactly when the path has no literal `*`. */
  lemma GlobsAreExactWithoutStars(path: string)
    ensures (forall pattern: string :: GlobMatches(pattern, path) <==> GlobLanguage(pattern, path)) <==> '*' !in path
  {
    hide GlobMatches, GlobLanguage;
    if '*' in path {
      var pattern := StarInPathIsMissed(path);
      assert GlobMatches(pattern, path) != GlobLanguage(pattern, path);
    } else {
      forall pattern: string
        ensures GlobMatches(pattern, path) <==> GlobLanguage(pattern, path)
      {
        GlobIsLanguage(pattern, path);
      }
    }
  }
}
