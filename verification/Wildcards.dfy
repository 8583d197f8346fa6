/** Wildcards. */
module Wildcards {
  // Within one path segment `?` is any character, and `*` any run of them.

  import opened Sequences
  import opened Wrappers

  // ---- what a pattern means ---------------------------------------------------------------------

  predicate Covers(c: char, run: string) {
    c == '*' || (|run| == 1 && (c == '?' || run[0] == c))
  }

  /** The segment cut into one run per pattern character, each a run its character covers. */
  predicate IsReading(pattern: string, runs: seq<string>, segment: string) {
    && |runs| == |pattern|
    && Flatten(runs) == segment
    && forall i :: 0 <= i < |pattern| ==> Covers(pattern[i], runs[i])
  }

  ghost predicate Language(pattern: string, segment: string) {
    exists runs: seq<string> :: IsReading(pattern, runs, segment)
  }

  /** The recursive definition. */
  predicate Matches(pattern: string, segment: string)
    decreases |pattern|, |segment|
  {
    if pattern == [] then segment == []
    else if pattern[0] == '*' then
      Matches(pattern[1..], segment) || (segment != [] && Matches(pattern, segment[1..]))
    else
      segment != [] && Covers(pattern[0], segment[..1]) && Matches(pattern[1..], segment[1..])
  }

  lemma {:induction false} MatchesHasReading(pattern: string, segment: string) returns (runs: seq<string>)
    requires Matches(pattern, segment)
    ensures IsReading(pattern, runs, segment)
    decreases |pattern|, |segment|
  {
    if pattern == [] {
      runs := [];
    } else if pattern[0] == '*' && !Matches(pattern[1..], segment) {
      var more := MatchesHasReading(pattern, segment[1..]);
      runs := [[segment[0]] + more[0]] + more[1..];
      assert Flatten(runs) == [segment[0]] + more[0] + Flatten(more[1..]);
      assert Flatten(runs) == [segment[0]] + (more[0] + Flatten(more[1..]));
    } else if pattern[0] == '*' {
      var more := MatchesHasReading(pattern[1..], segment);
      runs := [[]] + more;
      assert runs[1..] == more;
    } else {
      var more := MatchesHasReading(pattern[1..], segment[1..]);
      runs := [segment[..1]] + more;
      assert runs[1..] == more && segment == segment[..1] + segment[1..];
    }
  }

  lemma {:induction false} ReadingMatches(pattern: string, runs: seq<string>, segment: string)
    requires IsReading(pattern, runs, segment)
    ensures Matches(pattern, segment)
    decreases |pattern|
  {
    if pattern != [] {
      var rest := Flatten(runs[1..]);
      ReadingMatches(pattern[1..], runs[1..], rest);
      assert Covers(pattern[0], runs[0]);
      if pattern[0] == '*' {
        StarSwallows(pattern, runs[0], rest);
      } else {
        assert segment[..1] == runs[0] && segment[1..] == rest;
      }
    }
  }

  /** A star takes in any run before what the rest of the pattern matches. */
  lemma {:induction false} StarSwallows(pattern: string, run: string, rest: string)
    requires pattern != [] && pattern[0] == '*' && Matches(pattern[1..], rest)
    ensures Matches(pattern, run + rest)
    decreases |run|
  {
    if run == [] {
      assert run + rest == rest;
    } else {
      StarSwallows(pattern, run[1..], rest);
      assert (run + rest)[1..] == run[1..] + rest;
    }
  }

  lemma MatchesIsLanguage(pattern: string, segment: string)
    ensures Matches(pattern, segment) <==> Language(pattern, segment)
  {
    if Matches(pattern, segment) {
      var runs := MatchesHasReading(pattern, segment);
    }
    if runs: seq<string> :| IsReading(pattern, runs, segment) {
      ReadingMatches(pattern, runs, segment);
    }
  }

  // ---- the two-pointer match --------------------------------------------------------------------

  /** The last star tried: where it is in the pattern, and where what follows it was last tried from. */
  datatype Star = Star(p: nat, s: nat)

  predicate AllStars(pattern: string) {
    forall k :: 0 <= k < |pattern| ==> pattern[k] == '*'
  }

  predicate Inside(pattern: string, segment: string, p: nat, s: nat, star: Option<Star>) {
    && p <= |pattern| && s <= |segment|
    && (star.Some? ==> star.value.p < p && star.value.s <= s && pattern[star.value.p] == '*')
  }

  /** How much there is left to try. */
  function Left(segment: string, star: Option<Star>): int {
    match star
    case None => |segment| + 1
    case Some(st) => |segment| - st.s
  }

  /** What the match answers from one position of its two pointers and its last star. */
  predicate Greedy(pattern: string, segment: string, p: nat, s: nat, star: Option<Star>)
    requires Inside(pattern, segment, p, s, star)
    decreases Left(segment, star), |pattern| - p
  {
    if s == |segment| then AllStars(pattern[p..])
    else if p < |pattern| && (pattern[p] == '?' || pattern[p] == segment[s]) then
      Greedy(pattern, segment, p + 1, s + 1, star)
    else if p < |pattern| && pattern[p] == '*' then Greedy(pattern, segment, p + 1, s, Some(Star(p, s)))
    else if star.Some? then
      Greedy(pattern, segment, star.value.p + 1, star.value.s + 1, Some(Star(star.value.p, star.value.s + 1)))
    else false
  }

  predicate GreedyMatches(pattern: string, segment: string) {
    Greedy(pattern, segment, 0, 0, None)
  }

  method SegmentMatches(pattern: string, segment: string) returns (r: bool)
    ensures r == GreedyMatches(pattern, segment)
  {
    var p: nat, s: nat := 0, 0;
    var star: Option<Star> := None;
    while s < |segment|
      invariant Inside(pattern, segment, p, s, star)
      invariant Greedy(pattern, segment, p, s, star) == GreedyMatches(pattern, segment)
      decreases Left(segment, star), |pattern| - p
    {
      if p < |pattern| && (pattern[p] == '?' || pattern[p] == segment[s]) {
        p := p + 1;
        s := s + 1;
      } else if p < |pattern| && pattern[p] == '*' {
        star := Some(Star(p, s));
        p := p + 1;
      } else if star.Some? {
        p := star.value.p + 1;
        s := star.value.s + 1;
        star := Some(Star(star.value.p, s));
      } else {
        return false;
      }
    }
    return AllStars(pattern[p..]);
  }

  // ---- the two-pointer match against the definition ---------------------------------------------

  lemma AllStarsMatchNothing(pattern: string)
    ensures Matches(pattern, []) <==> AllStars(pattern)
  {
    if pattern != [] {
      AllStarsMatchNothing(pattern[1..]);
      assert forall k :: 1 <= k < |pattern| ==> pattern[k] == pattern[1..][k - 1];
      assert forall k :: 0 <= k < |pattern[1..]| ==> pattern[1..][k] == pattern[k + 1];
    }
  }

  /** From the star, one more character of the segment given to it each time. */
  ghost predicate LaterFromStar(pattern: string, segment: string, star: Option<Star>) {
    star.Some? && star.value.p < |pattern| && exists k :: star.value.s < k <= |segment| && Matches(pattern[star.value.p + 1..], segment[k..])
  }

  /** What the rest of the run may still find. */
  ghost predicate Hope(pattern: string, segment: string, p: nat, s: nat, star: Option<Star>)
    requires p <= |pattern| && s <= |segment|
  {
    Matches(pattern[p..], segment[s..]) || LaterFromStar(pattern, segment, star)
  }

  lemma Step(pattern: string, segment: string, p: nat, s: nat)
    requires p < |pattern| && s < |segment| && pattern[p] != '*'
    ensures Matches(pattern[p..], segment[s..])
            <==> Covers(pattern[p], [segment[s]]) && Matches(pattern[p + 1..], segment[s + 1..])
  {
    assert pattern[p..][1..] == pattern[p + 1..] && segment[s..][1..] == segment[s + 1..];
    assert segment[s..][..1] == [segment[s]];
  }

  /** A star matches by leaving some of the segment to what follows it. */
  lemma {:induction false} StarLeaves(pattern: string, segment: string)
    requires pattern != [] && pattern[0] == '*'
    ensures Matches(pattern, segment) <==> exists k :: 0 <= k <= |segment| && Matches(pattern[1..], segment[k..])
    decreases |segment|
  {
    if Matches(pattern, segment) {
      if Matches(pattern[1..], segment) {
        assert segment[0..] == segment;
      } else {
        StarLeaves(pattern, segment[1..]);
        var k :| 0 <= k <= |segment[1..]| && Matches(pattern[1..], segment[1..][k..]);
        assert segment[1..][k..] == segment[k + 1..];
      }
    }
    if k :| 0 <= k <= |segment| && Matches(pattern[1..], segment[k..]) {
      StarSwallows(pattern, segment[..k], segment[k..]);
      assert segment[..k] + segment[k..] == segment;
    }
  }

  /** A pattern's start without stars takes as many characters as it has. */
  lemma {:induction false} StarlessPrefix(pattern: string, n: nat, segment: string)
    requires n <= |pattern| && '*' !in pattern[..n] && Matches(pattern, segment)
    ensures n <= |segment| && Matches(pattern[n..], segment[n..])
    decreases n
  {
    if n > 0 {
      assert pattern[0] == pattern[..n][0] && pattern[0] in pattern[..n];
      assert pattern[1..][..n - 1] == pattern[..n][1..];
      StarlessPrefix(pattern[1..], n - 1, segment[1..]);
      assert pattern[1..][n - 1..] == pattern[n..] && segment[1..][n - 1..] == segment[n..];
    }
  }

  /** Since the last star, the pointers have moved together over pattern characters that are no stars. */
  predicate InStep(pattern: string, segment: string, p: nat, s: nat, star: Option<Star>)
    requires Inside(pattern, segment, p, s, star)
  {
    star.Some? ==> '*' !in pattern[star.value.p + 1..p] && p - (star.value.p + 1) == s - star.value.s
  }

  /** Giving more to the last star cannot find more than a star that comes now. */
  lemma LaterIsHere(pattern: string, segment: string, p: nat, s: nat, star: Option<Star>)
    requires Inside(pattern, segment, p, s, star) && InStep(pattern, segment, p, s, star)
    requires p < |pattern| && pattern[p] == '*' && LaterFromStar(pattern, segment, star)
    ensures Matches(pattern[p..], segment[s..])
  {
    var q, n := star.value.p + 1, p - (star.value.p + 1);
    var k :| star.value.s < k <= |segment| && Matches(pattern[q..], segment[k..]);
    assert pattern[q..][..n] == pattern[q..p];
    StarlessPrefix(pattern[q..], n, segment[k..]);
    assert pattern[q..][n..] == pattern[p..] && segment[k..][n..] == segment[k + n..];
    StarLeaves(pattern[p..], segment[k + n..]);
    var m :| 0 <= m <= |segment[k + n..]| && Matches(pattern[p..][1..], segment[k + n..][m..]);
    var more := k + n + m - s;
    assert segment[k + n..][m..] == segment[s..][more..];
    StarLeaves(pattern[p..], segment[s..]);
  }

  /** At the segment's end, there is nothing more to give to the last star. */
  lemma NothingLater(pattern: string, segment: string, p: nat, star: Option<Star>)
    requires Inside(pattern, segment, p, |segment|, star) && InStep(pattern, segment, p, |segment|, star)
    ensures !LaterFromStar(pattern, segment, star)
  {
    if LaterFromStar(pattern, segment, star) {
      var q, n := star.value.p + 1, p - (star.value.p + 1);
      var k :| star.value.s < k <= |segment| && Matches(pattern[q..], segment[k..]);
      assert pattern[q..][..n] == pattern[q..p];
      StarlessPrefix(pattern[q..], n, segment[k..]);
    }
  }

  /** A star at `p` tried from `s`: what it may still find is what the pattern from it matches. */
  lemma StarHope(pattern: string, segment: string, p: nat, s: nat)
    requires p < |pattern| && s <= |segment| && pattern[p] == '*'
    ensures Hope(pattern, segment, p + 1, s, Some(Star(p, s))) <==> Matches(pattern[p..], segment[s..])
  {
    StarLeaves(pattern[p..], segment[s..]);
    assert pattern[p..][1..] == pattern[p + 1..];
    if k :| 0 <= k <= |segment[s..]| && Matches(pattern[p..][1..], segment[s..][k..]) {
      assert segment[s..][k..] == segment[s + k..];
    }
    if k :| s <= k <= |segment| && Matches(pattern[p + 1..], segment[k..]) {
      var m := k - s;
      assert segment[s..][m..] == segment[k..];
    }
  }

  /** One more character given to the last star. */
  lemma MoreToStar(pattern: string, segment: string, star: Star)
    requires star.p < |pattern| && star.s < |segment|
    ensures LaterFromStar(pattern, segment, Some(star))
            <==> Hope(pattern, segment, star.p + 1, star.s + 1, Some(Star(star.p, star.s + 1)))
  {
  }

  lemma {:induction false} GreedyFindsHope(pattern: string, segment: string, p: nat, s: nat, star: Option<Star>)
    requires Inside(pattern, segment, p, s, star) && InStep(pattern, segment, p, s, star) && '*' !in segment
    ensures Greedy(pattern, segment, p, s, star) <==> Hope(pattern, segment, p, s, star)
    decreases Left(segment, star), |pattern| - p
  {
    hide Matches, LaterFromStar;
    if s == |segment| {
      NothingLater(pattern, segment, p, star);
      assert segment[s..] == [];
      AllStarsMatchNothing(pattern[p..]);
    } else if p < |pattern| && (pattern[p] == '?' || pattern[p] == segment[s]) {
      assert segment[s] in segment;
      Step(pattern, segment, p, s);
      GreedyFindsHope(pattern, segment, p + 1, s + 1, star);
    } else if p < |pattern| && pattern[p] == '*' {
      if LaterFromStar(pattern, segment, star) {
        LaterIsHere(pattern, segment, p, s, star);
      }
      StarHope(pattern, segment, p, s);
      GreedyFindsHope(pattern, segment, p + 1, s, Some(Star(p, s)));
    } else {
      NoMatchHere(pattern, segment, p, s);
      if star.Some? {
        MoreToStar(pattern, segment, star.value);
        GreedyFindsHope(pattern, segment, star.value.p + 1, star.value.s + 1, Some(Star(star.value.p, star.value.s + 1)));
      } else {
        NoStarNoLater(pattern, segment);
      }
    }
  }

  lemma NoStarNoLater(pattern: string, segment: string)
    ensures !LaterFromStar(pattern, segment, None)
  {
  }

  lemma NoMatchHere(pattern: string, segment: string, p: nat, s: nat)
    requires p <= |pattern| && s < |segment|
    requires p == |pattern| || (pattern[p] != '?' && pattern[p] != segment[s] && pattern[p] != '*')
    ensures !Matches(pattern[p..], segment[s..])
  {
    if p < |pattern| {
      Step(pattern, segment, p, s);
    }
  }

  /** What the match finds, with stars in the segment too. */
  lemma {:induction false} GreedyIsSound(pattern: string, segment: string, p: nat, s: nat, star: Option<Star>)
    requires Inside(pattern, segment, p, s, star) && Greedy(pattern, segment, p, s, star)
    ensures Hope(pattern, segment, p, s, star)
    decreases Left(segment, star), |pattern| - p
  {
    hide Matches, LaterFromStar;
    if s == |segment| {
      assert segment[s..] == [];
      AllStarsMatchNothing(pattern[p..]);
    } else if p < |pattern| && (pattern[p] == '?' || pattern[p] == segment[s]) {
      GreedyIsSound(pattern, segment, p + 1, s + 1, star);
      if Matches(pattern[p + 1..], segment[s + 1..]) {
        TakeOneMore(pattern, segment, p, s);
      }
    } else if p < |pattern| && pattern[p] == '*' {
      GreedyIsSound(pattern, segment, p + 1, s, Some(Star(p, s)));
      StarHope(pattern, segment, p, s);
    } else if star.Some? {
      GreedyIsSound(pattern, segment, star.value.p + 1, star.value.s + 1, Some(Star(star.value.p, star.value.s + 1)));
      MoreToStar(pattern, segment, star.value);
    }
  }

  lemma TakeOneMore(pattern: string, segment: string, p: nat, s: nat)
    requires p < |pattern| && s < |segment| && (pattern[p] == '?' || pattern[p] == segment[s])
    requires Matches(pattern[p + 1..], segment[s + 1..])
    ensures Matches(pattern[p..], segment[s..])
  {
    if pattern[p] == '*' {
      assert pattern[p..][1..] == pattern[p + 1..];
      StarSwallows(pattern[p..], [segment[s]], segment[s + 1..]);
      assert [segment[s]] + segment[s + 1..] == segment[s..];
    } else {
      Step(pattern, segment, p, s);
    }
  }

  // ---- the match against the language -----------------------------------------------------------

  /** Whatever the match accepts is in the pattern's language; over a segment without a star, so is
      nothing else. */
  lemma GreedyIsLanguage(pattern: string, segment: string)
    ensures GreedyMatches(pattern, segment) ==> Language(pattern, segment)
    ensures '*' !in segment ==> (GreedyMatches(pattern, segment) <==> Language(pattern, segment))
  {
    hide Greedy, Language, Matches;
    assert pattern[0..] == pattern && segment[0..] == segment;
    NoStarNoLater(pattern, segment);
    MatchesIsLanguage(pattern, segment);
    if GreedyMatches(pattern, segment) {
      GreedyIsSound(pattern, segment, 0, 0, None);
    }
    if '*' !in segment {
      GreedyFindsHope(pattern, segment, 0, 0, None);
    }
  }

  function Questions(n: nat): (q: string)
    ensures |q| == n && forall k :: 0 <= k < n ==> q[k] == '?'
  {
    seq(n, k => '?')
  }

  /** A pattern that the segment's own star, at `k`, defeats: the star of the pattern is taken for it. */
  function Defeated(segment: string, k: nat): string
    requires k < |segment| && segment[k] == '*'
  {
    segment[..k] + ("*" + Questions(|segment| - k))
  }

  lemma {:induction false} OnlyQuestions(pattern: string, segment: string, p: nat, s: nat)
    requires p <= |pattern| && s <= |segment| && |pattern| - p == |segment| - s + 1
    requires forall k :: p <= k < |pattern| ==> pattern[k] == '?'
    ensures !Greedy(pattern, segment, p, s, None)
    decreases |segment| - s
  {
    if s == |segment| {
      assert pattern[p] == '?';
      assert pattern[p..][0] in pattern[p..];
    } else {
      OnlyQuestions(pattern, segment, p + 1, s + 1);
    }
  }

  lemma {:induction false} DefeatedAt(segment: string, k: nat, i: nat)
    requires k < |segment| && segment[k] == '*' && i <= k
    ensures !Greedy(Defeated(segment, k), segment, i, i, None)
    decreases k - i
  {
    var pattern := Defeated(segment, k);
    if i == k {
      OnlyQuestions(pattern, segment, k + 1, k + 1);
    } else {
      DefeatedAt(segment, k, i + 1);
    }
  }

  lemma {:induction false} QuestionsMatch(n: nat, segment: string)
    requires |segment| == n
    ensures Matches(Questions(n), segment)
  {
    if n > 0 {
      assert Questions(n)[1..] == Questions(n - 1);
      QuestionsMatch(n - 1, segment[1..]);
    }
  }

  /** The same text before both keeps a match. */
  lemma {:induction false} SameBefore(before: string, pattern: string, segment: string)
    requires '*' !in before && Matches(pattern, segment)
    ensures Matches(before + pattern, before + segment)
  {
    if before == [] {
      assert before + pattern == pattern && before + segment == segment;
    } else {
      assert before[0] in before && forall c <- before[1..] :: c in before;
      SameBefore(before[1..], pattern, segment);
      assert (before + pattern)[1..] == before[1..] + pattern && (before + segment)[1..] == before[1..] + segment;
    }
  }

  function FirstStar(segment: string): (k: nat)
    requires '*' in segment
    ensures k < |segment| && segment[k] == '*' && '*' !in segment[..k]
  {
    if segment[0] == '*' then 0
    else
      assert segment == [segment[0]] + segment[1..];
      var k := 1 + FirstStar(segment[1..]);
      assert segment[..k] == [segment[0]] + segment[1..][..k - 1];
      k
  }

  /** A segment with a star is missed by a pattern whose language it is in. */
  lemma StarIsMissed(segment: string, k: nat)
    requires k < |segment| && segment[k] == '*' && '*' !in segment[..k]
    ensures Language(Defeated(segment, k), segment) && !GreedyMatches(Defeated(segment, k), segment)
  {
    hide Language;
    var q := Questions(|segment| - k);
    QuestionsMatch(|segment| - k, segment[k..]);
    assert ("*" + q)[1..] == q;
    assert Matches("*" + q, segment[k..]);
    SameBefore(segment[..k], "*" + q, segment[k..]);
    assert segment[..k] + segment[k..] == segment;
    MatchesIsLanguage(Defeated(segment, k), segment);
    DefeatedAt(segment, k, 0);
  }

  /** The match is right about a segment, whatever the pattern, exactly when the segment has no star. */
  lemma GreedyIsExactWithoutStars(segment: string)
    ensures (forall pattern: string :: GreedyMatches(pattern, segment) <==> Language(pattern, segment)) <==> '*' !in segment
  {
    hide Language, GreedyMatches;
    if '*' in segment {
      StarIsMissed(segment, FirstStar(segment));
    } else {
      forall pattern: string
        ensures GreedyMatches(pattern, segment) <==> Language(pattern, segment)
      {
        GreedyIsLanguage(pattern, segment);
      }
    }
  }
}
