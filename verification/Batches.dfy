/** Runs within a budget. */
module Batches {
  // The runs of jars handed to `jdeps`: within a budget of bytes, and as few as can be.

  import opened ByteStrings
  import opened Sequences

  /** What one jar adds to a command line: its bytes, and three for how it is written there. */
  function Cost(jar: Bytes): nat {
    |jar| + 3
  }

  function Total(run: seq<Bytes>): nat {
    if run == [] then 0 else Total(run[..|run| - 1]) + Cost(run[|run| - 1])
  }

  /** A run within the budget, or a jar on its own, however long its path. */
  predicate Fits(run: seq<Bytes>, budget: nat) {
    run != [] && (|run| == 1 || Total(run) <= budget)
  }

  /** The jars in order, cut into runs that fit. */
  predicate IsSplit(runs: seq<seq<Bytes>>, jars: seq<Bytes>, budget: nat) {
    Flatten(runs) == jars && forall k :: 0 <= k < |runs| ==> Fits(runs[k], budget)
  }

  /** No run could take the first jar of the next. */
  predicate IsFull(runs: seq<seq<Bytes>>, budget: nat) {
    forall k :: 0 <= k < |runs| - 1 && runs[k + 1] != [] ==> Total(runs[k] + runs[k + 1][..1]) > budget
  }

  lemma TotalLast(run: seq<Bytes>, jar: Bytes)
    ensures Total(run + [jar]) == Total(run) + Cost(jar)
  {
    assert (run + [jar])[..|run|] == run;
  }

  lemma FullLast(runs: seq<seq<Bytes>>, run: seq<Bytes>, budget: nat)
    requires IsFull(runs, budget)
    requires runs != [] && run != [] ==> Total(runs[|runs| - 1] + run[..1]) > budget
    ensures IsFull(runs + [run], budget)
  {
    var all := runs + [run];
    forall k | 0 <= k < |all| - 1 && all[k + 1] != []
      ensures Total(all[k] + all[k + 1][..1]) > budget
    {
      assert all[k] == runs[k];
      if k + 1 < |runs| {
        assert all[k + 1] == runs[k + 1];
      }
    }
  }

  lemma NoRuns(budget: nat)
    ensures IsFull([], budget) && Flatten<Bytes>([]) == [] && Total([]) == 0
  {
  }

  lemma NoJars()
    ensures Total([]) == 0
  {
  }

  lemma {:induction false} TotalConcat(a: seq<Bytes>, b: seq<Bytes>)
    ensures Total(a + b) == Total(a) + Total(b)
    decreases |b|
  {
    if b == [] {
      assert a + b == a;
    } else {
      var n := |b| - 1;
      assert (a + b)[..|a| + n] == a + b[..n];
      TotalConcat(a, b[..n]);
    }
  }

  /** A run costs the bytes of its jars and three more for each. */
  lemma {:induction false} TotalIsBytes(run: seq<Bytes>)
    ensures Total(run) == |Flatten(run)| + 3 * |run|
  {
    if run == [] {
      NoJars();
    } else {
      var n := |run| - 1;
      TotalIsBytes(run[..n]);
      FlattenLast(run[..n], run[n]);
      assert run == run[..n] + [run[n]];
    }
  }

  lemma FullTail(runs: seq<seq<Bytes>>, budget: nat)
    requires runs != [] && IsFull(runs, budget)
    ensures IsFull(runs[1..], budget)
  {
    var rest := runs[1..];
    forall k | 0 <= k < |rest| - 1 && rest[k + 1] != []
      ensures Total(rest[k] + rest[k + 1][..1]) > budget
    {
      assert rest[k] == runs[k + 1] && rest[k + 1] == runs[k + 2];
    }
  }

  lemma SplitTail(runs: seq<seq<Bytes>>, jars: seq<Bytes>, budget: nat)
    requires runs != [] && IsSplit(runs, jars, budget)
    ensures runs[0] != [] && |runs[0]| <= |jars| && jars[..|runs[0]|] == runs[0]
    ensures IsSplit(runs[1..], jars[|runs[0]|..], budget)
  {
    assert jars == runs[0] + Flatten(runs[1..]);
    assert jars[|runs[0]|..] == Flatten(runs[1..]);
    assert forall k :: 0 <= k < |runs[1..]| ==> runs[1..][k] == runs[k + 1];
  }

  /** A full run reaches at least as far as any other run of the same jars that fits. */
  lemma FullReachesFarthest(runs: seq<seq<Bytes>>, jars: seq<Bytes>, before: seq<Bytes>, n: nat, budget: nat)
    requires runs != [] && IsSplit(runs, jars, budget) && IsFull(runs, budget)
    requires n <= |jars| && Fits(before + jars[..n], budget)
    ensures n <= |runs[0]|
  {
    hide Flatten, Total;
    SplitTail(runs, jars, budget);
    var r := |runs[0]|;
    if n > r {
      var rest := jars[r..];
      assert runs[1..] != [] by {
        if runs[1..] == [] {
          NoRuns(budget);
        }
      }
      SplitTail(runs[1..], rest, budget);
      assert runs[1..][0] == runs[1];
      assert runs[1][..1] == rest[..1] by { assert rest[..|runs[1]|][..1] == rest[..1]; }
      assert runs[0] + runs[1][..1] == jars[..r + 1];
      TotalConcat(before, jars[..n]);
      assert jars[..n] == jars[..r + 1] + jars[r + 1..n];
      TotalConcat(jars[..r + 1], jars[r + 1..n]);
    }
  }

  /** Full runs are the fewest: against any other split of the same jars, or of more jars before them. */
  lemma {:induction false} FullIsFewest(
    runs: seq<seq<Bytes>>, jars: seq<Bytes>, other: seq<seq<Bytes>>, before: seq<Bytes>, budget: nat)
    requires IsSplit(runs, jars, budget) && IsFull(runs, budget)
    requires IsSplit(other, before + jars, budget)
    ensures |runs| <= |other|
    decreases |other|
  {
    hide IsFull, Fits, Flatten;
    if runs != [] {
      SplitTail(runs, jars, budget);
      assert other != [] by {
        if other == [] {
          NoRuns(budget);
        }
      }
      SplitTail(other, before + jars, budget);
      var n := |other[0]|;
      if n <= |before| {
        assert (before + jars)[n..] == before[n..] + jars;
        FullIsFewest(runs, jars, other[1..], before[n..], budget);
      } else {
        var k := n - |before|;
        assert other[0] == before + jars[..k];
        FullReachesFarthest(runs, jars, before, k, budget);
        var r := |runs[0]|;
        assert (before + jars)[n..] == jars[k..r] + jars[r..];
        FullTail(runs, budget);
        FullIsFewest(runs[1..], jars[r..], other[1..], jars[k..r], budget);
      }
    }
  }

  method BatchJars(jars: seq<Bytes>, budget: nat) returns (out: seq<seq<Bytes>>)
    ensures IsSplit(out, jars, budget)
    ensures IsFull(out, budget)
    ensures forall other: seq<seq<Bytes>> :: IsSplit(other, jars, budget) ==> |out| <= |other|
  {
    hide IsFull, Flatten, Total;
    out := [];
    var start: nat, used: nat := 0, 0;
    NoRuns(budget);
    for i := 0 to |jars|
      invariant start <= i && (start < i || i == 0)
      invariant Flatten(out) == jars[..start] && forall k :: 0 <= k < |out| ==> Fits(out[k], budget)
      invariant used == Total(jars[start..i]) && (i > 0 ==> Fits(jars[start..i], budget))
      invariant IsFull(out, budget) && (start > 0 <==> out != [])
      invariant out != [] ==> Total(out[|out| - 1] + [jars[start]]) > budget
    {
      var len := Cost(jars[i]);
      TotalLast(jars[start..i], jars[i]);
      assert jars[start..i] + [jars[i]] == jars[start..i + 1];
      if i > start && used + len > budget {
        var run := jars[start..i];
        FlattenLast(out, run);
        assert jars[..start] + run == jars[..i];
        assert run[..1] == [jars[start]];
        FullLast(out, run, budget);
        out := out + [run];
        start := i;
        used := 0;
        assert jars[i..i] == [] && jars[i..i + 1] == [] + [jars[i]];
        TotalLast([], jars[i]);
        NoJars();
      }
      used := used + len;
    }
    if start < |jars| {
      ghost var run := jars[start..];
      assert jars[start..|jars|] == run && jars[..start] + run == jars;
      assert run[..1] == [jars[start]];
      FlattenLast(out, run);
      FullLast(out, run, budget);
      out := out + [jars[start..]];
    }
    assert jars[..|jars|] == jars;
    forall other: seq<seq<Bytes>> | IsSplit(other, jars, budget)
      ensures |out| <= |other|
    {
      FullIsFewest(out, jars, other, [], budget);
    }
  }
}
