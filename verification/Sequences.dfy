/**
 Sequences of sequences, laid end to end: what a pattern is cut into, what a header is folded into, and
 what jars are batched into.
 */
module Sequences {

  function Flatten<T>(runs: seq<seq<T>>): seq<T> {
    if runs == [] then [] else runs[0] + Flatten(runs[1..])
  }

  lemma {:induction false} FlattenLast<T>(runs: seq<seq<T>>, run: seq<T>)
    ensures Flatten(runs + [run]) == Flatten(runs) + run
    decreases |runs|
  {
    if runs == [] {
      assert [] + [run] == [run] && [run][1..] == [];
      assert Flatten([run]) == run + Flatten([]);
    } else {
      assert (runs + [run])[1..] == runs[1..] + [run];
      FlattenLast(runs[1..], run);
    }
  }
}
