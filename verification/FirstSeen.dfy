/**
 Lists that keep each value once, in the order first seen, as the merged registries do with their lines
 and their values.
 */
module FirstSeen {

  /** `x` at the end, unless it is empty or there already. */
  function Add(seen: seq<string>, x: string): seq<string> {
    if x == [] || x in seen then seen else seen + [x]
  }

  function AddAll(seen: seq<string>, xs: seq<string>): seq<string>
    decreases |xs|
  {
    if xs == [] then seen else AddAll(Add(seen, xs[0]), xs[1..])
  }

  predicate Distinct(xs: seq<string>) {
    forall i, j :: 0 <= i < j < |xs| ==> xs[i] != xs[j]
  }

  /** Where `x` first is. */
  function FirstIndex(xs: seq<string>, x: string): (k: nat)
    requires x in xs
    ensures k < |xs| && xs[k] == x && x !in xs[..k]
  {
    if xs[0] == x then 0
    else
      assert xs == [xs[0]] + xs[1..];
      var k := 1 + FirstIndex(xs[1..], x);
      assert xs[..k] == [xs[0]] + xs[1..][..k - 1];
      k
  }

  lemma {:induction false} AddAllConcat(seen: seq<string>, a: seq<string>, b: seq<string>)
    ensures AddAll(seen, a + b) == AddAll(AddAll(seen, a), b)
    decreases |a|
  {
    if a == [] {
      assert a + b == b;
    } else {
      assert (a + b)[1..] == a[1..] + b;
      AddAllConcat(Add(seen, a[0]), a[1..], b);
    }
  }

  lemma {:induction false} AddAllLast(seen: seq<string>, xs: seq<string>, x: string)
    ensures AddAll(seen, xs + [x]) == Add(AddAll(seen, xs), x)
  {
    AddAllConcat(seen, xs, [x]);
    assert [x][1..] == [];
  }

  lemma {:induction false} AddAllHas(seen: seq<string>, xs: seq<string>, x: string)
    ensures x in AddAll(seen, xs) <==> x in seen || (x != [] && x in xs)
    decreases |xs|
  {
    if xs != [] {
      AddAllHas(Add(seen, xs[0]), xs[1..], x);
      assert xs == [xs[0]] + xs[1..];
    }
  }

  /** Each value once, in the order of their first places. */
  lemma {:induction false} UnionIsFirstSeen(xs: seq<string>)
    ensures var union := AddAll([], xs);
            && Distinct(union)
            && (forall x :: x in union <==> x != [] && x in xs)
            && forall i, j :: 0 <= i < j < |union| ==>
                 union[i] in xs && union[j] in xs && FirstIndex(xs, union[i]) < FirstIndex(xs, union[j])
    decreases |xs|
  {
    hide AddAll;
    var union := AddAll([], xs);
    forall x
      ensures x in union <==> x != [] && x in xs
    {
      AddAllHas([], xs, x);
    }
    if xs == [] {
      NothingAdded([]);
    } else {
      var front, last := xs[..|xs| - 1], xs[|xs| - 1];
      assert xs == front + [last];
      UnionIsFirstSeen(front);
      AddAllLast([], front, last);
      var before := AddAll([], front);
      forall i, j | 0 <= i < j < |union|
        ensures union[i] != union[j]
        ensures union[i] in xs && union[j] in xs && FirstIndex(xs, union[i]) < FirstIndex(xs, union[j])
      {
        assert union[i] in union && union[j] in union && before[i] == union[i] && before[i] in before;
        SameFirst(front, last, union[i]);
        if j < |before| {
          assert before[j] == union[j] && before[j] in before;
          SameFirst(front, last, union[j]);
        } else {
          assert union[j] == last && last !in before;
          LastIsNew(front, last);
        }
      }
    }
  }

  lemma NothingAdded(seen: seq<string>)
    ensures AddAll(seen, []) == seen
  {
  }

  lemma LastIsNew(front: seq<string>, last: string)
    requires last !in front
    ensures FirstIndex(front + [last], last) == |front|
  {
    assert (front + [last])[..|front|] == front;
    FirstIndexIs(front + [last], last, |front|);
  }

  lemma SameFirst(front: seq<string>, last: string, x: string)
    requires x in front
    ensures x in front + [last] && FirstIndex(front + [last], x) == FirstIndex(front, x)
  {
    var i := FirstIndex(front, x);
    assert (front + [last])[..i] == front[..i];
    FirstIndexIs(front + [last], x, i);
  }

  lemma {:induction false} FirstIndexIs(xs: seq<string>, x: string, k: nat)
    requires k < |xs| && xs[k] == x && x !in xs[..k]
    ensures FirstIndex(xs, x) == k
  {
    if k > 0 {
      assert xs[0] == xs[..k][0] && xs[1..][..k - 1] == xs[..k][1..];
      FirstIndexIs(xs[1..], x, k - 1);
    }
  }

  /** What is distinct and nonempty is its own union. */
  lemma {:induction false} UnionOfDistinct(seen: seq<string>, xs: seq<string>)
    requires Distinct(seen + xs) && forall x <- xs :: x != []
    ensures AddAll(seen, xs) == seen + xs
    decreases |xs|
  {
    if xs == [] {
      assert seen + xs == seen;
    } else {
      assert xs[0] in xs && forall x <- xs[1..] :: x in xs;
      var k := |seen|;
      assert (seen + xs)[k] == xs[0];
      assert forall i :: 0 <= i < k ==> (seen + xs)[i] == seen[i];
      assert (seen + [xs[0]]) + xs[1..] == seen + xs;
      UnionOfDistinct(seen + [xs[0]], xs[1..]);
    }
  }

  lemma {:induction false} UnionIsDistinct(seen: seq<string>, xs: seq<string>)
    requires Distinct(seen) && forall x <- seen :: x != []
    ensures Distinct(AddAll(seen, xs)) && forall x <- AddAll(seen, xs) :: x != []
    decreases |xs|
  {
    if xs != [] {
      UnionIsDistinct(Add(seen, xs[0]), xs[1..]);
    }
  }
}
