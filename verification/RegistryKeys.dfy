/**
 Merged keys. Merging `spring.factories` keeps every key and value once, in the order first seen.
 */
module RegistryKeys {
  import opened FirstSeen
  import opened Registries

  // ---- spring.factories: each key and value once --------------------------------------------------

  predicate DistinctKeys(slots: seq<Slot>) {
    forall i, j :: 0 <= i < j < |slots| ==> slots[i].key != slots[j].key
  }

  predicate HasKey(slots: seq<Slot>, key: string) {
    exists k :: 0 <= k < |slots| && slots[k].key == key
  }

  /** `a` is the key of a pair before any whose key is `b`. */
  predicate SeenBefore(pairs: seq<Pair>, a: string, b: string) {
    exists p :: 0 <= p < |pairs| && pairs[p].key == a && forall q :: 0 <= q <= p ==> pairs[q].key != b
  }

  lemma {:induction false} AddPairKeys(slots: seq<Slot>, pair: Pair)
    requires DistinctKeys(slots)
    ensures var more := AddPair(slots, pair);
            && DistinctKeys(more)
            && |slots| <= |more| <= |slots| + 1
            && (forall k :: 0 <= k < |slots| ==> more[k].key == slots[k].key)
            && (|more| > |slots| ==> more[|slots|].key == pair.key && !HasKey(slots, pair.key))
            && HasKey(more, pair.key)
            && forall k :: 0 <= k < |more| ==>
                 more[k].values
                 == AddAll(if k < |slots| then slots[k].values else [],
                           if more[k].key == pair.key then Values(pair.value) else [])
  {
    hide AddPair, Values;
    PositionIsPlace(slots, pair);
    var k, more := Position(slots, pair.key), AddPair(slots, pair);
    assert more[k].key == pair.key;
  }

  /** A key's values are the union of all values any copy gives it, each once, in the order first seen;
      a key is there when some copy has it, and keys come in the order first seen. */
  lemma {:induction false} FactoriesKeepEverything(pairs: seq<Pair>)
    ensures var slots := AddPairs([], pairs);
            && DistinctKeys(slots)
            && (forall key :: HasKey(slots, key) <==> exists p :: 0 <= p < |pairs| && pairs[p].key == key)
            && (forall k :: 0 <= k < |slots| ==> slots[k].values == AddAll([], ValuesUnder(pairs, slots[k].key)))
            && forall i, j :: 0 <= i < j < |slots| ==>
                 SeenBefore(pairs, slots[i].key, slots[j].key)
    decreases |pairs|
  {
    hide AddPair, Values, HasKey;
    if pairs == [] {
      NoSlots();
    } else {
      var front, last := pairs[..|pairs| - 1], pairs[|pairs| - 1];
      assert pairs == front + [last];
      FactoriesKeepEverything(front);
      AddPairsConcat([], front, [last]);
      assert [last][1..] == [];
      var slots, more := AddPairs([], front), AddPairs([], pairs);
      AddPairKeys(slots, last);
      forall k | 0 <= k < |more|
        ensures more[k].values == AddAll([], ValuesUnder(pairs, more[k].key))
      {
        ValuesUnderLast(front, last, more[k].key);
        if k == |slots| {
          NoValues(front, slots, more[k].key);
        }
      }
      forall key
        ensures HasKey(more, key) <==> exists p :: 0 <= p < |pairs| && pairs[p].key == key
      {
        KeysGrow(slots, more, last.key, key);
        assert HasKey(slots, key) <==> exists p :: 0 <= p < |front| && front[p].key == key;
        assert forall p :: 0 <= p < |front| ==> front[p] == pairs[p];
        assert pairs[|front|].key == last.key;
      }
      forall i, j | 0 <= i < j < |more|
        ensures SeenBefore(pairs, more[i].key, more[j].key)
      {
        KeyOrder(front, last, slots, more, i, j);
      }
    }
  }

  lemma NoSlots()
    ensures forall key :: !HasKey([], key)
  {
  }

  lemma KeysGrow(slots: seq<Slot>, more: seq<Slot>, added: string, key: string)
    requires |slots| <= |more| <= |slots| + 1 && HasKey(more, added)
    requires forall k :: 0 <= k < |slots| ==> more[k].key == slots[k].key
    requires |more| > |slots| ==> more[|slots|].key == added
    ensures HasKey(more, key) <==> HasKey(slots, key) || key == added
  {
    if HasKey(slots, key) {
      var k :| 0 <= k < |slots| && slots[k].key == key;
      assert more[k].key == key;
    }
  }

  lemma NoValues(pairs: seq<Pair>, slots: seq<Slot>, key: string)
    requires !HasKey(slots, key)
    requires HasKey(slots, key) <==> exists p :: 0 <= p < |pairs| && pairs[p].key == key
    ensures ValuesUnder(pairs, key) == []
    decreases |pairs|
  {
    hide HasKey, Values;
    if pairs != [] {
      assert pairs[0].key != key;
      assert forall p :: 0 <= p < |pairs[1..]| ==> pairs[1..][p] == pairs[p + 1];
      NoValues(pairs[1..], slots, key);
    }
  }

  lemma {:induction false} ValuesUnderConcat(a: seq<Pair>, b: seq<Pair>, key: string)
    ensures ValuesUnder(a + b, key) == ValuesUnder(a, key) + ValuesUnder(b, key)
    decreases |a|
  {
    hide Values;
    if a == [] {
      assert a + b == b;
    } else {
      assert (a + b)[1..] == a[1..] + b;
      ValuesUnderConcat(a[1..], b, key);
      var head := if a[0].key == key then Values(a[0].value) else [];
      assert head + (ValuesUnder(a[1..], key) + ValuesUnder(b, key)) == (head + ValuesUnder(a[1..], key)) + ValuesUnder(b, key);
    }
  }

  lemma ValuesUnderLast(front: seq<Pair>, last: Pair, key: string)
    ensures AddAll([], ValuesUnder(front + [last], key))
            == AddAll(AddAll([], ValuesUnder(front, key)), if last.key == key then Values(last.value) else [])
  {
    hide Values, AddAll;
    var tail := if last.key == key then Values(last.value) else [];
    assert ValuesUnder([last], key) == tail by { assert [last][1..] == [] && tail + [] == tail; }
    ValuesUnderConcat(front, [last], key);
    AddAllConcat([], ValuesUnder(front, key), tail);
  }

  lemma KeyOrder(front: seq<Pair>, last: Pair, slots: seq<Slot>, more: seq<Slot>, i: nat, j: nat)
    requires i < j < |more| && |slots| <= |more| <= |slots| + 1
    requires forall k :: 0 <= k < |slots| ==> more[k].key == slots[k].key
    requires |more| > |slots| ==> more[|slots|].key == last.key && !HasKey(slots, last.key)
    requires forall key :: HasKey(slots, key) <==> exists p :: 0 <= p < |front| && front[p].key == key
    requires forall i, j :: 0 <= i < j < |slots| ==> SeenBefore(front, slots[i].key, slots[j].key)
    ensures SeenBefore(front + [last], more[i].key, more[j].key)
  {
    hide HasKey, SeenBefore;
    if j < |slots| {
      SeenBeforeGrows(front, last, slots[i].key, slots[j].key);
    } else {
      SomeKey(slots, i);
      SeenBeforeLast(front, last, slots[i].key);
    }
  }

  lemma SeenBeforeGrows(front: seq<Pair>, last: Pair, a: string, b: string)
    requires SeenBefore(front, a, b)
    ensures SeenBefore(front + [last], a, b)
  {
    var p :| 0 <= p < |front| && front[p].key == a && forall q :: 0 <= q <= p ==> front[q].key != b;
    var pairs := front + [last];
    assert pairs[p] == front[p] && forall q :: 0 <= q <= p ==> pairs[q] == front[q];
  }

  lemma SeenBeforeLast(front: seq<Pair>, last: Pair, a: string)
    requires exists p :: 0 <= p < |front| && front[p].key == a
    requires forall q :: 0 <= q < |front| ==> front[q].key != last.key
    ensures SeenBefore(front + [last], a, last.key)
  {
    var p :| 0 <= p < |front| && front[p].key == a;
    var pairs := front + [last];
    assert pairs[p] == front[p] && forall q :: 0 <= q <= p ==> pairs[q] == front[q];
  }

  lemma SomeKey(slots: seq<Slot>, i: nat)
    requires i < |slots|
    ensures HasKey(slots, slots[i].key)
  {
  }
}
