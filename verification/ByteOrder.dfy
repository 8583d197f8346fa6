/**
 The order of names: byte by byte, a prefix before what it starts; and sequences sorted by it that are used
 as sets.
 */
module ByteOrder {
  import opened ByteStrings

  predicate Less(a: Bytes, b: Bytes) {
    if b == [] then false
    else if a == [] then true
    else if a[0] != b[0] then a[0] < b[0]
    else Less(a[1..], b[1..])
  }

  predicate StrictlySorted(s: seq<Bytes>) {
    forall i, j :: 0 <= i < j < |s| ==> Less(s[i], s[j])
  }

  lemma {:induction false} LessIsIrreflexive(a: Bytes)
    ensures !Less(a, a)
  {
    if a != [] {
      LessIsIrreflexive(a[1..]);
    }
  }

  lemma {:induction false} LessIsTransitive(a: Bytes, b: Bytes, c: Bytes)
    requires Less(a, b) && Less(b, c)
    ensures Less(a, c)
  {
    if a != [] && a[0] == b[0] == c[0] {
      LessIsTransitive(a[1..], b[1..], c[1..]);
    }
  }

  lemma {:induction false} LessIsTotal(a: Bytes, b: Bytes)
    requires a != b
    ensures Less(a, b) || Less(b, a)
  {
    if a != [] && b != [] && a[0] == b[0] {
      assert a == [a[0]] + a[1..] && b == [b[0]] + b[1..];
      LessIsTotal(a[1..], b[1..]);
    }
  }

  lemma {:induction false} PrefixIsLess(a: Bytes, b: Bytes)
    requires a < b
    ensures Less(a, b)
    decreases |a|
  {
    if a != [] {
      PrefixIsLess(a[1..], b[1..]);
    }
  }

  /** The first byte at which the two differ, or the end of the shorter, decides. */
  lemma {:induction false} LessIsByteByByte(a: Bytes, b: Bytes)
    ensures Less(a, b) <==> a < b || DiffersUpward(a, b)
  {
    hide DiffersUpward;
    if a == [] || b == [] || a[0] != b[0] {
      FirstBytesDecide(a, b);
    } else {
      LessIsByteByByte(a[1..], b[1..]);
      SameFirstByte(a, b);
    }
  }

  ghost predicate DiffersUpward(a: Bytes, b: Bytes) {
    exists k :: 0 <= k < |a| && k < |b| && FirstDifference(a, b, k) && a[k] < b[k]
  }

  lemma FirstBytesDecide(a: Bytes, b: Bytes)
    requires a == [] || b == [] || a[0] != b[0]
    ensures Less(a, b) <==> a < b || DiffersUpward(a, b)
  {
    if a != [] && b != [] {
      assert FirstDifference(a, b, 0);
    }
  }

  lemma SameFirstByte(a: Bytes, b: Bytes)
    requires a != [] && b != [] && a[0] == b[0]
    ensures a < b <==> a[1..] < b[1..]
    ensures DiffersUpward(a, b) <==> DiffersUpward(a[1..], b[1..])
  {
    hide FirstDifference;
    SamePrefix(a, b);
    var x, y := a[1..], b[1..];
    if k :| 0 <= k < |a| && k < |b| && FirstDifference(a, b, k) && a[k] < b[k] {
      DifferencePastFirst(a, b, k);
      assert x[k - 1] < y[k - 1];
    }
    if k :| 0 <= k < |x| && k < |y| && FirstDifference(x, y, k) && x[k] < y[k] {
      DifferencePastFirst(a, b, k + 1);
      assert a[k + 1] < b[k + 1];
    }
  }

  lemma SamePrefix(a: Bytes, b: Bytes)
    requires a != [] && b != [] && a[0] == b[0]
    ensures a < b <==> a[1..] < b[1..]
  {
    var x, y := a[1..], b[1..];
    if a < b {
      assert x == b[..|a|][1..] == y[..|x|];
    }
    if x < y {
      assert a == b[..|a|];
    }
  }

  lemma DifferencePastFirst(a: Bytes, b: Bytes, k: nat)
    requires k < |a| && k < |b| && a[0] == b[0]
    ensures FirstDifference(a, b, k) ==> k > 0
    ensures k > 0 ==> (FirstDifference(a, b, k) <==> FirstDifference(a[1..], b[1..], k - 1))
  {
    if k > 0 && FirstDifference(a[1..], b[1..], k - 1) {
      forall j | 0 <= j < k
        ensures a[j] == b[j]
      {
        if j > 0 {
          assert a[1..][j - 1] == b[1..][j - 1];
        }
      }
    }
  }

  ghost predicate FirstDifference(a: Bytes, b: Bytes, k: nat)
    requires k < |a| && k < |b|
  {
    a[k] != b[k] && forall j :: 0 <= j < k ==> a[j] == b[j]
  }

  // ---- sorted sets ------------------------------------------------------------------------------

  /** `x` put where it belongs, unless it is there. */
  function Insert(s: seq<Bytes>, x: Bytes): seq<Bytes> {
    if s == [] || Less(x, s[0]) then [x] + s
    else if x == s[0] then s
    else [s[0]] + Insert(s[1..], x)
  }

  lemma {:induction false} InsertHas(s: seq<Bytes>, x: Bytes, y: Bytes)
    ensures y in Insert(s, x) <==> y == x || y in s
  {
    if s == [] || Less(x, s[0]) || x == s[0] {
    } else {
      InsertHas(s[1..], x, y);
      assert s == [s[0]] + s[1..];
    }
  }

  /** An element before all of a sorted sequence may stand before it. */
  lemma SortedBefore(x: Bytes, s: seq<Bytes>)
    requires StrictlySorted(s) && forall y <- s :: Less(x, y)
    ensures StrictlySorted([x] + s)
  {
    var t := [x] + s;
    forall i, j | 0 <= i < j < |t|
      ensures Less(t[i], t[j])
    {
      assert t[j] == s[j - 1] && s[j - 1] in s;
      if i > 0 {
        assert t[i] == s[i - 1];
      }
    }
  }

  lemma SortedTail(s: seq<Bytes>)
    requires StrictlySorted(s) && s != []
    ensures StrictlySorted(s[1..]) && forall y <- s[1..] :: Less(s[0], y)
  {
    forall y | y in s[1..]
      ensures Less(s[0], y)
    {
      var k :| 0 <= k < |s[1..]| && s[1..][k] == y;
      assert s[k + 1] == y;
    }
    forall i, j | 0 <= i < j < |s[1..]|
      ensures Less(s[1..][i], s[1..][j])
    {
      assert s[1..][i] == s[i + 1] && s[1..][j] == s[j + 1];
    }
  }

  lemma {:induction false} InsertSorted(s: seq<Bytes>, x: Bytes)
    requires StrictlySorted(s)
    ensures StrictlySorted(Insert(s, x))
  {
    hide Less, StrictlySorted;
    if s == [] {
      SortedBefore(x, []) by { assert StrictlySorted([]); }
    } else if Less(x, s[0]) {
      SortedTail(s);
      forall y | y in s
        ensures Less(x, y)
      {
        if y != s[0] {
          assert s == [s[0]] + s[1..];
          LessIsTransitive(x, s[0], y);
        }
      }
      SortedBefore(x, s);
    } else if x != s[0] {
      SortedTail(s);
      InsertSorted(s[1..], x);
      LessIsTotal(x, s[0]);
      forall y | y in Insert(s[1..], x)
        ensures Less(s[0], y)
      {
        InsertHas(s[1..], x, y);
      }
      SortedBefore(s[0], Insert(s[1..], x));
    }
  }

  /** A strictly sorted sequence holds nothing twice. */
  lemma SortedOnce(s: seq<Bytes>, i: nat, j: nat)
    requires StrictlySorted(s) && i < |s| && j < |s| && s[i] == s[j]
    ensures i == j
  {
    LessIsIrreflexive(s[i]);
  }
}
