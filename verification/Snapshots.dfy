/**
 Pictures of a set of files as a watcher takes them, sorted by path, and the first path at which two of
 them differ.
 */
module Snapshots {
  import opened ByteOrder
  import opened ByteStrings
  import opened Wrappers

  /** A path by its components, in whose order paths are sorted. */
  type Path = seq<Bytes>

  datatype Picture = Picture(path: Path, size: nat, modified: Option<int>)

  predicate PathLess(a: Path, b: Path) {
    if b == [] then false
    else if a == [] then true
    else if a[0] != b[0] then Less(a[0], b[0])
    else PathLess(a[1..], b[1..])
  }

  /** Paths are in order by the first component in which they differ, a directory before what is in it. */
  lemma {:induction false} PathLessIs(a: Path, b: Path)
    ensures PathLess(a, b) <==> a < b || exists k: nat :: IsBefore(a, b, k)
    decreases |a|
  {
    hide Less, PathLess;
    PathStep(a, b);
    if a != [] && b != [] {
      assert a == [a[0]] + a[1..] && b == [b[0]] + b[1..];
      PathLessIs(a[1..], b[1..]);
      if a[0] == b[0] {
        if k: nat :| IsBefore(a[1..], b[1..], k) {
          assert a[..k + 1] == [a[0]] + a[1..][..k] && b[..k + 1] == [b[0]] + b[1..][..k];
          assert IsBefore(a, b, k + 1);
        }
        if k: nat :| IsBefore(a, b, k) {
          assert a[1..][..k - 1] == a[..k][1..] && b[1..][..k - 1] == b[..k][1..];
          assert IsBefore(a[1..], b[1..], k - 1);
        }
      } else {
        OnlyFirst(a, b);
      }
    }
  }

  lemma PathStep(a: Path, b: Path)
    ensures PathLess(a, b)
            == if b == [] then false else if a == [] then true
               else if a[0] != b[0] then Less(a[0], b[0]) else PathLess(a[1..], b[1..])
  {
    hide Less;
  }

  lemma OnlyFirst(a: Path, b: Path)
    requires a != [] && b != [] && a[0] != b[0]
    ensures (exists k: nat :: IsBefore(a, b, k)) <==> Less(a[0], b[0])
  {
    hide Less;
    if Less(a[0], b[0]) {
      assert IsBefore(a, b, 0);
    }
    forall k: nat | 0 < k <= |a| && k <= |b|
      ensures a[..k] != b[..k]
    {
      assert a[..k][0] == a[0] && b[..k][0] == b[0];
    }
  }

  predicate IsBefore(a: Path, b: Path, k: nat) {
    k < |a| && k < |b| && a[..k] == b[..k] && a[k] != b[k] && Less(a[k], b[k])
  }

  lemma {:induction false} PathLessIsIrreflexive(a: Path)
    ensures !PathLess(a, a)
  {
    if a != [] {
      PathLessIsIrreflexive(a[1..]);
    }
  }

  lemma {:induction false} PathLessIsTransitive(a: Path, b: Path, c: Path)
    requires PathLess(a, b) && PathLess(b, c)
    ensures PathLess(a, c)
  {
    hide Less;
    if a != [] {
      if a[0] == b[0] == c[0] {
        PathLessIsTransitive(a[1..], b[1..], c[1..]);
      } else if a[0] != b[0] && b[0] != c[0] {
        LessIsTransitive(a[0], b[0], c[0]);
        if a[0] == c[0] {
          LessIsIrreflexive(a[0]);
        }
      }
    }
  }

  lemma {:induction false} PathLessIsTotal(a: Path, b: Path)
    requires a != b
    ensures PathLess(a, b) || PathLess(b, a)
  {
    hide Less;
    if a != [] && b != [] {
      if a[0] == b[0] {
        assert a == [a[0]] + a[1..] && b == [b[0]] + b[1..];
        PathLessIsTotal(a[1..], b[1..]);
      } else {
        LessIsTotal(a[0], b[0]);
      }
    }
  }

  /** As a snapshot is taken: sorted, each path once. */
  predicate IsSorted(s: seq<Picture>) {
    forall i, j :: 0 <= i < j < |s| ==> PathLess(s[i].path, s[j].path)
  }

  /** The file at `path` was added, removed or changed from one picture to the other. */
  predicate Differs(a: seq<Picture>, b: seq<Picture>, path: Path) {
    || (exists k :: 0 <= k < |a| && a[k].path == path && a[k] !in b)
    || (exists k :: 0 <= k < |b| && b[k].path == path && b[k] !in a)
  }

  /** No picture at or past `k` is of a path before `path`, and none but the one at `k` is of `path`. */
  predicate IsPast(s: seq<Picture>, k: nat, path: Path) {
    forall i :: k <= i < |s| ==> s[i].path == path || PathLess(path, s[i].path)
  }

  lemma SortedFrom(s: seq<Picture>, k: nat)
    requires IsSorted(s) && k < |s|
    ensures IsPast(s, k, s[k].path)
  {
    hide PathLess;
  }

  /** Where two sorted pictures agree up to `k`, what differs differs past it. */
  lemma FirstIsFirst(a: seq<Picture>, b: seq<Picture>, k: nat, path: Path)
    requires k <= |a| && k <= |b| && a[..k] == b[..k] && IsPast(a, k, path) && IsPast(b, k, path)
    ensures forall p :: Differs(a, b, p) ==> p == path || PathLess(path, p)
  {
    hide PathLess;
    forall p | Differs(a, b, p)
      ensures p == path || PathLess(path, p)
    {
      SamePart(a, b, k);
      SamePart(b, a, k);
    }
  }

  lemma SamePart(a: seq<Picture>, b: seq<Picture>, k: nat)
    requires k <= |a| && k <= |b| && a[..k] == b[..k]
    ensures forall i :: 0 <= i < k ==> a[i] in b
  {
    assert forall i :: 0 <= i < k ==> a[i] == a[..k][i] == b[i];
  }

  /** A picture before all others' that are left is in none of them. */
  lemma IsNotIn(x: Picture, a: seq<Picture>, b: seq<Picture>, k: nat)
    requires IsSorted(a) && k < |a| && k <= |b| && a[k] == x && a[..k] == b[..k]
    requires forall i :: k <= i < |b| ==> PathLess(x.path, b[i].path) || (b[i].path == x.path && b[i] != x)
    ensures x !in b
  {
    forall i | 0 <= i < |b|
      ensures b[i] != x
    {
      PathLessIsIrreflexive(x.path);
      if i < k {
        assert b[i] == b[..k][i] == a[i];
        assert PathLess(a[i].path, a[k].path);
      }
    }
  }

  /** At the first place where two pictures differ, the smaller path is of a file that differs. */
  lemma DiffersHere(a: seq<Picture>, b: seq<Picture>, k: nat)
    requires IsSorted(a) && IsSorted(b) && k < |a| && k < |b| && a[..k] == b[..k] && a[k] != b[k]
    requires a[k].path == b[k].path || PathLess(a[k].path, b[k].path)
    ensures Differs(a, b, a[k].path) && IsPast(a, k, a[k].path) && IsPast(b, k, a[k].path)
  {
    hide PathLess;
    SortedFrom(a, k);
    SortedFrom(b, k);
    forall i | k <= i < |b|
      ensures PathLess(a[k].path, b[i].path) || (b[i].path == a[k].path && b[i] != a[k])
    {
      if a[k].path != b[k].path {
        if i > k {
          assert PathLess(b[k].path, b[i].path);
          PathLessIsTransitive(a[k].path, b[k].path, b[i].path);
        }
      } else if i > k {
        assert PathLess(b[k].path, b[i].path);
      }
    }
    IsNotIn(a[k], a, b, k);
  }

  /** The longer of two pictures, the other being its start, has a file more. */
  lemma DiffersPast(a: seq<Picture>, b: seq<Picture>, k: nat)
    requires IsSorted(a) && k == |b| < |a| && a[..k] == b
    ensures Differs(a, b, a[k].path) && IsPast(a, k, a[k].path) && IsPast(b, k, a[k].path)
  {
    SortedFrom(a, k);
    assert b[..k] == b;
    IsNotIn(a[k], a, b, k);
  }

  lemma DiffersEitherWay(a: seq<Picture>, b: seq<Picture>)
    ensures forall p :: Differs(a, b, p) <==> Differs(b, a, p)
  {
  }

  method FirstDifference(a: seq<Picture>, b: seq<Picture>) returns (r: Option<Path>)
    requires IsSorted(a) && IsSorted(b)
    ensures r.None? <==> a == b
    ensures r.Some? ==> Differs(a, b, r.value) && forall p :: Differs(a, b, p) ==> p == r.value || PathLess(r.value, p)
  {
    hide PathLess, Differs;
    var shorter := if |a| < |b| then |a| else |b|;
    DiffersEitherWay(a, b);
    for k := 0 to shorter
      invariant a[..k] == b[..k]
    {
      if a[k] != b[k] {
        if a[k].path == b[k].path || PathLess(a[k].path, b[k].path) {
          DiffersHere(a, b, k);
          FirstIsFirst(a, b, k, a[k].path);
          return Some(a[k].path);
        }
        PathLessIsTotal(a[k].path, b[k].path);
        DiffersHere(b, a, k);
        FirstIsFirst(a, b, k, b[k].path);
        return Some(b[k].path);
      }
    }
    if |a| > |b| {
      assert b[..shorter] == b;
      DiffersPast(a, b, shorter);
      FirstIsFirst(a, b, shorter, a[shorter].path);
      return Some(a[shorter].path);
    }
    if |b| > |a| {
      assert a[..shorter] == a;
      DiffersPast(b, a, shorter);
      FirstIsFirst(a, b, shorter, b[shorter].path);
      return Some(b[shorter].path);
    }
    assert a[..shorter] == a && b[..shorter] == b;
    return None;
  }
}
