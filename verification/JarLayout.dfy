/** The order of a jar. */
module JarLayout {
  // The manifest, then files and the directories they imply, interleaved.

  import opened ByteOrder
  import opened ByteStrings

  const SLASH: Byte := '/' as Byte
  const MANIFEST: Bytes := Ascii("META-INF/MANIFEST.MF")

  datatype Item = File(name: Bytes) | Directory(name: Bytes)

  // ---- the directories --------------------------------------------------------------------------

  /** `d` is a directory above `name`, or `name` itself when that ends in a slash. */
  predicate IsDirectoryOf(d: Bytes, name: Bytes) {
    d != [] && d <= name && d[|d| - 1] == SLASH
  }

  ghost predicate Implied(d: Bytes, names: seq<Bytes>) {
    exists k :: 0 <= k < |names| && IsDirectoryOf(d, names[k])
  }

  function FindSlash(name: Bytes, i: nat): (j: nat)
    requires i <= |name|
    ensures i <= j <= |name|
    ensures forall k :: i <= k < j ==> name[k] != SLASH
    ensures j < |name| ==> name[j] == SLASH
    decreases |name| - i
  {
    if i < |name| && name[i] != SLASH then FindSlash(name, i + 1) else i
  }

  /** The directories of `name` that end at `start` or before. */
  ghost predicate DirectoryUpTo(d: Bytes, name: Bytes, start: nat) {
    IsDirectoryOf(d, name) && |d| <= start
  }

  lemma DirectoryIsCut(d: Bytes, name: Bytes)
    requires IsDirectoryOf(d, name)
    ensures d == name[..|d|] && name[|d| - 1] == SLASH
  {
  }

  /** The directories of one name, put into a sorted set. */
  method AddDirectories(name: Bytes, directories: seq<Bytes>) returns (r: seq<Bytes>)
    requires StrictlySorted(directories)
    ensures StrictlySorted(r)
    ensures forall d :: d in r <==> d in directories || IsDirectoryOf(d, name)
  {
    hide StrictlySorted, Insert, IsDirectoryOf;
    r := directories;
    var start: nat := 0;
    var slash := FindSlash(name, start);
    NoneUpToZero(name);
    while slash < |name|
      invariant start <= slash <= |name| && slash == FindSlash(name, start)
      invariant StrictlySorted(r)
      invariant forall d :: d in r <==> d in directories || DirectoryUpTo(d, name, start)
      decreases |name| - slash
    {
      ghost var before, from := r, start;
      start := slash + 1;
      InsertSorted(r, name[..start]);
      r := Insert(r, name[..start]);
      forall d
        ensures d in r <==> d in directories || DirectoryUpTo(d, name, start)
      {
        InsertHas(before, name[..start], d);
        OneMoreDirectory(name, from, slash, d);
      }
      slash := FindSlash(name, start);
    }
    forall d
      ensures DirectoryUpTo(d, name, start) <==> IsDirectoryOf(d, name)
    {
      NoMoreDirectories(name, start, d);
    }
  }

  lemma NoneUpToZero(name: Bytes)
    ensures forall d :: !DirectoryUpTo(d, name, 0)
  {
  }

  lemma OneMoreDirectory(name: Bytes, start: nat, slash: nat, d: Bytes)
    requires start <= slash < |name| && slash == FindSlash(name, start)
    ensures DirectoryUpTo(d, name, slash + 1) <==> DirectoryUpTo(d, name, start) || d == name[..slash + 1]
  {
    if DirectoryUpTo(d, name, slash + 1) && |d| > start {
      DirectoryIsCut(d, name);
      assert |d| - 1 == slash;
    }
  }

  lemma NoMoreDirectories(name: Bytes, start: nat, d: Bytes)
    requires start <= |name| && FindSlash(name, start) == |name|
    ensures DirectoryUpTo(d, name, start) <==> IsDirectoryOf(d, name)
  {
    if IsDirectoryOf(d, name) {
      DirectoryIsCut(d, name);
    }
  }

  method DirectoriesOf(names: seq<Bytes>) returns (directories: seq<Bytes>)
    ensures StrictlySorted(directories)
    ensures forall d :: d in directories <==> Implied(d, names)
  {
    hide IsDirectoryOf;
    directories := [];
    for k := 0 to |names|
      invariant StrictlySorted(directories)
      invariant forall d :: d in directories <==> Implied(d, names[..k])
    {
      directories := AddDirectories(names[k], directories);
      forall d
        ensures Implied(d, names[..k + 1]) <==> Implied(d, names[..k]) || IsDirectoryOf(d, names[k])
      {
        ImpliedByOneMore(d, names, k);
      }
    }
    assert names[..|names|] == names;
  }

  lemma ImpliedByOneMore(d: Bytes, names: seq<Bytes>, k: nat)
    requires k < |names|
    ensures Implied(d, names[..k + 1]) <==> Implied(d, names[..k]) || IsDirectoryOf(d, names[k])
  {
    hide IsDirectoryOf;
    var a, b := names[..k], names[..k + 1];
    assert forall i :: 0 <= i < k ==> a[i] == b[i];
    assert b[k] == names[k];
  }

  // ---- the entries ------------------------------------------------------------------------------

  /** Every directory just before the first name that sorts after it. */
  function Interleave(names: seq<Bytes>, directories: seq<Bytes>): seq<Item>
    decreases |names| + |directories|
  {
    if directories != [] && (names == [] || Less(directories[0], names[0])) then
      [Directory(directories[0])] + Interleave(names, directories[1..])
    else if names != [] then [File(names[0])] + Interleave(names[1..], directories)
    else []
  }

  /** Every directory above a planned file or the manifest, sorted. */
  ghost predicate AreDirectories(directories: seq<Bytes>, names: seq<Bytes>) {
    StrictlySorted(directories) && forall d :: d in directories <==> Implied(d, names + [MANIFEST])
  }

  method WriteJar(names: seq<Bytes>) returns (items: seq<Item>)
    ensures exists directories ::
              AreDirectories(directories, names) && items == [File(MANIFEST)] + Interleave(names, directories)
  {
    items := [File(MANIFEST)];
    var pending := DirectoriesOf(names + [MANIFEST]);
    ghost var directories := pending;
    assert AreDirectories(directories, names);
    for k := 0 to |names|
      invariant items + Interleave(names[k..], pending) == [File(MANIFEST)] + Interleave(names, directories)
    {
      assert names[k..][0] == names[k] && names[k..][1..] == names[k + 1..];
      while pending != [] && Less(pending[0], names[k])
        invariant items + Interleave(names[k..], pending) == [File(MANIFEST)] + Interleave(names, directories)
        decreases |pending|
      {
        ItemAdded(items, Directory(pending[0]), Interleave(names[k..], pending[1..]));
        items := items + [Directory(pending[0])];
        pending := pending[1..];
      }
      ItemAdded(items, File(names[k]), Interleave(names[k + 1..], pending));
      items := items + [File(names[k])];
    }
    while pending != []
      invariant items + Interleave([], pending) == [File(MANIFEST)] + Interleave(names, directories)
      decreases |pending|
    {
      ItemAdded(items, Directory(pending[0]), Interleave([], pending[1..]));
      items := items + [Directory(pending[0])];
      pending := pending[1..];
    }
    assert items + [] == items;
  }

  lemma ItemAdded(items: seq<Item>, item: Item, rest: seq<Item>)
    ensures items + ([item] + rest) == (items + [item]) + rest
  {
  }

  // ---- what the order promises ------------------------------------------------------------------

  function NamesOf(items: seq<Item>): (names: seq<Bytes>)
    ensures |names| == |items| && forall k :: 0 <= k < |items| ==> names[k] == items[k].name
  {
    seq(|items|, k requires 0 <= k < |items| => items[k].name)
  }

  function FilesIn(items: seq<Item>): seq<Bytes> {
    if items == [] then []
    else (if items[0].File? then [items[0].name] else []) + FilesIn(items[1..])
  }

  function DirectoriesIn(items: seq<Item>): seq<Bytes> {
    if items == [] then []
    else (if items[0].Directory? then [items[0].name] else []) + DirectoriesIn(items[1..])
  }

  /** Nothing is lost, repeated or reordered within its kind. */
  lemma {:induction false} InterleaveKeepsBoth(names: seq<Bytes>, directories: seq<Bytes>)
    ensures FilesIn(Interleave(names, directories)) == names
    ensures DirectoriesIn(Interleave(names, directories)) == directories
    decreases |names| + |directories|
  {
    hide Less;
    var items := Interleave(names, directories);
    if directories != [] && (names == [] || Less(directories[0], names[0])) {
      InterleaveKeepsBoth(names, directories[1..]);
      assert items[1..] == Interleave(names, directories[1..]);
    } else if names != [] {
      InterleaveKeepsBoth(names[1..], directories);
      assert items[1..] == Interleave(names[1..], directories);
    }
  }

  lemma {:induction false} ItemIsFrom(names: seq<Bytes>, directories: seq<Bytes>, x: Item)
    ensures x in Interleave(names, directories)
            <==> (x.File? && x.name in names) || (x.Directory? && x.name in directories)
    decreases |names| + |directories|
  {
    hide Less;
    if directories != [] && (names == [] || Less(directories[0], names[0])) {
      ItemIsFrom(names, directories[1..], x);
      assert directories == [directories[0]] + directories[1..];
    } else if names != [] {
      ItemIsFrom(names[1..], directories, x);
      assert names == [names[0]] + names[1..];
    }
  }

  /** Two strictly sorted sequences without a common element interleave into one. */
  lemma {:induction false} InterleaveSorts(names: seq<Bytes>, directories: seq<Bytes>)
    requires StrictlySorted(names) && StrictlySorted(directories)
    requires forall d <- directories :: d !in names
    ensures StrictlySorted(NamesOf(Interleave(names, directories)))
    decreases |names| + |directories|
  {
    hide Less, StrictlySorted, Interleave;
    if directories != [] && (names == [] || Less(directories[0], names[0])) {
      SortedTail(directories);
      InterleaveSorts(names, directories[1..]);
      FirstBeforeRest(directories[0], names, directories[1..]);
      DirectoryFirst(names, directories);
    } else if names != [] {
      SortedTail(names);
      InterleaveSorts(names[1..], directories);
      if directories != [] {
        assert directories[0] in directories && names[0] in names;
        LessIsTotal(directories[0], names[0]);
      }
      FirstBeforeRest(names[0], names[1..], directories);
      FileFirst(names, directories);
    } else {
      NothingIsSorted();
    }
  }

  lemma DirectoryFirst(names: seq<Bytes>, directories: seq<Bytes>)
    requires directories != [] && (names == [] || Less(directories[0], names[0]))
    ensures NamesOf(Interleave(names, directories)) == [directories[0]] + NamesOf(Interleave(names, directories[1..]))
  {
    hide Less;
  }

  lemma FileFirst(names: seq<Bytes>, directories: seq<Bytes>)
    requires names != [] && (directories == [] || !Less(directories[0], names[0]))
    ensures NamesOf(Interleave(names, directories)) == [names[0]] + NamesOf(Interleave(names[1..], directories))
  {
    hide Less;
  }

  lemma NothingIsSorted()
    ensures StrictlySorted([]) && StrictlySorted(NamesOf(Interleave([], [])))
  {
  }

  /** What sorts before both sequences' firsts sorts before all that is interleaved from them. */
  lemma FirstBeforeRest(x: Bytes, names: seq<Bytes>, directories: seq<Bytes>)
    requires StrictlySorted(names) && StrictlySorted(directories)
    requires names != [] ==> Less(x, names[0])
    requires directories != [] ==> Less(x, directories[0])
    requires StrictlySorted(NamesOf(Interleave(names, directories)))
    ensures StrictlySorted([x] + NamesOf(Interleave(names, directories)))
  {
    hide Less, StrictlySorted, Interleave;
    var items := Interleave(names, directories);
    forall y | y in NamesOf(items)
      ensures Less(x, y)
    {
      var k :| 0 <= k < |items| && items[k].name == y;
      ItemIsFrom(names, directories, items[k]);
      BeforeAll(x, if items[k].File? then names else directories, y);
    }
    SortedBefore(x, NamesOf(items));
  }

  lemma BeforeAll(x: Bytes, s: seq<Bytes>, y: Bytes)
    requires StrictlySorted(s) && y in s && Less(x, s[0])
    ensures Less(x, y)
  {
    if y != s[0] {
      SortedTail(s);
      assert s == [s[0]] + s[1..];
      LessIsTransitive(x, s[0], y);
    }
  }

  predicate EndsInSlash(name: Bytes) {
    name != [] && name[|name| - 1] == SLASH
  }

  /** After the manifest the entries form one strictly sorted sequence - so each once - exactly when no
      file's name ends in a slash. */
  lemma EntriesAreSorted(names: seq<Bytes>, directories: seq<Bytes>)
    requires StrictlySorted(names) && AreDirectories(directories, names)
    ensures StrictlySorted(NamesOf(Interleave(names, directories))) <==> forall n <- names :: !EndsInSlash(n)
  {
    hide StrictlySorted, Interleave, Less;
    if forall n <- names :: !EndsInSlash(n) {
      forall d | d in directories
        ensures d !in names
      {
        var k :| 0 <= k < |names + [MANIFEST]| && IsDirectoryOf(d, (names + [MANIFEST])[k]);
      }
      InterleaveSorts(names, directories);
    } else {
      var n :| n in names && EndsInSlash(n);
      var j :| 0 <= j < |names| && names[j] == n;
      assert (names + [MANIFEST])[j] == n && IsDirectoryOf(n, n);
      TwiceIsNotSorted(names, directories, n);
    }
  }

  lemma TwiceIsNotSorted(names: seq<Bytes>, directories: seq<Bytes>, n: Bytes)
    requires n in names && n in directories
    ensures !StrictlySorted(NamesOf(Interleave(names, directories)))
  {
    hide StrictlySorted, Interleave;
    var items := Interleave(names, directories);
    ItemIsFrom(names, directories, File(n));
    ItemIsFrom(names, directories, Directory(n));
    var i :| 0 <= i < |items| && items[i] == File(n);
    var j :| 0 <= j < |items| && items[j] == Directory(n);
    if StrictlySorted(NamesOf(items)) {
      SortedOnce(NamesOf(items), i, j);
    }
  }

  /** Every directory comes before all that is in it. */
  lemma DirectoriesComeFirst(names: seq<Bytes>, directories: seq<Bytes>, i: nat, j: nat)
    requires StrictlySorted(names) && AreDirectories(directories, names) && forall n <- names :: !EndsInSlash(n)
    requires i < |Interleave(names, directories)| && j < |Interleave(names, directories)|
    requires Interleave(names, directories)[i].name < Interleave(names, directories)[j].name
    ensures i < j
  {
    hide Interleave, Less, Implied;
    EntriesAreSorted(names, directories);
    var s := NamesOf(Interleave(names, directories));
    PrefixIsLess(s[i], s[j]);
    LessIsIrreflexive(s[i]);
    if j <= i {
      assert j < i ==> Less(s[j], s[i]);
      if j < i {
        LessIsTransitive(s[i], s[j], s[i]);
      }
    }
  }

  /** Every file planned and every directory above one is an entry. */
  lemma AncestorsAreEntries(names: seq<Bytes>, directories: seq<Bytes>, name: Bytes, d: Bytes)
    requires AreDirectories(directories, names)
    requires name in names && IsDirectoryOf(d, name)
    ensures File(name) in Interleave(names, directories) && Directory(d) in Interleave(names, directories)
  {
    hide Interleave, IsDirectoryOf;
    var k :| 0 <= k < |names| && names[k] == name;
    assert (names + [MANIFEST])[k] == name;
    ItemIsFrom(names, directories, File(name));
    ItemIsFrom(names, directories, Directory(d));
  }
}
