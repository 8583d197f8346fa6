/** Contents. */
module ResourceContents {
  // What is written. Expanded resources, and every other, by their contents; when a synchronization fails; and
  // what it counts.

  import opened ByteOrder
  import opened ByteStrings
  import Expanding
  import opened Globs
  import opened Resources
  import opened ResourceLaws
  import opened Splitting
  import opened Text
  import opened Utf8
  import opened Wrappers

  /** Some pattern of the configuration matches the name. */
  predicate IsSelected(config: Option<Config>, name: string) {
    config.Some? && exists p <- config.value.patterns :: GlobMatches(p, name)
  }

  /** `out` is the UTF-8 of what the text in `content` expands to. */
  ghost predicate ExpandsTo(config: Config, content: Bytes, out: Bytes) {
    exists text: string, s: string :: IsExpansion(config, content, text, s) && out == Encode(s)
  }

  predicate IsExpansion(config: Config, content: Bytes, text: string, s: string) {
    content == Encode(text) && Expanding.Expansion(config.properties, text) == Expanding.Expanded.Ok(s)
  }

  /** Why `content` does not expand: it is no UTF-8, or its text has a placeholder that stands for nothing. */
  ghost predicate FailsAs(config: Config, r: Resource, f: Failure) {
    || (f == NotUtf8(r.name) && forall text: string :: r.content != Encode(text))
    || exists text: string, e: Expanding.Failure :: IsFailure(config, r.content, text, e) && f == DoesNotExpand(r.name, e)
  }

  predicate IsFailure(config: Config, content: Bytes, text: string, e: Expanding.Failure) {
    content == Encode(text) && Expanding.Expansion(config.properties, text) == Expanding.Expanded.Err(e)
  }

  lemma SelectedIsExpanded(config: Option<Config>, name: string)
    ensures IsExpanded(config, name) <==> IsSelected(config, name)
  {
    hide GlobMatches;
    if config.Some? {
      var ps := config.value.patterns;
      if p :| p in ps && GlobMatches(p, name) {
        var k :| 0 <= k < |ps| && ps[k] == p;
      }
    }
  }

  lemma ContentExpands(config: Config, r: Resource)
    ensures forall out :: ExpandedContent(config, r) == Ok(out) ==> ExpandsTo(config, r.content, out)
    ensures forall f :: ExpandedContent(config, r) == Err(f) <==> FailsAs(config, r, f)
    ensures ExpandedContent(config, r).Ok? <==> exists out :: ExpandsTo(config, r.content, out)
  {
    hide Encode, Decode, Expanding.Expansion;
    DecodesWhatIsEncoded(r.content);
    match Decode(r.content)
    case None =>
    case Some(text) =>
      match Expanding.Expansion(config.properties, text)
      case Ok(s) =>
        assert IsExpansion(config, r.content, text, s);
        assert ExpandsTo(config, r.content, Encode(s));
      case Err(e) => assert IsFailure(config, r.content, text, e);
  }

  /** After a success an expanded resource's file holds the UTF-8 of what its text expands to; any other its
      source's content, or, when it was there and up to date, what it held. */
  lemma SyncWrites(
    state: State, resources: seq<Resource>, config: Option<Config>, upToDate: set<string>, k: nat)
    requires AreResources(resources) && Succeeds(state, resources, config, upToDate) && k < |resources|
    ensures var after := Synchronized(state, resources, config, upToDate).state.to;
            var r := resources[k];
            && r.name in after
            && (IsSelected(config, r.name) ==> ExpandsTo(config.value, r.content, after[r.name]))
            && (!IsSelected(config, r.name) ==>
                  after[r.name] == if r.name in state.to && r.name in upToDate then state.to[r.name] else r.content)
  {
    hide Sorted, NamesOf, CopyTree, RemoveStale, AreResources, IsExpanded, ExpandedContent, Recorded, IsUnsafe,
         IsSelected, ExpandsTo;
    var r := resources[k];
    SelectedIsExpanded(config, r.name);
    SyncHolds(state, resources, config, upToDate, k);
    SelectedHasConfig(config, r.name);
    if IsSelected(config, r.name) {
      ContentExpands(config.value, r);
    } else {
      var current := Sorted(NamesOf(resources));
      RemovalIs(state.to, Recorded(state), current, r.name);
      CurrentHas(resources, r.name);
      assert r in resources;
      if r.name in state.to && r.name in upToDate {
        CopyKeeps(RemoveStale(state.to, Recorded(state), current).to, resources, config, upToDate, k);
      }
    }
  }

  lemma {:induction false} CopyKeeps(
    to: Files, resources: seq<Resource>, config: Option<Config>, upToDate: set<string>, k: nat)
    requires AreResources(resources) && CopyTree(to, resources, config, upToDate).failure.None? && k < |resources|
    requires var name := resources[k].name; !IsExpanded(config, name) && name in to && name in upToDate
    ensures var name := resources[k].name;
            var after := CopyTree(to, resources, config, upToDate).to;
            name in after && after[name] == to[name]
    decreases |resources|
  {
    hide EffectOf, AreResources, ExpandedContent, IsExpanded;
    DistinctTail(resources);
    var first, rest := resources[0], resources[1..];
    var effect := EffectOf(to, first, config, upToDate);
    var next := if effect.Write? then to[first.name := effect.content] else to;
    if k > 0 {
      assert rest[k - 1] == resources[k] && rest[k - 1] in rest;
      CopyKeeps(next, rest, config, upToDate, k - 1);
    } else {
      UpToDateIsSkipped(to, first, config, upToDate);
      CopyTouches(next, rest, config, upToDate, first.name);
      InPart(rest, Reached(next, rest, config, upToDate), first.name);
    }
  }

  lemma UpToDateIsSkipped(to: Files, r: Resource, config: Option<Config>, upToDate: set<string>)
    requires !IsExpanded(config, r.name) && r.name in to && r.name in upToDate
    ensures EffectOf(to, r, config, upToDate) == Skip
  {
    hide IsExpanded;
  }

  // ---- failing ------------------------------------------------------------------------------------

  /** The first resource that is to be expanded and cannot be, at `k`. */
  ghost predicate FirstFailure(resources: seq<Resource>, config: Option<Config>, k: nat, f: Failure) {
    && k < |resources| && IsSelected(config, resources[k].name) && FailsAs(config.value, resources[k], f)
    && forall j :: 0 <= j < k && IsSelected(config, resources[j].name) ==> exists out :: ExpandsTo(config.value, resources[j].content, out)
  }

  lemma EffectFails(to: Files, r: Resource, config: Option<Config>, upToDate: set<string>)
    ensures forall f :: EffectOf(to, r, config, upToDate) == Fail(f)
                        <==> IsSelected(config, r.name) && FailsAs(config.value, r, f)
    ensures EffectOf(to, r, config, upToDate).Fail? <==>
            IsSelected(config, r.name) && !exists out :: ExpandsTo(config.value, r.content, out)
  {
    hide IsExpanded, IsSelected, ExpandsTo, FailsAs, ExpandedContent;
    SelectedIsExpanded(config, r.name);
    if config.Some? {
      ContentExpands(config.value, r);
    }
    SelectedHasConfig(config, r.name);
  }

  lemma SelectedHasConfig(config: Option<Config>, name: string)
    ensures IsSelected(config, name) ==> config.Some?
  {
  }

  lemma {:induction false} CopyFails(
    to: Files, resources: seq<Resource>, config: Option<Config>, upToDate: set<string>, f: Failure)
    ensures CopyTree(to, resources, config, upToDate).failure == Some(f) <==> exists k: nat :: FirstFailure(resources, config, k, f)
    decreases |resources|
  {
    hide EffectOf, IsSelected, ExpandsTo, FailsAs;
    if resources != [] {
      var first, rest := resources[0], resources[1..];
      var effect := EffectOf(to, first, config, upToDate);
      EffectFails(to, first, config, upToDate);
      SelectedHasConfig(config, first.name);
      if effect.Fail? {
        assert effect.failure == f ==> FirstFailure(resources, config, 0, f);
        forall k: nat | FirstFailure(resources, config, k, f)
          ensures effect.failure == f
        {
          assert k == 0;
        }
      } else {
        var next := if effect.Write? then to[first.name := effect.content] else to;
        CopyFails(next, rest, config, upToDate, f);
        forall k: nat | FirstFailure(rest, config, k, f)
          ensures FirstFailure(resources, config, k + 1, f)
        {
          assert forall j :: 0 < j <= k ==> resources[j] == rest[j - 1];
        }
        forall k: nat | FirstFailure(resources, config, k, f)
          ensures k > 0 && FirstFailure(rest, config, k - 1, f)
        {
          assert k > 0;
          assert forall j :: 0 <= j < k ==> resources[j + 1] == rest[j];
        }
      }
    }
  }

  /** A synchronization fails exactly when some resource to be expanded is no UTF-8 or has no expansion, and it
      says so of the first. */
  lemma SyncFails(state: State, resources: seq<Resource>, config: Option<Config>, upToDate: set<string>, f: Failure)
    ensures Synchronized(state, resources, config, upToDate).result == Err(f)
            <==> exists k: nat :: FirstFailure(resources, config, k, f)
  {
    hide CopyTree, RemoveStale, Sorted, NamesOf, FirstFailure;
    var removal := RemoveStale(state.to, Recorded(state), Sorted(NamesOf(resources)));
    CopyFails(removal.to, resources, config, upToDate, f);
  }

  // ---- counting -----------------------------------------------------------------------------------

  /** A resource's copy has to be written: there is none, or it is not what it should be. */
  ghost predicate IsStale(to: Files, r: Resource, config: Option<Config>, upToDate: set<string>) {
    r.name !in to ||
    if IsSelected(config, r.name) then !ExpandsTo(config.value, r.content, to[r.name])
    else r.name !in upToDate
  }

  ghost function StaleNames(
    to: Files, resources: seq<Resource>, config: Option<Config>, upToDate: set<string>): set<string> {
    set r | r in resources && IsStale(to, r, config, upToDate) :: r.name
  }

  lemma EffectWrites(to: Files, r: Resource, config: Option<Config>, upToDate: set<string>)
    requires !EffectOf(to, r, config, upToDate).Fail?
    ensures EffectOf(to, r, config, upToDate).Write? <==> IsStale(to, r, config, upToDate)
  {
    hide IsExpanded, IsSelected, ExpandedContent;
    SelectedIsExpanded(config, r.name);
    SelectedHasConfig(config, r.name);
    if IsSelected(config, r.name) {
      ContentExpands(config.value, r);
      OneExpansion(config.value, r);
    }
  }

  lemma OneExpansion(config: Config, r: Resource)
    ensures forall a, b :: ExpandsTo(config, r.content, a) && ExpandsTo(config, r.content, b) ==> a == b
  {
    hide Encode, Expanding.Expansion, Decode;
    DecodesWhatIsEncoded(r.content);
  }

  lemma {:induction false} CopiedAreStale(
    to: Files, resources: seq<Resource>, config: Option<Config>, upToDate: set<string>)
    requires AreResources(resources) && CopyTree(to, resources, config, upToDate).failure.None?
    ensures CopyTree(to, resources, config, upToDate).copied == |StaleNames(to, resources, config, upToDate)|
    decreases |resources|
  {
    hide EffectOf, AreResources, IsStale;
    if resources == [] {
      assert StaleNames(to, resources, config, upToDate) == {};
    } else {
      var first, rest := resources[0], resources[1..];
      DistinctTail(resources);
      var effect := EffectOf(to, first, config, upToDate);
      var next := if effect.Write? then to[first.name := effect.content] else to;
      EffectWrites(to, first, config, upToDate);
      CopiedAreStale(next, rest, config, upToDate);
      forall r | r in rest
        ensures IsStale(next, r, config, upToDate) <==> IsStale(to, r, config, upToDate)
      {
        assert r.name in NameSet(rest);
        SameCopySameStale(to, next, r, config, upToDate);
      }
      StaleSplit(to, next, resources, config, upToDate);
    }
  }

  lemma SameCopySameStale(to: Files, next: Files, r: Resource, config: Option<Config>, upToDate: set<string>)
    requires r.name in next <==> r.name in to
    requires r.name in to ==> next[r.name] == to[r.name]
    ensures IsStale(next, r, config, upToDate) <==> IsStale(to, r, config, upToDate)
  {
  }

  lemma StaleSplit(to: Files, next: Files, resources: seq<Resource>, config: Option<Config>, upToDate: set<string>)
    requires resources != [] && resources[0].name !in NameSet(resources[1..])
    requires forall r <- resources[1..] :: IsStale(next, r, config, upToDate) <==> IsStale(to, r, config, upToDate)
    ensures |StaleNames(to, resources, config, upToDate)|
            == |StaleNames(next, resources[1..], config, upToDate)| + if IsStale(to, resources[0], config, upToDate) then 1 else 0
  {
    hide IsStale, StaleNames;
    var first, rest := resources[0], resources[1..];
    var all, more := StaleNames(to, resources, config, upToDate), StaleNames(next, rest, config, upToDate);
    NotAmongStale(next, rest, config, upToDate, first.name);
    if IsStale(to, first, config, upToDate) {
      forall x
        ensures x in all <==> x in more || x == first.name
      {
        StaleOf(to, next, resources, config, upToDate, x);
      }
      assert all == more + {first.name};
    } else {
      forall x
        ensures x in all <==> x in more
      {
        StaleOf(to, next, resources, config, upToDate, x);
      }
      assert all == more;
    }
  }

  lemma NotAmongStale(to: Files, resources: seq<Resource>, config: Option<Config>, upToDate: set<string>, name: string)
    requires name !in NameSet(resources)
    ensures name !in StaleNames(to, resources, config, upToDate)
  {
    hide IsStale;
  }

  lemma StaleOf(
    to: Files, next: Files, resources: seq<Resource>, config: Option<Config>, upToDate: set<string>, x: string)
    requires resources != []
    requires forall r <- resources[1..] :: IsStale(next, r, config, upToDate) <==> IsStale(to, r, config, upToDate)
    ensures x in StaleNames(to, resources, config, upToDate)
            <==> x in StaleNames(next, resources[1..], config, upToDate) || (x == resources[0].name && IsStale(to, resources[0], config, upToDate))
  {
    hide IsStale;
    assert resources == [resources[0]] + resources[1..];
  }

  lemma {:induction false} RemovedAreGone(to: Files, recorded: seq<string>, current: seq<string>)
    ensures var removal := RemoveStale(to, recorded, current); |removal.to.Keys| + removal.removed == |to.Keys|
    decreases |recorded|
  {
    hide IsUnsafe;
    if recorded != [] {
      var name := recorded[0];
      if IsUnsafe(name) || name in current || name !in to {
        RemovedAreGone(to, recorded[1..], current);
      } else {
        RemovedAreGone(to - {name}, recorded[1..], current);
        assert (to - {name}).Keys == to.Keys - {name};
      }
    }
  }

  /** The numbers reported: of the copies that had to be written, and of the files that were removed. */
  lemma SyncCounts(state: State, resources: seq<Resource>, config: Option<Config>, upToDate: set<string>)
    requires AreResources(resources) && Succeeds(state, resources, config, upToDate)
    ensures var synced := Synchronized(state, resources, config, upToDate).result.value;
            var kept := RemoveStale(state.to, Recorded(state), Sorted(NamesOf(resources))).to;
            && synced.copied == |StaleNames(kept, resources, config, upToDate)|
            && |kept.Keys| + synced.removed == |state.to.Keys|
  {
    hide RemoveStale, CopyTree, Sorted, NamesOf, AreResources;
    var current := Sorted(NamesOf(resources));
    RemovedAreGone(state.to, Recorded(state), current);
    CopiedAreStale(RemoveStale(state.to, Recorded(state), current).to, resources, config, upToDate);
  }

  // ---- paths that are not followed ----------------------------------------------------------------

  /** One component of the path is `..`. */
  predicate ClimbsOut(name: string) {
    exists i :: 0 <= i && i + 2 <= |name| && IsParentAt(name, i)
  }

  predicate IsParentAt(name: string, i: nat)
    requires i + 2 <= |name|
  {
    && name[i] == '.' && name[i + 1] == '.'
    && (i == 0 || name[i - 1] == '/') && (i + 2 == |name| || name[i + 2] == '/')
  }

  lemma {:induction false} ParentAmongParts(s: string)
    ensures ".." in Split(s, '/') <==> ClimbsOut(s)
    decreases |s|
  {
    var j := Find(s, '/', 0);
    if j == |s| {
      if s == ".." {
        assert IsParentAt(s, 0);
      }
    } else {
      var head, rest := s[..j], s[j + 1..];
      ParentAmongParts(rest);
      assert Split(s, '/') == [head] + Split(rest, '/');
      ParentSplit(s, j);
    }
  }

  lemma ParentSplit(s: string, j: nat)
    requires j < |s| && s[j] == '/' && forall k :: 0 <= k < j ==> s[k] != '/'
    ensures ClimbsOut(s) <==> s[..j] == ".." || ClimbsOut(s[j + 1..])
  {
    var head, rest := s[..j], s[j + 1..];
    if head == ".." {
      assert head[0] == s[0] && head[1] == s[1];
      assert IsParentAt(s, 0);
    }
    if i :| 0 <= i && i + 2 <= |rest| && IsParentAt(rest, i) {
      assert IsParentAt(s, j + 1 + i);
    }
    if i :| 0 <= i && i + 2 <= |s| && IsParentAt(s, i) {
      if i > j {
        assert IsParentAt(rest, i - j - 1);
      } else {
        assert head == "..";
      }
    }
  }

  /** The record leads nowhere but to files below the directory. */
  lemma UnsafeClimbsOut(name: string)
    ensures IsUnsafe(name) <==> name == [] || ClimbsOut(name)
  {
    hide Split, ClimbsOut;
    ParentAmongParts(name);
  }

  // ---- the record's order -------------------------------------------------------------------------

  ghost predicate InByteOrder(names: seq<string>) {
    forall i, j :: 0 <= i < j < |names| ==> !Less(Encode(names[j]), Encode(names[i]))
  }

  lemma {:induction false} PlaceKeepsOrder(name: string, sorted: seq<string>)
    requires InByteOrder(sorted)
    ensures InByteOrder(Place(name, sorted))
  {
    hide Less, Encode;
    if sorted == [] || !Less(Encode(sorted[0]), Encode(name)) {
      if sorted != [] {
        forall j | 0 <= j < |sorted|
          ensures !Less(Encode(sorted[j]), Encode(name))
        {
          if j > 0 {
            NotBefore(Encode(name), Encode(sorted[0]), Encode(sorted[j]));
          }
        }
      }
    } else {
      var rest := sorted[1..];
      assert forall k :: 0 <= k < |rest| ==> rest[k] == sorted[k + 1];
      PlaceKeepsOrder(name, rest);
      forall x | x in Place(name, rest)
        ensures !Less(Encode(x), Encode(sorted[0]))
      {
        PlaceHas(name, rest, x);
        LessIsAsymmetric(Encode(sorted[0]), Encode(name));
      }
    }
  }

  lemma LessIsAsymmetric(a: Bytes, b: Bytes)
    requires Less(a, b)
    ensures !Less(b, a)
  {
    hide Less;
    if Less(b, a) {
      LessIsTransitive(a, b, a);
      LessIsIrreflexive(a);
    }
  }

  lemma NotBefore(a: Bytes, b: Bytes, c: Bytes)
    requires !Less(b, a) && !Less(c, b)
    ensures !Less(c, a)
  {
    hide Less;
    if Less(c, a) {
      if a == b {
      } else {
        LessIsTotal(a, b);
        LessIsTransitive(c, a, b);
      }
    }
  }

  /** The record lists the names in the order of their bytes. */
  lemma {:induction false} RecordIsSorted(names: seq<string>)
    ensures InByteOrder(Sorted(names)) && forall x :: x in Sorted(names) <==> x in names
  {
    hide Less, Encode, InByteOrder, Place;
    forall x
      ensures x in Sorted(names) <==> x in names
    {
      SortedHas(names, x);
    }
    if names == [] {
      NothingInOrder();
    } else {
      RecordIsSorted(names[1..]);
      PlaceKeepsOrder(names[0], Sorted(names[1..]));
    }
  }

  lemma NothingInOrder()
    ensures InByteOrder([])
  {
  }
}
