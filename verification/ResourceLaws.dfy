/** Runs of the mirror. */
module ResourceLaws {
  // Over any run of edits and synchronizations, the output directory mirrors the resources.

  import opened ByteOrder
  import opened ByteStrings
  import opened Globs
  import opened Resources
  import opened Splitting
  import opened Text
  import opened Utf8
  import opened Wildcards
  import opened Wrappers

  // ---- runs -------------------------------------------------------------------------------------

  /** A synchronization with the resources as they are then, or a file written or deleted by another tool. */
  datatype Step =
    | Sync(resources: seq<Resource>, config: Option<Config>, upToDate: set<string>)
    | Put(name: string, content: Bytes)
    | Delete(name: string)

  function Perform(state: State, step: Step): State {
    match step
    case Sync(resources, config, upToDate) => Synchronized(state, resources, config, upToDate).state
    case Put(name, content) => state.(to := state.to[name := content])
    case Delete(name) => state.(to := state.to - {name})
  }

  function After(start: Files, steps: seq<Step>): State {
    if steps == [] then State(start, None) else Perform(After(start, steps[..|steps| - 1]), steps[|steps| - 1])
  }

  /** What the other tools alone would leave. */
  function Others(start: Files, steps: seq<Step>): Files {
    if steps == [] then start
    else
      var before := Others(start, steps[..|steps| - 1]);
      match steps[|steps| - 1]
      case Sync(_, _, _) => before
      case Put(name, content) => before[name := content]
      case Delete(name) => before - {name}
  }

  /** Every name that was a resource when resources were synchronized. */
  function Ever(steps: seq<Step>): set<string> {
    if steps == [] then {}
    else
      Ever(steps[..|steps| - 1])
      + (match steps[|steps| - 1]
         case Sync(resources, _, _) => NameSet(resources)
         case _ => {})
  }

  function NameSet(resources: seq<Resource>): set<string> {
    set r | r in resources :: r.name
  }

  /** A path of a file below a directory, that a line can hold. */
  predicate IsName(name: string) {
    !IsUnsafe(name) && IsLine(name)
  }

  predicate AreResources(resources: seq<Resource>) {
    && (forall k :: 0 <= k < |resources| ==> IsName(resources[k].name))
    && forall i, j :: 0 <= i < j < |resources| ==> resources[i].name != resources[j].name
  }

  /** What a run may consist of: each step synchronizes distinct, well-named resources, or is another
      tool's and about a name in `apart`. */
  predicate IsStep(step: Step, apart: set<string>) {
    match step
    case Sync(resources, _, _) => AreResources(resources) && NameSet(resources) !! apart
    case Put(name, _) => name in apart
    case Delete(name) => name in apart
  }

  predicate IsRun(start: Files, steps: seq<Step>, apart: set<string>) {
    start.Keys <= apart && forall k :: 0 <= k < |steps| ==> IsStep(steps[k], apart)
  }

  // ---- the names and the record -----------------------------------------------------------------

  lemma {:induction false} PlaceHas(name: string, sorted: seq<string>, x: string)
    ensures x in Place(name, sorted) <==> x == name || x in sorted
  {
    hide Less;
    if sorted != [] && Less(Encode(sorted[0]), Encode(name)) {
      PlaceHas(name, sorted[1..], x);
      assert sorted == [sorted[0]] + sorted[1..];
    }
  }

  lemma {:induction false} SortedHas(names: seq<string>, x: string)
    ensures x in Sorted(names) <==> x in names
  {
    if names != [] {
      PlaceHas(names[0], Sorted(names[1..]), x);
      SortedHas(names[1..], x);
      assert names == [names[0]] + names[1..];
    }
  }

  lemma {:induction false} NamesHas(resources: seq<Resource>, x: string)
    ensures x in NamesOf(resources) <==> x in NameSet(resources)
  {
    if resources != [] {
      NamesHas(resources[1..], x);
      assert resources == [resources[0]] + resources[1..];
    }
  }

  lemma CurrentHas(resources: seq<Resource>, x: string)
    ensures x in Sorted(NamesOf(resources)) <==> x in NameSet(resources)
  {
    SortedHas(NamesOf(resources), x);
    NamesHas(resources, x);
  }

  /** The record reads back as the names it was written from exactly when each can be a line: it has no
      line feed and does not end in a carriage return. */
  lemma RecordReadsBack(names: seq<string>)
    ensures Lines(WriteLines(names)) == names <==> forall name <- names :: IsLine(name)
  {
    hide Lines, WriteLines, IsLine;
    if forall name <- names :: IsLine(name) {
      WrittenLinesBack(names);
    }
    if Lines(WriteLines(names)) == names {
      OnlyLinesReadBack(names);
    }
  }

  lemma OnlyLinesReadBack(names: seq<string>)
    requires Lines(WriteLines(names)) == names
    ensures forall name <- names :: IsLine(name)
  {
    hide Lines, WriteLines;
    LinesHaveNone(WriteLines(names));
    StrippedBack(names);
    assert forall k :: 0 <= k < |names| ==> StripReturn(names[k]) == names[k];
  }

  lemma {:induction false} StrippedBack(names: seq<string>)
    requires forall name <- names :: '\n' !in name
    ensures |Lines(WriteLines(names))| == |names|
    ensures forall k :: 0 <= k < |names| ==> Lines(WriteLines(names))[k] == StripReturn(names[k])
  {
    hide Lines;
    if names == [] {
      NoLines();
    } else {
      assert names[0] in names && forall name <- names[1..] :: name in names;
      FirstLine(names[0], WriteLines(names[1..]));
      StrippedBack(names[1..]);
    }
  }

  lemma NoLines()
    ensures Lines([]) == []
  {
  }

  lemma RecordedIs(state: State, current: seq<string>)
    requires state.record == Record(current) && forall name <- current :: IsLine(name)
    ensures Recorded(state) == current
  {
    hide Lines;
    if current != [] {
      WrittenLinesBack(current);
    }
  }

  // ---- one synchronization ----------------------------------------------------------------------

  /** Removing takes away exactly the recorded files that are safe to follow and no longer resources. */
  lemma {:induction false} RemovalIs(to: Files, recorded: seq<string>, current: seq<string>, name: string)
    ensures var after := RemoveStale(to, recorded, current).to;
            && (name in after <==> name in to && !(name in recorded && !IsUnsafe(name) && name !in current))
            && (name in after ==> after[name] == to[name])
    decreases |recorded|
  {
    hide IsUnsafe;
    if recorded != [] {
      var first := recorded[0];
      assert recorded == [first] + recorded[1..];
      RemovalIs(to, recorded[1..], current, name);
      RemovalIs(to - {first}, recorded[1..], current, name);
    }
  }

  /** How many resources are dealt with before one fails. */
  function Reached(to: Files, resources: seq<Resource>, config: Option<Config>, upToDate: set<string>): (k: nat)
    ensures k <= |resources|
    decreases |resources|
  {
    if resources == [] then 0
    else
      match EffectOf(to, resources[0], config, upToDate)
      case Fail(_) => 0
      case Skip => 1 + Reached(to, resources[1..], config, upToDate)
      case Write(bytes) => 1 + Reached(to[resources[0].name := bytes], resources[1..], config, upToDate)
  }

  lemma DistinctTail(resources: seq<Resource>)
    requires AreResources(resources) && resources != []
    ensures AreResources(resources[1..]) && resources[0].name !in NameSet(resources[1..])
    ensures forall x :: x in NameSet(resources) <==> x == resources[0].name || x in NameSet(resources[1..])
  {
    hide IsName;
    var rest := resources[1..];
    assert forall k :: 0 <= k < |rest| ==> rest[k] == resources[k + 1];
    assert resources == [resources[0]] + rest;
    assert forall k :: 0 <= k < |rest| ==> rest[k].name != resources[0].name;
  }

  /** Copying touches no name but the resources it reaches, and leaves each of those there. */
  lemma {:induction false} CopyTouches(to: Files, resources: seq<Resource>, config: Option<Config>, upToDate: set<string>, name: string)
    requires AreResources(resources)
    ensures var copy := CopyTree(to, resources, config, upToDate);
            var reached := resources[..Reached(to, resources, config, upToDate)];
            && (copy.failure.None? <==> |reached| == |resources|)
            && (name in copy.to <==> name in to || name in NameSet(reached))
            && (name !in NameSet(reached) && name in to ==> copy.to[name] == to[name])
    decreases |resources|
  {
    hide EffectOf, AreResources;
    if resources == [] {
    } else {
      DistinctTail(resources);
      var first, rest := resources[0], resources[1..];
      var effect := EffectOf(to, first, config, upToDate);
      if !effect.Fail? {
        var next := if effect.Write? then to[first.name := effect.content] else to;
        CopyTouches(next, rest, config, upToDate, name);
        var k := Reached(next, rest, config, upToDate);
        assert resources[..k + 1] == [first] + rest[..k];
        NameSetOfMore(first, rest[..k], name);
        if effect.Skip? {
          SkippedIsThere(to, first, config, upToDate);
        }
      } else {
        assert resources[..0] == [];
      }
    }
  }

  lemma SkippedIsThere(to: Files, r: Resource, config: Option<Config>, upToDate: set<string>)
    requires EffectOf(to, r, config, upToDate).Skip?
    ensures r.name in to
    ensures IsExpanded(config, r.name) ==> ExpandedContent(config.value, r) == Ok(to[r.name])
  {
    hide IsExpanded, ExpandedContent;
  }

  lemma NameSetOfMore(first: Resource, rest: seq<Resource>, x: string)
    ensures x in NameSet([first] + rest) <==> x == first.name || x in NameSet(rest)
  {
    var all := [first] + rest;
    assert all[0] == first && all[1..] == rest;
    assert forall r :: r in all <==> r == first || r in rest;
  }

  /** What a resource's copy holds when every resource was copied: its expansion, if it is expanded; its
      own content, if its copy was not up to date. */
  lemma {:induction false} CopyHolds(to: Files, resources: seq<Resource>, config: Option<Config>, upToDate: set<string>, k: nat)
    requires AreResources(resources) && CopyTree(to, resources, config, upToDate).failure.None? && k < |resources|
    ensures var after := CopyTree(to, resources, config, upToDate).to;
            var r := resources[k];
            && r.name in after
            && (IsExpanded(config, r.name) ==> ExpandedContent(config.value, r) == Ok(after[r.name]))
            && (!IsExpanded(config, r.name) && (r.name !in to || r.name !in upToDate) ==> after[r.name] == r.content)
    decreases |resources|
  {
    hide EffectOf, AreResources, ExpandedContent, IsExpanded;
    DistinctTail(resources);
    var first, rest := resources[0], resources[1..];
    var effect := EffectOf(to, first, config, upToDate);
    var next := if effect.Write? then to[first.name := effect.content] else to;
    if k > 0 {
      CopyHolds(next, rest, config, upToDate, k - 1);
      assert rest[k - 1] == resources[k] && rest[k - 1] in rest;
    } else {
      EffectIsRight(to, first, config, upToDate);
      CopyTouches(next, rest, config, upToDate, first.name);
      InPart(rest, Reached(next, rest, config, upToDate), first.name);
    }
  }

  lemma InPart(resources: seq<Resource>, k: nat, name: string)
    requires k <= |resources| && name !in NameSet(resources)
    ensures name !in NameSet(resources[..k])
  {
    assert forall r <- resources[..k] :: r in resources;
  }

  lemma EffectIsRight(to: Files, r: Resource, config: Option<Config>, upToDate: set<string>)
    requires !EffectOf(to, r, config, upToDate).Fail?
    ensures var effect := EffectOf(to, r, config, upToDate);
            var next := if effect.Write? then to[r.name := effect.content] else to;
            && r.name in next
            && (IsExpanded(config, r.name) ==> ExpandedContent(config.value, r) == Ok(next[r.name]))
            && (!IsExpanded(config, r.name) && (r.name !in to || r.name !in upToDate) ==> next[r.name] == r.content)
  {
    hide IsExpanded, ExpandedContent;
  }

  // ---- runs -------------------------------------------------------------------------------------

  /** The resources a synchronization reaches before one fails: all, when none does. */
  function ReachedIn(state: State, resources: seq<Resource>, config: Option<Config>, upToDate: set<string>): seq<Resource> {
    var to := RemoveStale(state.to, Recorded(state), Sorted(NamesOf(resources))).to;
    resources[..Reached(to, resources, config, upToDate)]
  }

  predicate Succeeds(state: State, resources: seq<Resource>, config: Option<Config>, upToDate: set<string>) {
    Synchronized(state, resources, config, upToDate).result.Ok?
  }

  /** Files that failed synchronizations put there and that no successful one has recorded since. */
  function Strays(start: Files, steps: seq<Step>): set<string> {
    if steps == [] then {}
    else
      var front := steps[..|steps| - 1];
      var strays, before := Strays(start, front), After(start, front);
      match steps[|steps| - 1]
      case Sync(resources, config, upToDate) =>
        if Succeeds(before, resources, config, upToDate) then strays - NameSet(resources)
        else strays + (NameSet(ReachedIn(before, resources, config, upToDate)) - (set x | x in Recorded(before)))
      case _ => strays
  }

  /** What every run keeps, about one name. */
  ghost predicate Kept(start: Files, steps: seq<Step>, apart: set<string>, n: string) {
    var state, others, ever, strays := After(start, steps), Others(start, steps), Ever(steps), Strays(start, steps);
    && (n in Recorded(state) ==> IsName(n) && n in ever)
    && (n in state.to ==> n in apart || n in ever)
    && (n in ever && n in state.to ==> n in Recorded(state) || n in strays)
    && (n in strays ==> n in state.to && n !in Recorded(state) && n in ever)
    && (n in apart ==> n !in ever && (n in state.to <==> n in others) && (n in others ==> state.to[n] == others[n]))
    && (n in others ==> n in apart)
  }

  lemma NamesAreNames(resources: seq<Resource>)
    requires AreResources(resources)
    ensures forall n <- Sorted(NamesOf(resources)) :: IsName(n)
  {
    hide IsName, Sorted, NamesOf;
    forall n | n in Sorted(NamesOf(resources))
      ensures IsName(n)
    {
      CurrentHas(resources, n);
    }
  }

  lemma SyncRecords(state: State, resources: seq<Resource>, config: Option<Config>, upToDate: set<string>)
    requires AreResources(resources)
    ensures Recorded(Synchronized(state, resources, config, upToDate).state)
            == if Succeeds(state, resources, config, upToDate) then Sorted(NamesOf(resources)) else Recorded(state)
  {
    hide Sorted, NamesOf, CopyTree, RemoveStale, AreResources, IsLine, IsUnsafe, Recorded;
    NamesAreNames(resources);
    var after := Synchronized(state, resources, config, upToDate).state;
    if Succeeds(state, resources, config, upToDate) {
      RecordedIs(after, Sorted(NamesOf(resources)));
    } else {
      SameRecord(state, after);
    }
  }

  lemma SameRecord(a: State, b: State)
    requires a.record == b.record
    ensures Recorded(a) == Recorded(b)
  {
  }

  /** One synchronization, as one name sees it. */
  lemma SyncSees(state: State, resources: seq<Resource>, config: Option<Config>, upToDate: set<string>, n: string)
    requires AreResources(resources)
    ensures var after := Synchronized(state, resources, config, upToDate).state;
            var reached := NameSet(ReachedIn(state, resources, config, upToDate));
            var stale := n in Recorded(state) && !IsUnsafe(n) && n !in NameSet(resources);
            && (n in after.to <==> (n in state.to && !stale) || n in reached)
            && (n !in reached && n in after.to ==> after.to[n] == state.to[n])
            && (n in reached ==> n in NameSet(resources))
            && (Succeeds(state, resources, config, upToDate) ==> reached == NameSet(resources))
  {
    hide Sorted, NamesOf, CopyTree, RemoveStale, AreResources, IsUnsafe, Recorded, Reached;
    var current := Sorted(NamesOf(resources));
    RemovalIs(state.to, Recorded(state), current, n);
    CurrentHas(resources, n);
    var to := RemoveStale(state.to, Recorded(state), current).to;
    CopyTouches(to, resources, config, upToDate, n);
    var k := Reached(to, resources, config, upToDate);
    assert k == |resources| ==> resources[..k] == resources;
    if n !in NameSet(resources) {
      InPart(resources, k, n);
    }
  }

  lemma {:induction false} RunKeeps(start: Files, steps: seq<Step>, apart: set<string>, n: string)
    requires IsRun(start, steps, apart)
    ensures Kept(start, steps, apart, n)
    decreases |steps|
  {
    hide Synchronized, Recorded, NameSet, AreResources, IsUnsafe, IsLine, ReachedIn, Succeeds;
    if steps == [] {
      NothingRecorded(start);
    } else {
      var front, last := steps[..|steps| - 1], steps[|steps| - 1];
      assert forall k :: 0 <= k < |front| ==> front[k] == steps[k];
      RunKeeps(start, front, apart, n);
      var before := After(start, front);
      match last
      case Sync(resources, config, upToDate) =>
        SyncSees(before, resources, config, upToDate, n);
        SyncRecords(before, resources, config, upToDate);
        CurrentHas(resources, n);
        if n in Sorted(NamesOf(resources)) {
          NamesAreNames(resources);
        }
      case Put(name, content) => SameRecord(before, After(start, steps));
      case Delete(name) => SameRecord(before, After(start, steps));
    }
  }

  lemma NothingRecorded(start: Files)
    ensures Recorded(State(start, None)) == []
  {
  }

  /** After every successful synchronization, whatever came before: the record is the current names; every
      current resource is there; one that has gone is there exactly if a failed synchronization left it;
      and all other files are as the other tools left them. */
  lemma SyncMirrors(
    start: Files, steps: seq<Step>, apart: set<string>,
    resources: seq<Resource>, config: Option<Config>, upToDate: set<string>)
    requires IsRun(start, steps + [Sync(resources, config, upToDate)], apart)
    requires Succeeds(After(start, steps), resources, config, upToDate)
    ensures var all := steps + [Sync(resources, config, upToDate)];
            var state := After(start, all);
            && Recorded(state) == Sorted(NamesOf(resources))
            && (forall n :: n in NameSet(resources) ==> n in state.to)
            && (forall n :: n in Ever(steps) && n !in NameSet(resources) ==> (n in state.to <==> n in Strays(start, steps)))
            && (forall n :: n in apart ==>
                  (n in state.to <==> n in Others(start, steps)) && (n in state.to ==> state.to[n] == Others(start, steps)[n]))
            && state.to.Keys <= apart + Ever(steps) + NameSet(resources)
  {
    hide Synchronized, Recorded, NameSet, AreResources, IsUnsafe, IsLine, ReachedIn, Succeeds, Sorted, NamesOf, IsName;
    var last := Sync(resources, config, upToDate);
    var all := steps + [last];
    assert all[..|steps|] == steps && all[|steps|] == last && IsStep(all[|steps|], apart);
    SyncRecords(After(start, steps), resources, config, upToDate);
    forall n
      ensures Kept(start, all, apart, n) && (n in NameSet(resources) ==> n in After(start, all).to)
      ensures n in Recorded(After(start, all)) <==> n in NameSet(resources)
    {
      RunKeeps(start, all, apart, n);
      SyncSees(After(start, steps), resources, config, upToDate, n);
      CurrentHas(resources, n);
    }
    var state := After(start, all);
    forall n | n in state.to.Keys
      ensures n in apart + Ever(steps) + NameSet(resources)
    {
      assert Kept(start, all, apart, n);
    }
  }

  /** ... and an expanded file holds exactly its expansion, any other its source's content unless its copy
      was up to date by size and time. */
  lemma SyncHolds(
    state: State, resources: seq<Resource>, config: Option<Config>, upToDate: set<string>, k: nat)
    requires AreResources(resources) && Succeeds(state, resources, config, upToDate) && k < |resources|
    ensures var after := Synchronized(state, resources, config, upToDate).state.to;
            var r := resources[k];
            && r.name in after
            && (IsExpanded(config, r.name) ==> ExpandedContent(config.value, r) == Ok(after[r.name]))
            && (!IsExpanded(config, r.name) && (r.name !in state.to || r.name !in upToDate) ==> after[r.name] == r.content)
  {
    hide Sorted, NamesOf, CopyTree, RemoveStale, AreResources, IsExpanded, ExpandedContent, Recorded, IsUnsafe;
    var to := RemoveStale(state.to, Recorded(state), Sorted(NamesOf(resources))).to;
    RemovalIs(state.to, Recorded(state), Sorted(NamesOf(resources)), resources[k].name);
    CopyHolds(to, resources, config, upToDate, k);
  }

  predicate AllSucceed(start: Files, steps: seq<Step>) {
    forall k :: 0 <= k < |steps| && steps[k].Sync? ==>
      Succeeds(After(start, steps[..k]), steps[k].resources, steps[k].config, steps[k].upToDate)
  }

  /** Without a failed synchronization nothing is left over: every earlier resource that has gone is absent. */
  lemma {:induction false} NoStrays(start: Files, steps: seq<Step>)
    requires AllSucceed(start, steps)
    ensures Strays(start, steps) == {}
    decreases |steps|
  {
    hide Succeeds, ReachedIn, After;
    if steps != [] {
      var front := steps[..|steps| - 1];
      assert forall k :: 0 <= k < |front| ==> front[k] == steps[k] && front[..k] == steps[..k];
      NoStrays(start, front);
    }
  }

  // ---- where it does not mirror -----------------------------------------------------------------

  const PLAIN: Resource := Resource("a", [])
  const NO_TEXT: Resource := Resource("b", [0xFF])
  const EXPANDING_B: Option<Config> := Some(Config(["b"], []))

  lemma OneSegment(name: string)
    requires '/' !in name
    ensures Split(name, '/') == [name]
  {
    FindIs(name, '/', 0, |name|);
  }

  lemma OnlyBIsExpanded()
    ensures IsExpanded(EXPANDING_B, "b") && !IsExpanded(EXPANDING_B, "a")
  {
    OneSegment("a");
    OneSegment("b");
    assert GreedyMatches("b", "b") && !GreedyMatches("b", "a") by {
      assert "b"[1..] == "";
    }
    assert ["b"][1..] == [] && SegmentsMatch([], []);
    assert GlobMatches(EXPANDING_B.value.patterns[0], "b");
  }

  lemma NoTextFails()
    ensures ExpandedContent(EXPANDING_B.value, NO_TEXT).Err?
  {
    assert DecodeChar(NO_TEXT.content, 0) == None;
  }

  lemma CopiesOneThenFails()
    ensures var copy := CopyTree(map[], [PLAIN, NO_TEXT], EXPANDING_B, {});
            copy.failure.Some? && copy.to == map["a" := []]
  {
    hide IsExpanded, ExpandedContent;
    OnlyBIsExpanded();
    NoTextFails();
    assert [PLAIN, NO_TEXT][1..] == [NO_TEXT];
    assert EffectOf(map[], PLAIN, EXPANDING_B, {}) == Write([]);
    assert EffectOf(map["a" := []], NO_TEXT, EXPANDING_B, {}).Fail?;
    var one: Files := map["a" := []];
    var none: Files := map[];
    assert none["a" := []] == one;
    assert CopyTree(one, [NO_TEXT], EXPANDING_B, {}).failure.Some? && CopyTree(one, [NO_TEXT], EXPANDING_B, {}).to == one;
  }

  /** A synchronization that fails at one resource leaves the copies it made before unrecorded: when their
      sources go, they stay. */
  lemma FailedSyncLeavesAFile()
    ensures var steps := [Sync([PLAIN, NO_TEXT], EXPANDING_B, {}), Sync([], None, {})];
            && IsRun(map[], steps, {})
            && !Succeeds(After(map[], steps[..0]), [PLAIN, NO_TEXT], EXPANDING_B, {})
            && Succeeds(After(map[], steps[..1]), [], None, {})
            && "a" in Ever(steps) && "a" in After(map[], steps).to
  {
    hide IsExpanded, ExpandedContent, IsUnsafe, Sorted, NamesOf, EffectOf;
    var both := [PLAIN, NO_TEXT];
    var first, second := Sync(both, EXPANDING_B, {}), Sync([], None, {});
    var steps := [first, second];
    assert RemoveStale(map[], [], Sorted(NamesOf(both))) == Removal(map[], 0);
    CopiesOneThenFails();
    assert steps[..1] == [first] && steps[..0] == [] && [first][..0] == [];
    assert After(map[], [first]) == State(map["a" := []], None);
    assert CopyTree(map["a" := []], [], None, {}) == Copy(map["a" := []], 0, None);
    assert RemoveStale(map["a" := []], [], Sorted(NamesOf([]))) == Removal(map["a" := []], 0);
    assert Succeeds(After(map[], [first]), [], None, {});
    assert After(map[], steps) == Synchronized(After(map[], [first]), [], None, {}).state;
    assert PLAIN in both;
    assert Ever(steps) == Ever([first]) + NameSet([]) && Ever([first]) == Ever([]) + NameSet(both);
    SimpleNames();
    assert AreResources(both);
  }

  lemma SimpleNames()
    ensures IsName("a") && IsName("b")
  {
    OneSegment("a");
    OneSegment("b");
  }

  const RETURNING: Resource := Resource("a\r", [])

  /** A name that ends in a carriage return is recorded without it: when the resource goes, its copy stays,
      and another tool's file, of the name without, is deleted in its place. */
  lemma CarriageReturnIsLost()
    ensures var steps := [Sync([RETURNING], None, {}), Put("a", []), Sync([], None, {})];
            && "a" in Others(map[], steps) && "a" !in After(map[], steps).to
            && "a\r" in Ever(steps) && "a\r" in After(map[], steps).to
  {
    hide IsUnsafe, WriteLines;
    var first, second, third := Sync([RETURNING], None, {}), Put("a", []), Sync([], None, {});
    var steps := [first, second, third];
    assert steps[..2] == [first, second] && [first, second][..1] == [first] && [first][..0] == [];
    ReturningCopied();
    var both := map["a\r" := [], "a" := []];
    assert After(map[], [first, second]) == State(both, Some(WriteLines(["a\r"])));
    SimpleNames();
    OneStale(both);
    ReturningRecorded(both);
    assert RETURNING in [RETURNING];
    assert Ever([first]) == Ever([]) + NameSet([RETURNING]);
    assert Ever([first, second]) == Ever([first]) + {} && Ever(steps) == Ever([first, second]) + NameSet([]);
  }

  lemma ReturningCopied()
    ensures After(map[], [Sync([RETURNING], None, {})]) == State(map["a\r" := []], Some(WriteLines(["a\r"])))
  {
    hide IsUnsafe;
    var names := ["a\r"];
    assert [Sync([RETURNING], None, {})][..0] == [];
    assert [RETURNING][1..] == [];
    assert names[1..] == [] && Sorted([]) == [];
    assert NamesOf([RETURNING]) == names && Sorted(names) == names;
    assert RemoveStale(map[], [], names) == Removal(map[], 0);
    assert CopyTree(map["a\r" := []], [], None, {}) == Copy(map["a\r" := []], 0, None);
    assert CopyTree(map[], [RETURNING], None, {}) == Copy(map["a\r" := []], 1, None);
  }

  lemma ReturningRecorded(to: Files)
    ensures Recorded(State(to, Some(WriteLines(["a\r"])))) == ["a"]
  {
    FirstLine("a\r", "");
    NoLines();
    assert ["a\r"][1..] == [];
    assert WriteLines(["a\r"]) == "a\r" + ("\n" + "");
    assert StripReturn("a\r") == "a";
  }

  lemma OneStale(to: Files)
    requires "a" in to && !IsUnsafe("a")
    ensures RemoveStale(to, ["a"], Sorted(NamesOf([]))).to == to - {"a"}
  {
    hide IsUnsafe;
    assert ["a"][1..] == [];
  }
}
