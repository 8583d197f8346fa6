/** Mirroring resources. */
module Resources {
  // They go into an output directory that other tools write to as well.

  import opened ByteOrder
  import opened ByteStrings
  import Expanding
  import opened Globs
  import opened Splitting
  import opened Utf8
  import opened Wrappers

  /** The files of a directory, by `/`-separated relative path. */
  type Files = map<string, Bytes>

  datatype Resource = Resource(name: string, content: Bytes)

  /** Which resources are expanded, and with what. */
  datatype Config = Config(patterns: seq<string>, properties: seq<Expanding.Property>)

  datatype Failure =
    | NotUtf8(name: string)
    | DoesNotExpand(name: string, why: Expanding.Failure)

  datatype Synced = Synced(copied: nat, removed: nat)

  // ---- copying ----------------------------------------------------------------------------------

  predicate IsExpanded(config: Option<Config>, name: string) {
    config.Some? && AppliesTo(config.value.patterns, name)
  }

  function ExpandedContent(config: Config, r: Resource): Result<Bytes, Failure> {
    match Decode(r.content)
    case None => Err(NotUtf8(r.name))
    case Some(text) =>
      match Expanding.Expansion(config.properties, text)
      case Ok(expanded) => Ok(Encode(expanded))
      case Err(e) => Err(DoesNotExpand(r.name, e))
  }

  datatype Effect = Write(content: Bytes) | Skip | Fail(failure: Failure)

  /** What copying one resource does: an expanded one is compared by content, any other by whether its
      copy is up to date by size and time. */
  function EffectOf(to: Files, r: Resource, config: Option<Config>, upToDate: set<string>): Effect {
    if IsExpanded(config, r.name) then
      match ExpandedContent(config.value, r)
      case Err(e) => Fail(e)
      case Ok(bytes) => if r.name in to && to[r.name] == bytes then Skip else Write(bytes)
    else if r.name in to && r.name in upToDate then Skip
    else Write(r.content)
  }

  datatype Copy = Copy(to: Files, copied: nat, failure: Option<Failure>)

  function CopyTree(to: Files, resources: seq<Resource>, config: Option<Config>, upToDate: set<string>): Copy
    decreases |resources|
  {
    if resources == [] then Copy(to, 0, None)
    else
      match EffectOf(to, resources[0], config, upToDate)
      case Fail(f) => Copy(to, 0, Some(f))
      case Skip => CopyTree(to, resources[1..], config, upToDate)
      case Write(bytes) =>
        var rest := CopyTree(to[resources[0].name := bytes], resources[1..], config, upToDate);
        rest.(copied := rest.copied + 1)
  }

  // ---- removing ---------------------------------------------------------------------------------

  /** A path the record may not lead to: none, or one that climbs out of the directory. */
  predicate IsUnsafe(name: string) {
    name == [] || ".." in Split(name, '/')
  }

  datatype Removal = Removal(to: Files, removed: nat)

  /** The recorded files that are no longer resources, removed. */
  function RemoveStale(to: Files, recorded: seq<string>, current: seq<string>): Removal
    decreases |recorded|
  {
    if recorded == [] then Removal(to, 0)
    else
      var name := recorded[0];
      if IsUnsafe(name) || name in current || name !in to then RemoveStale(to, recorded[1..], current)
      else
        var rest := RemoveStale(to - {name}, recorded[1..], current);
        rest.(removed := rest.removed + 1)
  }

  // ---- the names --------------------------------------------------------------------------------

  function NamesOf(resources: seq<Resource>): seq<string> {
    if resources == [] then [] else [resources[0].name] + NamesOf(resources[1..])
  }

  function Place(name: string, sorted: seq<string>): seq<string> {
    if sorted == [] || !Less(Encode(sorted[0]), Encode(name)) then [name] + sorted
    else [sorted[0]] + Place(name, sorted[1..])
  }

  function Sorted(names: seq<string>): seq<string> {
    if names == [] then [] else Place(names[0], Sorted(names[1..]))
  }

  // ---- one synchronization ----------------------------------------------------------------------

  /** The output directory and the record of what was put there. */
  datatype State = State(to: Files, record: Option<string>)

  function Recorded(state: State): seq<string> {
    match state.record case Some(text) => Lines(text) case None => []
  }

  function Record(current: seq<string>): Option<string> {
    if current == [] then None else Some(WriteLines(current))
  }

  datatype Outcome = Outcome(state: State, result: Result<Synced, Failure>)

  function Synchronized(state: State, resources: seq<Resource>, config: Option<Config>, upToDate: set<string>): Outcome {
    var current := Sorted(NamesOf(resources));
    var removal := RemoveStale(state.to, Recorded(state), current);
    var copy := CopyTree(removal.to, resources, config, upToDate);
    match copy.failure
    case Some(f) => Outcome(State(copy.to, state.record), Err(f))
    case None => Outcome(State(copy.to, Record(current)), Ok(Synced(copy.copied, removal.removed)))
  }

  class Workspace {
    var to: Files
    var record: Option<string>

    constructor (to: Files)
      ensures this.to == to && record == None
    {
      this.to := to;
      record := None;
    }

    function Now(): State
      reads this
    {
      State(to, record)
    }

    method RemoveRecorded(recorded: seq<string>, current: seq<string>) returns (removed: nat)
      modifies this`to
      ensures Removal(to, removed) == RemoveStale(old(to), recorded, current)
    {
      hide IsUnsafe;
      removed := 0;
      for k := 0 to |recorded|
        invariant var rest := RemoveStale(to, recorded[k..], current);
                  Removal(rest.to, rest.removed + removed) == RemoveStale(old(to), recorded, current)
      {
        assert recorded[k..][0] == recorded[k] && recorded[k..][1..] == recorded[k + 1..];
        var name := recorded[k];
        if IsUnsafe(name) {
          continue;
        }
        if name in current {
          continue;
        }
        if name in to {
          to := to - {name};
          removed := removed + 1;
        }
      }
    }

    method CopyResources(resources: seq<Resource>, config: Option<Config>, upToDate: set<string>)
      returns (r: Result<nat, Failure>)
      modifies this`to
      ensures var copy := CopyTree(old(to), resources, config, upToDate);
              to == copy.to && r == match copy.failure { case Some(f) => Err(f) case None => Ok(copy.copied) }
    {
      hide AppliesTo, ExpandedContent;
      var copied: nat := 0;
      for k := 0 to |resources|
        invariant var rest := CopyTree(to, resources[k..], config, upToDate);
                  Copy(rest.to, rest.copied + copied, rest.failure)
                  == var all := CopyTree(old(to), resources, config, upToDate);
                     if all.failure.Some? then Copy(all.to, rest.copied + copied, all.failure) else all
      {
        var r := resources[k];
        assert resources[k..][0] == r && resources[k..][1..] == resources[k + 1..];
        if IsExpanded(config, r.name) {
          var expanded := ExpandedContent(config.value, r);
          if expanded.Err? {
            return Err(expanded.error);
          }
          if r.name in to && to[r.name] == expanded.value {
            continue;
          }
          to := to[r.name := expanded.value];
          copied := copied + 1;
          continue;
        }
        if r.name in to && r.name in upToDate {
          continue;
        }
        to := to[r.name := r.content];
        copied := copied + 1;
      }
      return Ok(copied);
    }

    method SyncResources(resources: seq<Resource>, config: Option<Config>, upToDate: set<string>)
      returns (r: Result<Synced, Failure>)
      modifies this
      ensures Outcome(Now(), r) == Synchronized(old(Now()), resources, config, upToDate)
    {
      hide RemoveStale, CopyTree, Sorted, NamesOf;
      var current := Sorted(NamesOf(resources));
      var previous := if record.Some? then record.value else [];
      assert Lines(previous) == Recorded(Now());
      var removed := RemoveRecorded(Lines(previous), current);
      var copied := CopyResources(resources, config, upToDate);
      if copied.Err? {
        return Err(copied.error);
      }
      if current == [] {
        record := None;
      } else {
        record := Some(WriteLines(current));
      }
      return Ok(Synced(copied.value, removed));
    }
  }
}
