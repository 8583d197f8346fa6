/**
 Planning a fat jar. The project's files go first, then every dependency's, each name once.
 */
module FatJar {
  import opened ByteStrings
  import opened EntryNames
  import JarLayout
  import opened Relocation
  import opened Rewriting
  import opened Wrappers

  /** Where a copy of an entry comes from. */
  datatype Source = OnDisk(path: Bytes) | Packed(jar: nat, index: nat)

  datatype Merge = Append | SpringFactories | Lines

  datatype Entry =
    | FileEntry(path: Bytes)
    | JarEntry(jar: nat, index: nat)
    | Merged(kind: Merge, sources: seq<Source>)
    | ExtensionModules(files: seq<Bytes>, packed: seq<Source>)

  /** An archive's entry: its name, or one that cannot be read. */
  datatype Item = Unreadable | Item(name: Bytes)

  datatype Jar = NotAJar | Jar(items: seq<Item>)

  /** A class that a dependency has and an earlier copy hides. */
  datatype Warning = Duplicate(name: Bytes, kept: Source, ignored: Source)

  datatype Failure = NoMainClass | BadJar(jar: nat)

  datatype Plan = Plan(entries: map<Bytes, Entry>, warnings: seq<Warning>)

  // ---- names ------------------------------------------------------------------------------------

  const INDEX_LIST: Bytes := Ascii("META-INF/INDEX.LIST")
  const MODULE_INFO: Bytes := Ascii("module-info.class")
  const DESCRIPTOR: Bytes := Ascii("org.codehaus.groovy.") + Ascii("runtime.ExtensionModule")
  const EXTENSION_MODULE: Bytes := Ascii("META-INF/groovy/") + DESCRIPTOR
  const LEGACY_EXTENSION_MODULE: Bytes := SERVICES + DESCRIPTOR
  const FACTORIES: Bytes := Ascii("META-INF/spring.factories")
  const HANDLERS: Bytes := Ascii("META-INF/spring.handlers")
  const SCHEMAS: Bytes := Ascii("META-INF/spring.schemas")
  const TOOLING: Bytes := Ascii("META-INF/spring.tooling")
  const SPRING: Bytes := Ascii("META-INF/spring/")
  const IMPORTS: Bytes := Ascii(".imports")

  predicate EndsWith(name: Bytes, suffix: Bytes) {
    |suffix| <= |name| && name[|name| - |suffix|..] == suffix
  }

  function Upper(b: Byte): Byte {
    if 'a' as Byte <= b <= 'z' as Byte then b - 32 else b
  }

  function AsciiUpper(s: Bytes): Bytes {
    seq(|s|, k requires 0 <= k < |s| => Upper(s[k]))
  }

  predicate IsVersionedModuleInfo(name: Bytes) {
    VERSIONS <= name &&
    var rest := name[|VERSIONS|..];
    match FindSlash(rest)
    case None => false
    case Some(k) => rest[k + 1..] == MODULE_INFO && AllDigits(rest[..k])
  }

  predicate IsSignature(name: Bytes) {
    META_INF <= name && '/' as Byte !in name[|META_INF|..] &&
    var upper := AsciiUpper(name[|META_INF|..]);
    || EndsWith(upper, Ascii(".SF"))
    || EndsWith(upper, Ascii(".DSA"))
    || EndsWith(upper, Ascii(".RSA"))
    || EndsWith(upper, Ascii(".EC"))
  }

  predicate IsDropped(name: Bytes) {
    || name == JarLayout.MANIFEST || name == INDEX_LIST
    || name == MODULE_INFO || IsVersionedModuleInfo(name)
    || IsSignature(name)
  }

  predicate IsClass(name: Bytes) {
    EndsWith(name, CLASS_SUFFIX)
  }

  predicate IsServiceFile(name: Bytes) {
    SERVICES <= name && |name| > |SERVICES|
  }

  predicate IsImports(name: Bytes) {
    && SPRING <= name && '/' as Byte !in name[|SPRING|..]
    && |name| - |SPRING| > |IMPORTS| && EndsWith(name, IMPORTS)
  }

  function MergeKind(name: Bytes): Option<Merge> {
    if name == FACTORIES then Some(SpringFactories)
    else if name == HANDLERS || name == SCHEMAS || name == TOOLING then Some(Append)
    else if IsServiceFile(name) then Some(Append)
    else if IsImports(name) then Some(Lines)
    else None
  }

  predicate IsExtensionModule(name: Bytes) {
    name == EXTENSION_MODULE || name == LEGACY_EXTENSION_MODULE
  }

  // ---- what the dependencies hold ---------------------------------------------------------------

  /** An entry of a dependency that reaches the jar. */
  datatype Ref = Ref(jar: nat, index: nat, name: Bytes) {
    function AsSource(): Source {
      Packed(jar, index)
    }
  }

  /** An archive marks its directories by a slash at the end. */
  predicate IsDirectory(name: Bytes) {
    JarLayout.EndsInSlash(name)
  }

  predicate IsKept(item: Item) {
    item.Item? && !IsDirectory(item.name) && !IsDropped(item.name)
  }

  function RefsIn(jar: nat, items: seq<Item>, upTo: nat): seq<Ref>
    requires upTo <= |items|
  {
    if upTo == 0 then []
    else
      RefsIn(jar, items, upTo - 1)
      + (if IsKept(items[upTo - 1]) then [Ref(jar, upTo - 1, items[upTo - 1].name)] else [])
  }

  /** Every kept entry, in classpath order and, within a jar, in the jar's own. */
  function Refs(jars: seq<Jar>, upTo: nat): seq<Ref>
    requires upTo <= |jars|
  {
    if upTo == 0 then []
    else
      Refs(jars, upTo - 1)
      + (match jars[upTo - 1] case Jar(items) => RefsIn(upTo - 1, items, |items|) case NotAJar => [])
  }

  predicate IsReadable(jar: Jar) {
    jar.Jar? && forall k :: 0 <= k < |jar.items| ==> jar.items[k].Item?
  }

  // ---- what the plan must be --------------------------------------------------------------------

  ghost function PlannedFile(rules: seq<Rule>, path: Bytes): Bytes
    requires Advances(rules)
  {
    if IsExtensionModule(path) then path else EntryName(rules, path)
  }

  /** The project's file that goes under `name`: the last, if several do. */
  ghost function ProjectCopy(rules: seq<Rule>, files: seq<Bytes>, name: Bytes): Option<Bytes>
    requires Advances(rules)
  {
    if files == [] then None
    else
      var last := files[|files| - 1];
      if last != JarLayout.MANIFEST && PlannedFile(rules, last) == name then Some(last)
      else ProjectCopy(rules, files[..|files| - 1], name)
  }

  ghost predicate GoesUnder(rules: seq<Rule>, ref: Ref, name: Bytes)
    requires Advances(rules)
  {
    !IsExtensionModule(ref.name) && EntryName(rules, ref.name) == name
  }

  /** The dependencies' copies of `name`, in order. */
  ghost function JarCopies(rules: seq<Rule>, refs: seq<Ref>, name: Bytes): seq<Source>
    requires Advances(rules)
  {
    if refs == [] then []
    else
      var last := refs[|refs| - 1];
      JarCopies(rules, refs[..|refs| - 1], name) + (if GoesUnder(rules, last, name) then [last.AsSource()] else [])
  }

  function ModuleRefs(refs: seq<Ref>): seq<Source> {
    if refs == [] then []
    else
      var last := refs[|refs| - 1];
      ModuleRefs(refs[..|refs| - 1]) + (if IsExtensionModule(last.name) then [last.AsSource()] else [])
  }

  /** Every copy of `name`: the project's, then the dependencies'. */
  ghost function Copies(rules: seq<Rule>, files: seq<Bytes>, refs: seq<Ref>, name: Bytes): seq<Source>
    requires Advances(rules)
  {
    (match ProjectCopy(rules, files, name)
     case Some(path) => if IsExtensionModule(name) then [] else [OnDisk(path)]
     case None => [])
    + JarCopies(rules, refs, name)
  }

  /** Merged copies are all kept; of others, the first. */
  function AsEntry(name: Bytes, copies: seq<Source>): Entry
    requires copies != []
  {
    match MergeKind(name)
    case Some(kind) => Merged(kind, copies)
    case None =>
      match copies[0]
      case OnDisk(path) => FileEntry(path)
      case Packed(jar, index) => JarEntry(jar, index)
  }

  ghost predicate HoldsAt(entries: map<Bytes, Entry>, rules: seq<Rule>, files: seq<Bytes>, refs: seq<Ref>, name: Bytes)
    requires Advances(rules)
  {
    var copies := Copies(rules, files, refs, name);
    (name in entries <==> copies != []) && (name in entries ==> entries[name] == AsEntry(name, copies))
  }

  ghost function ModuleFiles(rules: seq<Rule>, files: seq<Bytes>): seq<Bytes>
    requires Advances(rules)
  {
    Maybe(ProjectCopy(rules, files, EXTENSION_MODULE)) + Maybe(ProjectCopy(rules, files, LEGACY_EXTENSION_MODULE))
  }

  function Maybe<T>(x: Option<T>): seq<T> {
    match x case Some(v) => [v] case None => []
  }

  /** What stands under `name` in the finished plan. */
  ghost function FinalEntry(rules: seq<Rule>, files: seq<Bytes>, refs: seq<Ref>, name: Bytes): Option<Entry>
    requires Advances(rules)
  {
    var copies := Copies(rules, files, refs, name);
    if name == EXTENSION_MODULE && (ModuleFiles(rules, files) != [] || ModuleRefs(refs) != []) then
      Some(ExtensionModules(ModuleFiles(rules, files), ModuleRefs(refs)))
    else if copies == [] then None
    else Some(AsEntry(name, copies))
  }

  /** A dependency's class that an earlier copy hides. */
  ghost predicate IsHidden(rules: seq<Rule>, files: seq<Bytes>, before: seq<Ref>, ref: Ref)
    requires Advances(rules)
  {
    && !IsExtensionModule(ref.name)
    && MergeKind(EntryName(rules, ref.name)) == None
    && IsClass(EntryName(rules, ref.name))
    && Copies(rules, files, before, EntryName(rules, ref.name)) != []
  }

  ghost function WarningsOf(rules: seq<Rule>, files: seq<Bytes>, refs: seq<Ref>): seq<Warning>
    requires Advances(rules)
  {
    if refs == [] then []
    else
      var before, last := refs[..|refs| - 1], refs[|refs| - 1];
      var name := EntryName(rules, last.name);
      WarningsOf(rules, files, before)
      + (if IsHidden(rules, files, before, last)
         then [Duplicate(name, Copies(rules, files, before, name)[0], last.AsSource())]
         else [])
  }

  // ---- one more copy ----------------------------------------------------------------------------

  lemma OneMoreRef(rules: seq<Rule>, files: seq<Bytes>, refs: seq<Ref>, ref: Ref, name: Bytes)
    requires Advances(rules)
    ensures Copies(rules, files, refs + [ref], name)
            == Copies(rules, files, refs, name) + (if GoesUnder(rules, ref, name) then [ref.AsSource()] else [])
  {
    hide ProjectCopy, GoesUnder, IsExtensionModule;
    assert (refs + [ref])[..|refs|] == refs;
  }

  lemma OneMoreModule(refs: seq<Ref>, ref: Ref)
    ensures ModuleRefs(refs + [ref]) == ModuleRefs(refs) + (if IsExtensionModule(ref.name) then [ref.AsSource()] else [])
  {
    assert (refs + [ref])[..|refs|] == refs;
  }

  lemma OneMoreWarning(rules: seq<Rule>, files: seq<Bytes>, refs: seq<Ref>, ref: Ref)
    requires Advances(rules)
    ensures WarningsOf(rules, files, refs + [ref])
            == WarningsOf(rules, files, refs)
               + (if IsHidden(rules, files, refs, ref)
                  then [Duplicate(EntryName(rules, ref.name), Copies(rules, files, refs, EntryName(rules, ref.name))[0], ref.AsSource())]
                  else [])
  {
    hide IsHidden, Copies;
    assert (refs + [ref])[..|refs|] == refs;
  }

  lemma OneMoreFile(rules: seq<Rule>, files: seq<Bytes>, k: nat, name: Bytes)
    requires Advances(rules) && k < |files|
    ensures ProjectCopy(rules, files[..k + 1], name)
            == if files[k] != JarLayout.MANIFEST && PlannedFile(rules, files[k]) == name then Some(files[k])
               else ProjectCopy(rules, files[..k], name)
  {
    assert files[..k + 1][..k] == files[..k];
  }

  lemma NoFiles(rules: seq<Rule>)
    requires Advances(rules)
    ensures forall name :: ProjectCopy(rules, [], name) == None
  {
  }

  // ---- planning ---------------------------------------------------------------------------------

  method CollectDirectory(rules: seq<Rule>, files: seq<Bytes>) returns (entries: map<Bytes, Entry>)
    requires Advances(rules)
    ensures forall name :: name in entries <==> ProjectCopy(rules, files, name).Some?
    ensures forall name :: name in entries ==> entries[name] == FileEntry(ProjectCopy(rules, files, name).value)
  {
    hide EntryName, ProjectCopy, IsExtensionModule;
    entries := map[];
    NoFiles(rules);
    assert files[..0] == [];
    for k := 0 to |files|
      invariant forall name :: name in entries <==> ProjectCopy(rules, files[..k], name).Some?
      invariant forall name :: name in entries ==> entries[name] == FileEntry(ProjectCopy(rules, files[..k], name).value)
    {
      ghost var before := entries;
      if files[k] != JarLayout.MANIFEST {
        var name := files[k];
        if !IsExtensionModule(name) {
          name := RelocateEntryName(rules, name);
        }
        assert name == PlannedFile(rules, files[k]);
        entries := entries[name := FileEntry(files[k])];
      }
      forall name
        ensures name in entries <==> ProjectCopy(rules, files[..k + 1], name).Some?
        ensures name in entries ==> entries[name] == FileEntry(ProjectCopy(rules, files[..k + 1], name).value)
      {
        OneMoreFile(rules, files, k, name);
      }
    }
    assert files[..|files|] == files;
  } 

  /** The project's own part of the plan, its extension-module descriptors set aside. */
  method PlanProject(rules: seq<Rule>, files: seq<Bytes>) returns (entries: map<Bytes, Entry>, modules: seq<Bytes>)
    requires Advances(rules)
    ensures forall name :: HoldsAt(entries, rules, files, [], name)
    ensures modules == ModuleFiles(rules, files)
  {
    hide EntryName, ProjectCopy, MergeKind;
    entries := CollectDirectory(rules, files);
    ghost var collected := entries;
    modules := [];
    if EXTENSION_MODULE in entries {
      modules := modules + [entries[EXTENSION_MODULE].path];
      entries := entries - {EXTENSION_MODULE};
    }
    assert modules == Maybe(ProjectCopy(rules, files, EXTENSION_MODULE));
    DistinctModules();
    if LEGACY_EXTENSION_MODULE in entries {
      modules := modules + [entries[LEGACY_EXTENSION_MODULE].path];
      entries := entries - {LEGACY_EXTENSION_MODULE};
    }
    entries := map name | name in entries ::
      (match MergeKind(name) case Some(kind) => Merged(kind, [OnDisk(entries[name].path)]) case None => entries[name]);
    forall name
      ensures HoldsAt(entries, rules, files, [], name)
    {
      assert JarCopies(rules, [], name) == [];
    }
  }

  lemma DistinctModules()
    ensures EXTENSION_MODULE != LEGACY_EXTENSION_MODULE
  {
    assert |EXTENSION_MODULE| != |LEGACY_EXTENSION_MODULE|;
  }

  /** A merged name gets one more copy. */
  lemma MergedOneMore(
    entries: map<Bytes, Entry>, rules: seq<Rule>, files: seq<Bytes>, refs: seq<Ref>, ref: Ref, name: Bytes, kind: Merge)
    requires Advances(rules) && forall n :: HoldsAt(entries, rules, files, refs, n)
    requires GoesUnder(rules, ref, name) && MergeKind(name) == Some(kind)
    ensures name in entries ==> entries[name].Merged? && entries[name].kind == kind
    ensures var sources := if name in entries then entries[name].sources else [];
            var grown := entries[name := Merged(kind, sources + [ref.AsSource()])];
            forall n :: HoldsAt(grown, rules, files, refs + [ref], n)
  {
    hide MergeKind, EntryName, Copies, IsExtensionModule;
    assert HoldsAt(entries, rules, files, refs, name);
    var sources := if name in entries then entries[name].sources else [];
    var grown := entries[name := Merged(kind, sources + [ref.AsSource()])];
    forall n
      ensures HoldsAt(grown, rules, files, refs + [ref], n)
    {
      OneMoreRef(rules, files, refs, ref, n);
      assert HoldsAt(entries, rules, files, refs, n);
    }
  }

  /** Any other name gets its first copy, or keeps it. */
  lemma PlainOneMore(
    entries: map<Bytes, Entry>, rules: seq<Rule>, files: seq<Bytes>, refs: seq<Ref>, ref: Ref, name: Bytes)
    requires Advances(rules) && forall n :: HoldsAt(entries, rules, files, refs, n)
    requires GoesUnder(rules, ref, name) && MergeKind(name) == None
    ensures var grown := if name in entries then entries else entries[name := JarEntry(ref.jar, ref.index)];
            forall n :: HoldsAt(grown, rules, files, refs + [ref], n)
  {
    hide MergeKind, EntryName, Copies, IsExtensionModule;
    assert HoldsAt(entries, rules, files, refs, name);
    var grown := if name in entries then entries else entries[name := JarEntry(ref.jar, ref.index)];
    forall n
      ensures HoldsAt(grown, rules, files, refs + [ref], n)
    {
      OneMoreRef(rules, files, refs, ref, n);
      assert HoldsAt(entries, rules, files, refs, n);
    }
  }

  lemma ModuleOneMore(entries: map<Bytes, Entry>, rules: seq<Rule>, files: seq<Bytes>, refs: seq<Ref>, ref: Ref)
    requires Advances(rules) && forall n :: HoldsAt(entries, rules, files, refs, n)
    requires IsExtensionModule(ref.name)
    ensures forall n :: HoldsAt(entries, rules, files, refs + [ref], n)
  {
    hide MergeKind, EntryName, Copies, IsExtensionModule;
    forall n
      ensures HoldsAt(entries, rules, files, refs + [ref], n)
    {
      OneMoreRef(rules, files, refs, ref, n);
      assert HoldsAt(entries, rules, files, refs, n);
      assert !GoesUnder(rules, ref, n);
    }
  }

  /** What an entry's copy is described by: the first of its sources. */
  function FirstSource(entry: Entry): Source
    requires entry.FileEntry? || entry.JarEntry? || (entry.Merged? && entry.sources != [])
  {
    match entry
    case FileEntry(path) => OnDisk(path)
    case JarEntry(jar, index) => Packed(jar, index)
    case Merged(_, sources) => sources[0]
  }

  /** One kept entry of a dependency put into the plan. */
  method PlanEntry(
    entries: map<Bytes, Entry>, warnings: seq<Warning>, modules: seq<Source>,
    rules: seq<Rule>, ghost files: seq<Bytes>, ghost refs: seq<Ref>, ref: Ref)
    returns (entries': map<Bytes, Entry>, warnings': seq<Warning>, modules': seq<Source>)
    requires Advances(rules)
    requires forall n :: HoldsAt(entries, rules, files, refs, n)
    requires warnings == WarningsOf(rules, files, refs) && modules == ModuleRefs(refs)
    ensures forall n :: HoldsAt(entries', rules, files, refs + [ref], n)
    ensures warnings' == WarningsOf(rules, files, refs + [ref]) && modules' == ModuleRefs(refs + [ref])
  {
    hide MergeKind, EntryName, Copies, IsExtensionModule, WarningsOf, ModuleRefs, IsClass;
    entries', warnings', modules' := entries, warnings, modules;
    OneMoreModule(refs, ref);
    OneMoreWarning(rules, files, refs, ref);
    if IsExtensionModule(ref.name) {
      modules' := modules' + [ref.AsSource()];
      ModuleOneMore(entries, rules, files, refs, ref);
      return;
    }
    var name := RelocateEntryName(rules, ref.name);
    assert HoldsAt(entries, rules, files, refs, name);
    var kind := MergeKind(name);
    if kind.Some? {
      MergedOneMore(entries, rules, files, refs, ref, name, kind.value);
      var sources := if name in entries then entries[name].sources else [];
      entries' := entries'[name := Merged(kind.value, sources + [ref.AsSource()])];
      return;
    }
    PlainOneMore(entries, rules, files, refs, ref, name);
    if name in entries {
      if IsClass(name) {
        warnings' := warnings' + [Duplicate(name, FirstSource(entries[name]), ref.AsSource())];
      }
    } else {
      entries' := entries'[name := JarEntry(ref.jar, ref.index)];
    }
  }

  method WriteFatJar(hasMainClass: bool, rules: seq<Rule>, files: seq<Bytes>, jars: seq<Jar>) returns (r: Result<Plan, Failure>)
    requires Advances(rules)
    ensures !hasMainClass ==> r == Err(NoMainClass)
    ensures hasMainClass && (forall k :: 0 <= k < |jars| ==> IsReadable(jars[k])) ==>
              var refs := Refs(jars, |jars|);
              && r.Ok?
              && (forall name :: name in r.value.entries <==> FinalEntry(rules, files, refs, name).Some?)
              && (forall name :: name in r.value.entries ==> FinalEntry(rules, files, refs, name) == Some(r.value.entries[name]))
              && r.value.warnings == WarningsOf(rules, files, refs)
    ensures hasMainClass && (exists k :: 0 <= k < |jars| && !IsReadable(jars[k])) ==>
              r.Err? && r.error.BadJar? && r.error.jar < |jars| && !IsReadable(jars[r.error.jar])
              && forall k :: 0 <= k < r.error.jar ==> IsReadable(jars[k])
  {
    hide HoldsAt, EntryName, WarningsOf, ModuleRefs, IsDropped, IsDirectory, ModuleFiles;
    if !hasMainClass {
      return Err(NoMainClass);
    }
    var entries, files' := PlanProject(rules, files);
    var warnings: seq<Warning>, modules: seq<Source> := [], [];
    NothingYet(rules, files);
    for j := 0 to |jars|
      invariant forall k :: 0 <= k < j ==> IsReadable(jars[k])
      invariant forall n :: HoldsAt(entries, rules, files, Refs(jars, j), n)
      invariant warnings == WarningsOf(rules, files, Refs(jars, j)) && modules == ModuleRefs(Refs(jars, j))
    {
      if jars[j].NotAJar? {
        return Err(BadJar(j));
      }
      var items := jars[j].items;
      ghost var before := Refs(jars, j);
      assert before + RefsIn(j, items, 0) == before;
      for i := 0 to |items|
        invariant forall k :: 0 <= k < i ==> items[k].Item?
        invariant forall n :: HoldsAt(entries, rules, files, before + RefsIn(j, items, i), n)
        invariant warnings == WarningsOf(rules, files, before + RefsIn(j, items, i))
        invariant modules == ModuleRefs(before + RefsIn(j, items, i))
      {
        var item := items[i];
        if item.Unreadable? {
          return Err(BadJar(j));
        }
        ghost var refs := before + RefsIn(j, items, i);
        NextRef(before, j, items, i);
        assert refs + [] == refs;
        if !IsDirectory(item.name) && !IsDropped(item.name) {
          entries, warnings, modules := PlanEntry(entries, warnings, modules, rules, files, refs, Ref(j, i, item.name));
        }
      }
    }
    ghost var refs := Refs(jars, |jars|);
    Finished(entries, rules, files, refs);
    if files' != [] || modules != [] {
      entries := entries[EXTENSION_MODULE := ExtensionModules(files', modules)];
    }
    return Ok(Plan(entries, warnings));
  }

  lemma NothingYet(rules: seq<Rule>, files: seq<Bytes>)
    requires Advances(rules)
    ensures WarningsOf(rules, files, []) == [] && ModuleRefs([]) == []
  {
  }

  lemma NextRef(before: seq<Ref>, jar: nat, items: seq<Item>, i: nat)
    requires i < |items|
    ensures before + RefsIn(jar, items, i + 1)
            == (before + RefsIn(jar, items, i)) + (if IsKept(items[i]) then [Ref(jar, i, items[i].name)] else [])
  {
    hide IsDropped, IsDirectory;
  }

  lemma Finished(entries: map<Bytes, Entry>, rules: seq<Rule>, files: seq<Bytes>, refs: seq<Ref>)
    requires Advances(rules) && forall n :: HoldsAt(entries, rules, files, refs, n)
    ensures var some := ModuleFiles(rules, files) != [] || ModuleRefs(refs) != [];
            var final := if some then entries[EXTENSION_MODULE := ExtensionModules(ModuleFiles(rules, files), ModuleRefs(refs))]
                         else entries;
            forall name :: (name in final <==> FinalEntry(rules, files, refs, name).Some?)
                           && (name in final ==> FinalEntry(rules, files, refs, name) == Some(final[name]))
  {
    hide Copies, ModuleFiles, ModuleRefs, AsEntry;
    var some := ModuleFiles(rules, files) != [] || ModuleRefs(refs) != [];
    var final := if some then entries[EXTENSION_MODULE := ExtensionModules(ModuleFiles(rules, files), ModuleRefs(refs))]
                 else entries;
    forall name
      ensures name in final <==> FinalEntry(rules, files, refs, name).Some?
      ensures name in final ==> FinalEntry(rules, files, refs, name) == Some(final[name])
    {
      assert HoldsAt(entries, rules, files, refs, name);
    }
  }
}
