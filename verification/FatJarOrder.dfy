/** The order of a fat jar. */
module FatJarOrder {
  // Relocation gives no file a directory's name, nor the manifest's; so the entries of a planned jar come
  // sorted, each once.

  import opened ByteOrder
  import opened ByteStrings
  import opened EntryNames
  import opened FatJar
  import opened FatJarLaws
  import JarLayout
  import opened Relocation
  import opened Rewriting
  import opened Signatures
  import opened SignatureNames
  import opened Wrappers

  // ---- relocated names ----------------------------------------------------------------------------

  /** What is matched at the start of a name ends at a separator or takes the whole name, which then is no
      directory's, nor is what replaces it. */
  lemma {:induction false} MatchEnds(rules: seq<Rule>, text: Bytes)
    requires AllWellFormed(rules) && MatchAt(rules, text, 0) != None
    ensures var m := MatchAt(rules, text, 0).value;
            && m.replacement != [] && 0 < m.consumed <= |text|
            && (forall b <- m.replacement :: IsNameByte(b) || b == DOT || b == SLASH)
            && (m.consumed < |text| ==> text[m.consumed] == DOT || text[m.consumed] == SLASH)
            && (m.consumed == |text| ==> text[|text| - 1] != SLASH && m.replacement[|m.replacement| - 1] != SLASH)
  {
    hide NameAt, WellFormed;
    var r := rules[0];
    assert WellFormed(r);
    if AppliesSomehow(r, text, 0) {
      NamesEnd(r);
      ReplacementIsRun(r, Slashed);
      ReplacementIsRun(r, Dotted);
      if OccursAt(text, 0, r.dottedFrom) {
        OccursElements(text, 0, r.dottedFrom);
        assert text[0 + (|r.dottedFrom| - 1)] == r.dottedFrom[|r.dottedFrom| - 1];
      }
    } else {
      MatchEnds(rules[1..], text);
    }
  }

  lemma NamesEnd(r: Rule)
    requires WellFormed(r)
    ensures r.dottedFrom != [] && |r.slashedFrom| == |r.dottedFrom| && r.dottedFrom[|r.dottedFrom| - 1] != SLASH
    ensures r.dottedTo != [] && |r.slashedTo| == |r.dottedTo| && r.dottedTo[|r.dottedTo| - 1] != SLASH
  {
    assert r.dottedFrom[|r.dottedFrom| - 1] in r.dottedFrom && r.dottedTo[|r.dottedTo| - 1] in r.dottedTo;
  }

  lemma WholeKeepsEnd(rules: seq<Rule>, name: Bytes)
    requires AllWellFormed(rules) && Advances(rules)
    ensures JarLayout.EndsInSlash(WholeName(rules, name)) <==> JarLayout.EndsInSlash(name)
    ensures WholeName(rules, name) == [] <==> name == []
  {
    hide MatchAt, WholeName, AllWellFormed;
    WholeIsMatchAtStart(rules, name);
    if MatchAt(rules, name, 0) != None {
      MatchEnds(rules, name);
    }
  }

  /** A relocated name is a directory's exactly when the name was. */
  lemma EntryNameKeepsEnd(rules: seq<Rule>, name: Bytes)
    requires AllWellFormed(rules) && Advances(rules)
    ensures JarLayout.EndsInSlash(EntryName(rules, name)) <==> JarLayout.EndsInSlash(name)
  {
    hide WholeName, AllWellFormed, JarLayout.EndsInSlash, VersionOf;
    if SERVICES <= name {
      ServicesEnd();
      KeepsEndBelow(rules, SERVICES, name[|SERVICES|..]);
      assert name == SERVICES + name[|SERVICES|..];
    } else if VersionOf(name).Some? {
      var cut := VersionOf(name).value;
      VersionEnd(name);
      KeepsEndBelow(rules, name[..cut], name[cut..]);
      assert name == name[..cut] + name[cut..];
    } else {
      WholeKeepsEnd(rules, name);
    }
  }

  lemma KeepsEndBelow(rules: seq<Rule>, above: Bytes, path: Bytes)
    requires AllWellFormed(rules) && Advances(rules) && JarLayout.EndsInSlash(above)
    ensures JarLayout.EndsInSlash(above + WholeName(rules, path)) <==> JarLayout.EndsInSlash(above + path)
  {
    hide WholeName, AllWellFormed;
    WholeKeepsEnd(rules, path);
    assert WholeName(rules, path) == [] ==> above + WholeName(rules, path) == above + path;
  }

  lemma ServicesEnd()
    ensures JarLayout.EndsInSlash(SERVICES) && SERVICES[9] == 's' as Byte
  {
  }

  lemma VersionEnd(name: Bytes)
    requires VersionOf(name).Some?
    ensures var cut := VersionOf(name).value;
            && 9 < cut <= |name| && name[9] == 'v' as Byte && JarLayout.EndsInSlash(name[..cut])
  {
    assert VERSIONS[9] == 'v' as Byte && name[9] == VERSIONS[9];
  }

  const MANIFEST: Bytes := JarLayout.MANIFEST

  lemma ManifestBytes()
    ensures |MANIFEST| == 20 && MANIFEST[4] == '-' as Byte && MANIFEST[9] == 'M' as Byte
    ensures forall k :: 0 < k < 5 ==> MANIFEST[k] != DOT && MANIFEST[k] != SLASH
  {
  }

  lemma OtherTenthByte(p: Bytes, rest: Bytes)
    requires 9 < |p| && p[9] != 'M' as Byte
    ensures p + rest != MANIFEST
  {
    ManifestBytes();
    assert (p + rest)[9] == p[9];
  }

  /** No name but the manifest's own is relocated to the manifest's. */
  lemma OnlyManifestIsManifest(rules: seq<Rule>, name: Bytes)
    requires AllWellFormed(rules) && Advances(rules)
    ensures EntryName(rules, name) == MANIFEST ==> name == MANIFEST
  {
    hide WholeName, AllWellFormed, VersionOf;
    if SERVICES <= name {
      ServicesEnd();
      OtherTenthByte(SERVICES, WholeName(rules, name[|SERVICES|..]));
    } else if VersionOf(name).Some? {
      var cut := VersionOf(name).value;
      VersionEnd(name);
      OtherTenthByte(name[..cut], WholeName(rules, name[cut..]));
    } else {
      WholeIsNoManifest(rules, name);
    }
  }

  lemma WholeIsNoManifest(rules: seq<Rule>, name: Bytes)
    requires AllWellFormed(rules) && Advances(rules)
    ensures WholeName(rules, name) == MANIFEST ==> name == MANIFEST
  {
    hide MatchAt, WholeName, AllWellFormed;
    WholeIsMatchAtStart(rules, name);
    if MatchAt(rules, name, 0) != None {
      MatchEnds(rules, name);
      var m := MatchAt(rules, name, 0).value;
      NoManifest(m.replacement, name[m.consumed..]);
    }
  }

  /** A package's new name and what may follow it are not how the manifest's name begins. */
  lemma NoManifest(to: Bytes, rest: Bytes)
    requires to != [] && (forall b <- to :: IsNameByte(b) || b == DOT || b == SLASH)
    requires rest != [] ==> rest[0] == DOT || rest[0] == SLASH
    ensures to + rest != MANIFEST
  {
    ManifestBytes();
    var s := to + rest;
    if |to| > 4 {
      assert s[4] == to[4] && to[4] in to;
    } else if rest != [] {
      assert s[|to|] == rest[0];
    }
  }

  // ---- the project's names ------------------------------------------------------------------------

  /** The parts of a relative path: none empty, none with a slash in it. */
  predicate IsPath(parts: seq<Bytes>) {
    parts != [] && forall k :: 0 <= k < |parts| ==> parts[k] != [] && SLASH !in parts[k]
  }

  function Joined(parts: seq<Bytes>): Bytes {
    if parts == [] then []
    else if |parts| == 1 then parts[0]
    else parts[0] + ([SLASH] + Joined(parts[1..]))
  }

  ghost predicate IsPathName(name: Bytes) {
    exists parts :: IsPath(parts) && name == Joined(parts)
  }

  lemma {:induction false} PathIsNoDirectory(parts: seq<Bytes>)
    requires IsPath(parts)
    ensures Joined(parts) != [] && !JarLayout.EndsInSlash(Joined(parts))
  {
    if |parts| > 1 {
      PathIsNoDirectory(parts[1..]);
    }
  }

  // ---- the plan's names ---------------------------------------------------------------------------

  lemma ModuleNameIsAFile()
    ensures !JarLayout.EndsInSlash(EXTENSION_MODULE) && EXTENSION_MODULE != MANIFEST
    ensures !JarLayout.EndsInSlash(LEGACY_EXTENSION_MODULE) && LEGACY_EXTENSION_MODULE != MANIFEST
  {
    ManifestBytes();
    assert DESCRIPTOR[|DESCRIPTOR| - 1] == 'e' as Byte;
    assert Ascii("META-INF/groovy/")[9] == 'g' as Byte && SERVICES[9] == 's' as Byte;
    assert EXTENSION_MODULE[|EXTENSION_MODULE| - 1] == DESCRIPTOR[|DESCRIPTOR| - 1];
    assert LEGACY_EXTENSION_MODULE[|LEGACY_EXTENSION_MODULE| - 1] == DESCRIPTOR[|DESCRIPTOR| - 1];
    assert EXTENSION_MODULE[9] == 'g' as Byte && LEGACY_EXTENSION_MODULE[9] == 's' as Byte;
  }

  lemma ProjectNameIsAFile(rules: seq<Rule>, files: seq<Bytes>, name: Bytes)
    requires AllWellFormed(rules) && Advances(rules) && (forall f <- files :: IsPathName(f))
    requires ProjectCopy(rules, files, name).Some?
    ensures !JarLayout.EndsInSlash(name) && name != MANIFEST
  {
    hide EntryName, AllWellFormed, IsPathName, IsExtensionModule;
    ProjectCopyIsLast(rules, files, name);
    var k :| 0 <= k < |files| && files[k] != JarLayout.MANIFEST && PlannedFile(rules, files[k]) == name;
    var f := files[k];
    if IsExtensionModule(f) {
      ModulesAreFiles(f);
    } else {
      assert IsPathName(f);
      PathNameIsAFile(f);
      EntryNameKeepsEnd(rules, f);
      OnlyManifestIsManifest(rules, f);
    }
  }

  lemma PathNameIsAFile(f: Bytes)
    requires IsPathName(f)
    ensures !JarLayout.EndsInSlash(f)
  {
    var parts :| IsPath(parts) && f == Joined(parts);
    PathIsNoDirectory(parts);
  }

  lemma ModulesAreFiles(name: Bytes)
    requires IsExtensionModule(name)
    ensures !JarLayout.EndsInSlash(name) && name != MANIFEST
  {
    ModuleNameIsAFile();
  }

  lemma DependencyNameIsAFile(rules: seq<Rule>, jars: seq<Jar>, name: Bytes)
    requires AllWellFormed(rules) && Advances(rules) && JarCopies(rules, Refs(jars, |jars|), name) != []
    ensures !JarLayout.EndsInSlash(name) && name != MANIFEST
  {
    hide EntryName, AllWellFormed, IsEntryOf, JarCopies, RefsInOrder, JarLayout.EndsInSlash, IsExtensionModule;
    var refs := Refs(jars, |jars|);
    FirstOfCopies(rules, refs, name);
    var k :| 0 <= k < |refs| && GoesUnder(rules, refs[k], name);
    RefsAreEntries(jars, |jars|);
    KeptIsAFile(jars, refs[k]);
    EntryNameKeepsEnd(rules, refs[k].name);
    OnlyManifestIsManifest(rules, refs[k].name);
  }

  lemma PlannedHasCopy(rules: seq<Rule>, files: seq<Bytes>, refs: seq<Ref>, name: Bytes)
    requires Advances(rules) && FinalEntry(rules, files, refs, name).Some? && name != EXTENSION_MODULE
    ensures ProjectCopy(rules, files, name).Some? || JarCopies(rules, refs, name) != []
  {
    hide ProjectCopy, JarCopies, ModuleFiles, ModuleRefs, AsEntry;
  }

  /** A name the finished plan holds is a file's, and not the manifest's. */
  lemma PlannedNameIsAFile(rules: seq<Rule>, files: seq<Bytes>, jars: seq<Jar>, name: Bytes)
    requires AllWellFormed(rules) && Advances(rules) && (forall f <- files :: IsPathName(f))
    requires FinalEntry(rules, files, Refs(jars, |jars|), name).Some?
    ensures !JarLayout.EndsInSlash(name) && name != MANIFEST
  {
    hide AllWellFormed, IsPathName, FinalEntry, ProjectCopy, JarCopies, Refs, JarLayout.EndsInSlash;
    ModuleNameIsAFile();
    if name != EXTENSION_MODULE {
      PlannedHasCopy(rules, files, Refs(jars, |jars|), name);
      if ProjectCopy(rules, files, name).Some? {
        ProjectNameIsAFile(rules, files, name);
      } else {
        DependencyNameIsAFile(rules, jars, name);
      }
    }
  }

  lemma KeptIsAFile(jars: seq<Jar>, ref: Ref)
    requires IsEntryOf(ref, jars, |jars|)
    ensures !JarLayout.EndsInSlash(ref.name) && ref.name != MANIFEST
  {
  }

  // ---- the jar ------------------------------------------------------------------------------------

  /** The names of a map of entries, in order. */
  method NamesInOrder(entries: map<Bytes, Entry>) returns (names: seq<Bytes>)
    ensures StrictlySorted(names) && forall name :: name in names <==> name in entries
  {
    hide StrictlySorted, ByteOrder.Insert;
    names := [];
    JarLayout.NothingIsSorted();
    var left := entries.Keys;
    while left != {}
      invariant left <= entries.Keys && StrictlySorted(names)
      invariant forall name :: name in names <==> name in entries && name !in left
      decreases left
    {
      var name :| name in left;
      ByteOrder.InsertSorted(names, name);
      forall other
        ensures other in ByteOrder.Insert(names, name) <==> other == name || other in names
      {
        InsertHas(names, name, other);
      }
      names := ByteOrder.Insert(names, name);
      left := left - {name};
    }
  }

  /** A fat jar, planned and laid out: the manifest first, and then, strictly sorted and so each once, a file
      for every planned name and a directory above every one of them. */
  method AssembleFatJar(hasMainClass: bool, rules: seq<Rule>, files: seq<Bytes>, jars: seq<Jar>)
    returns (r: Result<(Plan, seq<JarLayout.Item>), Failure>)
    requires AllWellFormed(rules) && forall f <- files :: IsPathName(f)
    ensures Advances(rules)
    ensures r.Ok? <==> hasMainClass && forall k :: 0 <= k < |jars| ==> IsReadable(jars[k])
    ensures r.Ok? ==>
              var (plan, items) := r.value;
              && items != [] && items[0] == JarLayout.File(MANIFEST)
              && StrictlySorted(JarLayout.NamesOf(items[1..])) && MANIFEST !in JarLayout.NamesOf(items[1..])
              && (forall name :: name in plan.entries <==> FinalEntry(rules, files, Refs(jars, |jars|), name).Some?)
              && (forall name :: JarLayout.File(name) in items[1..] <==> name in plan.entries)
              && (forall d :: JarLayout.Directory(d) in items[1..] <==>
                    JarLayout.IsDirectoryOf(d, MANIFEST) || exists name :: name in plan.entries && JarLayout.IsDirectoryOf(d, name))
  {
    hide AllWellFormed, FinalEntry, IsReadable, StrictlySorted, IsPathName;
    WellFormedAdvances(rules);
    var planned := WriteFatJar(hasMainClass, rules, files, jars);
    if planned.Err? {
      return Err(planned.error);
    }
    var plan := planned.value;
    var names := NamesInOrder(plan.entries);
    var items := JarLayout.WriteJar(names);
    ghost var directories :| JarLayout.AreDirectories(directories, names)
      && items == [JarLayout.File(MANIFEST)] + JarLayout.Interleave(names, directories);
    assert items[1..] == JarLayout.Interleave(names, directories);
    forall name | name in names
      ensures !JarLayout.EndsInSlash(name) && name != MANIFEST
    {
      PlannedNameIsAFile(rules, files, jars, name);
    }
    LaidOut(names, directories);
    return Ok((plan, items));
  }

  lemma LaidOut(names: seq<Bytes>, directories: seq<Bytes>)
    requires StrictlySorted(names) && JarLayout.AreDirectories(directories, names)
    requires forall name <- names :: !JarLayout.EndsInSlash(name) && name != MANIFEST
    ensures var items := JarLayout.Interleave(names, directories);
            && StrictlySorted(JarLayout.NamesOf(items)) && MANIFEST !in JarLayout.NamesOf(items)
            && (forall name :: JarLayout.File(name) in items <==> name in names)
            && (forall d :: JarLayout.Directory(d) in items <==>
                  JarLayout.IsDirectoryOf(d, MANIFEST) || exists name <- names :: JarLayout.IsDirectoryOf(d, name))
  {
    hide StrictlySorted, JarLayout.Interleave, JarLayout.IsDirectoryOf;
    var items := JarLayout.Interleave(names, directories);
    JarLayout.EntriesAreSorted(names, directories);
    forall x
      ensures x in items <==> (x.File? && x.name in names) || (x.Directory? && x.name in directories)
    {
      JarLayout.ItemIsFrom(names, directories, x);
    }
    forall d
      ensures JarLayout.Implied(d, names + [MANIFEST]) <==>
              JarLayout.IsDirectoryOf(d, MANIFEST) || exists name <- names :: JarLayout.IsDirectoryOf(d, name)
    {
      ImpliedByNames(d, names);
    }
    ManifestIsNoDirectory(names, directories);
  }

  lemma ImpliedByNames(d: Bytes, names: seq<Bytes>)
    ensures JarLayout.Implied(d, names + [MANIFEST]) <==>
            JarLayout.IsDirectoryOf(d, MANIFEST) || exists name <- names :: JarLayout.IsDirectoryOf(d, name)
  {
    hide JarLayout.IsDirectoryOf;
    var all := names + [MANIFEST];
    assert all[|names|] == MANIFEST && forall k :: 0 <= k < |names| ==> all[k] == names[k];
    if exists name <- names :: JarLayout.IsDirectoryOf(d, name) {
      var name :| name in names && JarLayout.IsDirectoryOf(d, name);
      var k :| 0 <= k < |names| && names[k] == name;
      assert JarLayout.IsDirectoryOf(d, all[k]);
    }
    if JarLayout.IsDirectoryOf(d, MANIFEST) {
      assert JarLayout.IsDirectoryOf(d, all[|names|]);
    }
  }

  lemma ManifestIsNoDirectory(names: seq<Bytes>, directories: seq<Bytes>)
    requires JarLayout.AreDirectories(directories, names)
    ensures MANIFEST !in directories
  {
    ManifestBytes();
    assert MANIFEST[19] == 'F' as Byte;
  }
}
