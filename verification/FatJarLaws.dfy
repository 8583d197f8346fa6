/** What the plan promises. */
module FatJarLaws {
  // The first copy wins, merged files keep every copy, and nothing is lost.

  import opened ByteStrings
  import opened EntryNames
  import opened FatJar
  import JarLayout
  import opened Relocation
  import opened Rewriting
  import opened Wrappers

  // ---- the copies of one name -------------------------------------------------------------------

  /** The last file to go under `name` is the project's copy; there is one when some file does. */
  lemma {:induction false} ProjectCopyIsLast(rules: seq<Rule>, files: seq<Bytes>, name: Bytes)
    requires Advances(rules)
    ensures ProjectCopy(rules, files, name).Some? <==>
            exists k :: 0 <= k < |files| && files[k] != JarLayout.MANIFEST && PlannedFile(rules, files[k]) == name
    ensures ProjectCopy(rules, files, name).Some? ==>
              exists k :: 0 <= k < |files| && files[k] == ProjectCopy(rules, files, name).value
                && files[k] != JarLayout.MANIFEST && PlannedFile(rules, files[k]) == name
                && forall m :: k < m < |files| ==> files[m] == JarLayout.MANIFEST || PlannedFile(rules, files[m]) != name
    decreases |files|
  {
    hide PlannedFile;
    if files != [] {
      var last := |files| - 1;
      var front := files[..last];
      assert forall k :: 0 <= k < last ==> front[k] == files[k];
      if files[last] != JarLayout.MANIFEST && PlannedFile(rules, files[last]) == name {
        assert ProjectCopy(rules, files, name) == Some(files[last]);
      } else {
        assert ProjectCopy(rules, files, name) == ProjectCopy(rules, front, name);
        ProjectCopyIsLast(rules, front, name);
        if ProjectCopy(rules, front, name).Some? {
          var k :| 0 <= k < |front| && front[k] == ProjectCopy(rules, front, name).value
                   && front[k] != JarLayout.MANIFEST && PlannedFile(rules, front[k]) == name
                   && forall m :: k < m < |front| ==> front[m] == JarLayout.MANIFEST || PlannedFile(rules, front[m]) != name;
          assert files[k] == front[k];
        }
      }
    }
  }

  /** A source is among the dependencies' copies exactly when an entry of its own goes under the name. */
  lemma {:induction false} JarCopiesHas(rules: seq<Rule>, refs: seq<Ref>, name: Bytes, source: Source)
    requires Advances(rules)
    ensures source in JarCopies(rules, refs, name) <==>
            exists k :: 0 <= k < |refs| && GoesUnder(rules, refs[k], name) && refs[k].AsSource() == source
    decreases |refs|
  {
    hide GoesUnder;
    if refs != [] {
      var front := refs[..|refs| - 1];
      JarCopiesHas(rules, front, name, source);
      assert forall k :: 0 <= k < |front| ==> front[k] == refs[k];
    }
  }

  predicate Earlier(a: Source, b: Source) {
    a.Packed? && b.Packed? && (a.jar < b.jar || (a.jar == b.jar && a.index < b.index))
  }

  predicate InOrder(sources: seq<Source>) {
    forall i, j :: 0 <= i < j < |sources| ==> Earlier(sources[i], sources[j])
  }

  predicate RefsInOrder(refs: seq<Ref>) {
    forall i, j :: 0 <= i < j < |refs| ==> Earlier(refs[i].AsSource(), refs[j].AsSource())
  }

  /** The dependencies' copies come in classpath order and, from one jar, in the jar's own order. */
  lemma {:induction false} CopiesInOrder(rules: seq<Rule>, refs: seq<Ref>, name: Bytes)
    requires Advances(rules) && RefsInOrder(refs)
    ensures InOrder(JarCopies(rules, refs, name))
    decreases |refs|
  {
    hide GoesUnder;
    if refs != [] {
      var front, last := refs[..|refs| - 1], refs[|refs| - 1];
      assert RefsInOrder(front);
      CopiesInOrder(rules, front, name);
      var before, all := JarCopies(rules, front, name), JarCopies(rules, refs, name);
      forall i, j | 0 <= i < j < |all|
        ensures Earlier(all[i], all[j])
      {
        assert all[i] == before[i] && before[i] in before;
        JarCopiesHas(rules, front, name, all[i]);
      }
    }
  }

  lemma {:induction false} ItemRefsAreItems(jar: nat, items: seq<Item>, upTo: nat)
    requires upTo <= |items|
    ensures forall k :: 0 <= k < |RefsIn(jar, items, upTo)| ==>
              var ref := RefsIn(jar, items, upTo)[k];
              ref.jar == jar && ref.index < upTo && IsKept(items[ref.index]) && items[ref.index].name == ref.name
    ensures RefsInOrder(RefsIn(jar, items, upTo))
    ensures forall i :: 0 <= i < upTo && IsKept(items[i]) ==> Ref(jar, i, items[i].name) in RefsIn(jar, items, upTo)
  {
    hide IsDropped;
    if upTo > 0 {
      ItemRefsAreItems(jar, items, upTo - 1);
    }
  }

  /** `ref` is an entry of one of the first `upTo` dependencies that is no directory and is not dropped. */
  predicate IsEntryOf(ref: Ref, jars: seq<Jar>, upTo: nat)
    requires upTo <= |jars|
  {
    && ref.jar < upTo && jars[ref.jar].Jar? && ref.index < |jars[ref.jar].items|
    && IsKept(jars[ref.jar].items[ref.index]) && jars[ref.jar].items[ref.index].name == ref.name
  }

  /** What reaches the jar comes from the dependencies, in their order. */
  lemma {:induction false} RefsAreEntries(jars: seq<Jar>, upTo: nat)
    requires upTo <= |jars|
    ensures forall k :: 0 <= k < |Refs(jars, upTo)| ==> IsEntryOf(Refs(jars, upTo)[k], jars, upTo)
    ensures RefsInOrder(Refs(jars, upTo))
    decreases upTo
  {
    hide RefsIn, IsKept;
    if upTo > 0 {
      RefsAreEntries(jars, upTo - 1);
      if jars[upTo - 1].Jar? {
        var items := jars[upTo - 1].items;
        ItemRefsAreItems(upTo - 1, items, |items|);
        var a, b := Refs(jars, upTo - 1), RefsIn(upTo - 1, items, |items|);
        forall k | 0 <= k < |a + b|
          ensures IsEntryOf((a + b)[k], jars, upTo)
        {
          assert (a + b)[k] == if k < |a| then a[k] else b[k - |a|];
        }
        assert forall k :: 0 <= k < |a| ==> IsEntryOf(a[k], jars, upTo - 1);
        OrderedConcat(a, b);
      }
    }
  }

  lemma OrderedConcat(a: seq<Ref>, b: seq<Ref>)
    requires RefsInOrder(a) && RefsInOrder(b)
    requires forall i, j :: 0 <= i < |a| && 0 <= j < |b| ==> a[i].jar < b[j].jar
    ensures RefsInOrder(a + b)
  {
    forall i, j | 0 <= i < j < |a + b|
      ensures Earlier((a + b)[i].AsSource(), (a + b)[j].AsSource())
    {
      assert (a + b)[i] == if i < |a| then a[i] else b[i - |a|];
      assert (a + b)[j] == if j < |a| then a[j] else b[j - |a|];
    }
  }

  /** Every entry of a dependency that is no directory and is not dropped is among what reaches the jar. */
  lemma {:induction false} KeptIsARef(jars: seq<Jar>, upTo: nat, jar: nat, index: nat)
    requires jar < upTo <= |jars| && jars[jar].Jar? && index < |jars[jar].items| && IsKept(jars[jar].items[index])
    ensures Ref(jar, index, jars[jar].items[index].name) in Refs(jars, upTo)
    decreases upTo
  {
    hide RefsIn, IsKept;
    if jar == upTo - 1 {
      var items := jars[jar].items;
      ItemRefsAreItems(jar, items, |items|);
    } else {
      KeptIsARef(jars, upTo - 1, jar, index);
    }
  }

  // ---- the finished plan ------------------------------------------------------------------------

  /** An entry that is neither merged nor an extension-module descriptor is the project's file of that
      name, or else the first dependency's: no earlier entry goes under the name. */
  lemma FirstCopyWins(rules: seq<Rule>, files: seq<Bytes>, refs: seq<Ref>, name: Bytes)
    requires Advances(rules) && !IsExtensionModule(name) && MergeKind(name) == None
    ensures ProjectCopy(rules, files, name).Some? ==>
              FinalEntry(rules, files, refs, name) == Some(FileEntry(ProjectCopy(rules, files, name).value))
    ensures ProjectCopy(rules, files, name).None? ==>
              if exists k :: 0 <= k < |refs| && GoesUnder(rules, refs[k], name) then
                exists k :: 0 <= k < |refs| && GoesUnder(rules, refs[k], name)
                  && (forall m :: 0 <= m < k ==> !GoesUnder(rules, refs[m], name))
                  && FinalEntry(rules, files, refs, name) == Some(JarEntry(refs[k].jar, refs[k].index))
              else FinalEntry(rules, files, refs, name) == None
  {
    hide GoesUnder, MergeKind, ProjectCopy, JarCopies;
    FirstOfCopies(rules, refs, name);
    assert [] + JarCopies(rules, refs, name) == JarCopies(rules, refs, name);
  }

  lemma {:induction false} FirstOfCopies(rules: seq<Rule>, refs: seq<Ref>, name: Bytes)
    requires Advances(rules)
    ensures JarCopies(rules, refs, name) == [] <==> forall k :: 0 <= k < |refs| ==> !GoesUnder(rules, refs[k], name)
    ensures JarCopies(rules, refs, name) != [] ==>
              exists k :: 0 <= k < |refs| && GoesUnder(rules, refs[k], name)
                && (forall m :: 0 <= m < k ==> !GoesUnder(rules, refs[m], name))
                && JarCopies(rules, refs, name)[0] == refs[k].AsSource()
    decreases |refs|
  {
    hide GoesUnder;
    if refs != [] {
      var front, last := refs[..|refs| - 1], refs[|refs| - 1];
      FirstOfCopies(rules, front, name);
      assert forall k :: 0 <= k < |front| ==> front[k] == refs[k];
      if JarCopies(rules, front, name) == [] && GoesUnder(rules, last, name) {
        assert refs[|refs| - 1] == last;
      }
    }
  }

  /** In a merged entry the copies stand in order, each once: one of the project's, if it has one, and those of
      the dependencies. */
  lemma MergedKeepsEveryCopy(rules: seq<Rule>, files: seq<Bytes>, jars: seq<Jar>, name: Bytes)
    requires Advances(rules) && !IsExtensionModule(name) && MergeKind(name).Some?
    ensures var refs := Refs(jars, |jars|);
            var own := Maybe(ProjectCopy(rules, files, name));
            var entry := FinalEntry(rules, files, refs, name);
            && (entry.Some? <==> own != [] || exists k :: 0 <= k < |refs| && GoesUnder(rules, refs[k], name))
            && (entry.Some? ==>
                  && entry.value.Merged? && entry.value.kind == MergeKind(name).value
                  && |own| <= |entry.value.sources|
                  && (own != [] ==> entry.value.sources[0] == OnDisk(own[0]))
                  && var packed := entry.value.sources[|own|..];
                  && InOrder(packed)
                  && forall s :: s in packed <==>
                       exists k :: 0 <= k < |refs| && GoesUnder(rules, refs[k], name) && refs[k].AsSource() == s)
  {
    hide GoesUnder, MergeKind, ProjectCopy, JarCopies, InOrder;
    var refs := Refs(jars, |jars|);
    RefsAreEntries(jars, |jars|);
    CopiesInOrder(rules, refs, name);
    FirstOfCopies(rules, refs, name);
    var own := Maybe(ProjectCopy(rules, files, name));
    var packed := JarCopies(rules, refs, name);
    assert Copies(rules, files, refs, name)[|own|..] == packed;
    forall s
      ensures s in packed <==> exists k :: 0 <= k < |refs| && GoesUnder(rules, refs[k], name) && refs[k].AsSource() == s
    {
      JarCopiesHas(rules, refs, name, s);
    }
  }

  /** Where one copy of an entry ends up. */
  ghost predicate IsIn(entry: Option<Entry>, source: Source) {
    match entry
    case Some(Merged(_, sources)) => source in sources
    case Some(ExtensionModules(_, packed)) => source in packed
    case Some(JarEntry(jar, index)) => source == Packed(jar, index)
    case Some(FileEntry(path)) => source == OnDisk(path)
    case None => false
  }

  lemma {:induction false} ModuleRefsHas(refs: seq<Ref>, k: nat)
    requires k < |refs| && IsExtensionModule(refs[k].name)
    ensures refs[k].AsSource() in ModuleRefs(refs)
    decreases |refs|
  {
    hide IsExtensionModule;
    if k < |refs| - 1 {
      var front := refs[..|refs| - 1];
      assert front[k] == refs[k];
      ModuleRefsHas(front, k);
    }
  }

  /** Nothing but what is dropped is lost: every other entry of a dependency is in the plan, whether it
      is among the copies merged, stands there itself, or gives way to an earlier copy of its name - in
      which case, if it is a class, there is a warning about it. Only an entry relocated onto the merged
      extension-module descriptor's own name could be replaced by that descriptor. */
  lemma NothingIsLost(rules: seq<Rule>, files: seq<Bytes>, jars: seq<Jar>, jar: nat, index: nat)
    requires Advances(rules)
    requires jar < |jars| && jars[jar].Jar? && index < |jars[jar].items| && IsKept(jars[jar].items[index])
    ensures var refs := Refs(jars, |jars|);
            var raw := jars[jar].items[index].name;
            var name := if IsExtensionModule(raw) then EXTENSION_MODULE else EntryName(rules, raw);
            && FinalEntry(rules, files, refs, name).Some?
            && (IsExtensionModule(raw) || (MergeKind(name).Some? && name != EXTENSION_MODULE) ==>
                  IsIn(FinalEntry(rules, files, refs, name), Packed(jar, index)))
            && (!IsExtensionModule(raw) && name != EXTENSION_MODULE && MergeKind(name).None?
                && !IsIn(FinalEntry(rules, files, refs, name), Packed(jar, index)) ==>
                  Copies(rules, files, refs, name)[0] != Packed(jar, index)
                  && (IsClass(name) ==> Duplicate(name, Copies(rules, files, refs, name)[0], Packed(jar, index))
                                        in WarningsOf(rules, files, refs)))
  {
    hide EntryName, MergeKind, ProjectCopy, JarCopies, ModuleRefs, ModuleFiles, WarningsOf, IsClass, IsExtensionModule;
    var refs := Refs(jars, |jars|);
    KeptIsARef(jars, |jars|, jar, index);
    var raw := jars[jar].items[index].name;
    var k :| 0 <= k < |refs| && refs[k] == Ref(jar, index, raw);
    if IsExtensionModule(raw) {
      ModuleRefsHas(refs, k);
    } else {
      var name := EntryName(rules, raw);
      JarCopiesHas(rules, refs, name, Packed(jar, index));
      assert GoesUnder(rules, refs[k], name);
      if MergeKind(name).None? && IsClass(name) && Copies(rules, files, refs, name)[0] != Packed(jar, index) {
        HiddenIsWarned(rules, files, refs, k);
      }
    }
  }

  /** The copies among the first entries start the copies among all of them. */
  lemma {:induction false} CopiesGrow(rules: seq<Rule>, files: seq<Bytes>, refs: seq<Ref>, k: nat, name: Bytes)
    requires Advances(rules) && k <= |refs|
    ensures Copies(rules, files, refs[..k], name) <= Copies(rules, files, refs, name)
    decreases |refs| - k
  {
    hide Copies, GoesUnder;
    if k == |refs| {
      assert refs[..k] == refs;
    } else {
      CopiesGrow(rules, files, refs, k + 1, name);
      OneMoreRef(rules, files, refs[..k], refs[k], name);
      assert refs[..k] + [refs[k]] == refs[..k + 1];
    }
  }

  lemma {:induction false} WarningsGrow(rules: seq<Rule>, files: seq<Bytes>, refs: seq<Ref>, k: nat)
    requires Advances(rules) && k <= |refs|
    ensures WarningsOf(rules, files, refs[..k]) <= WarningsOf(rules, files, refs)
    decreases |refs| - k
  {
    hide Copies, GoesUnder, IsHidden, WarningsOf;
    if k == |refs| {
      assert refs[..k] == refs;
    } else {
      WarningsGrow(rules, files, refs, k + 1);
      OneMoreWarning(rules, files, refs[..k], refs[k]);
      assert refs[..k] + [refs[k]] == refs[..k + 1];
    }
  }

  /** A class that is not the first copy of its name is warned about. */
  lemma HiddenIsWarned(rules: seq<Rule>, files: seq<Bytes>, refs: seq<Ref>, k: nat)
    requires Advances(rules) && k < |refs| && !IsExtensionModule(refs[k].name)
    requires MergeKind(EntryName(rules, refs[k].name)).None? && IsClass(EntryName(rules, refs[k].name))
    requires Copies(rules, files, refs, EntryName(rules, refs[k].name)) != []
    requires Copies(rules, files, refs, EntryName(rules, refs[k].name))[0] != refs[k].AsSource()
    ensures var name := EntryName(rules, refs[k].name);
            Duplicate(name, Copies(rules, files, refs, name)[0], refs[k].AsSource()) in WarningsOf(rules, files, refs)
  {
    hide EntryName, Copies, MergeKind, IsClass, IsExtensionModule, WarningsOf;
    var name := EntryName(rules, refs[k].name);
    var before := refs[..k];
    OneMoreRef(rules, files, before, refs[k], name);
    OneMoreWarning(rules, files, before, refs[k]);
    assert before + [refs[k]] == refs[..k + 1];
    CopiesGrow(rules, files, refs, k, name);
    CopiesGrow(rules, files, refs, k + 1, name);
    WarningsGrow(rules, files, refs, k + 1);
    assert GoesUnder(rules, refs[k], name);
  }

  /** What a warning says, and that each hidden copy has no more than one. */
  lemma {:induction false} WarningsAreHiddenCopies(rules: seq<Rule>, files: seq<Bytes>, refs: seq<Ref>)
    requires Advances(rules) && RefsInOrder(refs)
    ensures forall w <- WarningsOf(rules, files, refs) ::
              exists k :: 0 <= k < |refs| && w.ignored == refs[k].AsSource() && w.name == EntryName(rules, refs[k].name)
                && IsHidden(rules, files, refs[..k], refs[k])
    ensures forall i, j :: 0 <= i < j < |WarningsOf(rules, files, refs)| ==>
              Earlier(WarningsOf(rules, files, refs)[i].ignored, WarningsOf(rules, files, refs)[j].ignored)
    decreases |refs|
  {
    hide EntryName, IsHidden, Copies;
    if refs != [] {
      var n := |refs| - 1;
      var front, last := refs[..n], refs[n];
      assert RefsInOrder(front) by { assert forall k :: 0 <= k < n ==> front[k] == refs[k]; }
      WarningsAreHiddenCopies(rules, files, front);
      var before, all := WarningsOf(rules, files, front), WarningsOf(rules, files, refs);
      assert forall k :: 0 <= k < n ==> front[..k] == refs[..k];
      forall w | w in all
        ensures exists k :: 0 <= k < |refs| && w.ignored == refs[k].AsSource() && w.name == EntryName(rules, refs[k].name)
                  && IsHidden(rules, files, refs[..k], refs[k])
      {
        if w in before {
          var k :| 0 <= k < n && w.ignored == front[k].AsSource() && w.name == EntryName(rules, front[k].name)
            && IsHidden(rules, files, front[..k], front[k]);
          assert refs[k] == front[k];
        } else {
          assert refs[n] == last && refs[..n] == front;
        }
      }
      forall i, j | 0 <= i < j < |all|
        ensures Earlier(all[i].ignored, all[j].ignored)
      {
        assert all[i] == before[i] && before[i] in before;
      }
    }
  }

  /** Every file of the project but a manifest is in the jar, when no two go under one name. */
  lemma ProjectFilesAreKept(rules: seq<Rule>, files: seq<Bytes>, refs: seq<Ref>, k: nat)
    requires Advances(rules) && k < |files| && files[k] != JarLayout.MANIFEST
    requires forall m :: 0 <= m < |files| && files[m] != JarLayout.MANIFEST && m != k ==> PlannedFile(rules, files[m]) != PlannedFile(rules, files[k])
    ensures var name := PlannedFile(rules, files[k]);
            if IsExtensionModule(name) then
              files[k] in ModuleFiles(rules, files)
              && FinalEntry(rules, files, refs, EXTENSION_MODULE) == Some(ExtensionModules(ModuleFiles(rules, files), ModuleRefs(refs)))
            else IsIn(FinalEntry(rules, files, refs, name), OnDisk(files[k]))
  {
    hide PlannedFile, MergeKind, ProjectCopy, JarCopies, ModuleRefs;
    ProjectCopyIsLast(rules, files, PlannedFile(rules, files[k]));
  }
}
