/** Names. */
module FatJarNames {
  // What an entry's name decides. Names spelled out: which entries are merged, and how, and which never reach
  // the jar.

  import opened ByteStrings
  import opened EntryNames
  import opened FatJar
  import opened FatJarLaws
  import JarLayout
  import opened Registries
  import opened Relocation
  import opened Rewriting
  import Utf8
  import opened Wrappers

  // ---- what is merged -----------------------------------------------------------------------------

  const SERVICE: Bytes := Ascii("META-INF/services/")
  const SPRING_HANDLERS: Bytes := Ascii("META-INF/spring.handlers")
  const SPRING_SCHEMAS: Bytes := Ascii("META-INF/spring.schemas")
  const SPRING_TOOLING: Bytes := Ascii("META-INF/spring.tooling")
  const SPRING_FACTORIES: Bytes := Ascii("META-INF/spring.factories")
  const SPRING_IMPORTS: Bytes := Ascii("META-INF/spring/")
  const IMPORTS_END: Bytes := Ascii(".imports")

  /** A name several jars may have, every copy of which counts. */
  datatype Shared =
    | Service(x: Bytes)
    | Handlers
    | Schemas
    | Tooling
    | Factories
    | ImportList(x: Bytes)
  {
    function Name(): Bytes {
      match this
      case Service(x) => SERVICE + x
      case Handlers => SPRING_HANDLERS
      case Schemas => SPRING_SCHEMAS
      case Tooling => SPRING_TOOLING
      case Factories => SPRING_FACTORIES
      case ImportList(x) => SPRING_IMPORTS + x + IMPORTS_END
    }

    predicate IsName() {
      match this
      case Service(x) => x != []
      case ImportList(x) => x != [] && '/' as Byte !in x
      case _ => true
    }

    function Way(): Merge {
      match this
      case Factories => SpringFactories
      case ImportList(_) => Lines
      case _ => Append
    }
  }

  lemma SameNames()
    ensures SERVICES == SERVICE && HANDLERS == SPRING_HANDLERS && SCHEMAS == SPRING_SCHEMAS && TOOLING == SPRING_TOOLING
    ensures FACTORIES == SPRING_FACTORIES && SPRING == SPRING_IMPORTS && IMPORTS == IMPORTS_END
  {
    hide Ascii;
  }

  /** The bytes that tell the names apart. */
  lemma BelowBytes()
    ensures |SERVICE| == 18 && SERVICE[10] == 'e' as Byte
    ensures |SPRING_IMPORTS| == 16 && SPRING_IMPORTS[10] == 'p' as Byte && SPRING_IMPORTS[15] == '/' as Byte
  {
    hide SPRING_HANDLERS, SPRING_SCHEMAS, SPRING_TOOLING, SPRING_FACTORIES;
  }

  lemma HandlersBytes()
    ensures |SPRING_HANDLERS| > 16 && SPRING_HANDLERS[10] == 'p' as Byte && SPRING_HANDLERS[15] == '.' as Byte
    ensures SPRING_HANDLERS[16] == 'h' as Byte
  {
  }

  lemma SchemasBytes()
    ensures |SPRING_SCHEMAS| > 16 && SPRING_SCHEMAS[10] == 'p' as Byte && SPRING_SCHEMAS[15] == '.' as Byte
    ensures SPRING_SCHEMAS[16] == 's' as Byte
  {
  }

  lemma ToolingBytes()
    ensures |SPRING_TOOLING| > 16 && SPRING_TOOLING[10] == 'p' as Byte && SPRING_TOOLING[15] == '.' as Byte
    ensures SPRING_TOOLING[16] == 't' as Byte
  {
  }

  lemma FactoriesBytes()
    ensures |SPRING_FACTORIES| > 16 && SPRING_FACTORIES[10] == 'p' as Byte && SPRING_FACTORIES[15] == '.' as Byte
    ensures SPRING_FACTORIES[16] == 'f' as Byte
  {
  }

  lemma NoSlashInEnd()
    ensures '/' as Byte !in IMPORTS_END
  {
  }

  lemma ServiceKind(x: Bytes)
    requires x != []
    ensures MergeKind(SERVICE + x) == Some(Append)
  {
    hide Ascii, SERVICES, HANDLERS, SCHEMAS, TOOLING, FACTORIES, SPRING, IMPORTS, IsImports;
    hide SERVICE, SPRING_HANDLERS, SPRING_SCHEMAS, SPRING_TOOLING, SPRING_FACTORIES, SPRING_IMPORTS, IMPORTS_END;
    SameNames();
    BelowBytes();
    HandlersBytes();
    SchemasBytes();
    ToolingBytes();
    FactoriesBytes();
    assert (SERVICE + x)[10] == 'e' as Byte;
  }

  lemma ImportsKind(x: Bytes)
    requires x != [] && '/' as Byte !in x
    ensures MergeKind(SPRING_IMPORTS + x + IMPORTS_END) == Some(Lines)
  {
    hide Ascii, SERVICES, HANDLERS, SCHEMAS, TOOLING, FACTORIES, SPRING, IMPORTS;
    hide SERVICE, SPRING_HANDLERS, SPRING_SCHEMAS, SPRING_TOOLING, SPRING_FACTORIES, SPRING_IMPORTS, IMPORTS_END;
    SameNames();
    BelowBytes();
    HandlersBytes();
    SchemasBytes();
    ToolingBytes();
    FactoriesBytes();
    NoSlashInEnd();
    var name := SPRING_IMPORTS + x + IMPORTS_END;
    assert name[10] == 'p' as Byte && name[15] == '/' as Byte;
    assert name[|SPRING_IMPORTS|..] == x + IMPORTS_END && name[|name| - |IMPORTS_END|..] == IMPORTS_END;
  }

  lemma FixedKinds()
    ensures MergeKind(SPRING_FACTORIES) == Some(SpringFactories)
    ensures MergeKind(SPRING_HANDLERS) == Some(Append)
    ensures MergeKind(SPRING_SCHEMAS) == Some(Append)
    ensures MergeKind(SPRING_TOOLING) == Some(Append)
  {
    hide Ascii, SERVICES, HANDLERS, SCHEMAS, TOOLING, FACTORIES, SPRING, IMPORTS, IsServiceFile, IsImports;
    hide SERVICE, SPRING_HANDLERS, SPRING_SCHEMAS, SPRING_TOOLING, SPRING_FACTORIES, SPRING_IMPORTS, IMPORTS_END;
    SameNames();
    BelowBytes();
    HandlersBytes();
    SchemasBytes();
    ToolingBytes();
    FactoriesBytes();
  }

  lemma SharedKind(n: Shared)
    requires n.IsName()
    ensures MergeKind(n.Name()) == Some(n.Way())
  {
    hide MergeKind;
    FixedKinds();
    match n
    case Service(x) => ServiceKind(x);
    case ImportList(x) => ImportsKind(x);
    case _ =>
  }

  /** Nothing else is merged. */
  lemma MergedIsShared(name: Bytes) returns (n: Shared)
    requires MergeKind(name).Some?
    ensures n.IsName() && n.Name() == name
  {
    hide Ascii, SERVICES, HANDLERS, SCHEMAS, TOOLING, FACTORIES, SPRING, IMPORTS;
    hide SERVICE, SPRING_HANDLERS, SPRING_SCHEMAS, SPRING_TOOLING, SPRING_FACTORIES, SPRING_IMPORTS, IMPORTS_END;
    SameNames();
    if name == FACTORIES {
      n := Factories;
    } else if name == HANDLERS {
      n := Handlers;
    } else if name == SCHEMAS {
      n := Schemas;
    } else if name == TOOLING {
      n := Tooling;
    } else if IsServiceFile(name) {
      n := Service(name[|SERVICES|..]);
    } else {
      var x := ImportsMiddle(name);
      n := ImportList(x);
    }
  }

  lemma ImportsMiddle(name: Bytes) returns (x: Bytes)
    requires IsImports(name)
    ensures x != [] && '/' as Byte !in x && name == SPRING + x + IMPORTS
  {
    hide Ascii, SPRING, IMPORTS;
    var end := |name| - |IMPORTS|;
    x := name[|SPRING|..end];
    assert name == name[..|SPRING|] + x + name[end..];
    assert x == name[|SPRING|..][..end - |SPRING|];
    assert forall k :: 0 <= k < |x| ==> x[k] == name[|SPRING|..][k];
  }

  /** Each shared name has one entry, merged in its way from every copy that goes there: the project's, then
      the dependencies' in classpath order. */
  lemma SharedIsMerged(rules: seq<Rule>, files: seq<Bytes>, jars: seq<Jar>, n: Shared)
    requires Advances(rules) && n.IsName() && !IsDescriptor(n.Name())
    ensures var refs := Refs(jars, |jars|);
            var own := Maybe(ProjectCopy(rules, files, n.Name()));
            var entry := FinalEntry(rules, files, refs, n.Name());
            && (entry.Some? <==> own != [] || exists k :: 0 <= k < |refs| && GoesUnder(rules, refs[k], n.Name()))
            && (entry.Some? ==>
                  && entry.value.Merged? && entry.value.kind == n.Way()
                  && |own| <= |entry.value.sources|
                  && (own != [] ==> entry.value.sources[0] == OnDisk(own[0]))
                  && var packed := entry.value.sources[|own|..];
                  && InOrder(packed)
                  && forall s :: s in packed <==>
                       exists k :: 0 <= k < |refs| && GoesUnder(rules, refs[k], n.Name()) && refs[k].AsSource() == s)
  {
    hide GoesUnder, MergeKind, ProjectCopy, JarCopies, InOrder, Shared.Name, Shared.IsName, IsDescriptor,
         IsExtensionModule;
    SharedKind(n);
    DescriptorNames(n.Name());
    MergedKeepsEveryCopy(rules, files, jars, n.Name());
  }

  const MODULE_FILE: Bytes := Ascii("org.codehaus.groovy.") + Ascii("runtime.ExtensionModule")
  const GROOVY: Bytes := Ascii("META-INF/groovy/")

  /** Where Groovy looks for an extension module's descriptor, now and before. */
  predicate IsDescriptor(name: Bytes) {
    name == GROOVY + MODULE_FILE || name == SERVICE + MODULE_FILE
  }

  lemma ModuleFileName()
    ensures DESCRIPTOR == MODULE_FILE
  {
    hide Ascii;
  }

  lemma DescriptorNames(name: Bytes)
    ensures IsExtensionModule(name) <==> IsDescriptor(name)
  {
    hide Ascii, DESCRIPTOR, MODULE_FILE;
    ModuleFileName();
    SameNames();
  }

  const CLASS_END: Bytes := Ascii(".class")

  /** A class file is told by the end of its name, in these letters only. */
  lemma ClassFilesAre(name: Bytes)
    ensures IsClass(name) <==> exists front: Bytes :: name == front + CLASS_END
  {
    assert CLASS_SUFFIX == CLASS_END by { hide Ascii; }
    hide Ascii, CLASS_SUFFIX, CLASS_END;
    if IsClass(name) {
      assert name == name[..|name| - |CLASS_END|] + CLASS_END;
    }
    forall front: Bytes | name == front + CLASS_END
      ensures IsClass(name)
    {
      assert name[|name| - |CLASS_END|..] == CLASS_END;
    }
  }

  /** The project's own descriptor keeps its name, whatever is relocated, and is among those merged into one. */
  lemma DescriptorStays(rules: seq<Rule>, files: seq<Bytes>, refs: seq<Ref>, k: nat)
    requires Advances(rules) && k < |files| && IsDescriptor(files[k])
    requires forall m :: 0 <= m < |files| && m != k ==> PlannedFile(rules, files[m]) != files[k]
    ensures files[k] in ModuleFiles(rules, files)
    ensures FinalEntry(rules, files, refs, GROOVY + MODULE_FILE) == Some(ExtensionModules(ModuleFiles(rules, files), ModuleRefs(refs)))
  {
    hide EntryName, MergeKind, ProjectCopy, JarCopies, ModuleRefs, IsDescriptor, IsExtensionModule, Ascii;
    DescriptorNames(files[k]);
    ModuleFileName();
    DescriptorIsNoManifest(files[k]);
    ProjectFilesAreKept(rules, files, refs, k);
  }

  lemma DescriptorIsNoManifest(name: Bytes)
    requires IsDescriptor(name)
    ensures name != JarLayout.MANIFEST
  {
    hide DESCRIPTOR, MODULE_FILE;
    assert name[9] == 'g' as Byte || name[9] == 's' as Byte;
    assert JarLayout.MANIFEST[9] == 'M' as Byte;
  }

  // ---- what never reaches the jar -----------------------------------------------------------------

  /** `word` in capital letters, some of them written small. */
  predicate IsSpelling(ext: Bytes, word: string)
    requires forall c <- word :: 'A' <= c <= 'Z'
  {
    |ext| == |word| && forall k :: 0 <= k < |word| ==> ext[k] == Letter(word, k) || ext[k] == Letter(word, k) + 32
  }

  function Letter(word: string, k: nat): (b: Byte)
    requires k < |word| && forall c <- word :: 'A' <= c <= 'Z'
    ensures 65 <= b <= 90
  {
    assert word[k] in word;
    word[k] as Byte
  }

  predicate IsSignatureType(ext: Bytes) {
    IsSpelling(ext, "SF") || IsSpelling(ext, "DSA") || IsSpelling(ext, "RSA") || IsSpelling(ext, "EC")
  }

  const MANIFEST_NAME: Bytes := Ascii("META-INF/MANIFEST.MF")
  const INDEX_LIST_NAME: Bytes := Ascii("META-INF/INDEX.LIST")
  const MODULE_INFO_NAME: Bytes := Ascii("module-info.class")
  const VERSIONS_BELOW: Bytes := Ascii("META-INF/versions/")
  const META_INF_BELOW: Bytes := Ascii("META-INF/")

  lemma SameDropped()
    ensures MANIFEST_NAME == JarLayout.MANIFEST && INDEX_LIST_NAME == INDEX_LIST && MODULE_INFO_NAME == MODULE_INFO
    ensures VERSIONS_BELOW == VERSIONS && META_INF_BELOW == META_INF
  {
    hide Ascii;
  }

  datatype Dropped =
    | Manifest
    | IndexList
    | ModuleInfo
    | VersionedModuleInfo(digits: Bytes)
    | SignatureFile(base: Bytes, ext: Bytes)
  {
    function Name(): Bytes {
      match this
      case Manifest => MANIFEST_NAME
      case IndexList => INDEX_LIST_NAME
      case ModuleInfo => MODULE_INFO_NAME
      case VersionedModuleInfo(digits) => VERSIONS_BELOW + digits + ['/' as Byte] + MODULE_INFO_NAME
      case SignatureFile(base, ext) => META_INF_BELOW + base + ['.' as Byte] + ext
    }

    predicate IsName() {
      match this
      case VersionedModuleInfo(digits) => forall b <- digits :: '0' as Byte <= b <= '9' as Byte
      case SignatureFile(base, ext) => '/' as Byte !in base && IsSignatureType(ext)
      case _ => true
    }
  }

  lemma UpperLetters(ext: Bytes, word: string)
    requires forall c <- word :: 'A' <= c <= 'Z'
    ensures IsSpelling(ext, word) <==> AsciiUpper(ext) == Ascii(word)
  {
    var upper := AsciiUpper(ext);
    if IsSpelling(ext, word) {
      forall k | 0 <= k < |word|
        ensures upper[k] == Ascii(word)[k]
      {
        assert ext[k] == Letter(word, k) || ext[k] == Letter(word, k) + 32;
      }
    } else if upper == Ascii(word) {
      forall k | 0 <= k < |word|
        ensures ext[k] == Letter(word, k) || ext[k] == Letter(word, k) + 32
      {
        assert upper[k] == Upper(ext[k]) && Ascii(word)[k] == Letter(word, k);
      }
      assert false;
    }
  }

  lemma SuffixBytes(word: string, suffix: string)
    requires (forall c <- word :: 'A' <= c <= 'Z') && suffix == "." + word
    ensures (forall c <- suffix :: c as int < 0x80) && Ascii(suffix) == ['.' as Byte] + Ascii(word)
  {
  }

  lemma UpperTail(rest: Bytes, cut: nat)
    requires 0 < cut <= |rest|
    ensures AsciiUpper(rest)[cut - 1..] == [Upper(rest[cut - 1])] + AsciiUpper(rest[cut..])
  {
  }

  /** A name ends in `.` and a word, in capitals, exactly when it is written so behind some base. */
  lemma EndsSo(rest: Bytes, word: string, suffix: string)
    requires (forall c <- word :: 'A' <= c <= 'Z') && suffix == "." + word
    ensures forall c <- suffix :: c as int < 0x80
    ensures EndsWith(AsciiUpper(rest), Ascii(suffix))
            <==> |word| < |rest| && rest[|rest| - |word| - 1] == '.' as Byte && IsSpelling(rest[|rest| - |word|..], word)
  {
    hide IsSpelling, Ascii;
    SuffixBytes(word, suffix);
    var cut := |rest| - |word|;
    if |word| < |rest| {
      UpperLetters(rest[cut..], word);
      UpperTail(rest, cut);
      hide AsciiUpper;
      SameTail(Upper(rest[cut - 1]), AsciiUpper(rest[cut..]), Ascii(word));
    }
  }

  lemma SameTail(x: Byte, a: Bytes, b: Bytes)
    ensures [x] + a == ['.' as Byte] + b <==> x == '.' as Byte && a == b
  {
    assert ([x] + a)[1..] == a && (['.' as Byte] + b)[1..] == b;
  }

  lemma SignatureIsNamed(rest: Bytes) returns (base: Bytes, ext: Bytes)
    requires EndsWith(AsciiUpper(rest), Ascii(".SF")) || EndsWith(AsciiUpper(rest), Ascii(".DSA"))
             || EndsWith(AsciiUpper(rest), Ascii(".RSA")) || EndsWith(AsciiUpper(rest), Ascii(".EC"))
    ensures rest == base + ['.' as Byte] + ext && IsSignatureType(ext)
  {
    hide IsSpelling, EndsWith, AsciiUpper, Ascii;
    EndsSo(rest, "SF", ".SF");
    EndsSo(rest, "DSA", ".DSA");
    EndsSo(rest, "RSA", ".RSA");
    EndsSo(rest, "EC", ".EC");
    var n := if EndsWith(AsciiUpper(rest), Ascii(".SF")) || EndsWith(AsciiUpper(rest), Ascii(".EC")) then 2 else 3;
    base, ext := rest[..|rest| - n - 1], rest[|rest| - n..];
    assert rest == base + [rest[|rest| - n - 1]] + ext;
  }

  lemma EndsInType(base: Bytes, ext: Bytes)
    requires IsSignatureType(ext)
    ensures var upper := AsciiUpper(base + ['.' as Byte] + ext);
            EndsWith(upper, Ascii(".SF")) || EndsWith(upper, Ascii(".DSA"))
            || EndsWith(upper, Ascii(".RSA")) || EndsWith(upper, Ascii(".EC"))
  {
    hide IsSpelling, AsciiUpper, EndsWith, Ascii;
    var rest := base + ['.' as Byte] + ext;
    assert rest[|rest| - |ext| - 1] == '.' as Byte && rest[|rest| - |ext|..] == ext;
    EndsSo(rest, "SF", ".SF");
    EndsSo(rest, "DSA", ".DSA");
    EndsSo(rest, "RSA", ".RSA");
    EndsSo(rest, "EC", ".EC");
    LengthsOfTypes(ext);
  }

  lemma NamedIsSignature(base: Bytes, ext: Bytes)
    requires '/' as Byte !in base && IsSignatureType(ext)
    ensures IsSignature(META_INF_BELOW + base + ['.' as Byte] + ext)
  {
    var rest := base + ['.' as Byte] + ext;
    var name := META_INF_BELOW + base + ['.' as Byte] + ext;
    assert '/' as Byte !in ext by { NoSlashInType(ext); }
    hide Ascii, AsciiUpper, EndsWith, IsSignatureType, META_INF, META_INF_BELOW;
    SameDropped();
    assert name == META_INF + rest && name[|META_INF|..] == rest;
    EndsInType(base, ext);
  }

  lemma NoSlashInType(ext: Bytes)
    requires IsSignatureType(ext)
    ensures '/' as Byte !in ext
  {
  }

  lemma LengthsOfTypes(ext: Bytes)
    ensures IsSpelling(ext, "SF") || IsSpelling(ext, "EC") ==> |ext| == 2
    ensures IsSpelling(ext, "DSA") || IsSpelling(ext, "RSA") ==> |ext| == 3
  {
  }

  lemma VersionedIsNamed(digits: Bytes)
    requires forall b <- digits :: '0' as Byte <= b <= '9' as Byte
    ensures IsVersionedModuleInfo(VERSIONS_BELOW + digits + ['/' as Byte] + MODULE_INFO_NAME)
  {
    hide Ascii, VERSIONS, VERSIONS_BELOW, MODULE_INFO, MODULE_INFO_NAME;
    SameDropped();
    var tail := ['/' as Byte] + MODULE_INFO_NAME;
    var rest := digits + tail;
    var name := VERSIONS_BELOW + digits + ['/' as Byte] + MODULE_INFO_NAME;
    assert name == VERSIONS + rest && name[|VERSIONS|..] == rest;
    assert rest[|digits|] == '/' as Byte;
    assert rest[|digits| + 1..] == MODULE_INFO && rest[..|digits|] == digits;
    FirstSlash(digits, tail);
  }

  lemma {:induction false} FirstSlash(digits: Bytes, tail: Bytes)
    requires '/' as Byte !in digits && tail != [] && tail[0] == '/' as Byte
    ensures FindSlash(digits + tail) == Some(|digits|)
  {
    if digits == [] {
      assert digits + tail == tail;
    } else {
      FirstSlash(digits[1..], tail);
      assert (digits + tail)[1..] == digits[1..] + tail;
    }
  }

  lemma NamedIsVersioned(name: Bytes) returns (digits: Bytes)
    requires IsVersionedModuleInfo(name)
    ensures name == VERSIONS_BELOW + digits + ['/' as Byte] + MODULE_INFO_NAME
    ensures forall b <- digits :: '0' as Byte <= b <= '9' as Byte
  {
    hide Ascii, VERSIONS, VERSIONS_BELOW, MODULE_INFO, MODULE_INFO_NAME;
    SameDropped();
    var rest := name[|VERSIONS|..];
    var k := FindSlash(rest).value;
    digits := rest[..k];
    CutAtSlash(name, name[..|VERSIONS|], rest, k);
  }

  lemma CutAtSlash(name: Bytes, front: Bytes, rest: Bytes, k: nat)
    requires name == front + rest && k < |rest| && rest[k] == '/' as Byte
    ensures name == front + rest[..k] + ['/' as Byte] + rest[k + 1..]
  {
  }

  /** What is dropped is named so, in capitals or not. */
  lemma DroppedIs(name: Bytes)
    ensures IsDropped(name) <==> exists d: Dropped :: d.IsName() && name == d.Name()
  {
    hide IsSignature, IsVersionedModuleInfo, IsSignatureType, Ascii;
    SameDropped();
    if IsDropped(name) {
      var d := DroppedName(name);
      assert d.IsName() && name == d.Name();
    }
    forall d: Dropped | d.IsName() && name == d.Name()
      ensures IsDropped(name)
    {
      match d
      case VersionedModuleInfo(digits) => VersionedIsNamed(digits);
      case SignatureFile(base, ext) => NamedIsSignature(base, ext);
      case _ =>
    }
  }

  lemma DroppedName(name: Bytes) returns (d: Dropped)
    requires IsDropped(name)
    ensures d.IsName() && name == d.Name()
  {
    hide IsVersionedModuleInfo, IsSignatureType, EndsWith, AsciiUpper, Ascii;
    SameDropped();
    if name == MANIFEST_NAME {
      d := Manifest;
    } else if name == INDEX_LIST_NAME {
      d := IndexList;
    } else if name == MODULE_INFO_NAME {
      d := ModuleInfo;
    } else if IsVersionedModuleInfo(name) {
      var digits := NamedIsVersioned(name);
      d := VersionedModuleInfo(digits);
    } else {
      var rest := name[|META_INF|..];
      var base, ext := SignatureIsNamed(rest);
      d := SignatureFile(base, ext);
      assert forall k :: 0 <= k < |base| ==> base[k] == rest[k];
      assert name == META_INF + rest == META_INF + base + ['.' as Byte] + ext;
    }
  }

  /** A dropped entry's bytes are nowhere in the jar, and neither are a directory's. */
  lemma DroppedGoesNowhere(
    rules: seq<Rule>, files: seq<Bytes>, jars: seq<Jar>, jar: nat, index: nat, d: Dropped, name: Bytes)
    requires Advances(rules) && d.IsName()
    requires jar < |jars| && jars[jar].Jar? && index < |jars[jar].items|
    requires jars[jar].items[index] == Item(d.Name())
    ensures !IsIn(FinalEntry(rules, files, Refs(jars, |jars|), name), Packed(jar, index))
  {
    hide EntryName, MergeKind, ProjectCopy, JarCopies, IsExtensionModule, Refs, IsDropped, Dropped.IsName,
         Dropped.Name, GoesUnder;
    var refs := Refs(jars, |jars|);
    DroppedIs(d.Name());
    RefsAreEntries(jars, |jars|);
    forall k | 0 <= k < |refs|
      ensures refs[k].AsSource() != Packed(jar, index)
    {
      assert IsEntryOf(refs[k], jars, |jars|);
    }
    JarCopiesHas(rules, refs, name, Packed(jar, index));
    ModulesAreRefs(refs, Packed(jar, index));
  }

  lemma {:induction false} ModulesAreRefs(refs: seq<Ref>, source: Source)
    requires forall k :: 0 <= k < |refs| ==> refs[k].AsSource() != source
    ensures source !in ModuleRefs(refs)
  {
    hide IsExtensionModule;
    if refs != [] {
      ModulesAreRefs(refs[..|refs| - 1], source);
    }
  }

  // ---- what is made of the copies -----------------------------------------------------------------

  function Texts(copies: seq<Bytes>): Option<seq<string>> {
    if copies == [] then Some([])
    else
      match (Utf8.Decode(copies[0]), Texts(copies[1..]))
      case (Some(text), Some(more)) => Some([text] + more)
      case _ => None
  }

  /** The copies made one, in their way; nothing when they had to be text and one is not. */
  method Combine(kind: Merge, copies: seq<Bytes>) returns (merged: Option<Bytes>)
    ensures kind == Append ==> merged == Some(AppendAll([], copies))
    ensures kind != Append && Texts(copies).None? ==> merged == None
    ensures kind == SpringFactories && Texts(copies).Some? ==>
              merged == Some(Utf8.Encode(MergedFactories(Texts(copies).value)))
    ensures kind == Lines && Texts(copies).Some? ==>
              merged == Some(Utf8.Encode(MergedImports(Texts(copies).value)))
  {
    hide MergedFactories, MergedImports, AppendAll, Utf8.Encode, Utf8.Decode;
    var texts := Texts(copies);
    match kind {
      case Append =>
        var bytes := MergeAppend(copies);
        merged := Some(bytes);
      case SpringFactories =>
        if texts.None? {
          return None;
        }
        var text := MergeFactories(texts.value);
        merged := Some(Utf8.Encode(text));
      case Lines =>
        if texts.None? {
          return None;
        }
        var text := MergeImports(texts.value);
        merged := Some(Utf8.Encode(text));
    }
  }

  /** Two copies appended: one after the other, a line feed between where the first does not end in one. */
  lemma TwoAreAppended(a: Bytes, b: Bytes)
    ensures AppendAll([], [a, b]) == if a == [] || a[|a| - 1] == 10 then a + b else a + [10] + b
  {
    assert [a, b][1..] == [b] && [b][1..] == [];
    assert AppendCopy([], a) == a;
    assert AppendAll(AppendCopy(a, b), []) == AppendCopy(a, b);
    assert AppendAll([], [a, b]) == AppendAll(a, [b]) == AppendCopy(a, b);
  }
}
