/** Pools. */
module ClassConstants {
  // The constants of a class file. The structures of section 4.4 of the JVM Specification, field by field, and
  // what relocation makes of a file that holds them.

  import opened ByteStrings
  import opened Wrappers
  import opened Relocation
  import opened Rewriting
  import opened ClassFiles

  datatype U2 = U2(high: Byte, low: Byte)
  datatype U4 = U4(high: U2, low: U2)

  datatype Info =
    | Utf(bytes: Bytes)
    | Integer(value: U4)
    | Float(value: U4)
    | Long(high: U4, low: U4)
    | Double(high: U4, low: U4)
    | Class(name: U2)
    | Str(utf8: U2)
    | Fieldref(owner: U2, member: U2)
    | Methodref(owner: U2, member: U2)
    | InterfaceMethodref(owner: U2, member: U2)
    | NameAndType(name: U2, descriptor: U2)
    | MethodHandle(kind: Byte, reference: U2)
    | MethodType(descriptor: U2)
    | Dynamic(bootstrap: U2, member: U2)
    | InvokeDynamic(bootstrap: U2, member: U2)
    | Module(name: U2)
    | Package(name: U2)

  function Two(x: U2): Bytes {
    [x.high, x.low]
  }

  function Four(x: U4): Bytes {
    [x.high.high, x.high.low, x.low.high, x.low.low]
  }

  /** A number below 65536, most significant byte first. */
  function Size(n: nat): Bytes
    requires n < 0x10000
  {
    [(n / 256) as Byte, (n % 256) as Byte]
  }

  predicate Fits(c: Info) {
    c.Utf? ==> |c.bytes| < 0x10000
  }

  predicate AllFit(cs: seq<Info>) {
    forall c <- cs :: Fits(c)
  }

  /** A constant as it is laid out: its tag, then its fields. */
  function Layout(c: Info): (b: Bytes)
    requires Fits(c)
    ensures b != []
  {
    match c
    case Utf(bytes) => [1] + Size(|bytes|) + bytes
    case Integer(value) => [3] + Four(value)
    case Float(value) => [4] + Four(value)
    case Long(high, low) => [5] + (Four(high) + Four(low))
    case Double(high, low) => [6] + (Four(high) + Four(low))
    case Class(name) => [7] + Two(name)
    case Str(utf8) => [8] + Two(utf8)
    case Fieldref(owner, member) => [9] + (Two(owner) + Two(member))
    case Methodref(owner, member) => [10] + (Two(owner) + Two(member))
    case InterfaceMethodref(owner, member) => [11] + (Two(owner) + Two(member))
    case NameAndType(name, descriptor) => [12] + (Two(name) + Two(descriptor))
    case MethodHandle(kind, reference) => [15] + ([kind] + Two(reference))
    case MethodType(descriptor) => [16] + Two(descriptor)
    case Dynamic(bootstrap, member) => [17] + (Two(bootstrap) + Two(member))
    case InvokeDynamic(bootstrap, member) => [18] + (Two(bootstrap) + Two(member))
    case Module(name) => [19] + Two(name)
    case Package(name) => [20] + Two(name)
  }

  /** The 64-bit numbers take up two indices. */
  function Indices(c: Info): nat {
    if c.Long? || c.Double? then 2 else 1
  }

  function AllLayouts(cs: seq<Info>): Bytes
    requires AllFit(cs)
  {
    if cs == [] then [] else Layout(cs[0]) + AllLayouts(cs[1..])
  }

  function AllIndices(cs: seq<Info>): nat {
    if cs == [] then 0 else Indices(cs[0]) + AllIndices(cs[1..])
  }

  /** Magic number, version and the count of indices, one more than there are. */
  function Header(version: U4, count: nat): (h: Bytes)
    requires count < 0x10000
    ensures |h| == 10
  {
    [0xCA, 0xFE, 0xBA, 0xBE] + Four(version) + Size(count)
  }

  function File(version: U4, cs: seq<Info>, tail: Bytes): Bytes
    requires AllFit(cs) && 1 + AllIndices(cs) < 0x10000
  {
    Header(version, 1 + AllIndices(cs)) + AllLayouts(cs) + tail
  }

  ghost function MovedInfo(rules: seq<Rule>, c: Info): Info
    requires Advances(rules)
  {
    if c.Utf? then Utf(Rewritten(rules, c.bytes, Context.Constant)) else c
  }

  ghost function MovedInfos(rules: seq<Rule>, cs: seq<Info>): (moved: seq<Info>)
    requires Advances(rules)
    ensures |moved| == |cs| && forall k :: 0 <= k < |cs| ==> moved[k] == MovedInfo(rules, cs[k])
  {
    seq(|cs|, k requires 0 <= k < |cs| => MovedInfo(rules, cs[k]))
  }

  ghost predicate NoneOutgrows(rules: seq<Rule>, cs: seq<Info>)
    requires Advances(rules)
  {
    forall k :: 0 <= k < |cs| ==> Fits(MovedInfo(rules, cs[k]))
  }

  // ---- as entries of the pool -----------------------------------------------------------------------

  function AsEntry(c: Info): (e: Entry)
    requires Fits(c)
    ensures c.Utf? ==> e == Utf8(c.bytes)
  {
    if c.Utf? then Utf8(c.bytes) else Other(Layout(c)[0], Layout(c)[1..])
  }

  lemma EntryIsLayout(c: Info)
    requires Fits(c)
    ensures ValidEntry(AsEntry(c)) && EntryBytes(AsEntry(c)) == Layout(c) && Slots(TagOf(AsEntry(c))) == Indices(c)
  {
    if !c.Utf? {
      assert Layout(c) == [Layout(c)[0]] + Layout(c)[1..];
    }
  }

  function AsEntries(cs: seq<Info>): (es: seq<Entry>)
    requires AllFit(cs)
    ensures |es| == |cs| && forall k :: 0 <= k < |cs| ==> cs[k] in cs && es[k] == AsEntry(cs[k])
  {
    seq(|cs|, k requires 0 <= k < |cs| => assert cs[k] in cs; AsEntry(cs[k]))
  }

  lemma {:induction false} EntriesAreLayouts(cs: seq<Info>)
    requires AllFit(cs)
    ensures AllValid(AsEntries(cs)) && PoolBytes(AsEntries(cs)) == AllLayouts(cs)
  {
    hide ValidEntry, EntryBytes, Layout, AsEntry, Fits;
    var es := AsEntries(cs);
    forall e | e in es
      ensures ValidEntry(e)
    {
      var k :| 0 <= k < |es| && es[k] == e;
      EntryIsLayout(cs[k]);
    }
    if cs != [] {
      EntryIsLayout(cs[0]);
      EntriesAreLayouts(cs[1..]);
      assert es[1..] == AsEntries(cs[1..]);
    }
  }

  lemma ButLast(cs: seq<Info>)
    requires cs != []
    ensures cs[1..] != [] ==> AllIndices(cs[..|cs| - 1]) == Indices(cs[0]) + AllIndices(cs[1..][..|cs| - 2])
    ensures cs[1..] == [] ==> AllIndices(cs[..|cs| - 1]) == 0
  {
    hide Indices;
    if |cs| > 1 {
      assert cs[..|cs| - 1][1..] == cs[1..][..|cs| - 2];
    }
  }

  /** Constants that stand in the file are read one after another. */
  lemma {:induction false} ReadAfter(bytes: Bytes, at: nat, cs: seq<Info>, slots: int)
    requires AllFit(cs) && OccursAt(bytes, at, AllLayouts(cs)) && (cs == [] || AllIndices(cs[..|cs| - 1]) < slots)
    ensures var rest := ReadPool(bytes, at + |AllLayouts(cs)|, slots - AllIndices(cs));
            ReadPool(bytes, at, slots) == Pool(AsEntries(cs) + rest.entries, rest.end)
    decreases |cs|
  {
    hide ReadPool, Layout, AsEntry, ReadEntry, EntryBytes, Fits, Indices, ValidEntry, OccursAt;
    if cs == [] {
      assert AsEntries(cs) == [];
    } else {
      var c := cs[0];
      OccursSplit(bytes, at, Layout(c), AllLayouts(cs[1..]));
      EntryIsLayout(c);
      ReadEntryBack(bytes, at, AsEntry(c));
      ReadPoolUnfolds(bytes, at, slots, AsEntry(c));
      ButLast(cs);
      ReadAfter(bytes, at + |Layout(c)|, cs[1..], slots - Indices(c));
      EntriesSplit(cs, ReadPool(bytes, at + |AllLayouts(cs)|, slots - AllIndices(cs)).entries);
    }
  }

  lemma EntriesSplit(cs: seq<Info>, more: seq<Entry>)
    requires AllFit(cs) && cs != []
    ensures [AsEntry(cs[0])] + (AsEntries(cs[1..]) + more) == AsEntries(cs) + more
  {
    hide AsEntry, Fits;
    assert AsEntries(cs) == [AsEntry(cs[0])] + AsEntries(cs[1..]);
    EntriesRegroup([AsEntry(cs[0])], AsEntries(cs[1..]), more);
  }

  lemma EntriesRegroup(a: seq<Entry>, b: seq<Entry>, c: seq<Entry>)
    ensures a + (b + c) == (a + b) + c
  {
  }

  // ---- the file relocated ---------------------------------------------------------------------------

  lemma HeaderParts(version: U4, count: nat, rest: Bytes)
    requires count < 0x10000
    ensures var file := Header(version, count) + rest;
            && HasMagic(file) && |file| >= 10 && U16At(file, 8) == count
            && file[..10] == Header(version, count) && file[10..] == rest
  {
    var h := Header(version, count);
    var file := h + rest;
    assert file[..4] == h[..4] == MAGIC;
    assert file[8] == h[8] == (count / 256) as Byte && file[9] == h[9] == (count % 256) as Byte;
  }

  lemma MovedKeepsShape(rules: seq<Rule>, cs: seq<Info>)
    requires Advances(rules) && AllFit(cs) && NoneOutgrows(rules, cs)
    ensures AllFit(MovedInfos(rules, cs)) && AllIndices(MovedInfos(rules, cs)) == AllIndices(cs)
    ensures MoveEntries(rules, AsEntries(cs)) == AsEntries(MovedInfos(rules, cs))
  {
    hide RewriteFrom, Layout, AllIndices, Fits, Advances;
    var moved := MovedInfos(rules, cs);
    forall c | c in moved
      ensures Fits(c)
    {
      var k :| 0 <= k < |moved| && moved[k] == c;
    }
    forall k | 0 <= k < |cs|
      ensures MoveEntries(rules, AsEntries(cs))[k] == AsEntries(moved)[k]
    {
      MovedEntry(rules, cs[k]);
    }
    SameIndices(cs, moved);
  }

  lemma MovedEntry(rules: seq<Rule>, c: Info)
    requires Advances(rules) && Fits(c) && Fits(MovedInfo(rules, c))
    ensures MoveEntry(rules, AsEntry(c)) == AsEntry(MovedInfo(rules, c))
  {
    hide RewriteFrom, Layout;
  }

  lemma {:induction false} SameIndices(cs: seq<Info>, ds: seq<Info>)
    requires |cs| == |ds| && forall k :: 0 <= k < |cs| ==> Indices(cs[k]) == Indices(ds[k])
    ensures AllIndices(cs) == AllIndices(ds)
  {
    if cs != [] {
      SameIndices(cs[1..], ds[1..]);
    }
  }

  ghost predicate FirstOutgrows(rules: seq<Rule>, cs: seq<Info>, k: nat)
    requires Advances(rules)
  {
    k < |cs| && !Fits(MovedInfo(rules, cs[k])) && forall j :: 0 <= j < k ==> Fits(MovedInfo(rules, cs[j]))
  }

  lemma {:induction false} FirstTooLongAfter(rules: seq<Rule>, cs: seq<Info>, k: nat)
    requires Advances(rules) && AllFit(cs) && k <= |cs| && forall j :: 0 <= j < k ==> Fits(MovedInfo(rules, cs[j]))
    ensures AllFit(cs[k..]) && FirstTooLong(rules, AsEntries(cs)) == FirstTooLong(rules, AsEntries(cs[k..]))
    decreases k
  {
    hide Fits, MovedInfo, RewriteFrom, Advances, AsEntry, FirstTooLong;
    if k == 0 {
      assert cs[0..] == cs;
    } else {
      FirstTooLongAfter(rules, cs, k - 1);
      FirstTooLongStep(rules, cs[k - 1..]);
      assert cs[k - 1..][1..] == cs[k..];
    }
  }

  lemma FirstTooLongStep(rules: seq<Rule>, cs: seq<Info>)
    requires Advances(rules) && AllFit(cs) && cs != []
    ensures AllFit(cs[1..]) && FirstTooLong(rules, AsEntries(cs))
            == if Fits(MovedInfo(rules, cs[0])) then FirstTooLong(rules, AsEntries(cs[1..]))
               else if cs[0].Utf? then Some(cs[0].bytes) else None
    ensures !Fits(MovedInfo(rules, cs[0])) ==> cs[0].Utf?
  {
    hide RewriteFrom, Layout, Advances;
    assert AsEntries(cs)[1..] == AsEntries(cs[1..]);
  }

  lemma FirstTooLongIs(rules: seq<Rule>, cs: seq<Info>)
    requires Advances(rules) && AllFit(cs)
    ensures NoneOutgrows(rules, cs) ==> FirstTooLong(rules, AsEntries(cs)) == None
    ensures forall k: nat :: FirstOutgrows(rules, cs, k) ==>
              cs[k].Utf? && FirstTooLong(rules, AsEntries(cs)) == Some(cs[k].bytes)
  {
    hide Fits, MovedInfo, RewriteFrom, Advances, AsEntry, FirstTooLong;
    if NoneOutgrows(rules, cs) {
      FirstTooLongAfter(rules, cs, |cs|);
      NoneTooLong(rules, cs);
    }
    forall k: nat | FirstOutgrows(rules, cs, k)
      ensures cs[k].Utf? && FirstTooLong(rules, AsEntries(cs)) == Some(cs[k].bytes)
    {
      FirstTooLongAfter(rules, cs, k);
      FirstTooLongStep(rules, cs[k..]);
    }
  }

  lemma NoneTooLong(rules: seq<Rule>, cs: seq<Info>)
    requires Advances(rules) && AllFit(cs)
    ensures FirstTooLong(rules, AsEntries(cs[|cs|..])) == None
  {
  }

  lemma WithoutRules(text: Bytes, context: Context)
    ensures Advances([]) && Rewritten([], text, context) == text
  {
    CopiesOver([], text, 0, |text|, context);
    assert text[0..|text|] + [] == text;
  }

  lemma NothingMovesWithoutRules(cs: seq<Info>)
    ensures Advances([]) && MovedInfos([], cs) == cs
  {
    hide RewriteFrom;
    forall k | 0 <= k < |cs|
      ensures MovedInfo([], cs[k]) == cs[k]
    {
      if cs[k].Utf? {
        WithoutRules(cs[k].bytes, Context.Constant);
      }
    }
  }

  lemma PoolOfFile(version: U4, cs: seq<Info>, tail: Bytes)
    requires AllFit(cs) && 1 + AllIndices(cs) < 0x10000
    ensures var file := File(version, cs, tail);
            && HasMagic(file) && |file| >= 10 && U16At(file, 8) == 1 + AllIndices(cs)
            && file[..10] == Header(version, 1 + AllIndices(cs))
            && ReadPool(file, 10, AllIndices(cs)) == Pool(AsEntries(cs), Ok(10 + |AllLayouts(cs)|))
            && 10 + |AllLayouts(cs)| <= |file| && file[10 + |AllLayouts(cs)|..] == tail
  {
    hide ReadPool, AllLayouts, AllFit, HasMagic, U16At, Header, AllIndices, AsEntry;
    var h, body := Header(version, 1 + AllIndices(cs)), AllLayouts(cs);
    var file := File(version, cs, tail);
    Regroup(h, body, tail);
    HeaderParts(version, 1 + AllIndices(cs), body + tail);
    TakeAll(file, 10, body, tail);
    IndicesBut(cs);
    ReadAfter(file, 10, cs, AllIndices(cs));
    NoSlotsLeft(file, 10 + |body|, 0);
    assert AsEntries(cs) + [] == AsEntries(cs);
  }

  lemma {:induction false} IndicesBut(cs: seq<Info>)
    ensures cs != [] ==> AllIndices(cs[..|cs| - 1]) < AllIndices(cs)
  {
    if |cs| > 1 {
      assert cs[..|cs| - 1][1..] == cs[1..][..|cs| - 2];
      IndicesBut(cs[1..]);
    } else if |cs| == 1 {
      assert cs[..0] == [];
    }
  }

  /** A class file that holds any constants at all, 64-bit numbers on two indices, is read to its last one: every
      text is rewritten and nothing else changes, or the first text that outgrows its entry is named. */
  lemma FileIsRelocated(rules: seq<Rule>, version: U4, cs: seq<Info>, tail: Bytes)
    requires Advances(rules) && AllFit(cs) && 1 + AllIndices(cs) < 0x10000
    ensures NoneOutgrows(rules, cs) ==>
              && AllFit(MovedInfos(rules, cs)) && AllIndices(MovedInfos(rules, cs)) == AllIndices(cs)
              && Relocated(rules, File(version, cs, tail)) == Ok(File(version, MovedInfos(rules, cs), tail))
    ensures forall k: nat :: FirstOutgrows(rules, cs, k) ==>
              cs[k].Utf? && Relocated(rules, File(version, cs, tail)) == Err(TooLong(cs[k].bytes))
  {
    hide RewriteFrom, ReadPool, Layout, HasMagic, U16At, Header, MovedInfo, Fits, Advances, AsEntry;
    if rules == [] {
      NothingMovesWithoutRules(cs);
      NothingOutgrows(cs);
    } else {
      PoolOfFile(version, cs, tail);
      FirstTooLongIs(rules, cs);
      if NoneOutgrows(rules, cs) {
        MovedKeepsShape(rules, cs);
        EntriesAreLayouts(MovedInfos(rules, cs));
      }
    }
  }

  lemma NothingOutgrows(cs: seq<Info>)
    requires AllFit(cs) && Advances([])
    ensures NoneOutgrows([], cs) && forall k: nat :: !FirstOutgrows([], cs, k)
  {
    hide Fits, RewriteFrom;
    NothingMovesWithoutRules(cs);
    forall k | 0 <= k < |cs|
      ensures Fits(MovedInfo([], cs[k]))
    {
      assert MovedInfos([], cs)[k] == cs[k] && cs[k] in cs;
    }
  }

  // ---- files that are no class files ----------------------------------------------------------------

  /** A file whose pool is declared to go on after these constants. */
  function Longer(version: U4, count: nat, cs: seq<Info>, rest: Bytes): Bytes
    requires AllFit(cs) && count < 0x10000
  {
    Header(version, count) + AllLayouts(cs) + rest
  }

  lemma PoolGoesOn(version: U4, count: nat, cs: seq<Info>, rest: Bytes, problem: Problem)
    requires AllFit(cs) && 1 + AllIndices(cs) < count < 0x10000
    requires ReadEntry(Longer(version, count, cs, rest), 10 + |AllLayouts(cs)|) == Err(problem)
    ensures var file := Longer(version, count, cs, rest);
            && HasMagic(file) && |file| >= 10 && U16At(file, 8) == count
            && ReadPool(file, 10, count - 1) == Pool(AsEntries(cs), Err(problem))
  {
    hide ReadPool, AllLayouts, AllFit, HasMagic, U16At, Header, AllIndices, AsEntry, ReadEntry;
    var h, body := Header(version, count), AllLayouts(cs);
    var file := Longer(version, count, cs, rest);
    Regroup(h, body, rest);
    HeaderParts(version, count, body + rest);
    TakeAll(file, 10, body, rest);
    IndicesBut(cs);
    ReadAfter(file, 10, cs, count - 1);
    StopsReading(file, 10 + |body|, count - 1 - AllIndices(cs), problem);
    assert AsEntries(cs) + [] == AsEntries(cs);
  }

  lemma StopsReading(bytes: Bytes, at: nat, slots: int, problem: Problem)
    requires slots > 0 && ReadEntry(bytes, at) == Err(problem)
    ensures ReadPool(bytes, at, slots) == Pool([], Err(problem))
  {
    hide ReadEntry;
  }

  predicate IsTag(b: Byte) {
    b == 1 || 3 <= b <= 12 || 15 <= b <= 20
  }

  lemma RestStands(version: U4, count: nat, cs: seq<Info>, rest: Bytes)
    requires AllFit(cs) && count < 0x10000
    ensures var file := Longer(version, count, cs, rest);
            10 + |AllLayouts(cs)| <= |file| && file[10 + |AllLayouts(cs)|..] == rest
  {
    hide AllLayouts, Header;
  }

  lemma UnknownHere(bytes: Bytes, at: nat, rest: Bytes)
    requires at <= |bytes| && bytes[at..] == rest && rest != [] && !IsTag(rest[0])
    ensures ReadEntry(bytes, at) == Err(UnknownTag(rest[0]))
  {
    assert bytes[at] == bytes[at..][0];
  }

  /** A tag no JVM defines is refused by its number. */
  lemma UnknownTagIsRefused(rules: seq<Rule>, version: U4, count: nat, cs: seq<Info>, rest: Bytes)
    requires Advances(rules) && rules != [] && AllFit(cs) && NoneOutgrows(rules, cs)
    requires 1 + AllIndices(cs) < count < 0x10000 && rest != [] && !IsTag(rest[0])
    ensures Relocated(rules, Longer(version, count, cs, rest)) == Err(UnknownTag(rest[0]))
  {
    hide RewriteFrom, ReadPool, Layout, HasMagic, U16At, Header, MovedInfo, Fits, Advances, AsEntry, AllLayouts,
         ReadEntry;
    RestStands(version, count, cs, rest);
    UnknownHere(Longer(version, count, cs, rest), 10 + |AllLayouts(cs)|, rest);
    PoolGoesOn(version, count, cs, rest, UnknownTag(rest[0]));
    FirstTooLongIs(rules, cs);
  }

  lemma CutEntry(bytes: Bytes, at: nat, c: Info)
    requires Fits(c) && at <= |bytes| && bytes[at..] < Layout(c)
    ensures ReadEntry(bytes, at) == Err(Truncated)
  {
    hide OccursAt;
    var all := Layout(c);
    var n := |bytes| - at;
    assert bytes[at..] == all[..n];
    if n > 0 {
      assert bytes[at] == bytes[at..][0] == all[0];
      if c.Utf? && n >= 3 {
        assert bytes[at + 1] == bytes[at..][1] == all[1] && bytes[at + 2] == bytes[at..][2] == all[2];
        assert U16At(bytes, at + 1) == |c.bytes|;
      }
    }
  }

  /** A file that ends within a constant is refused as cut short. */
  lemma CutShortIsRefused(rules: seq<Rule>, version: U4, count: nat, cs: seq<Info>, c: Info, rest: Bytes)
    requires Advances(rules) && rules != [] && AllFit(cs) && NoneOutgrows(rules, cs) && Fits(c)
    requires 1 + AllIndices(cs) < count < 0x10000 && rest < Layout(c)
    ensures Relocated(rules, Longer(version, count, cs, rest)) == Err(Truncated)
  {
    hide RewriteFrom, ReadPool, Layout, HasMagic, U16At, Header, MovedInfo, Fits, Advances, AsEntry, AllLayouts,
         ReadEntry;
    RestStands(version, count, cs, rest);
    CutEntry(Longer(version, count, cs, rest), 10 + |AllLayouts(cs)|, c);
    PoolGoesOn(version, count, cs, rest, Truncated);
    FirstTooLongIs(rules, cs);
  }
}
