/** Class files. */
module ClassFiles {
  // Its constant pool (section 4.4 of the JVM Specification) is walked entry by entry, each
  // `CONSTANT_Utf8` rewritten, everything else copied through.

  import opened ByteStrings
  import opened Wrappers
  import opened Relocation
  import opened Rewriting

  datatype Problem = BadMagic | Truncated | UnknownTag(tag: Byte) | TooLong(text: Bytes)

  // ---- the pool as a list of entries ----------------------------------------------------------

  datatype Entry = Utf8(text: Bytes) | Other(tag: Byte, body: Bytes)

  const UTF8_TAG: Byte := 1
  const MAX_TEXT: nat := 65535

  /** How many bytes follow the tag of an entry that is not text; `None` for a tag no JVM defines. */
  function BodySize(tag: Byte): Option<nat> {
    match tag
    case 7 => Some(2) case 8 => Some(2) case 16 => Some(2) case 19 => Some(2) case 20 => Some(2)
    case 15 => Some(3)
    case 3 => Some(4) case 4 => Some(4) case 9 => Some(4) case 10 => Some(4)
    case 11 => Some(4) case 12 => Some(4) case 17 => Some(4) case 18 => Some(4)
    case 5 => Some(8) case 6 => Some(8)
    case _ => None
  }

  /** How many pool indices an entry with this tag uses up: the 64-bit numbers two, every other one. */
  function Slots(tag: Byte): nat {
    if tag == 5 || tag == 6 then 2 else 1
  }

  function TagOf(e: Entry): Byte {
    if e.Utf8? then UTF8_TAG else e.tag
  }

  predicate ValidEntry(e: Entry) {
    match e
    case Utf8(text) => |text| <= MAX_TEXT
    case Other(tag, body) => BodySize(tag) == Some(|body|)
  }

  function U16At(bytes: Bytes, at: nat): nat
    requires at + 2 <= |bytes|
  {
    bytes[at] as nat * 0x100 + bytes[at + 1] as nat
  }

  function BigEndian(n: nat): (b: Bytes)
    requires n <= MAX_TEXT
    ensures |b| == 2
  {
    [(n / 0x100) as Byte, (n % 0x100) as Byte]
  }

  function EntryBytes(e: Entry): (b: Bytes)
    requires ValidEntry(e)
    ensures |b| == if e.Utf8? then 3 + |e.text| else 1 + |e.body|
  {
    match e
    case Utf8(text) => [UTF8_TAG] + BigEndian(|text|) + text
    case Other(tag, body) => [tag] + body
  }

  /** `slots` pool slots hold exactly these entries; a wide last entry may overrun by one. */
  predicate Fills(entries: seq<Entry>, slots: int) {
    if entries == [] then slots <= 0
    else slots > 0 && ValidEntry(entries[0]) && Fills(entries[1..], slots - Slots(TagOf(entries[0])))
  }

  predicate AllValid(entries: seq<Entry>) {
    forall e <- entries :: ValidEntry(e)
  }

  function PoolBytes(entries: seq<Entry>): Bytes
    requires AllValid(entries)
  {
    if entries == [] then [] else EntryBytes(entries[0]) + PoolBytes(entries[1..])
  }

  /** Where reading stopped: past the pool, or at a problem. */
  datatype Pool = Pool(entries: seq<Entry>, end: Result<nat, Problem>)

  function ReadEntry(bytes: Bytes, at: nat): (r: Result<Entry, Problem>)
    ensures r.Ok? ==> ValidEntry(r.value) && OccursAt(bytes, at, EntryBytes(r.value))
  {
    if at >= |bytes| then Err(Truncated)
    else if bytes[at] == UTF8_TAG then
      if at + 3 > |bytes| then Err(Truncated)
      else
        var len := U16At(bytes, at + 1);
        if at + 3 + len > |bytes| then Err(Truncated)
        else
          var text := bytes[at + 3..at + 3 + len];
          assert bytes[at..at + 3 + len] == [UTF8_TAG] + BigEndian(len) + text;
          Ok(Utf8(text))
    else
      match BodySize(bytes[at])
      case None => Err(UnknownTag(bytes[at]))
      case Some(size) =>
        if at + 1 + size > |bytes| then Err(Truncated)
        else
          assert bytes[at..at + 1 + size] == [bytes[at]] + bytes[at + 1..at + 1 + size];
          Ok(Other(bytes[at], bytes[at + 1..at + 1 + size]))
  }

  /** The pool read from `bytes[at..]`, as far as it can be. */
  function ReadPool(bytes: Bytes, at: nat, slots: int): (p: Pool)
    decreases |bytes| - at
  {
    if slots <= 0 then Pool([], Ok(at))
    else
      match ReadEntry(bytes, at)
      case Err(e) => Pool([], Err(e))
      case Ok(e) =>
        var rest := ReadPool(bytes, at + |EntryBytes(e)|, slots - Slots(TagOf(e)));
        Pool([e] + rest.entries, rest.end)
  }

  // ---- what relocation makes of a class file --------------------------------------------------

  ghost function MoveEntry(rules: seq<Rule>, e: Entry): Entry
    requires Advances(rules)
  {
    match e
    case Utf8(text) => Utf8(Rewritten(rules, text, Constant))
    case Other(_, _) => e
  }

  ghost function MoveEntries(rules: seq<Rule>, entries: seq<Entry>): (moved: seq<Entry>)
    requires Advances(rules)
    ensures |moved| == |entries| && forall k :: 0 <= k < |moved| ==> moved[k] == MoveEntry(rules, entries[k])
  {
    seq(|entries|, k requires 0 <= k < |entries| => MoveEntry(rules, entries[k]))
  }

  /** The first text that would outgrow what an entry can hold. */
  ghost function FirstTooLong(rules: seq<Rule>, entries: seq<Entry>): Option<Bytes>
    requires Advances(rules)
  {
    if entries == [] then None
    else if entries[0].Utf8? && |Rewritten(rules, entries[0].text, Constant)| > MAX_TEXT then Some(entries[0].text)
    else FirstTooLong(rules, entries[1..])
  }

  const MAGIC: Bytes := [0xCA, 0xFE, 0xBA, 0xBE]

  predicate HasMagic(bytes: Bytes) {
    |bytes| >= 4 && bytes[..4] == MAGIC
  }

  /** A class file relocated: the header, the relocated pool written out again, the rest. */
  ghost function Relocated(rules: seq<Rule>, bytes: Bytes): (r: Result<Bytes, Problem>)
    requires Advances(rules)
  {
    if rules == [] then Ok(bytes)
    else if !HasMagic(bytes) then Err(BadMagic)
    else if |bytes| < 10 then Err(Truncated)
    else
      var pool := ReadPool(bytes, 10, U16At(bytes, 8) - 1);
      var long := FirstTooLong(rules, pool.entries);
      if long.Some? then Err(TooLong(long.value))
      else
        match pool.end
        case Err(e) => Err(e)
        case Ok(end) =>
          ReadPoolBytes(bytes, 10, U16At(bytes, 8) - 1);
          MovedValid(rules, pool.entries);
          Ok(bytes[..10] + PoolBytes(MoveEntries(rules, pool.entries)) + bytes[end..])
  }

  /** One entry read, and the rest of the pool after it. */
  lemma ReadPoolStep(bytes: Bytes, at: nat, slots: int) returns (e: Entry, next: nat, rest: Pool)
    requires slots > 0 && ReadEntry(bytes, at).Ok?
    ensures e == ReadEntry(bytes, at).value && at < next <= |bytes|
    ensures ValidEntry(e) && next == at + |EntryBytes(e)| && bytes[at..next] == EntryBytes(e)
    ensures rest == ReadPool(bytes, next, slots - Slots(TagOf(e)))
    ensures var p := ReadPool(bytes, at, slots);
            p.entries != [] && p.entries[0] == e && p.entries[1..] == rest.entries && p.end == rest.end
  {
    hide ReadEntry, EntryBytes, ValidEntry;
    e := ReadEntry(bytes, at).value;
    next := at + |EntryBytes(e)|;
    rest := ReadPool(bytes, next, slots - Slots(TagOf(e)));
    assert ReadPool(bytes, at, slots).entries == [e] + rest.entries;
  }

  lemma {:induction false} ReadPoolValid(bytes: Bytes, at: nat, slots: int)
    ensures AllValid(ReadPool(bytes, at, slots).entries)
    decreases |bytes| - at
  {
    hide ReadEntry, EntryBytes, ValidEntry;
    if slots > 0 && ReadEntry(bytes, at).Ok? {
      var e, next, rest := ReadPoolStep(bytes, at, slots);
      ReadPoolValid(bytes, next, slots - Slots(TagOf(e)));
      var entries := ReadPool(bytes, at, slots).entries;
      assert forall x <- entries :: x == e || x in rest.entries;
    }
  }

  /** The pool ends inside the file, and its entries take up the declared slots. */
  lemma {:induction false} ReadPoolFills(bytes: Bytes, at: nat, slots: int)
    requires at <= |bytes| && ReadPool(bytes, at, slots).end.Ok?
    ensures var p := ReadPool(bytes, at, slots); at <= p.end.value <= |bytes| && Fills(p.entries, slots)
    decreases |bytes| - at
  {
    hide ReadEntry, EntryBytes, ValidEntry;
    if slots > 0 {
      var e, next, rest := ReadPoolStep(bytes, at, slots);
      ReadPoolFills(bytes, next, slots - Slots(TagOf(e)));
    }
  }

  /** Reading and writing agree: what was read is what stands there. */
  lemma {:induction false} ReadPoolBytes(bytes: Bytes, at: nat, slots: int)
    requires at <= |bytes| && ReadPool(bytes, at, slots).end.Ok?
    ensures var p := ReadPool(bytes, at, slots);
            && AllValid(p.entries) && at <= p.end.value <= |bytes|
            && bytes[at..p.end.value] == PoolBytes(p.entries)
    decreases |bytes| - at
  {
    hide ReadEntry, EntryBytes, ValidEntry, Fills;
    ReadPoolValid(bytes, at, slots);
    ReadPoolFills(bytes, at, slots);
    if slots > 0 {
      var e, next, rest := ReadPoolStep(bytes, at, slots);
      ReadPoolBytes(bytes, next, slots - Slots(TagOf(e)));
      assert bytes[at..rest.end.value] == bytes[at..next] + bytes[next..rest.end.value];
    }
  }

  lemma {:induction false} MovedValid(rules: seq<Rule>, entries: seq<Entry>)
    requires Advances(rules) && AllValid(entries) && FirstTooLong(rules, entries) == None
    ensures AllValid(MoveEntries(rules, entries))
  {
    if entries == [] {
    } else {
      MovedValid(rules, entries[1..]);
      assert entries[0] in entries;
      assert ValidEntry(MoveEntry(rules, entries[0]));
      var moved := MoveEntries(rules, entries);
      assert moved == [MoveEntry(rules, entries[0])] + MoveEntries(rules, entries[1..]);
    }
  }

  // ---- the walk ---------------------------------------------------------------------------------

  /** How far a walk has got: `seen` entries read, none too long, `out` plus what is still to be
      copied standing for them. */
  ghost predicate Walked(rules: seq<Rule>, bytes: Bytes, seen: seq<Entry>, out: Bytes, copied: nat, at: nat)
    requires Advances(rules)
  {
    && |bytes| >= 10 && copied <= at <= |bytes|
    && AllValid(seen) && FirstTooLong(rules, seen) == None
    && AllValid(MoveEntries(rules, seen))
    && out + bytes[copied..at] == bytes[..10] + PoolBytes(MoveEntries(rules, seen))
  }

  lemma {:induction false} PoolBytesAppend(entries: seq<Entry>, e: Entry)
    requires AllValid(entries) && ValidEntry(e)
    ensures AllValid(entries + [e]) && PoolBytes(entries + [e]) == PoolBytes(entries) + EntryBytes(e)
  {
    hide EntryBytes, ValidEntry;
    if entries == [] {
      assert entries + [e] == [e];
      assert PoolBytes([e]) == EntryBytes(e) + PoolBytes([]);
      assert EntryBytes(e) + [] == EntryBytes(e);
    } else {
      PoolBytesAppend(entries[1..], e);
      assert (entries + [e])[1..] == entries[1..] + [e];
      Regroup(EntryBytes(entries[0]), PoolBytes(entries[1..]), EntryBytes(e));
    }
  }

  lemma {:induction false} FirstTooLongAppend(rules: seq<Rule>, xs: seq<Entry>, ys: seq<Entry>)
    requires Advances(rules)
    ensures FirstTooLong(rules, xs + ys)
            == if FirstTooLong(rules, xs) == None then FirstTooLong(rules, ys) else FirstTooLong(rules, xs)
  {
    hide RewriteFrom;
    if xs == [] {
      assert xs + ys == ys;
    } else {
      FirstTooLongAppend(rules, xs[1..], ys);
      assert (xs + ys)[1..] == xs[1..] + ys;
    }
  }

  /** One more entry whose bytes stay where they are. */
  lemma WalkedKeep(rules: seq<Rule>, bytes: Bytes, seen: seq<Entry>, out: Bytes, copied: nat, at: nat, e: Entry)
    requires Advances(rules) && Walked(rules, bytes, seen, out, copied, at)
    requires ValidEntry(e) && MoveEntry(rules, e) == e && OccursAt(bytes, at, EntryBytes(e))
    ensures Walked(rules, bytes, seen + [e], out, copied, at + |EntryBytes(e)|)
  {
    hide RewriteFrom, EntryBytes;
    var end := at + |EntryBytes(e)|;
    FirstTooLongAppend(rules, seen, [e]);
    assert FirstTooLong(rules, [e]) == None by { assert [e][1..] == []; }
    PoolBytesAppend(MoveEntries(rules, seen), e);
    assert MoveEntries(rules, seen + [e]) == MoveEntries(rules, seen) + [e];
    assert bytes[copied..end] == bytes[copied..at] + bytes[at..end];
    Regroup(out, bytes[copied..at], bytes[at..end]);
    Regroup(bytes[..10], PoolBytes(MoveEntries(rules, seen)), EntryBytes(e));
  }

  /** One more text, written out again. */
  lemma WalkedMove(rules: seq<Rule>, bytes: Bytes, seen: seq<Entry>, out: Bytes, copied: nat, at: nat, e: Entry)
    requires Advances(rules) && Walked(rules, bytes, seen, out, copied, at)
    requires ValidEntry(e) && e.Utf8? && OccursAt(bytes, at, EntryBytes(e))
    requires ValidEntry(MoveEntry(rules, e))
    ensures var end := at + |EntryBytes(e)|;
            Walked(rules, bytes, seen + [e], out + bytes[copied..at] + EntryBytes(MoveEntry(rules, e)), end, end)
  {
    hide RewriteFrom, EntryBytes;
    var end := at + |EntryBytes(e)|;
    var moved := MoveEntry(rules, e);
    FirstTooLongAppend(rules, seen, [e]);
    assert FirstTooLong(rules, [e]) == None by { assert [e][1..] == []; }
    PoolBytesAppend(MoveEntries(rules, seen), moved);
    assert MoveEntries(rules, seen + [e]) == MoveEntries(rules, seen) + [moved];
    Regroup(bytes[..10], PoolBytes(MoveEntries(rules, seen)), EntryBytes(moved));
    var out' := out + bytes[copied..at] + EntryBytes(moved);
    assert out' + bytes[end..end] == out';
  }

  /** What is left to read, after `seen`. */
  ghost predicate Remaining(bytes: Bytes, seen: seq<Entry>, at: nat, slots: int) {
    && |bytes| >= 10
    && ReadPool(bytes, 10, U16At(bytes, 8) - 1)
       == Pool(seen + ReadPool(bytes, at, slots).entries, ReadPool(bytes, at, slots).end)
  }

  lemma RemainingStep(bytes: Bytes, seen: seq<Entry>, at: nat, slots: int)
    requires Remaining(bytes, seen, at, slots) && slots > 0
    ensures match ReadEntry(bytes, at)
            case Ok(e) => Remaining(bytes, seen + [e], at + |EntryBytes(e)|, slots - Slots(TagOf(e)))
            case Err(p) => ReadPool(bytes, 10, U16At(bytes, 8) - 1) == Pool(seen, Err(p))
  {
    hide ReadEntry, EntryBytes;
    match ReadEntry(bytes, at)
    case Ok(e) =>
      var rest := ReadPool(bytes, at + |EntryBytes(e)|, slots - Slots(TagOf(e)));
      assert seen + ([e] + rest.entries) == (seen + [e]) + rest.entries;
    case Err(p) =>
      assert seen + [] == seen;
  }

  /** A file with nothing to walk. */
  lemma Refused(rules: seq<Rule>, bytes: Bytes)
    requires Advances(rules)
    ensures rules == [] ==> Relocated(rules, bytes) == Ok(bytes)
    ensures rules != [] && !HasMagic(bytes) ==> Relocated(rules, bytes) == Err(BadMagic)
    ensures rules != [] && HasMagic(bytes) && |bytes| < 10 ==> Relocated(rules, bytes) == Err(Truncated)
  {
  }

  lemma Started(rules: seq<Rule>, bytes: Bytes)
    requires Advances(rules) && |bytes| >= 10
    ensures Remaining(bytes, [], 10, U16At(bytes, 8) - 1) && Walked(rules, bytes, [], [], 0, 10)
  {
    hide ReadEntry, EntryBytes, RewriteFrom;
    assert [] + bytes[0..10] == bytes[..10] + PoolBytes([]);
    var pool := ReadPool(bytes, 10, U16At(bytes, 8) - 1);
    assert [] + pool.entries == pool.entries;
  }

  lemma ReadText(bytes: Bytes, at: nat)
    requires at < |bytes| && bytes[at] == UTF8_TAG
    ensures at + 3 > |bytes| || at + 3 + U16At(bytes, at + 1) > |bytes| ==> ReadEntry(bytes, at) == Err(Truncated)
    ensures at + 3 <= |bytes| && at + 3 + U16At(bytes, at + 1) <= |bytes| ==>
              ReadEntry(bytes, at) == Ok(Utf8(bytes[at + 3..at + 3 + U16At(bytes, at + 1)]))
  {
  }

  lemma ReadOther(bytes: Bytes, at: nat)
    requires at < |bytes| && bytes[at] != UTF8_TAG
    ensures match BodySize(bytes[at])
            case None => ReadEntry(bytes, at) == Err(UnknownTag(bytes[at]))
            case Some(size) =>
              && (at + 1 + size > |bytes| ==> ReadEntry(bytes, at) == Err(Truncated))
              && (at + 1 + size <= |bytes| ==>
                    ReadEntry(bytes, at) == Ok(Other(bytes[at], bytes[at + 1..at + 1 + size])))
  {
  }

  /** Walking past a text: cut short, left as it is, exchanged for its rewriting, or grown too long. */
  lemma PastText(rules: seq<Rule>, bytes: Bytes, seen: seq<Entry>, out: Bytes, copied: nat, at: nat, slots: int)
    requires Advances(rules) && rules != [] && HasMagic(bytes) && slots > 0
    requires at < |bytes| && bytes[at] == UTF8_TAG
    requires Remaining(bytes, seen, at, slots) && Walked(rules, bytes, seen, out, copied, at)
    ensures at + 3 > |bytes| || at + 3 + U16At(bytes, at + 1) > |bytes| ==> Relocated(rules, bytes) == Err(Truncated)
    ensures at + 3 <= |bytes| && at + 3 + U16At(bytes, at + 1) <= |bytes| ==>
              var end := at + 3 + U16At(bytes, at + 1);
              var text := bytes[at + 3..end];
              var now := Rewritten(rules, text, Constant);
              && copied <= at
              && Remaining(bytes, seen + [Utf8(text)], end, slots - 1)
              && (!Mentions(rules, text, Constant) ==> Walked(rules, bytes, seen + [Utf8(text)], out, copied, end))
              && (|now| <= MAX_TEXT ==>
                    Walked(rules, bytes, seen + [Utf8(text)], out + bytes[copied..at] + EntryBytes(Utf8(now)), end, end))
              && (|now| > MAX_TEXT ==> Relocated(rules, bytes) == Err(TooLong(text)))
  {
    hide RewriteFrom, EntryBytes, Walked, Remaining, Relocated, ReadPool, ReadEntry, BodySize, Mentions;
    ReadText(bytes, at);
    InOrder(rules, bytes, seen, out, copied, at);
    if at + 3 > |bytes| || at + 3 + U16At(bytes, at + 1) > |bytes| {
      Stopped(rules, bytes, seen, out, copied, at, slots);
    } else {
      var e := Utf8(bytes[at + 3..at + 3 + U16At(bytes, at + 1)]);
      RemainingStep(bytes, seen, at, slots);
      if |Rewritten(rules, e.text, Constant)| > MAX_TEXT {
        Outgrown(rules, bytes, seen, out, copied, at, slots, e);
      } else {
        WalkedMove(rules, bytes, seen, out, copied, at, e);
      }
      if !Mentions(rules, e.text, Constant) {
        RewriteIsLeftmostReplacement(rules, e.text, Constant);
        WalkedKeep(rules, bytes, seen, out, copied, at, e);
      }
    }
  }

  lemma InOrder(rules: seq<Rule>, bytes: Bytes, seen: seq<Entry>, out: Bytes, copied: nat, at: nat)
    requires Advances(rules) && Walked(rules, bytes, seen, out, copied, at)
    ensures copied <= at <= |bytes|
  {
    hide RewriteFrom, EntryBytes;
  }

  /** Walking past any other entry. */
  lemma PastOther(rules: seq<Rule>, bytes: Bytes, seen: seq<Entry>, out: Bytes, copied: nat, at: nat, slots: int)
    requires Advances(rules) && rules != [] && HasMagic(bytes) && slots > 0
    requires at < |bytes| && bytes[at] != UTF8_TAG
    requires Remaining(bytes, seen, at, slots) && Walked(rules, bytes, seen, out, copied, at)
    ensures match BodySize(bytes[at])
            case None => Relocated(rules, bytes) == Err(UnknownTag(bytes[at]))
            case Some(size) =>
              if at + 1 + size > |bytes| then Relocated(rules, bytes) == Err(Truncated)
              else
                var e := Other(bytes[at], bytes[at + 1..at + 1 + size]);
                && Remaining(bytes, seen + [e], at + 1 + size, slots - Slots(bytes[at]))
                && Walked(rules, bytes, seen + [e], out, copied, at + 1 + size)
  {
    hide RewriteFrom, EntryBytes, Walked, Remaining, Relocated, ReadPool, ReadEntry, BodySize, Slots;
    ReadOther(bytes, at);
    var body := BodySize(bytes[at]);
    if body.None? || at + 1 + body.value > |bytes| {
      Stopped(rules, bytes, seen, out, copied, at, slots);
    } else {
      var e := Other(bytes[at], bytes[at + 1..at + 1 + body.value]);
      RemainingStep(bytes, seen, at, slots);
      WalkedKeep(rules, bytes, seen, out, copied, at, e);
    }
  }

  /** One walk over the pool, from entry to entry by the sizes their tags give. What is put out is all up to
      `copied`, texts exchanged; nothing, as long as no text had to be. */
  method ClassFile(rules: seq<Rule>, bytes: Bytes) returns (r: Result<Bytes, Problem>)
    requires Advances(rules)
    ensures r == Relocated(rules, bytes)
  {
    hide RewriteFrom, EntryBytes, Walked, Remaining, Relocated, ReadPool, ReadEntry, BodySize, U16At, Mentions, Advances;
    Refused(rules, bytes);
    if rules == [] {
      return Ok(bytes);
    }
    if |bytes| < 4 || bytes[..4] != MAGIC {
      return Err(BadMagic);
    }
    if |bytes| < 10 {
      return Err(Truncated);
    }
    Started(rules, bytes);
    var count := U16At(bytes, 8);
    var replaced := false;
    var out: Bytes := [];
    var copied: nat, at: nat, index: nat := 0, 10, 1;
    ghost var seen: seq<Entry> := [];
    while index < count
      invariant if at > |bytes| then Relocated(rules, bytes) == Err(Truncated)
                else
                  && copied <= at
                  && Remaining(bytes, seen, at, count - index)
                  && Walked(rules, bytes, seen, out, copied, at)
                  && (!replaced ==> out == [] && copied == 0)
      decreases count - index
    {
      if at >= |bytes| {
        EndOfFile(bytes, at);
        Stopped(rules, bytes, seen, out, copied, at, count - index);
        return Err(Truncated);
      }
      var tag := bytes[at];
      var size: nat;
      if tag == UTF8_TAG {
        PastText(rules, bytes, seen, out, copied, at, count - index);
        if at + 3 > |bytes| || at + 3 + U16At(bytes, at + 1) > |bytes| {
          return Err(Truncated);
        }
        size := 3 + U16At(bytes, at + 1);
        var text := bytes[at + 3..at + size];
        var relocated := Rewrite(rules, text, Constant);
        if relocated.Some? {
          if |relocated.value| > MAX_TEXT {
            return Err(TooLong(text));
          }
          out := out + bytes[copied..at] + EntryBytes(Utf8(relocated.value));
          replaced := true;
          copied := at + size;
        }
        seen := seen + [Utf8(text)];
      } else {
        PastOther(rules, bytes, seen, out, copied, at, count - index);
        var body := BodySize(tag);
        if body.None? {
          return Err(UnknownTag(tag));
        }
        size := 1 + body.value;
        if at + size <= |bytes| {
          seen := seen + [Other(tag, bytes[at + 1..at + size])];
        }
        if tag == 5 || tag == 6 {
          index := index + 1;
        }
      }
      at := at + size;
      index := index + 1;
    }
    if at > |bytes| {
      return Err(Truncated);
    }
    Finished(rules, bytes, seen, out, copied, at, count - index);
    r := if replaced then Ok(out + bytes[copied..]) else Ok(bytes);
  }

  lemma EndOfFile(bytes: Bytes, at: nat)
    requires at >= |bytes|
    ensures ReadEntry(bytes, at) == Err(Truncated)
  {
  }

  /** The walk and the specification fail alike at the first entry that does not parse. */
  lemma Stopped(rules: seq<Rule>, bytes: Bytes, seen: seq<Entry>, out: Bytes, copied: nat, at: nat, slots: int)
    requires Advances(rules) && rules != [] && HasMagic(bytes)
    requires at <= |bytes| ==>
               && slots > 0 && Remaining(bytes, seen, at, slots)
               && Walked(rules, bytes, seen, out, copied, at) && ReadEntry(bytes, at).Err?
    requires at > |bytes| ==> Relocated(rules, bytes) == Err(Truncated)
    ensures at <= |bytes| ==> Relocated(rules, bytes) == Err(ReadEntry(bytes, at).error)
  {
    if at <= |bytes| {
      RemainingStep(bytes, seen, at, slots);
      Failed(rules, bytes, seen, out, copied, at, ReadEntry(bytes, at).error);
    }
  }

  lemma Failed(rules: seq<Rule>, bytes: Bytes, seen: seq<Entry>, out: Bytes, copied: nat, at: nat, p: Problem)
    requires Advances(rules) && Walked(rules, bytes, seen, out, copied, at) && rules != []
    requires HasMagic(bytes) && |bytes| >= 10 && ReadPool(bytes, 10, U16At(bytes, 8) - 1) == Pool(seen, Err(p))
    ensures Relocated(rules, bytes) == Err(p)
  {
    hide RewriteFrom, ReadPool;
  }

  lemma Outgrown(rules: seq<Rule>, bytes: Bytes, seen: seq<Entry>, out: Bytes, copied: nat, at: nat, slots: int, e: Entry)
    requires Advances(rules) && Walked(rules, bytes, seen, out, copied, at) && rules != []
    requires HasMagic(bytes) && Remaining(bytes, seen, at, slots) && slots > 0 && ReadEntry(bytes, at) == Ok(e)
    requires e.Utf8? && |Rewritten(rules, e.text, Constant)| > MAX_TEXT
    ensures Relocated(rules, bytes) == Err(TooLong(e.text))
  {
    hide RewriteFrom, ReadEntry, EntryBytes;
    var rest := ReadPool(bytes, at, slots).entries;
    assert rest[0] == e;
    FirstTooLongAppend(rules, seen, rest);
  }

  lemma Finished(rules: seq<Rule>, bytes: Bytes, seen: seq<Entry>, out: Bytes, copied: nat, at: nat, slots: int)
    requires Advances(rules) && Walked(rules, bytes, seen, out, copied, at) && rules != []
    requires HasMagic(bytes) && Remaining(bytes, seen, at, slots) && slots <= 0
    ensures Relocated(rules, bytes) == Ok(out + bytes[copied..])
    ensures copied == 0 && out == [] ==> out + bytes[copied..] == bytes
  {
    hide RewriteFrom, ReadEntry, EntryBytes;
    assert seen + [] == seen;
    assert bytes[copied..] == bytes[copied..at] + bytes[at..];
    Regroup(out, bytes[copied..at], bytes[at..]);
  }

  // ---- what the relocated file is ---------------------------------------------------------------

  lemma U16Back(bytes: Bytes, at: nat, n: nat)
    requires at + 2 <= |bytes| && n <= MAX_TEXT && bytes[at] == BigEndian(n)[0] && bytes[at + 1] == BigEndian(n)[1]
    ensures U16At(bytes, at) == n
  {
  }

  lemma ReadTextBack(bytes: Bytes, at: nat, text: Bytes)
    requires |text| <= MAX_TEXT && OccursAt(bytes, at, [UTF8_TAG] + BigEndian(|text|) + text)
    ensures ReadEntry(bytes, at) == Ok(Utf8(text))
  {
    hide ReadEntry, U16At, BigEndian, OccursAt;
    var size := BigEndian(|text|);
    var head := [UTF8_TAG] + size;
    OccursSplit(bytes, at, head, text);
    OccursSlice(bytes, at, head);
    OccursElements(bytes, at, head);
    assert head[1] == size[0] && head[2] == size[1];
    assert bytes[at + 0] == head[0] && bytes[at + 1] == head[1] && bytes[at + 2] == head[2];
    U16Back(bytes, at + 1, |text|);
    OccursSlice(bytes, at + 3, text);
    ReadText(bytes, at);
  }

  lemma OccursSlice(text: Bytes, i: nat, p: Bytes)
    requires OccursAt(text, i, p)
    ensures i + |p| <= |text| && text[i..i + |p|] == p
  {
  }

  lemma ReadOtherBack(bytes: Bytes, at: nat, tag: Byte, body: Bytes)
    requires ValidEntry(Other(tag, body)) && OccursAt(bytes, at, [tag] + body)
    ensures ReadEntry(bytes, at) == Ok(Other(tag, body))
  {
    hide ReadEntry, OccursAt;
    OccursSplit(bytes, at, [tag], body);
    OccursSlice(bytes, at, [tag]);
    OccursElements(bytes, at, [tag]);
    assert bytes[at + 0] == [tag][0];
    OccursSlice(bytes, at + 1, body);
    ReadOther(bytes, at);
  }

  lemma ReadEntryBack(bytes: Bytes, at: nat, e: Entry)
    requires ValidEntry(e) && OccursAt(bytes, at, EntryBytes(e))
    ensures ReadEntry(bytes, at) == Ok(e)
  {
    hide ReadEntry, BigEndian, OccursAt;
    match e
    case Utf8(text) => ReadTextBack(bytes, at, text);
    case Other(tag, body) => ReadOtherBack(bytes, at, tag, body);
  }

  lemma NoSlotsLeft(bytes: Bytes, at: nat, slots: int)
    requires slots <= 0
    ensures ReadPool(bytes, at, slots) == Pool([], Ok(at))
  {
  }

  lemma ValidTail(entries: seq<Entry>)
    requires AllValid(entries) && entries != []
    ensures ValidEntry(entries[0]) && AllValid(entries[1..])
  {
    hide ValidEntry;
    assert entries[0] in entries && forall e <- entries[1..] :: e in entries;
  }

  lemma ReadPoolUnfolds(bytes: Bytes, at: nat, slots: int, e: Entry)
    requires slots > 0 && ReadEntry(bytes, at) == Ok(e)
    ensures var rest := ReadPool(bytes, at + |EntryBytes(e)|, slots - Slots(TagOf(e)));
            ReadPool(bytes, at, slots) == Pool([e] + rest.entries, rest.end)
  {
    hide EntryBytes, ReadEntry, Slots, TagOf;
  }

  lemma {:induction false} ReadPoolBack(bytes: Bytes, at: nat, entries: seq<Entry>, slots: int)
    requires AllValid(entries) && Fills(entries, slots) && OccursAt(bytes, at, PoolBytes(entries))
    ensures ReadPool(bytes, at, slots) == Pool(entries, Ok(at + |PoolBytes(entries)|))
    decreases |entries|
  {
    hide EntryBytes, ReadEntry, ValidEntry, Slots, TagOf, OccursAt, ReadPool, AllValid;
    if entries == [] {
      NoSlotsLeft(bytes, at, slots);
    } else {
      var e := entries[0];
      ValidTail(entries);
      OccursSplit(bytes, at, EntryBytes(e), PoolBytes(entries[1..]));
      ReadEntryBack(bytes, at, e);
      ReadPoolUnfolds(bytes, at, slots, e);
      assert [e] + entries[1..] == entries;
      ReadPoolBack(bytes, at + |EntryBytes(e)|, entries[1..], slots - Slots(TagOf(e)));
    }
  }

  lemma {:induction false} MovedFills(rules: seq<Rule>, entries: seq<Entry>, slots: int)
    requires Advances(rules) && Fills(entries, slots) && AllValid(MoveEntries(rules, entries))
    ensures Fills(MoveEntries(rules, entries), slots)
    decreases |entries|
  {
    if entries == [] {
    } else {
      var moved := MoveEntries(rules, entries);
      assert moved[0] == MoveEntry(rules, entries[0]) && moved[0] in moved;
      assert moved[1..] == MoveEntries(rules, entries[1..]);
      MovedFills(rules, entries[1..], slots - Slots(TagOf(entries[0])));
    }
  }

  /** `now` is `was` with every text rewritten: as many entries, the same tag at every index. */
  ghost predicate SamePoolRewritten(rules: seq<Rule>, was: seq<Entry>, now: seq<Entry>)
    requires Advances(rules)
  {
    && |now| == |was|
    && forall k :: 0 <= k < |was| ==>
         && TagOf(now[k]) == TagOf(was[k])
         && (was[k].Other? ==> now[k] == was[k])
         && (was[k].Utf8? ==> now[k] == Utf8(Rewritten(rules, was[k].text, Constant)))
  }

  /** A relocated class file reads back as the same pool with its texts rewritten; its header and
      all that follows the pool are as they were. */
  lemma RelocatedFileReadsBack(rules: seq<Rule>, bytes: Bytes) returns (was: Pool, now: Pool)
    requires Advances(rules) && rules != [] && Relocated(rules, bytes).Ok?
    ensures var out := Relocated(rules, bytes).value;
            && |bytes| >= 10 && |out| >= 10 && out[..10] == bytes[..10]
            && was == ReadPool(bytes, 10, U16At(bytes, 8) - 1) && was.end.Ok? && was.end.value <= |bytes|
            && now == ReadPool(out, 10, U16At(out, 8) - 1) && now.end.Ok? && now.end.value <= |out|
            && out[now.end.value..] == bytes[was.end.value..]
            && SamePoolRewritten(rules, was.entries, now.entries)
  {
    hide RewriteFrom, EntryBytes, ReadEntry, ReadPool;
    var slots := U16At(bytes, 8) - 1;
    was := ReadPool(bytes, 10, slots);
    var moved := MoveEntries(rules, was.entries);
    ReadPoolBytes(bytes, 10, slots);
    ReadPoolFills(bytes, 10, slots);
    MovedValid(rules, was.entries);
    MovedFills(rules, was.entries, slots);
    var written := PoolBytes(moved);
    var tail := bytes[was.end.value..];
    var out := bytes[..10] + written + tail;
    assert out[..10] == bytes[..10];
    assert out[8] == bytes[8] && out[9] == bytes[9];
    assert out[10..10 + |written|] == written;
    assert out[10 + |written|..] == tail;
    ReadPoolBack(out, 10, moved, slots);
    now := ReadPool(out, 10, slots);
  }

  /** A readable file in which no text mentions a relocated name comes back unchanged. */
  lemma UnmentionedFileIsUnchanged(rules: seq<Rule>, bytes: Bytes)
    requires Advances(rules) && HasMagic(bytes) && |bytes| >= 10
    requires ReadPool(bytes, 10, U16At(bytes, 8) - 1).end.Ok?
    requires forall e <- ReadPool(bytes, 10, U16At(bytes, 8) - 1).entries ::
               e.Utf8? ==> !Mentions(rules, e.text, Constant)
    ensures Relocated(rules, bytes) == Ok(bytes)
  {
    hide RewriteFrom, ReadPool, PoolBytes, ReadEntry, Mentions, MoveEntries, U16At, HasMagic;
    var slots := U16At(bytes, 8) - 1;
    var pool := ReadPool(bytes, 10, slots);
    ReadPoolBytes(bytes, 10, slots);
    Unmentioned(rules, pool.entries);
    ThreeParts(bytes, 10, pool.end.value);
  }

  lemma ThreeParts(bytes: Bytes, i: nat, j: nat)
    requires i <= j <= |bytes|
    ensures bytes[..i] + bytes[i..j] + bytes[j..] == bytes
  {
  }

  lemma {:induction false} Unmentioned(rules: seq<Rule>, entries: seq<Entry>)
    requires Advances(rules) && AllValid(entries)
    requires forall e <- entries :: e.Utf8? ==> !Mentions(rules, e.text, Constant)
    ensures FirstTooLong(rules, entries) == None && MoveEntries(rules, entries) == entries
  {
    hide RewriteFrom;
    if entries == [] {
    } else {
      assert entries[0] in entries;
      if entries[0].Utf8? {
        RewriteIsLeftmostReplacement(rules, entries[0].text, Constant);
      }
      Unmentioned(rules, entries[1..]);
      assert MoveEntries(rules, entries) == [MoveEntry(rules, entries[0])] + MoveEntries(rules, entries[1..]);
    }
  }
}
