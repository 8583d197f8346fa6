/**
 A printed value read back, part by part: its tokens, the space between them, its items and members, with
 the reader's depth carried along.
 */
module JsonReading {
  import opened ByteStrings
  import opened Json
  import opened JsonReader
  import opened JsonStrings
  import opened Numerals
  import opened Utf8
  import opened Wrappers

  /** Nothing that could belong to a number follows. */
  predicate StopsNumber(rest: Bytes) {
    rest == [] || !IsNumberByte(rest[0])
  }

  predicate StopsSpace(rest: Bytes) {
    rest == [] || !IsSpace(rest[0])
  }

  /** What the reader must answer for a value opened at `depth`: the value, or that it nests too deeply. */
  ghost predicate Answers<T>(r: Read<T>, v: T, end: nat, deepest: nat) {
    if deepest <= MAX_DEPTH then r == Ok((v, end)) else r.Err? && r.error.what == TooDeep
  }

  // ---- tokens -----------------------------------------------------------------------------------

  lemma {:induction false} SpaceOver(b: Bytes, at: nat, blank: Bytes, rest: Bytes)
    requires at <= |b| && b[at..] == blank + rest && (forall x <- blank :: IsSpace(x)) && StopsSpace(rest)
    ensures Space(b, at) == at + |blank| <= |b| && b[at + |blank|..] == rest
    decreases |blank|
  {
    hide IsSpace;
    if blank == [] {
      assert b[at..] == rest;
      assert at < |b| ==> b[at] == rest[0];
    } else {
      assert blank[0] in blank && forall x <- blank[1..] :: x in blank;
      assert blank + rest == [blank[0]] + (blank[1..] + rest);
      TakeOne(b, at, blank[0], blank[1..] + rest);
      SpaceOver(b, at + 1, blank[1..], rest);
    }
  }

  lemma {:induction false} NumberOver(b: Bytes, at: nat, digits: Bytes, rest: Bytes)
    requires at <= |b| && b[at..] == digits + rest && (forall x <- digits :: IsNumberByte(x)) && StopsNumber(rest)
    ensures NumberEnd(b, at) == at + |digits| <= |b|
    decreases |digits|
  {
    hide IsNumberByte;
    if digits == [] {
      assert b[at..] == rest;
      assert at < |b| ==> b[at] == rest[0];
    } else {
      assert digits[0] in digits && forall x <- digits[1..] :: x in digits;
      assert digits + rest == [digits[0]] + (digits[1..] + rest);
      TakeOne(b, at, digits[0], digits[1..] + rest);
      NumberOver(b, at + 1, digits[1..], rest);
    }
  }

  lemma {:induction false} IndentationIsSpaces(d: nat)
    ensures forall c <- Indentation(d) :: c == ' '
  {
    if d > 0 {
      IndentationIsSpaces(d - 1);
    }
  }

  /** A line break and its indentation are space. */
  lemma BreakIsSpace(d: nat)
    ensures forall x <- Encode("\n" + Indentation(d)) :: IsSpace(x)
  {
    var s := "\n" + Indentation(d);
    IndentationIsSpaces(d);
    assert forall c <- s :: c == '\n' || c == ' ';
    AsciiEncodes(s);
    forall x | x in Encode(s)
      ensures IsSpace(x)
    {
      var k :| 0 <= k < |s| && Encode(s)[k] == x;
      assert s[k] in s;
    }
  }

  lemma IntTextIsAscii(n: int)
    ensures IntText(n) != []
    ensures forall c <- IntText(n) :: c == '-' || '0' <= c <= '9'
  {
  }

  lemma EncodedIntIsNumber(n: int)
    ensures |Encode(IntText(n))| == |IntText(n)| > 0 && Chars(Encode(IntText(n))) == IntText(n)
    ensures forall x <- Encode(IntText(n)) :: IsNumberByte(x)
    ensures Encode(IntText(n))[0] == '-' as Byte || IsDigit(Encode(IntText(n))[0])
  {
    hide IntText;
    var s := IntText(n);
    var e := Encode(s);
    IntTextIsAscii(n);
    AsciiEncodes(s);
    forall k | 0 <= k < |s|
      ensures e[k] == '-' as Byte || IsDigit(e[k])
    {
      assert s[k] in s;
    }
  }

  lemma IntRead(b: Bytes, at: nat, n: int, depth: nat, rest: Bytes)
    requires MIN_I64 <= n <= MAX_I64 && at <= |b| && b[at..] == Encode(IntText(n)) + rest && StopsNumber(rest)
    ensures |rest| < |b| && ValueAt(b, at, depth) == Ok((Int(n), |b| - |rest|))
  {
    hide Encode, IntText, ParseI64, StopsNumber, StringAt, ObjectAt, ArrayAt, IsNumberByte, NumberEnd;
    var e := Encode(IntText(n));
    EncodedIntIsNumber(n);
    TakeAll(b, at, e, rest);
    assert b[at] == b[at..at + |e|][0];
    SpaceStops(b, at);
    NumberOver(b, at, e, rest);
    IntBack(n);
    assert |b[at + |e|..]| == |b| - at - |e|;
  }

  lemma SpaceStops(b: Bytes, at: nat)
    requires at < |b| && !IsSpace(b[at])
    ensures Space(b, at) == at
  {
  }

  lemma WordRead(b: Bytes, at: nat, word: string, depth: nat, rest: Bytes)
    requires word == "true" || word == "false" || word == "null"
    requires at <= |b| && b[at..] == Encode(word) + rest
    ensures |rest| < |b|
    ensures ValueAt(b, at, depth)
            == Ok((if word == "true" then Bool(true) else if word == "false" then Bool(false) else Null, |b| - |rest|))
  {
    hide Encode, StringAt, ObjectAt, ArrayAt;
    AsciiEncodes(word);
    assert Encode(word) == Ascii(word);
    TakeAll(b, at, Ascii(word), rest);
    assert |b[at + |word|..]| == |b| - at - |word|;
    assert b[at] == b[at..at + |word|][0];
    SpaceStops(b, at);
  }

  lemma StringRead(b: Bytes, at: nat, s: string, depth: nat, rest: Bytes)
    requires at <= |b| && b[at..] == Encode(Escape(s)) + rest
    ensures |rest| < |b| && ValueAt(b, at, depth) == Ok((Str(s), |b| - |rest|))
  {
    hide Encode, Escape, StringAt, ObjectAt, ArrayAt;
    WrittenStringReadsBack(b, at, s, rest);
    SpaceStops(b, at);
  }

  // ---- how values start -------------------------------------------------------------------------

  lemma StartsAscii(c: char, s: string)
    requires c as int < 0x80
    ensures Encode([c] + s) == [c as Byte] + Encode(s)
  {
    hide Encode;
    EncodeOne(c);
    EncodeConcat([c], s);
  }

  /** A printed value starts with something that is not space. */
  lemma PrintedStarts(v: Value, d: nat)
    ensures Encode(Print(v, d)) != [] && !IsSpace(Encode(Print(v, d))[0])
  {
    hide Encode, PrintItems, PrintPairs, IntText, EscapeChars;
    var s := Print(v, d);
    match v
    case Int(n) => EncodedIntIsNumber(n);
    case _ => StartsAscii(s[0], s[1..]);
      assert s == [s[0]] + s[1..];
  }

  /** Space before a value changes nothing. */
  lemma SpaceBeforeValue(b: Bytes, at: nat, depth: nat)
    requires at <= |b|
    ensures ValueAt(b, at, depth) == ValueAt(b, Space(b, at), depth)
  {
    hide StringAt, ObjectAt, ArrayAt, Word, NumberValue;
    var i := Space(b, at);
    if i < |b| {
      SpaceStops(b, i);
    }
  }

  /** A value after a line break. */
  lemma BrokenLine(b: Bytes, at: nat, v: Value, d: nat, rest: Bytes) returns (i: nat)
    requires at <= |b| && b[at..] == Encode("\n" + Indentation(d)) + (Encode(Print(v, d)) + rest)
    ensures i == Space(b, at) && b[i..] == Encode(Print(v, d)) + rest
    ensures i < |b|
  {
    hide Encode, Print, Indentation, Space, IsSpace;
    BreakIsSpace(d);
    PrintedStarts(v, d);
    var value := Encode(Print(v, d));
    assert (value + rest)[0] == value[0];
    SpaceOver(b, at, Encode("\n" + Indentation(d)), value + rest);
    i := Space(b, at);
    assert |b[i..]| > 0;
  }

  // ---- the text of arrays and objects -----------------------------------------------------------

  function ClosingText(d: nat, close: char): string {
    "\n" + (Indentation(d) + [close])
  }

  lemma ClosingBytes(d: nat, close: char)
    requires close as int < 0x80
    ensures Encode(ClosingText(d, close)) == Encode("\n" + Indentation(d)) + [close as Byte]
  {
    hide Encode, Indentation;
    assert "\n" + (Indentation(d) + [close]) == ("\n" + Indentation(d)) + [close];
    EncodeConcat("\n" + Indentation(d), [close]);
    EncodeOne(close);
  }

  /** The items' text from one item on: that item, then the rest of them. */
  lemma ItemsText(items: seq<Value>, d: nat)
    requires items != []
    ensures Encode(PrintItems(items, d, "\n"))
            == Encode("\n" + Indentation(d)) + (Encode(Print(items[0], d)) + Encode(PrintItems(items[1..], d, ",\n")))
  {
    hide Encode, Indentation, Print;
    var a, p, more := Indentation(d), Print(items[0], d), PrintItems(items[1..], d, ",\n");
    assert "\n" + (a + (p + more)) == ("\n" + a) + (p + more);
    EncodeConcat("\n" + a, p + more);
    EncodeConcat(p, more);
  }

  lemma CommaBeforeItems(items: seq<Value>, d: nat)
    requires items != []
    ensures Encode(PrintItems(items, d, ",\n")) == [COMMA] + Encode(PrintItems(items, d, "\n"))
  {
    hide Encode, Indentation, Print;
    var body := Indentation(d) + (Print(items[0], d) + PrintItems(items[1..], d, ",\n"));
    assert ",\n" + body == [','] + ("\n" + body);
    StartsAscii(',', "\n" + body);
  }

  function MemberText(m: Member, d: nat): string {
    Escape(m.key) + (": " + Print(m.value, d))
  }

  lemma PairsText(pairs: seq<Member>, d: nat)
    requires pairs != []
    ensures Encode(PrintPairs(pairs, d, "\n"))
            == Encode("\n" + Indentation(d)) + (Encode(MemberText(pairs[0], d)) + Encode(PrintPairs(pairs[1..], d, ",\n")))
  {
    hide Encode, Indentation, Print, Escape;
    var a, k, p, more := Indentation(d), Escape(pairs[0].key), Print(pairs[0].value, d), PrintPairs(pairs[1..], d, ",\n");
    assert k + (": " + (p + more)) == (k + (": " + p)) + more;
    assert "\n" + (a + (k + (": " + (p + more)))) == ("\n" + a) + (k + (": " + (p + more)));
    EncodeConcat("\n" + a, (k + (": " + p)) + more);
    EncodeConcat(k + (": " + p), more);
  }

  lemma CommaBeforePairs(pairs: seq<Member>, d: nat)
    requires pairs != []
    ensures Encode(PrintPairs(pairs, d, ",\n")) == [COMMA] + Encode(PrintPairs(pairs, d, "\n"))
  {
    hide Encode, Indentation, Print, Escape;
    var body := Indentation(d) + (Escape(pairs[0].key)
                + (": " + (Print(pairs[0].value, d) + PrintPairs(pairs[1..], d, ",\n"))));
    assert ",\n" + body == [','] + ("\n" + body);
    StartsAscii(',', "\n" + body);
  }

  // ---- what follows an item ---------------------------------------------------------------------

  /** After an item or a member: a comma before more of them, or the line of the closing bracket. */
  lemma AfterOne(b: Bytes, at: nat, more: Bytes, d: nat, close: char, rest: Bytes)
    requires close == ']' || close == '}'
    requires at <= |b| && b[at..] == more + (Encode(ClosingText(d, close)) + rest)
    requires more == [] || more[0] == COMMA
    ensures StopsNumber(more + (Encode(ClosingText(d, close)) + rest))
    ensures more != [] ==> Space(b, at) == at && Here(b, at, COMMA) && b[at + 1..] == more[1..] + (Encode(ClosingText(d, close)) + rest)
    ensures more == [] ==> Here(b, Space(b, at), close as Byte) && Space(b, at) + 1 == |b| - |rest|
  {
    hide Encode, Indentation, Space, ClosingText, IsSpace;
    var tail := Encode(ClosingText(d, close)) + rest;
    if more != [] {
      assert more + tail == [COMMA] + (more[1..] + tail);
      TakeOne(b, at, COMMA, more[1..] + tail);
      NoSpaces();
      SpaceStops(b, at);
    } else {
      ClosingBytes(d, close);
      BreakIsSpace(d);
      var blank := Encode("\n" + Indentation(d));
      StartsAscii('\n', Indentation(d));
      assert b[at..] == blank + ([close as Byte] + rest);
      assert tail[0] == '\n' as Byte;
      NoSpaces();
      SpaceOver(b, at, blank, [close as Byte] + rest);
      TakeOne(b, Space(b, at), close as Byte, rest);
      assert |b[Space(b, at) + 1..]| == |rest|;
    }
  }

  lemma NoSpaces()
    ensures !IsSpace(COMMA) && !IsSpace(CLOSE_BRACKET) && !IsSpace(CLOSE_BRACE) && !IsSpace(QUOTE) && !IsSpace(COLON)
    ensures !IsSpace(OPEN_BRACKET) && !IsSpace(OPEN_BRACE)
  {
  }

  // ---- values read back -------------------------------------------------------------------------

  lemma {:induction false} ValueBack(b: Bytes, at: nat, v: Value, d: nat, depth: nat, rest: Bytes)
    requires InRange(v) && depth <= MAX_DEPTH && StopsNumber(rest)
    requires at <= |b| && b[at..] == Encode(Print(v, d)) + rest
    ensures |rest| <= |b| && Answers(ValueAt(b, at, depth), v, |b| - |rest|, depth + Height(v))
    decreases v, 1
  {
    hide Encode, ValueAt, IntText, Escape, PrintItems, PrintPairs, StopsNumber, Indentation, Space;
    match v
    case Null => WordRead(b, at, "null", depth, rest);
    case Bool(x) => WordRead(b, at, if x then "true" else "false", depth, rest);
    case Int(n) => IntRead(b, at, n, depth, rest);
    case Str(s) => StringRead(b, at, s, depth, rest);
    case Arr(items) =>
      if items == [] {
        EmptyRead(b, at, '[', ']', depth, rest);
      } else {
        ArrayBack(b, at, items, d, depth, rest);
      }
    case Obj(pairs) =>
      if pairs == [] {
        EmptyRead(b, at, '{', '}', depth, rest);
      } else {
        ObjectBack(b, at, pairs, d, depth, rest);
      }
  }

  lemma {:induction false} ArrayBack(b: Bytes, at: nat, items: seq<Value>, d: nat, depth: nat, rest: Bytes)
    requires items != [] && InRange(Arr(items)) && depth <= MAX_DEPTH
    requires at <= |b| && b[at..] == Encode(Print(Arr(items), d)) + rest
    ensures |rest| <= |b| && Answers(ValueAt(b, at, depth), Arr(items), |b| - |rest|, depth + Height(Arr(items)))
    decreases items, 1
  {
    hide Encode, ValueAt, ItemsAt, Print, PrintItems, ItemsHeight, ClosingText;
    ArrayOpens(b, at, items, d, depth, rest);
    if depth < MAX_DEPTH {
      ItemsBack(b, at + 1, items, d + 1, depth + 1, rest);
    }
  }

  lemma {:induction false} ObjectBack(b: Bytes, at: nat, pairs: seq<Member>, d: nat, depth: nat, rest: Bytes)
    requires pairs != [] && InRange(Obj(pairs)) && depth <= MAX_DEPTH
    requires at <= |b| && b[at..] == Encode(Print(Obj(pairs), d)) + rest
    ensures |rest| <= |b| && Answers(ValueAt(b, at, depth), Obj(pairs), |b| - |rest|, depth + Height(Obj(pairs)))
    decreases pairs, 1
  {
    hide Encode, ValueAt, MembersAt, Print, PrintPairs, PairsHeight, ClosingText;
    ObjectOpens(b, at, pairs, d, depth, rest);
    if depth < MAX_DEPTH {
      PairsBack(b, at + 1, pairs, d + 1, depth + 1, rest);
    }
  }

  /** `[]` and `{}`. */
  lemma EmptyRead(b: Bytes, at: nat, open: char, close: char, depth: nat, rest: Bytes)
    requires (open == '[' && close == ']') || (open == '{' && close == '}')
    requires depth <= MAX_DEPTH && at <= |b| && b[at..] == Encode([open, close]) + rest
    ensures |rest| <= |b|
    ensures Answers(ValueAt(b, at, depth), if open == '[' then Arr([]) else Obj([]), |b| - |rest|, depth + 1)
  {
    hide Encode, StringAt, ItemsAt, MembersAt, Space, IsSpace;
    StartsAscii(open, [close]);
    EncodeOne(close);
    assert [open] + [close] == [open, close];
    assert Encode([open, close]) + rest == [open as Byte] + ([close as Byte] + rest);
    TakeOne(b, at, open as Byte, [close as Byte] + rest);
    TakeOne(b, at + 1, close as Byte, rest);
    assert |b[at + 2..]| == |rest|;
    NoSpaces();
    SpaceStops(b, at);
    SpaceStops(b, at + 1);
  }

  lemma ArrayOpens(b: Bytes, at: nat, items: seq<Value>, d: nat, depth: nat, rest: Bytes)
    requires items != [] && at <= |b| && b[at..] == Encode(Print(Arr(items), d)) + rest
    ensures at < |b| && |rest| <= |b|
    ensures b[at + 1..] == Encode(PrintItems(items, d + 1, "\n")) + (Encode(ClosingText(d, ']')) + rest)
    ensures depth >= MAX_DEPTH ==> ValueAt(b, at, depth).Err? && ValueAt(b, at, depth).error.what == TooDeep
    ensures depth < MAX_DEPTH ==>
              ValueAt(b, at, depth) == match ItemsAt(b, at + 1, depth + 1)
              { case Ok((read, end)) => Ok((Arr(read), end)) case Err(e) => Err(e) }
  {
    hide Encode, StringAt, ValueAt, Space, IsSpace, PrintItems, ItemsAt;
    var body := PrintItems(items, d + 1, "\n");
    StartsAscii('[', body + ClosingText(d, ']'));
    EncodeConcat(body, ClosingText(d, ']'));
    var x, y := Encode(body), Encode(ClosingText(d, ']'));
    assert ([OPEN_BRACKET] + (x + y)) + rest == [OPEN_BRACKET] + (x + (y + rest));
    TakeOne(b, at, OPEN_BRACKET, x + (y + rest));
    ArrayEntered(b, at, items, d + 1, y + rest, depth);
  }

  lemma ArrayEntered(b: Bytes, at: nat, items: seq<Value>, d: nat, tail: Bytes, depth: nat)
    requires items != [] && Here(b, at, OPEN_BRACKET) && b[at + 1..] == Encode(PrintItems(items, d, "\n")) + tail
    ensures depth >= MAX_DEPTH ==> ValueAt(b, at, depth).Err? && ValueAt(b, at, depth).error.what == TooDeep
    ensures depth < MAX_DEPTH ==>
              ValueAt(b, at, depth) == match ItemsAt(b, at + 1, depth + 1)
              { case Ok((read, end)) => Ok((Arr(read), end)) case Err(e) => Err(e) }
  {
    hide Encode, StringAt, Space, IsSpace, PrintItems, ItemsAt, Print;
    NoSpaces();
    SpaceStops(b, at);
    ItemsText(items, d);
    var nl, p, more := Encode("\n" + Indentation(d)), Encode(Print(items[0], d)), Encode(PrintItems(items[1..], d, ",\n"));
    assert (nl + (p + more)) + tail == nl + (p + (more + tail));
    var i := BrokenLine(b, at + 1, items[0], d, more + tail);
    PrintedStarts(items[0], d);
    assert b[i] == b[i..][0] == p[0];
    NotClosing(items[0], d);
    SpaceBeforeItems(b, at + 1, depth + 1);
  }

  /** A printed value does not start with a closing bracket. */
  lemma NotClosing(v: Value, d: nat)
    requires Encode(Print(v, d)) != []
    ensures Encode(Print(v, d))[0] != CLOSE_BRACKET
  {
    hide Encode, PrintItems, PrintPairs, IntText, EscapeChars;
    var s := Print(v, d);
    match v
    case Int(n) => EncodedIntIsNumber(n);
    case _ => StartsAscii(s[0], s[1..]);
      assert s == [s[0]] + s[1..];
  }

  lemma SpaceBeforeItems(b: Bytes, at: nat, depth: nat)
    requires at <= |b|
    ensures ItemsAt(b, at, depth) == ItemsAt(b, Space(b, at), depth)
  {
    hide ValueAt, Space;
    SpaceBeforeValue(b, at, depth);
  }

  /** Reading the items from `at`, once the first of them has been read. */
  lemma AfterFirstItem(b: Bytes, at: nat, next: nat, v: Value, depth: nat)
    requires at <= |b| && next <= |b| && ValueAt(b, at, depth) == Ok((v, next))
    ensures Here(b, Space(b, next), COMMA) ==>
              ItemsAt(b, at, depth) == BeforeItem(v, ItemsAt(b, Space(b, next) + 1, depth))
    ensures Here(b, Space(b, next), CLOSE_BRACKET) ==> ItemsAt(b, at, depth) == Ok(([v], Space(b, next) + 1))
  {
    hide ValueAt, Space;
  }

  lemma ItemsFail(b: Bytes, at: nat, depth: nat)
    requires at <= |b| && ValueAt(b, at, depth).Err?
    ensures ItemsAt(b, at, depth) == Err(ValueAt(b, at, depth).error)
  {
    hide ValueAt, Space;
  }

  lemma {:induction false} ItemsBack(b: Bytes, at: nat, items: seq<Value>, d: nat, depth: nat, rest: Bytes)
    requires items != [] && (forall x <- items :: InRange(x)) && depth <= MAX_DEPTH && d > 0
    requires at <= |b| && b[at..] == Encode(PrintItems(items, d, "\n")) + (Encode(ClosingText(d - 1, ']')) + rest)
    ensures |rest| <= |b| && Answers(ItemsAt(b, at, depth), items, |b| - |rest|, depth + ItemsHeight(items))
    decreases items, 0
  {
    hide Encode, Print, PrintItems, Indentation, ValueAt, ItemsAt, Space, ClosingText, InRange, StopsNumber, Height, ItemsHeight, Answers;
    var tail := Encode(ClosingText(d - 1, ']')) + rest;
    var nl, p, more := Encode("\n" + Indentation(d)), Encode(Print(items[0], d)), Encode(PrintItems(items[1..], d, ",\n"));
    assert b[at..] == nl + (p + (more + tail)) by {
      ItemsText(items, d);
      assert (nl + (p + more)) + tail == nl + (p + (more + tail));
    }
    var i := BrokenLine(b, at, items[0], d, more + tail);
    SpaceBeforeValue(b, at, depth);
    TakeAll(b, i, p, more + tail);
    var next := i + |p|;
    assert |b[next..]| == |more + tail|;
    MoreItems(items[1..], d);
    AfterOne(b, next, more, d - 1, ']', rest);
    assert items[0] in items;
    ValueBack(b, i, items[0], d, depth, more + tail);
    if items[1..] != [] {
      assert forall x <- items[1..] :: x in items;
      CommaBeforeItems(items[1..], d);
      ItemsBack(b, next + 1, items[1..], d, depth, rest);
    }
    ItemsJoin(b, at, next, items, depth, |b| - |rest|);
  }

  /** What is read for the first item and for those after its comma is what is read for all. */
  lemma ItemsJoin(b: Bytes, at: nat, next: nat, items: seq<Value>, depth: nat, end: nat)
    requires items != [] && at <= |b| && next <= |b|
    requires Answers(ValueAt(b, at, depth), items[0], next, depth + Height(items[0]))
    requires items[1..] == [] ==> Here(b, Space(b, next), CLOSE_BRACKET) && Space(b, next) + 1 == end
    requires items[1..] != [] ==> Here(b, next, COMMA) && Space(b, next) == next
    requires items[1..] != [] ==> Answers(ItemsAt(b, next + 1, depth), items[1..], end, depth + ItemsHeight(items[1..]))
    ensures Answers(ItemsAt(b, at, depth), items, end, depth + ItemsHeight(items))
  {
    hide ValueAt, ItemsAt, Space, Height;
    assert items == [items[0]] + items[1..];
    if depth + Height(items[0]) > MAX_DEPTH {
      ItemsFail(b, at, depth);
    } else {
      AfterFirstItem(b, at, next, items[0], depth);
      assert items[1..] == [] ==> items == [items[0]];
    }
  }

  lemma MoreItems(items: seq<Value>, d: nat)
    ensures items == [] <==> Encode(PrintItems(items, d, ",\n")) == []
    ensures items != [] ==> Encode(PrintItems(items, d, ",\n"))[0] == COMMA
  {
    if items != [] {
      CommaBeforeItems(items, d);
    }
  }

  // ---- objects ----------------------------------------------------------------------------------

  lemma ObjectOpens(b: Bytes, at: nat, pairs: seq<Member>, d: nat, depth: nat, rest: Bytes)
    requires pairs != [] && at <= |b| && b[at..] == Encode(Print(Obj(pairs), d)) + rest
    ensures at < |b| && |rest| <= |b|
    ensures b[at + 1..] == Encode(PrintPairs(pairs, d + 1, "\n")) + (Encode(ClosingText(d, '}')) + rest)
    ensures depth >= MAX_DEPTH ==> ValueAt(b, at, depth).Err? && ValueAt(b, at, depth).error.what == TooDeep
    ensures depth < MAX_DEPTH ==>
              ValueAt(b, at, depth) == match MembersAt(b, at + 1, depth + 1)
              { case Ok((read, end)) => Ok((Obj(read), end)) case Err(e) => Err(e) }
  {
    hide Encode, StringAt, ValueAt, Space, IsSpace, PrintPairs, MembersAt;
    var body := PrintPairs(pairs, d + 1, "\n");
    StartsAscii('{', body + ClosingText(d, '}'));
    EncodeConcat(body, ClosingText(d, '}'));
    var x, y := Encode(body), Encode(ClosingText(d, '}'));
    assert ([OPEN_BRACE] + (x + y)) + rest == [OPEN_BRACE] + (x + (y + rest));
    TakeOne(b, at, OPEN_BRACE, x + (y + rest));
    ObjectEntered(b, at, pairs, d + 1, y + rest, depth);
  }

  /** A member's text starts with its key's quote. */
  lemma MemberStarts(m: Member, d: nat)
    ensures Encode(MemberText(m, d)) != [] && Encode(MemberText(m, d))[0] == QUOTE
  {
    hide Encode, Print, EscapeChars;
    var s := MemberText(m, d);
    assert s == [s[0]] + s[1..];
    StartsAscii(s[0], s[1..]);
  }

  lemma BrokenMember(b: Bytes, at: nat, m: Member, d: nat, rest: Bytes) returns (i: nat)
    requires at <= |b| && b[at..] == Encode("\n" + Indentation(d)) + (Encode(MemberText(m, d)) + rest)
    ensures i == Space(b, at) && b[i..] == Encode(MemberText(m, d)) + rest && Here(b, i, QUOTE)
  {
    hide Encode, MemberText, Indentation, Space, IsSpace;
    BreakIsSpace(d);
    MemberStarts(m, d);
    NoSpaces();
    var text := Encode(MemberText(m, d));
    assert (text + rest)[0] == text[0];
    SpaceOver(b, at, Encode("\n" + Indentation(d)), text + rest);
    i := Space(b, at);
    assert b[i..][0] == text[0];
  }

  lemma ObjectEntered(b: Bytes, at: nat, pairs: seq<Member>, d: nat, tail: Bytes, depth: nat)
    requires pairs != [] && Here(b, at, OPEN_BRACE) && b[at + 1..] == Encode(PrintPairs(pairs, d, "\n")) + tail
    ensures depth >= MAX_DEPTH ==> ValueAt(b, at, depth).Err? && ValueAt(b, at, depth).error.what == TooDeep
    ensures depth < MAX_DEPTH ==>
              ValueAt(b, at, depth) == match MembersAt(b, at + 1, depth + 1)
              { case Ok((read, end)) => Ok((Obj(read), end)) case Err(e) => Err(e) }
  {
    hide Encode, StringAt, Space, IsSpace, PrintPairs, MembersAt, MemberText;
    NoSpaces();
    SpaceStops(b, at);
    PairsText(pairs, d);
    var nl, p, more := Encode("\n" + Indentation(d)), Encode(MemberText(pairs[0], d)), Encode(PrintPairs(pairs[1..], d, ",\n"));
    assert (nl + (p + more)) + tail == nl + (p + (more + tail));
    var i := BrokenMember(b, at + 1, pairs[0], d, more + tail);
    SpaceBeforeMembers(b, at + 1, depth + 1);
  }

  lemma SpaceBeforeMembers(b: Bytes, at: nat, depth: nat)
    requires at <= |b|
    ensures MembersAt(b, at, depth) == MembersAt(b, Space(b, at), depth)
  {
    hide ValueAt, StringAt;
    var i := Space(b, at);
    if i < |b| {
      SpaceStops(b, i);
    }
  }

  /** One member: its key, the colon, and its value. */
  lemma {:induction false} MemberBack(b: Bytes, at: nat, i: nat, m: Member, d: nat, depth: nat, rest: Bytes)
    requires InRange(m.value) && depth <= MAX_DEPTH && StopsNumber(rest)
    requires at <= |b| && i == Space(b, at) && Here(b, i, QUOTE) && b[i..] == Encode(MemberText(m, d)) + rest
    ensures |rest| <= |b| && Answers(MemberAt(b, at, depth), m, |b| - |rest|, depth + Height(m.value))
    decreases m.value, 2
  {
    hide Encode, Print, Escape, ValueAt, StringAt, Space, InRange, StopsNumber, Height;
    var k, p := Encode(Escape(m.key)), Encode(Print(m.value, d));
    EncodeConcat(Escape(m.key), ": " + Print(m.value, d));
    StartsAscii(':', " " + Print(m.value, d));
    StartsAscii(' ', Print(m.value, d));
    assert ": " + Print(m.value, d) == [':'] + (" " + Print(m.value, d));
    var after := [COLON] + ([' ' as Byte] + (p + rest));
    assert (k + ([COLON] + ([' ' as Byte] + p))) + rest == k + after;
    WrittenStringReadsBack(b, i, m.key, after);
    var j := |b| - |after|;
    TakeOne(b, j, COLON, [' ' as Byte] + (p + rest));
    EatColon(b, j);
    PrintedStarts(m.value, d);
    assert (p + rest)[0] == p[0];
    SpaceOver(b, j + 1, [' ' as Byte], p + rest);
    SpaceBeforeValue(b, j + 1, depth);
    ValueBack(b, j + 2, m.value, d, depth, rest);
  }

  lemma EatColon(b: Bytes, j: nat)
    requires Here(b, j, COLON)
    ensures Eat(b, j, COLON) == Ok(j + 1)
  {
    NoSpaces();
    EatHere(b, j, COLON);
  }

  /** Reading the members from `at`, once the first of them has been read. */
  lemma AfterFirstMember(b: Bytes, at: nat, next: nat, m: Member, depth: nat)
    requires at <= |b| && next <= |b| && MemberAt(b, at, depth) == Ok((m, next))
    ensures Here(b, Space(b, next), COMMA) ==>
              MembersAt(b, at, depth) == BeforeMember(m, MembersAt(b, Space(b, next) + 1, depth))
    ensures Here(b, Space(b, next), CLOSE_BRACE) ==> MembersAt(b, at, depth) == Ok(([m], Space(b, next) + 1))
  {
    hide MemberAt, Space;
  }

  lemma MembersFail(b: Bytes, at: nat, depth: nat)
    requires at <= |b| && MemberAt(b, at, depth).Err?
    ensures MembersAt(b, at, depth) == Err(MemberAt(b, at, depth).error)
  {
    hide MemberAt, Space;
  }

  lemma {:induction false} PairsBack(b: Bytes, at: nat, pairs: seq<Member>, d: nat, depth: nat, rest: Bytes)
    requires pairs != [] && (forall x <- pairs :: InRange(x.value)) && depth <= MAX_DEPTH && d > 0
    requires at <= |b| && b[at..] == Encode(PrintPairs(pairs, d, "\n")) + (Encode(ClosingText(d - 1, '}')) + rest)
    ensures |rest| <= |b| && Answers(MembersAt(b, at, depth), pairs, |b| - |rest|, depth + PairsHeight(pairs))
    decreases pairs, 0
  {
    hide Encode, MemberText, Indentation, MemberAt, MembersAt, Space, ClosingText, InRange, StopsNumber, PrintPairs, Height, PairsHeight, Answers;
    var tail := Encode(ClosingText(d - 1, '}')) + rest;
    var nl, p, more := Encode("\n" + Indentation(d)), Encode(MemberText(pairs[0], d)), Encode(PrintPairs(pairs[1..], d, ",\n"));
    assert b[at..] == nl + (p + (more + tail)) by {
      PairsText(pairs, d);
      assert (nl + (p + more)) + tail == nl + (p + (more + tail));
    }
    var i := BrokenMember(b, at, pairs[0], d, more + tail);
    TakeAll(b, i, p, more + tail);
    var next := i + |p|;
    assert |b[next..]| == |more + tail|;
    MorePairs(pairs[1..], d);
    AfterOne(b, next, more, d - 1, '}', rest);
    assert pairs[0] in pairs;
    MemberBack(b, at, i, pairs[0], d, depth, more + tail);
    if pairs[1..] != [] {
      assert forall x <- pairs[1..] :: x in pairs;
      CommaBeforePairs(pairs[1..], d);
      PairsBack(b, next + 1, pairs[1..], d, depth, rest);
    }
    PairsJoin(b, at, next, pairs, depth, |b| - |rest|);
  }

  lemma PairsJoin(b: Bytes, at: nat, next: nat, pairs: seq<Member>, depth: nat, end: nat)
    requires pairs != [] && at <= |b| && next <= |b|
    requires Answers(MemberAt(b, at, depth), pairs[0], next, depth + Height(pairs[0].value))
    requires pairs[1..] == [] ==> Here(b, Space(b, next), CLOSE_BRACE) && Space(b, next) + 1 == end
    requires pairs[1..] != [] ==> Here(b, next, COMMA) && Space(b, next) == next
    requires pairs[1..] != [] ==> Answers(MembersAt(b, next + 1, depth), pairs[1..], end, depth + PairsHeight(pairs[1..]))
    ensures Answers(MembersAt(b, at, depth), pairs, end, depth + PairsHeight(pairs))
  {
    hide MemberAt, MembersAt, Space, Height;
    assert pairs == [pairs[0]] + pairs[1..];
    if depth + Height(pairs[0].value) > MAX_DEPTH {
      MembersFail(b, at, depth);
    } else {
      AfterFirstMember(b, at, next, pairs[0], depth);
      assert pairs[1..] == [] ==> pairs == [pairs[0]];
    }
  }

  lemma MorePairs(pairs: seq<Member>, d: nat)
    ensures pairs == [] <==> Encode(PrintPairs(pairs, d, ",\n")) == []
    ensures pairs != [] ==> Encode(PrintPairs(pairs, d, ",\n"))[0] == COMMA
  {
    if pairs != [] {
      CommaBeforePairs(pairs, d);
    }
  }
}
