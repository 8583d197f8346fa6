/** JSON. */
module JsonDocuments {
  // Documents as they may be written. Every JSON document, with any white space, spelling of strings and
  // numbers in it, and what it reads as.

  import opened ByteStrings
  import opened Json
  import opened JsonReader
  import opened JsonReading
  import opened JsonStrings
  import opened Numerals
  import opened Utf8
  import opened Wrappers

  /** White space as section 2 of RFC 8259 allows it. */
  predicate IsBlank(s: string) {
    forall c <- s :: c == ' ' || c == '\t' || c == '\n' || c == '\r'
  }

  /** A number's text: whole, as a sign and digits, or some other run of what numbers are written with. */
  datatype Numeral =
    | Whole(minus: bool, digits: seq<nat>)
    | Other(text: string)
  {
    predicate IsNumeral() {
      match this
      case Whole(_, digits) => digits != [] && forall d <- digits :: d < 10
      case Other(text) =>
        && text != [] && (text[0] == '-' || '0' <= text[0] <= '9')
        && (forall c <- text :: '0' <= c <= '9' || c == '-' || c == '+' || c == '.' || c == 'e' || c == 'E')
        && (text == "-" || exists k :: 0 < k < |text| && !('0' <= text[k] <= '9'))
    }

    function Text(): string
      requires IsNumeral()
    {
      match this
      case Whole(minus, digits) => (if minus then "-" else "") + DigitText(digits)
      case Other(text) => text
    }

    /** A whole number that fits in 64 bits is that number; any other is kept as its text. */
    function Meaning(): Value
      requires IsNumeral()
    {
      match this
      case Whole(minus, digits) =>
        var size: int := Denoted(digits);
        var n := if minus then -size else size;
        if -9223372036854775808 <= n <= 9223372036854775807 then Int(n) else Str(Text())
      case Other(text) => Str(text)
    }
  }

  function DigitChar(d: nat): (c: char)
    requires d < 10
    ensures '0' <= c <= '9' && Digit(c) == Some(d)
  {
    (48 + d) as char
  }

  function DigitText(digits: seq<nat>): (s: string)
    requires forall d <- digits :: d < 10
    ensures |s| == |digits| && forall k :: 0 <= k < |s| ==> digits[k] < 10 && s[k] == DigitChar(digits[k])
  {
    if digits == [] then []
    else
      assert digits[0] in digits && forall d <- digits[1..] :: d in digits;
      [DigitChar(digits[0])] + DigitText(digits[1..])
  }

  function Denoted(digits: seq<nat>): nat {
    if digits == [] then 0 else 10 * Denoted(digits[..|digits| - 1]) + digits[|digits| - 1]
  }

  datatype Tree =
    | Nothing
    | Truth(b: bool)
    | Number(n: Numeral)
    | Words(spelled: seq<Spelling>)
    | EmptyList(space: string)
    | List(items: seq<Item>)
    | EmptyTable(space: string)
    | Table(entries: seq<Entry>)

  datatype Item = Item(before: string, tree: Tree, after: string)

  datatype Entry = Entry(before: string, key: seq<Spelling>, colon: string, gap: string, tree: Tree, after: string)

  predicate AreSpellings(ss: seq<Spelling>) {
    forall s <- ss :: OkSpelling(s)
  }

  predicate IsTree(t: Tree) {
    match t
    case Number(n) => n.IsNumeral()
    case Words(ss) => AreSpellings(ss)
    case EmptyList(space) => IsBlank(space)
    case EmptyTable(space) => IsBlank(space)
    case List(items) => items != [] && AreItems(items)
    case Table(entries) => entries != [] && AreEntries(entries)
    case _ => true
  }

  predicate AreItems(items: seq<Item>) {
    items == []
    || (IsBlank(items[0].before) && IsTree(items[0].tree) && IsBlank(items[0].after) && AreItems(items[1..]))
  }

  predicate AreEntries(entries: seq<Entry>) {
    entries == []
    || (IsKeyed(entries[0]) && IsTree(entries[0].tree) && AreEntries(entries[1..]))
  }

  /** What stands around an entry's value. */
  predicate IsKeyed(x: Entry) {
    IsBlank(x.before) && AreSpellings(x.key) && IsBlank(x.colon) && IsBlank(x.gap) && IsBlank(x.after)
  }

  // ---- the text -----------------------------------------------------------------------------------

  function QuotedThen(ss: seq<Spelling>, rest: string): string {
    "\"" + (AllWritten(ss) + ("\"" + rest))
  }

  function TreeThen(t: Tree, rest: string): string
    requires IsTree(t)
    decreases t
  {
    match t
    case Nothing => "null" + rest
    case Truth(b) => (if b then "true" else "false") + rest
    case Number(n) => n.Text() + rest
    case Words(ss) => QuotedThen(ss, rest)
    case EmptyList(space) => "[" + (space + ("]" + rest))
    case EmptyTable(space) => "{" + (space + ("}" + rest))
    case List(items) => "[" + ItemsThen(items, "]" + rest)
    case Table(entries) => "{" + EntriesThen(entries, "}" + rest)
  }

  function ItemsThen(items: seq<Item>, rest: string): string
    requires AreItems(items)
    decreases items
  {
    if items == [] then rest
    else
      var more := if |items| == 1 then rest else "," + ItemsThen(items[1..], rest);
      items[0].before + TreeThen(items[0].tree, items[0].after + more)
  }

  function EntriesThen(entries: seq<Entry>, rest: string): string
    requires AreEntries(entries)
    decreases entries
  {
    if entries == [] then rest
    else
      var more := if |entries| == 1 then rest else "," + EntriesThen(entries[1..], rest);
      entries[0].before + EntryThen(entries[0], more)
  }

  function EntryThen(x: Entry, more: string): string
    requires IsTree(x.tree)
    decreases x
  {
    QuotedThen(x.key, x.colon + (":" + (x.gap + TreeThen(x.tree, x.after + more))))
  }

  // ---- the meaning --------------------------------------------------------------------------------

  function TreeMeaning(t: Tree): Value
    requires IsTree(t)
    decreases t
  {
    match t
    case Nothing => Null
    case Truth(b) => Bool(b)
    case Number(n) => n.Meaning()
    case Words(ss) => Str(Meanings(ss))
    case EmptyList(_) => Arr([])
    case EmptyTable(_) => Obj([])
    case List(items) => Arr(ItemMeanings(items))
    case Table(entries) => Obj(EntryMeanings(entries))
  }

  function ItemMeanings(items: seq<Item>): seq<Value>
    requires AreItems(items)
    decreases items
  {
    if items == [] then [] else [TreeMeaning(items[0].tree)] + ItemMeanings(items[1..])
  }

  function EntryMeanings(entries: seq<Entry>): seq<Member>
    requires AreEntries(entries)
    decreases entries
  {
    if entries == [] then []
    else [Member(Meanings(entries[0].key), TreeMeaning(entries[0].tree))] + EntryMeanings(entries[1..])
  }

  /** How deep lists and tables nest. */
  function Depth(t: Tree): nat
    decreases t
  {
    match t
    case EmptyList(_) => 1
    case EmptyTable(_) => 1
    case List(items) => 1 + ItemsDepth(items)
    case Table(entries) => 1 + EntriesDepth(entries)
    case _ => 0
  }

  function ItemsDepth(items: seq<Item>): nat
    decreases items
  {
    if items == [] then 0 else Max(Depth(items[0].tree), ItemsDepth(items[1..]))
  }

  function EntriesDepth(entries: seq<Entry>): nat
    decreases entries
  {
    if entries == [] then 0 else Max(Depth(entries[0].tree), EntriesDepth(entries[1..]))
  }

  // ---- numbers ------------------------------------------------------------------------------------

  lemma {:induction false} DigitsDenote(digits: seq<nat>)
    requires forall d <- digits :: d < 10
    ensures Digits(DigitText(digits)) == Some(Denoted(digits))
  {
    hide DigitText;
    if digits == [] {
      NoDigitText();
    } else {
      var n := |digits| - 1;
      var front := digits[..n];
      assert forall d <- front :: d in digits;
      assert digits[n] in digits;
      DigitsDenote(front);
      SameText(digits, n);
    }
  }

  lemma NoDigitText()
    ensures DigitText([]) == []
  {
  }

  lemma SameText(digits: seq<nat>, n: nat)
    requires n <= |digits| && forall d <- digits :: d < 10
    ensures (forall d <- digits[..n] :: d < 10) && DigitText(digits)[..n] == DigitText(digits[..n])
  {
    hide DigitText, DigitChar, Digit;
    var front := digits[..n];
    assert forall d <- front :: d in digits;
  }

  lemma {:induction false} NoDigits(s: string, k: nat)
    requires k < |s| && !('0' <= s[k] <= '9')
    ensures Digits(s) == None
  {
    if k < |s| - 1 {
      NoDigits(s[..|s| - 1], k);
    }
  }

  lemma WholeMeans(minus: bool, digits: seq<nat>)
    requires digits != [] && forall d <- digits :: d < 10
    ensures NumberValue(Whole(minus, digits).Text()) == Whole(minus, digits).Meaning()
  {
    hide Denoted, Digits, DigitText;
    DigitsDenote(digits);
    var text := DigitText(digits);
    var whole := Whole(minus, digits).Text();
    if minus {
      assert whole[1..] == text && whole[0] == '-';
    } else {
      assert whole == text && text[0] != '-' && text[0] != '+';
    }
  }

  lemma OtherMeans(text: string)
    requires Other(text).IsNumeral()
    ensures ParseI64(text) == None
  {
    hide Digits;
    if text == "-" {
      assert text[1..] == [];
    } else {
      var k :| 0 < k < |text| && !('0' <= text[k] <= '9');
      if text[0] == '-' {
        assert text[1..][k - 1] == text[k];
        NoDigits(text[1..], k - 1);
      } else {
        NoDigits(text, k);
      }
    }
  }

  lemma NumberMeans(n: Numeral)
    requires n.IsNumeral()
    ensures NumberValue(n.Text()) == n.Meaning()
  {
    hide ParseI64, Denoted, DigitText;
    match n
    case Whole(minus, digits) => WholeMeans(minus, digits);
    case Other(text) => OtherMeans(text);
  }

  lemma NumeralChars(n: Numeral)
    requires n.IsNumeral()
    ensures n.Text() != [] && (n.Text()[0] == '-' || '0' <= n.Text()[0] <= '9')
    ensures forall c <- n.Text() :: '0' <= c <= '9' || c == '-' || c == '+' || c == '.' || c == 'e' || c == 'E'
  {
    match n
    case Whole(minus, digits) =>
      var text := DigitText(digits);
      forall c | c in n.Text()
        ensures '0' <= c <= '9' || c == '-'
      {
        assert c in text || c == '-';
      }
    case Other(_) =>
  }

  lemma NumeralBytes(text: string)
    requires text != [] && (text[0] == '-' || '0' <= text[0] <= '9')
    requires forall c <- text :: '0' <= c <= '9' || c == '-' || c == '+' || c == '.' || c == 'e' || c == 'E'
    ensures |Encode(text)| == |text| && Chars(Encode(text)) == text
    ensures forall x <- Encode(text) :: IsNumberByte(x)
    ensures Encode(text)[0] == '-' as Byte || IsDigit(Encode(text)[0])
  {
    hide Encode;
    var e := Encode(text);
    AsciiEncodes(text);
    forall k | 0 <= k < |text|
      ensures IsNumberByte(e[k])
    {
      assert text[k] in text;
    }
    assert text[0] in text;
  }

  /** Nothing that could belong to a number follows. */
  predicate EndsNumber(rest: string) {
    rest == [] || (rest[0] as int < 0x80 && !IsNumberByte(rest[0] as Byte))
  }

  lemma NumberStops(rest: string)
    requires EndsNumber(rest)
    ensures StopsNumber(Encode(rest))
  {
    hide IsNumberByte;
    if rest != [] {
      hide Encode;
      StartsAscii(rest[0], rest[1..]);
      assert [rest[0]] + rest[1..] == rest;
    }
  }

  lemma NumberRead(b: Bytes, at: nat, n: Numeral, depth: nat, rest: string)
    requires n.IsNumeral() && EndsNumber(rest) && at <= |b| && b[at..] == Encode(n.Text() + rest)
    ensures |Encode(rest)| < |b| && ValueAt(b, at, depth) == Ok((n.Meaning(), |b| - |Encode(rest)|))
  {
    hide Encode, StringAt, ObjectAt, ArrayAt, IsNumberByte, NumberEnd, NumberValue, Numeral.Meaning, Numeral.Text,
         Numeral.IsNumeral, EndsNumber, StopsNumber;
    var text := n.Text();
    NumeralChars(n);
    NumeralBytes(text);
    EncodeConcat(text, rest);
    var e := Encode(text);
    TakeAll(b, at, e, Encode(rest));
    assert b[at] == b[at..at + |e|][0];
    SpaceStops(b, at);
    NumberStops(rest);
    NumberOver(b, at, e, Encode(rest));
    NumberMeans(n);
    assert |b[at + |e|..]| == |b| - at - |e|;
  }

  // ---- space and what follows it ------------------------------------------------------------------

  /** Text that white space before it ends at. */
  predicate Starts(s: string) {
    s == [] || (s[0] as int < 0x80 && !IsSpace(s[0] as Byte))
  }

  lemma BlankBytes(space: string)
    requires IsBlank(space)
    ensures |Encode(space)| == |space| && forall x <- Encode(space) :: IsSpace(x)
  {
    hide Encode;
    AsciiEncodes(space);
    forall k | 0 <= k < |space|
      ensures IsSpace(Encode(space)[k])
    {
      assert space[k] in space;
    }
  }

  lemma FirstByte(s: string)
    requires s != [] && s[0] as int < 0x80
    ensures Encode(s) == [s[0] as Byte] + Encode(s[1..])
  {
    StartsAscii(s[0], s[1..]);
    assert [s[0]] + s[1..] == s;
  }

  lemma EmptyBytes()
    ensures Encode([]) == []
  {
  }

  lemma SpaceTaken(b: Bytes, at: nat, space: string, s: string)
    requires at <= |b| && b[at..] == Encode(space + s) && IsBlank(space) && Starts(s)
    ensures Space(b, at) == at + |space| <= |b| && b[Space(b, at)..] == Encode(s)
  {
    hide Encode, IsSpace, IsBlank, Space;
    EncodeConcat(space, s);
    BlankBytes(space);
    if s != [] {
      FirstByte(s);
    } else {
      EmptyBytes();
    }
    SpaceOver(b, at, Encode(space), Encode(s));
  }

  /** An ASCII character where text starts. */
  lemma CharTaken(b: Bytes, at: nat, c: char, rest: string)
    requires at <= |b| && c as int < 0x80 && b[at..] == Encode([c] + rest)
    ensures Here(b, at, c as Byte) && b[at + 1..] == Encode(rest)
  {
    hide Encode;
    StartsAscii(c, rest);
    TakeOne(b, at, c as Byte, Encode(rest));
  }

  predicate IsSuffix(rest: string, s: string) {
    |rest| <= |s| && s[|s| - |rest|..] == rest
  }

  lemma Behind(front: string, rest: string, s: string)
    requires IsSuffix(rest, s)
    ensures IsSuffix(rest, front + s)
  {
  }

  lemma Behinds(front: string, rest: string)
    ensures IsSuffix(rest, front + rest)
  {
  }

  lemma SuffixOfSuffix(a: string, b: string, c: string)
    requires IsSuffix(a, b) && IsSuffix(b, c)
    ensures IsSuffix(a, c)
  {
    assert c[|c| - |a|..] == c[|c| - |b|..][|b| - |a|..];
  }

  /** The bytes of the end of a text are the end of its bytes. */
  lemma SuffixBytes(b: Bytes, at: nat, s: string, rest: string)
    requires at <= |b| && b[at..] == Encode(s) && IsSuffix(rest, s)
    ensures |Encode(rest)| <= |b| - at && b[|b| - |Encode(rest)|..] == Encode(rest)
  {
    hide Encode;
    var front := s[..|s| - |rest|];
    assert s == front + rest;
    EncodeConcat(front, rest);
    var cut := at + |Encode(front)|;
    assert |b[at..]| == |Encode(front)| + |Encode(rest)|;
    assert b[cut..] == b[at..][|Encode(front)|..];
  }

  lemma QuotedSuffix(ss: seq<Spelling>, rest: string)
    ensures IsSuffix(rest, QuotedThen(ss, rest))
  {
    hide AllWritten;
    Behinds("\"", rest);
    Behind(AllWritten(ss), rest, "\"" + rest);
    Behind("\"", rest, AllWritten(ss) + ("\"" + rest));
  }

  lemma {:induction false} TreeSuffix(t: Tree, rest: string)
    requires IsTree(t)
    ensures IsSuffix(rest, TreeThen(t, rest))
    decreases t
  {
    hide IsSuffix, QuotedThen, ItemsThen, EntriesThen, Numeral.Text;
    match t
    case Nothing => Behinds("null", rest);
    case Truth(b) => Behinds(if b then "true" else "false", rest);
    case Number(n) => Behinds(n.Text(), rest);
    case Words(ss) => QuotedSuffix(ss, rest);
    case EmptyList(space) =>
      Behinds("]", rest);
      Behind(space, rest, "]" + rest);
      Behind("[", rest, space + ("]" + rest));
    case EmptyTable(space) =>
      Behinds("}", rest);
      Behind(space, rest, "}" + rest);
      Behind("{", rest, space + ("}" + rest));
    case List(items) =>
      Behinds("]", rest);
      ItemsSuffix(items, "]" + rest);
      SuffixOfSuffix(rest, "]" + rest, ItemsThen(items, "]" + rest));
      Behind("[", rest, ItemsThen(items, "]" + rest));
    case Table(entries) =>
      Behinds("}", rest);
      EntriesSuffix(entries, "}" + rest);
      SuffixOfSuffix(rest, "}" + rest, EntriesThen(entries, "}" + rest));
      Behind("{", rest, EntriesThen(entries, "}" + rest));
  }

  lemma {:induction false} ItemsSuffix(items: seq<Item>, rest: string)
    requires AreItems(items)
    ensures IsSuffix(rest, ItemsThen(items, rest))
    decreases items
  {
    hide IsSuffix, TreeThen, IsTree, IsBlank;
    if items == [] {
      Behinds([], rest);
      assert [] + rest == rest;
    } else {
      var x, more := items[0], MoreItemsText(items, rest);
      if |items| == 1 {
        Behinds([], rest);
        assert [] + rest == rest;
      } else {
        ItemsSuffix(items[1..], rest);
        Behind(",", rest, ItemsThen(items[1..], rest));
      }
      Behind(x.after, rest, more);
      TreeSuffix(x.tree, x.after + more);
      SuffixOfSuffix(rest, x.after + more, TreeThen(x.tree, x.after + more));
      Behind(x.before, rest, TreeThen(x.tree, x.after + more));
    }
  }

  /** What stands behind the first item. */
  function MoreItemsText(items: seq<Item>, rest: string): string
    requires items != [] && AreItems(items)
  {
    if |items| == 1 then rest else "," + ItemsThen(items[1..], rest)
  }

  function MoreEntriesText(entries: seq<Entry>, rest: string): string
    requires entries != [] && AreEntries(entries)
  {
    if |entries| == 1 then rest else "," + EntriesThen(entries[1..], rest)
  }

  lemma {:induction false} EntriesSuffix(entries: seq<Entry>, rest: string)
    requires AreEntries(entries)
    ensures IsSuffix(rest, EntriesThen(entries, rest))
    decreases entries
  {
    hide IsSuffix, EntryThen, IsTree, IsKeyed;
    if entries == [] {
      Behinds([], rest);
      assert [] + rest == rest;
    } else {
      var x, more := entries[0], MoreEntriesText(entries, rest);
      if |entries| == 1 {
        Behinds([], rest);
        assert [] + rest == rest;
      } else {
        EntriesSuffix(entries[1..], rest);
        Behind(",", rest, EntriesThen(entries[1..], rest));
      }
      EntrySuffix(x, more);
      SuffixOfSuffix(rest, more, EntryThen(x, more));
      Behind(x.before, rest, EntryThen(x, more));
    }
  }

  lemma {:induction false} EntrySuffix(x: Entry, more: string)
    requires IsTree(x.tree)
    ensures IsSuffix(more, EntryThen(x, more))
    decreases x
  {
    hide IsSuffix, TreeThen, QuotedThen, IsTree;
    Behinds(x.after, more);
    TreeSuffix(x.tree, x.after + more);
    var value := TreeThen(x.tree, x.after + more);
    SuffixOfSuffix(more, x.after + more, value);
    Behind(x.gap, more, value);
    Behind(":", more, x.gap + value);
    Behind(x.colon, more, ":" + (x.gap + value));
    var behind := x.colon + (":" + (x.gap + value));
    QuotedSuffix(x.key, behind);
    SuffixOfSuffix(more, behind, QuotedThen(x.key, behind));
  }

  // ---- reading ------------------------------------------------------------------------------------

  predicate StartsTree(s: string) {
    s != [] && s[0] as int < 0x80 && !IsSpace(s[0] as Byte) && s[0] != ']' && s[0] != '}'
  }

  lemma NumeralStarts(n: Numeral, rest: string)
    requires n.IsNumeral()
    ensures StartsTree(n.Text() + rest)
  {
    hide Numeral.Text, Numeral.IsNumeral;
    NumeralChars(n);
    assert (n.Text() + rest)[0] == n.Text()[0];
  }

  lemma TreeStarts(t: Tree, rest: string)
    requires IsTree(t)
    ensures StartsTree(TreeThen(t, rest))
  {
    hide Numeral.Text, Numeral.IsNumeral, ItemsThen, EntriesThen, AllWritten, AreItems, AreEntries;
    match t
    case Number(n) => NumeralStarts(n, rest);
    case _ => assert TreeThen(t, rest)[0] in "ntf\"[{";
  }

  lemma QuotedRead(b: Bytes, at: nat, ss: seq<Spelling>, rest: string)
    requires AreSpellings(ss) && at <= |b| && b[at..] == Encode(QuotedThen(ss, rest))
    ensures Here(b, at, QUOTE) && |Encode(rest)| < |b| && StringAt(b, at) == Ok((Meanings(ss), |b| - |Encode(rest)|))
  {
    hide Encode, StringAt, AllWritten;
    StartsAscii('\"', AllWritten(ss) + ("\"" + rest));
    EncodeConcat(AllWritten(ss), "\"" + rest);
    StartsAscii('\"', rest);
    SpelledStringReadsBack(b, at, ss, Encode(rest));
    TakeOne(b, at, QUOTE, Encode(AllWritten(ss)) + ([QUOTE] + Encode(rest)));
  }

  lemma WordsRead(b: Bytes, at: nat, ss: seq<Spelling>, depth: nat, rest: string)
    requires AreSpellings(ss) && at <= |b| && b[at..] == Encode(QuotedThen(ss, rest))
    ensures |Encode(rest)| < |b| && ValueAt(b, at, depth) == Ok((Str(Meanings(ss)), |b| - |Encode(rest)|))
  {
    hide Encode, StringAt, AllWritten, QuotedThen, ObjectAt, ArrayAt;
    QuotedRead(b, at, ss, rest);
    NoSpaces();
    SpaceStops(b, at);
  }

  lemma EmptyTaken(b: Bytes, at: nat, open: char, close: char, space: string, depth: nat, rest: string)
    requires (open == '[' && close == ']') || (open == '{' && close == '}')
    requires depth <= MAX_DEPTH && IsBlank(space)
    requires at <= |b| && b[at..] == Encode([open] + (space + ([close] + rest)))
    ensures |Encode(rest)| <= |b|
    ensures Answers(ValueAt(b, at, depth), if open == '[' then Arr([]) else Obj([]), |b| - |Encode(rest)|, depth + 1)
  {
    hide Encode, StringAt, ItemsAt, MembersAt, Space, IsSpace, IsBlank;
    CharTaken(b, at, open, space + ([close] + rest));
    NoSpaces();
    SpaceStops(b, at);
    SpaceTaken(b, at + 1, space, [close] + rest);
    var i := Space(b, at + 1);
    CharTaken(b, i, close, rest);
    assert |b[i + 1..]| == |Encode(rest)|;
  }

  lemma TableOpens(b: Bytes, at: nat, depth: nat)
    requires Here(b, at, OPEN_BRACE) && Here(b, Space(b, at + 1), QUOTE)
    ensures depth >= MAX_DEPTH ==> ValueAt(b, at, depth).Err? && ValueAt(b, at, depth).error.what == TooDeep
    ensures depth < MAX_DEPTH ==>
              ValueAt(b, at, depth) == match MembersAt(b, at + 1, depth + 1)
              { case Ok((read, end)) => Ok((Obj(read), end)) case Err(e) => Err(e) }
  {
    hide StringAt, Space, IsSpace, MembersAt;
    NoSpaces();
    SpaceStops(b, at);
    SpaceBeforeMembers(b, at + 1, depth + 1);
  }

  lemma ListOpens(b: Bytes, at: nat, depth: nat)
    requires Here(b, at, OPEN_BRACKET) && !Here(b, Space(b, at + 1), CLOSE_BRACKET)
    ensures depth >= MAX_DEPTH ==> ValueAt(b, at, depth).Err? && ValueAt(b, at, depth).error.what == TooDeep
    ensures depth < MAX_DEPTH ==>
              ValueAt(b, at, depth) == match ItemsAt(b, at + 1, depth + 1)
              { case Ok((read, end)) => Ok((Arr(read), end)) case Err(e) => Err(e) }
  {
    hide StringAt, Space, IsSpace, ItemsAt;
    NoSpaces();
    SpaceStops(b, at);
    SpaceBeforeItems(b, at + 1, depth + 1);
  }

  /** A value reads as what it means, unless it nests too deeply. */
  lemma {:induction false} TreeRead(b: Bytes, at: nat, t: Tree, depth: nat, rest: string)
    requires IsTree(t) && depth <= MAX_DEPTH && EndsNumber(rest) && at <= |b| && b[at..] == Encode(TreeThen(t, rest))
    ensures |Encode(rest)| <= |b| &&
            Answers(ValueAt(b, at, depth), TreeMeaning(t), |b| - |Encode(rest)|, depth + Depth(t))
    decreases t
  {
    hide Encode, ValueAt, QuotedThen, ItemsThen, EntriesThen, Numeral.Text, Numeral.Meaning, Numeral.IsNumeral,
         IsBlank, EndsNumber, Answers;
    match t
    case Nothing =>
      EncodeConcat("null", rest);
      WordRead(b, at, "null", depth, Encode(rest));
      Answered(b, at, t, depth, |b| - |Encode(rest)|);
    case Truth(x) =>
      EncodeConcat(if x then "true" else "false", rest);
      WordRead(b, at, if x then "true" else "false", depth, Encode(rest));
      Answered(b, at, t, depth, |b| - |Encode(rest)|);
    case Number(n) =>
      NumberRead(b, at, n, depth, rest);
      Answered(b, at, t, depth, |b| - |Encode(rest)|);
    case Words(ss) =>
      WordsRead(b, at, ss, depth, rest);
      Answered(b, at, t, depth, |b| - |Encode(rest)|);
    case EmptyList(space) => EmptyTaken(b, at, '[', ']', space, depth, rest);
    case EmptyTable(space) => EmptyTaken(b, at, '{', '}', space, depth, rest);
    case List(items) => ListRead(b, at, items, depth, rest);
    case Table(entries) => TableRead(b, at, entries, depth, rest);
  }

  lemma Answered(b: Bytes, at: nat, t: Tree, depth: nat, end: nat)
    requires IsTree(t) && Depth(t) == 0 && depth <= MAX_DEPTH && at <= |b| &&
             ValueAt(b, at, depth) == Ok((TreeMeaning(t), end))
    ensures Answers(ValueAt(b, at, depth), TreeMeaning(t), end, depth + Depth(t))
  {
    hide ValueAt, TreeMeaning;
  }

  lemma {:induction false} ListRead(b: Bytes, at: nat, items: seq<Item>, depth: nat, rest: string)
    requires items != [] && AreItems(items) && depth <= MAX_DEPTH
    requires at <= |b| && b[at..] == Encode("[" + ItemsThen(items, "]" + rest))
    ensures |Encode(rest)| <= |b|
    ensures Answers(ValueAt(b, at, depth), Arr(ItemMeanings(items)), |b| - |Encode(rest)|, depth + 1 + ItemsDepth(items))
    decreases items, 1
  {
    hide Encode, ValueAt, ItemsAt, TreeThen, IsTree, IsBlank, IsSpace, Space, ItemsDepth, ItemMeanings;
    var text := ItemsThen(items, "]" + rest);
    CharTaken(b, at, '[', text);
    ItemsSuffix(items, "]" + rest);
    SuffixBytes(b, at + 1, text, "]" + rest);
    StartsAscii(']', rest);
    var x, behind := items[0], MoreItemsText(items, "]" + rest);
    TreeStarts(x.tree, x.after + behind);
    SpaceTaken(b, at + 1, x.before, TreeThen(x.tree, x.after + behind));
    var i := Space(b, at + 1);
    FirstByte(TreeThen(x.tree, x.after + behind));
    assert b[i..][0] == TreeThen(x.tree, x.after + behind)[0] as Byte;
    ListOpens(b, at, depth);
    if depth < MAX_DEPTH {
      ItemsRead(b, at + 1, items, depth + 1, rest);
    }
  }

  lemma {:induction false} TableRead(b: Bytes, at: nat, entries: seq<Entry>, depth: nat, rest: string)
    requires entries != [] && AreEntries(entries) && depth <= MAX_DEPTH
    requires at <= |b| && b[at..] == Encode("{" + EntriesThen(entries, "}" + rest))
    ensures |Encode(rest)| <= |b|
    ensures Answers(ValueAt(b, at, depth), Obj(EntryMeanings(entries)), |b| - |Encode(rest)|, depth + 1 + EntriesDepth(entries))
    decreases entries, 1
  {
    hide Encode, ValueAt, MembersAt, EntryThen, IsTree, IsBlank, IsSpace, Space, EntriesDepth, EntryMeanings;
    var text := EntriesThen(entries, "}" + rest);
    CharTaken(b, at, '{', text);
    EntriesSuffix(entries, "}" + rest);
    SuffixBytes(b, at + 1, text, "}" + rest);
    StartsAscii('}', rest);
    var x, behind := entries[0], MoreEntriesText(entries, "}" + rest);
    EntryTaken(b, at + 1, x, behind);
    TableOpens(b, at, depth);
    if depth < MAX_DEPTH {
      EntriesRead(b, at + 1, entries, depth + 1, rest);
    }
  }

  /** An entry starts, behind its white space, with its key's quote. */
  lemma EntryTaken(b: Bytes, at: nat, x: Entry, behind: string)
    requires IsKeyed(x) && IsTree(x.tree) && at <= |b| && b[at..] == Encode(x.before + EntryThen(x, behind))
    ensures Here(b, Space(b, at), QUOTE) && b[Space(b, at)..] == Encode(EntryThen(x, behind))
  {
    hide Encode, TreeThen, IsTree, IsBlank, IsSpace, Space, AllWritten, AreSpellings;
    NoSpaces();
    SpaceTaken(b, at, x.before, EntryThen(x, behind));
    FirstByte(EntryThen(x, behind));
    assert b[Space(b, at)..][0] == QUOTE;
  }

  /** What follows an item or an entry is a comma or the closing bracket. */
  predicate GoesOn(more: string, close: char) {
    more != [] && (more[0] == ',' || more[0] == close)
  }

  lemma EndsAfter(after: string, more: string, close: char)
    requires IsBlank(after) && GoesOn(more, close) && (close == ']' || close == '}')
    ensures EndsNumber(after + more) && Starts(more)
  {
    if after != [] {
      assert after[0] in after && (after + more)[0] == after[0];
    } else {
      assert after + more == more && (after + more)[0] == more[0];
      MarksEndNumbers();
    }
  }

  lemma MarksEndNumbers()
    ensures !IsNumberByte(COMMA) && !IsNumberByte(CLOSE_BRACKET) && !IsNumberByte(CLOSE_BRACE)
  {
  }

  lemma {:induction false} ItemsRead(b: Bytes, at: nat, items: seq<Item>, depth: nat, rest: string)
    requires items != [] && AreItems(items) && depth <= MAX_DEPTH
    requires at <= |b| && b[at..] == Encode(ItemsThen(items, "]" + rest))
    ensures |Encode(rest)| <= |b|
    ensures Answers(ItemsAt(b, at, depth), ItemMeanings(items), |b| - |Encode(rest)|, depth + ItemsDepth(items))
    decreases items, 0
  {
    hide Encode, ValueAt, ItemsAt, TreeThen, TreeMeaning, Depth, IsTree, IsBlank, IsSpace, Space, EndsNumber, Answers,
         ItemMeanings, ItemsDepth, Starts;
    var x, more := items[0], MoreItemsText(items, "]" + rest);
    var value := TreeThen(x.tree, x.after + more);
    TreeStarts(x.tree, x.after + more);
    SpaceTaken(b, at, x.before, value) by { StartsHere(value); }
    var i := Space(b, at);
    SpaceBeforeValue(b, at, depth);
    EndsAfter(x.after, more, ']');
    TreeRead(b, i, x.tree, depth, x.after + more);
    TreeSuffix(x.tree, x.after + more);
    SuffixBytes(b, i, value, x.after + more);
    var next := |b| - |Encode(x.after + more)|;
    SpaceTaken(b, next, x.after, more);
    var j := Space(b, next);
    if |items| == 1 {
      CharTaken(b, j, ']', rest);
      assert |b[j + 1..]| == |Encode(rest)|;
    } else {
      CharTaken(b, j, ',', ItemsThen(items[1..], "]" + rest));
      ItemsRead(b, j + 1, items[1..], depth, rest);
    }
    ItemsMeet(b, at, next, items, depth, |b| - |Encode(rest)|);
  }

  lemma StartsHere(s: string)
    requires StartsTree(s)
    ensures Starts(s)
  {
  }

  /** What is read for the first item and for those after its comma is what is read for all. */
  lemma ItemsMeet(b: Bytes, at: nat, next: nat, items: seq<Item>, depth: nat, end: nat)
    requires items != [] && AreItems(items) && at <= |b| && next <= |b|
    requires Answers(ValueAt(b, at, depth), TreeMeaning(items[0].tree), next, depth + Depth(items[0].tree))
    requires var j := Space(b, next);
             if |items| == 1 then Here(b, j, CLOSE_BRACKET) && j + 1 == end
             else Here(b, j, COMMA)
                  && Answers(ItemsAt(b, j + 1, depth), ItemMeanings(items[1..]), end, depth + ItemsDepth(items[1..]))
    ensures Answers(ItemsAt(b, at, depth), ItemMeanings(items), end, depth + ItemsDepth(items))
  {
    hide ValueAt, ItemsAt, Space, Depth, TreeMeaning, IsTree, Here;
    var m := TreeMeaning(items[0].tree);
    assert ItemMeanings(items) == [m] + ItemMeanings(items[1..]);
    assert ItemsDepth(items) == Max(Depth(items[0].tree), ItemsDepth(items[1..]));
    if |items| == 1 {
      assert items[1..] == [] && ItemsDepth(items[1..]) == 0 && ItemMeanings(items[1..]) == [];
      assert [m] + [] == [m];
    }
    if depth + Depth(items[0].tree) > MAX_DEPTH {
      ItemsFail(b, at, depth);
    } else {
      AfterFirstItem(b, at, next, TreeMeaning(items[0].tree), depth);
    }
  }

  lemma {:induction false} EntryRead(b: Bytes, at: nat, x: Entry, depth: nat, more: string)
    requires IsKeyed(x) && IsTree(x.tree) && depth <= MAX_DEPTH && GoesOn(more, '}')
    requires at <= |b| && b[at..] == Encode(x.before + EntryThen(x, more))
    ensures |Encode(x.after + more)| <= |b| && b[|b| - |Encode(x.after + more)|..] == Encode(x.after + more)
    ensures Answers(MemberAt(b, at, depth), Member(Meanings(x.key), TreeMeaning(x.tree)), |b| - |Encode(x.after + more)|, depth + Depth(x.tree))
    decreases x, 0
  {
    hide Encode, ValueAt, StringAt, TreeThen, TreeMeaning, Depth, IsTree, IsBlank, IsSpace, Space, EndsNumber,
         QuotedThen, Meanings, AreSpellings, Starts;
    var value := TreeThen(x.tree, x.after + more);
    var behind := x.colon + (":" + (x.gap + value));
    EntryTaken(b, at, x, more);
    var i := Space(b, at);
    QuotedRead(b, i, x.key, behind);
    QuotedSuffix(x.key, behind);
    SuffixBytes(b, i, QuotedThen(x.key, behind), behind);
    var next := |b| - |Encode(behind)|;
    SpaceTaken(b, next, x.colon, ":" + (x.gap + value)) by { ColonStarts(x.gap + value); }
    var j := Space(b, next);
    CharTaken(b, j, ':', x.gap + value);
    TreeStarts(x.tree, x.after + more);
    SpaceTaken(b, j + 1, x.gap, value) by { StartsHere(value); }
    SpaceBeforeValue(b, j + 1, depth);
    EndsAfter(x.after, more, '}');
    TreeRead(b, Space(b, j + 1), x.tree, depth, x.after + more);
    TreeSuffix(x.tree, x.after + more);
    SuffixBytes(b, Space(b, j + 1), value, x.after + more);
  }

  lemma ColonStarts(rest: string)
    ensures Starts(":" + rest)
  {
    NoSpaces();
  }

  lemma {:induction false} EntriesRead(b: Bytes, at: nat, entries: seq<Entry>, depth: nat, rest: string)
    requires entries != [] && AreEntries(entries) && depth <= MAX_DEPTH
    requires at <= |b| && b[at..] == Encode(EntriesThen(entries, "}" + rest))
    ensures |Encode(rest)| <= |b|
    ensures Answers(MembersAt(b, at, depth), EntryMeanings(entries), |b| - |Encode(rest)|, depth + EntriesDepth(entries))
    decreases entries, 0
  {
    hide Encode, MemberAt, MembersAt, EntryThen, TreeMeaning, Depth, IsTree, IsBlank, IsSpace, Space, EndsNumber,
         Answers, EntryMeanings, EntriesDepth, Starts;
    var x, more := entries[0], MoreEntriesText(entries, "}" + rest);
    EntryRead(b, at, x, depth, more);
    var next := |b| - |Encode(x.after + more)|;
    EndsAfter(x.after, more, '}');
    SpaceTaken(b, next, x.after, more);
    var j := Space(b, next);
    if |entries| == 1 {
      CharTaken(b, j, '}', rest);
      assert |b[j + 1..]| == |Encode(rest)|;
    } else {
      CharTaken(b, j, ',', EntriesThen(entries[1..], "}" + rest));
      EntriesRead(b, j + 1, entries[1..], depth, rest);
    }
    EntriesMeet(b, at, next, entries, depth, |b| - |Encode(rest)|);
  }

  lemma EntriesMeet(b: Bytes, at: nat, next: nat, entries: seq<Entry>, depth: nat, end: nat)
    requires entries != [] && AreEntries(entries) && at <= |b| && next <= |b|
    requires Answers(MemberAt(b, at, depth), Member(Meanings(entries[0].key), TreeMeaning(entries[0].tree)), next, depth + Depth(entries[0].tree))
    requires var j := Space(b, next);
             if |entries| == 1 then Here(b, j, CLOSE_BRACE) && j + 1 == end
             else Here(b, j, COMMA)
                  && Answers(MembersAt(b, j + 1, depth), EntryMeanings(entries[1..]), end, depth + EntriesDepth(entries[1..]))
    ensures Answers(MembersAt(b, at, depth), EntryMeanings(entries), end, depth + EntriesDepth(entries))
  {
    hide MemberAt, MembersAt, Space, Depth, TreeMeaning, IsTree, Meanings, Here;
    var m := Member(Meanings(entries[0].key), TreeMeaning(entries[0].tree));
    assert EntryMeanings(entries) == [m] + EntryMeanings(entries[1..]);
    assert EntriesDepth(entries) == Max(Depth(entries[0].tree), EntriesDepth(entries[1..]));
    if |entries| == 1 {
      assert entries[1..] == [] && EntriesDepth(entries[1..]) == 0 && EntryMeanings(entries[1..]) == [];
      assert [m] + [] == [m];
    }
    if depth + Depth(entries[0].tree) > MAX_DEPTH {
      MembersFail(b, at, depth);
    } else {
      AfterFirstMember(b, at, next, Member(Meanings(entries[0].key), TreeMeaning(entries[0].tree)), depth);
    }
  }

  // ---- documents ----------------------------------------------------------------------------------

  /** A document reads as its one value, however it is written, when that nests at most 128 deep, and is
      refused for its depth otherwise. */
  lemma DocumentIsRead(before: string, t: Tree, after: string)
    requires IsBlank(before) && IsTree(t) && IsBlank(after)
    ensures Depth(t) <= 128 ==> Parse(before + TreeThen(t, after)) == Ok(TreeMeaning(t))
    ensures Depth(t) > 128 ==>
              var r := Parse(before + TreeThen(t, after));
              r.Err? && r.error.what == TooDeep
  {
    hide Encode, ValueAt, TreeThen, TreeMeaning, Depth, IsTree, Space;
    BlankEndsNumber(after);
    var b := FirstValue(before, t, after);
    var next := |b| - |Encode(after)|;
    if Depth(t) <= 128 {
      assert after + [] == after;
      SpaceTaken(b, next, after, []);
      EmptyBytes();
      assert |b[Space(b, next)..]| == 0;
    }
  }

  /** What follows a document's value, but for white space, is refused where it stands. */
  lemma TextAfterIsRefused(before: string, t: Tree, after: string, rest: string)
    requires IsBlank(before) && IsTree(t) && IsBlank(after) && Depth(t) <= 128
    requires rest != [] && Starts(rest) && EndsNumber(after + rest)
    ensures var text := before + TreeThen(t, after + rest);
            var r := Parse(text);
            r.Err? && r.error.what == TextAfter && r.error.at + |Encode(rest)| == |Encode(text)|
  {
    hide Encode, ValueAt, TreeThen, TreeMeaning, Depth, IsTree, Space, Starts;
    var b := FirstValue(before, t, after + rest);
    var next := |b| - |Encode(after + rest)|;
    SpaceTaken(b, next, after, rest);
    assert |b[Space(b, next)..]| == |Encode(rest)|;
    FirstByte(rest) by { StartsInAscii(rest); }
  }

  lemma StartsInAscii(rest: string)
    requires rest != [] && Starts(rest)
    ensures rest[0] as int < 0x80
  {
  }

  lemma BlankEndsNumber(after: string)
    requires IsBlank(after)
    ensures EndsNumber(after)
  {
    if after != [] {
      assert after[0] in after;
    }
  }

  lemma FirstValue(before: string, t: Tree, rest: string) returns (b: Bytes)
    requires IsBlank(before) && IsTree(t) && EndsNumber(rest)
    ensures b == Encode(before + TreeThen(t, rest)) && |Encode(rest)| <= |b| &&
            b[|b| - |Encode(rest)|..] == Encode(rest)
    ensures Answers(ValueAt(b, 0, 0), TreeMeaning(t), |b| - |Encode(rest)|, Depth(t))
  {
    hide Encode, ValueAt, TreeThen, TreeMeaning, Depth, IsTree, Space, IsBlank, EndsNumber, Starts;
    b := Encode(before + TreeThen(t, rest));
    assert b[0..] == b;
    TreeStarts(t, rest);
    StartsHere(TreeThen(t, rest));
    SpaceTaken(b, 0, before, TreeThen(t, rest));
    SpaceBeforeValue(b, 0, 0);
    TreeRead(b, Space(b, 0), t, 0, rest);
    TreeSuffix(t, rest);
    SuffixBytes(b, Space(b, 0), TreeThen(t, rest), rest);
  }
}
