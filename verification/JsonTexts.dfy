/** JSON as text. */
module JsonTexts {
  // The layout, the characters it holds, and the escapes no string may have.

  import opened ByteStrings
  import opened Json
  import opened JsonReader
  import opened JsonStrings
  import opened Numerals
  import opened Utf8
  import opened Wrappers

  // ---- no control characters --------------------------------------------------------------------

  /** A control character, or one that ends a line where JavaScript reads the text. */
  predicate IsBreakOrControl(c: char) {
    c as int <= 0x1F || c == '\U{7F}' || c == '\U{2028}' || c == '\U{2029}'
  }

  predicate IsPlain(s: string) {
    forall c <- s :: c == '\n' || !IsBreakOrControl(c)
  }

  lemma HexLowerIs(d: nat)
    requires d < 16
    ensures HexLower(d) == "0123456789abcdef"[d] && HexUpper(d) == "0123456789ABCDEF"[d]
  {
  }

  lemma EscapedChar(c: char)
    ensures forall x <- EscapeChar(c) :: !IsBreakOrControl(x)
    ensures '\"' in EscapeChar(c) ==> |EscapeChar(c)| == 2 && EscapeChar(c)[0] == '\\'
  {
    hide Hex4Lower;
    if NeedsUnicodeEscape(c) {
      DigitsArePlain(c as nat);
    }
  }

  lemma DigitsArePlain(n: nat)
    requires n < 0x10000
    ensures forall x <- Hex4Lower(n) :: '0' <= x <= '9' || 'a' <= x <= 'f'
  {
  }

  /** Nothing in a written string is a control character. */
  lemma {:induction false} EscapedHasNoControls(s: string)
    ensures forall x <- Escape(s) :: !IsBreakOrControl(x)
  {
    hide EscapeChar, IsBreakOrControl;
    EscapedCharsHaveNone(s);
    QuoteIsNone();
  }

  lemma QuoteIsNone()
    ensures !IsBreakOrControl('\"')
  {
  }

  lemma {:induction false} EscapedCharsHaveNone(s: string)
    ensures forall x <- EscapeChars(s) :: !IsBreakOrControl(x)
  {
    hide EscapeChar, IsBreakOrControl;
    if s != [] {
      EscapedChar(s[0]);
      EscapedCharsHaveNone(s[1..]);
    }
  }

  /** Two spaces for every level. */
  lemma {:induction false} IndentationIs(depth: nat)
    ensures |Indentation(depth)| == 2 * depth && forall x <- Indentation(depth) :: x == ' '
  {
    if depth > 0 {
      IndentationIs(depth - 1);
    }
  }

  lemma {:induction false} PrintIsPlain(v: Value, depth: nat)
    requires InRange(v)
    ensures IsPlain(Print(v, depth))
    decreases v, 1
  {
    hide Escape, IntText, Indentation, IsBreakOrControl, PrintItems, PrintPairs;
    Punctuation();
    IndentationIs(depth);
    match v
    case Null =>
    case Bool(_) =>
    case Int(n) => NumberIsPlain(n);
    case Str(s) => EscapedHasNoControls(s);
    case Arr(items) => ItemsArePlain(items, depth + 1, "\n");
    case Obj(pairs) => PairsArePlain(pairs, depth + 1, "\n");
  }

  lemma Punctuation()
    ensures forall c <- "truefalsn[]{}, :-0123456789" :: !IsBreakOrControl(c)
  {
  }

  lemma NumberIsPlain(n: int)
    ensures IsPlain(IntText(n))
  {
  }

  lemma {:induction false} ItemsArePlain(items: seq<Value>, depth: nat, before: string)
    requires (forall x <- items :: InRange(x)) && IsPlain(before)
    ensures IsPlain(PrintItems(items, depth, before))
    decreases items, 0
  {
    hide Print, Indentation, IsBreakOrControl;
    if items != [] {
      Punctuation();
      IndentationIs(depth);
      assert items[0] in items && forall x <- items[1..] :: x in items;
      PrintIsPlain(items[0], depth);
      ItemsArePlain(items[1..], depth, ",\n");
    }
  }

  lemma {:induction false} PairsArePlain(pairs: seq<Member>, depth: nat, before: string)
    requires (forall x <- pairs :: InRange(x.value)) && IsPlain(before)
    ensures IsPlain(PrintPairs(pairs, depth, before))
    decreases pairs, 0
  {
    hide Print, Indentation, IsBreakOrControl, Escape;
    if pairs != [] {
      Punctuation();
      IndentationIs(depth);
      assert pairs[0] in pairs && forall x <- pairs[1..] :: x in pairs;
      EscapedHasNoControls(pairs[0].key);
      PrintIsPlain(pairs[0].value, depth);
      PairsArePlain(pairs[1..], depth, ",\n");
    }
  }

  /** Rendered text holds no control character but the line feeds between its lines. */
  lemma RenderedIsPlain(v: Value)
    requires InRange(v)
    ensures IsPlain(Render(v))
  {
    hide Print, IsBreakOrControl;
    PrintIsPlain(v, 0);
  }

  // ---- the layout -------------------------------------------------------------------------------

  lemma LastItem(v: Value, depth: nat, before: string)
    ensures PrintItems([v], depth, before) == before + (Indentation(depth) + Print(v, depth))
  {
    hide Indentation, Print;
    assert [v][1..] == [] && Print(v, depth) + [] == Print(v, depth);
  }

  lemma FirstItem(v: Value, w: Value, depth: nat, before: string)
    ensures PrintItems([v, w], depth, before) == before + (Indentation(depth) + (Print(v, depth) + PrintItems([w], depth, ",\n")))
  {
    hide Indentation, Print;
    assert [v, w][1..] == [w];
  }

  lemma LastPair(key: string, v: Value, depth: nat, before: string)
    ensures PrintPairs([Member(key, v)], depth, before)
            == before + (Indentation(depth) + (Escape(key) + (": " + Print(v, depth))))
  {
    hide Indentation, Print, Escape;
    assert [Member(key, v)][1..] == [] && Print(v, depth) + [] == Print(v, depth);
  }

  lemma IndentationsAre()
    ensures Indentation(0) == "" && Indentation(1) == "  " && Indentation(2) == "    "
  {
  }

  lemma KeyIs()
    ensures Escape("a") == "\"a\""
  {
    assert "a"[1..] == [];
  }

  /** A list as it is laid out: an item to a line, two spaces in. */
  lemma ListIsLaidOut(v: Value, w: Value)
    ensures Render(Arr([v, w])) == "[\n  " + (Print(v, 1) + (",\n  " + (Print(w, 1) + "\n]\n")))
  {
    hide Indentation, PrintItems;
    IndentationsAre();
    LastItem(w, 1, ",\n");
    FirstItem(v, w, 1, "\n");
    hide Print;
    var x, y := Print(v, 1), Print(w, 1);
    SecondLine(y);
    FirstLines(x, ",\n" + ("  " + y));
  }

  lemma SecondLine(y: string)
    ensures ((",\n" + ("  " + y)) + "\n]") + "\n" == ",\n  " + (y + "\n]\n")
  {
  }

  lemma FirstLines(x: string, tail: string)
    ensures ("[" + (("\n" + ("  " + (x + tail))) + ("\n" + ("" + "]")))) + "\n"
            == "[\n  " + (x + ((tail + "\n]") + "\n"))
  {
  }

  /** An object: a member to a line, a colon and a space between its key and its value. */
  lemma ObjectIsLaidOut(v: Value)
    ensures Render(Obj([Member("a", v)])) == "{\n  \"a\": " + (Print(v, 1) + "\n}\n")
  {
    hide Indentation, PrintPairs, Escape;
    IndentationsAre();
    KeyIs();
    LastPair("a", v, 1, "\n");
    var x := Print(v, 1);
    assert ("{" + (("\n" + ("  " + ("\"a\"" + (": " + x)))) + ("\n" + ("" + "}")))) + "\n" == "{\n  \"a\": " + (x + "\n}\n");
  }

  // ---- escapes that are refused -----------------------------------------------------------------

  /** What a `\u` may be followed by: four hexadecimal digits, or a plus sign and three. */
  lemma DigitsAreTaken(b: Bytes, at: nat)
    ensures Hex4(b, at).Ok? <==>
            at + 4 <= |b| && (HexDigitAt(b, at) || b[at] == '+' as Byte)
            && HexDigitAt(b, at + 1) && HexDigitAt(b, at + 2) && HexDigitAt(b, at + 3)
  {
    if at + 4 <= |b| {
      var s := Chars(b[at..at + 4]);
      assert s[0] == b[at] as char && s[1] == b[at + 1] as char && s[2] == b[at + 2] as char &&
             s[3] == b[at + 3] as char;
      assert s == [s[0], s[1], s[2], s[3]] && s[1..] == [s[1], s[2], s[3]];
      AllAreDigits([], s[1], s[2], s[3]);
      AllAreDigits([s[0]], s[1], s[2], s[3]);
      OneIsDigit(s[0]);
      assert [] + [s[1], s[2], s[3]] == s[1..] && [s[0]] + [s[1], s[2], s[3]] == s;
    }
  }

  predicate HexDigitAt(b: Bytes, k: nat)
    requires k < |b|
  {
    48 <= b[k] <= 57 || 65 <= b[k] <= 70 || 97 <= b[k] <= 102
  }

  lemma DigitBehind(front: string, x: char)
    ensures HexDigits(front + [x]).Some? <==> HexDigits(front).Some? && HexDigit(x).Some?
  {
    assert (front + [x])[..|front|] == front;
  }

  lemma AllAreDigits(front: string, x: char, y: char, z: char)
    ensures HexDigits(front + [x, y, z]).Some?
            <==> HexDigits(front).Some? && HexDigit(x).Some? && HexDigit(y).Some? && HexDigit(z).Some?
  {
    hide HexDigits, HexDigit;
    DigitBehind(front, x);
    DigitBehind(front + [x], y);
    DigitBehind(front + [x] + [y], z);
    assert front + [x] + [y] + [z] == front + [x, y, z];
  }

  lemma OneIsDigit(x: char)
    ensures HexDigits([]) == Some(0) && (HexDigits([x]).Some? <==> HexDigit(x).Some?)
  {
    assert [x][..0] == [];
  }

  predicate IsSurrogate(n: nat) {
    0xD800 <= n <= 0xDFFF
  }

  /** Half a character is refused: a low surrogate, or a high one with no `\u` after it. */
  lemma LoneSurrogateIsRefused(b: Bytes, at: nat, d: string, rest: Bytes)
    requires IsHex4(d) && IsSurrogate(Value4(d)) && at <= |b| && b[at..] == ESCAPE_U + (Encode(d) + rest)
    requires Value4(d) >= 0xDC00 || !(ESCAPE_U <= rest)
    ensures StringBytes(b, at) == Err(Failure(LoneSurrogate, at + 6))
  {
    hide Hex4, Encode, Value4;
    TakeAll(b, at, ESCAPE_U, Encode(d) + rest);
    assert b[at] == b[at..at + 2][0] && b[at + 1] == b[at..at + 2][1];
    DigitsRead(b, at + 2, d, rest);
    if Here(b, at + 6, BACKSLASH) && Here(b, at + 7, 'u' as Byte) {
      assert rest[..2] == [b[at + 6..][0], b[at + 6..][1]];
    }
  }

  /** And so is a high surrogate with anything but a low one after it. */
  lemma MismatchedPairIsRefused(b: Bytes, at: nat, h: string, d: string, rest: Bytes)
    requires IsHex4(h) && IsHex4(d) && 0xD800 <= Value4(h) <= 0xDBFF && !(0xDC00 <= Value4(d) <= 0xDFFF) && at <= |b|
    requires b[at..] == ESCAPE_U + (Encode(h) + (ESCAPE_U + (Encode(d) + rest)))
    ensures StringBytes(b, at) == Err(Failure(LoneSurrogate, at + 12))
  {
    hide Hex4, Encode, Value4;
    var second := ESCAPE_U + (Encode(d) + rest);
    TakeAll(b, at, ESCAPE_U, Encode(h) + second);
    assert b[at] == b[at..at + 2][0] && b[at + 1] == b[at..at + 2][1];
    DigitsRead(b, at + 2, h, second);
    TakeAll(b, at + 6, ESCAPE_U, Encode(d) + rest);
    assert b[at + 6] == b[at + 6..at + 8][0] && b[at + 7] == b[at + 6..at + 8][1];
    DigitsRead(b, at + 8, d, rest);
  }

  /** A letter that is none of the nine is no escape. */
  lemma UnknownEscapeIsRefused(b: Bytes, at: nat, letter: Byte)
    requires at + 2 <= |b| && b[at] == BACKSLASH && b[at + 1] == letter && letter != 'u' as Byte
    requires letter >= 0x80 || ShortMeaning(letter as int as char) == None
    ensures StringBytes(b, at) == Err(Failure(UnknownEscape, at + 2))
  {
    ShortEscapesAre(letter);
  }
}
