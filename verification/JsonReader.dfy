/**
 The JSON reader: a cursor over bytes that descends recursively and refuses to nest more than 128 deep, and
 says where it stopped.
 */
module JsonReader {
  import opened ByteStrings
  import opened Json
  import opened Numerals
  import opened Utf8
  import opened Wrappers

  datatype Problem =
    | TextAfter
    | Expected(byte: Byte)
    | UnexpectedCharacter
    | UnexpectedEnd
    | TooDeep
    | ExpectedKey
    | ExpectedCommaOr(close: Byte)
    | Unterminated
    | UnknownEscape
    | NotUtf8
    | LoneSurrogate
    | BadEscape

  /** What stopped the reader, and where. */
  datatype Failure = Failure(what: Problem, at: nat)

  type Read<T> = Result<(T, nat), Failure>

  const MAX_DEPTH: nat := 128

  const QUOTE: Byte := '\"' as Byte
  const BACKSLASH: Byte := '\\' as Byte
  const OPEN_BRACE: Byte := '{' as Byte
  const CLOSE_BRACE: Byte := '}' as Byte
  const OPEN_BRACKET: Byte := '[' as Byte
  const CLOSE_BRACKET: Byte := ']' as Byte
  const COLON: Byte := ':' as Byte
  const COMMA: Byte := ',' as Byte

  // ---- the reader as functions of the cursor ----------------------------------------------------

  predicate IsSpace(b: Byte) {
    b == ' ' as Byte || b == '\t' as Byte || b == '\n' as Byte || b == '\r' as Byte
  }

  function Space(b: Bytes, at: nat): (r: nat)
    requires at <= |b|
    ensures at <= r <= |b|
    ensures forall k :: at <= k < r ==> IsSpace(b[k])
    ensures r < |b| ==> !IsSpace(b[r])
    decreases |b| - at
  {
    if at < |b| && IsSpace(b[at]) then Space(b, at + 1) else at
  }

  predicate Here(b: Bytes, at: nat, x: Byte) {
    at < |b| && b[at] == x
  }

  function Eat(b: Bytes, at: nat, x: Byte): (r: Result<nat, Failure>)
    requires at <= |b|
    ensures r.Ok? ==> at < r.value <= |b|
  {
    var i := Space(b, at);
    if Here(b, i, x) then Ok(i + 1) else Err(Failure(Expected(x), i))
  }

  predicate IsNumberByte(b: Byte) {
    IsDigit(b) || b == '-' as Byte || b == '+' as Byte || b == '.' as Byte || b == 'e' as Byte || b == 'E' as Byte
  }

  function NumberEnd(b: Bytes, at: nat): (r: nat)
    requires at <= |b|
    ensures at <= r <= |b|
    ensures forall k :: at <= k < r ==> IsNumberByte(b[k])
    ensures r < |b| ==> !IsNumberByte(b[r])
    decreases |b| - at
  {
    if at < |b| && IsNumberByte(b[at]) then NumberEnd(b, at + 1) else at
  }

  /** Bytes as characters of the same code. */
  function Chars(b: Bytes): (s: string)
    ensures |s| == |b| && forall k :: 0 <= k < |b| ==> s[k] == b[k] as char
  {
    seq(|b|, k requires 0 <= k < |b| => b[k] as char)
  }

  /** The value a numeral denotes: an integer if 64 bits hold it, and otherwise the numeral itself. */
  function NumberValue(text: string): Value {
    match ParseI64(text)
    case Some(n) => Int(n)
    case None => Str(text)
  }

  function Hex4(b: Bytes, at: nat): (r: Read<nat>)
    ensures r.Ok? ==> r.value.1 == at + 4 <= |b|
  {
    if at + 4 > |b| then Err(Failure(BadEscape, at))
    else
      match ParseHex(Chars(b[at..at + 4]))
      case Some(n) => Ok((n, at + 4))
      case None => Err(Failure(BadEscape, at))
  }

  predicate IsHighSurrogate(n: nat) {
    0xD800 <= n < 0xDC00
  }

  predicate IsLowSurrogate(n: nat) {
    0xDC00 <= n < 0xE000
  }

  function Combined(high: nat, low: nat): nat
    requires IsHighSurrogate(high) && IsLowSurrogate(low)
  {
    0x10000 + (high - 0xD800) * 0x400 + (low - 0xDC00)
  }

  function Scalar(n: nat, at: nat): (r: Read<char>)
    ensures r.Ok? ==> r.value.1 == at
  {
    if IsScalar(n) then Ok((n as char, at)) else Err(Failure(LoneSurrogate, at))
  }

  /** The character whose code the digits at `at` begin, and where its spelling ends: past four digits, or past
      the low surrogate that completes a high one. */
  function Unicode(b: Bytes, at: nat): (r: Read<char>)
    ensures r.Ok? ==> at < r.value.1 <= |b|
  {
    match Hex4(b, at)
    case Err(e) => Err(e)
    case Ok((high, i)) =>
      if IsHighSurrogate(high) && Here(b, i, BACKSLASH) && Here(b, i + 1, 'u' as Byte) then
        match Hex4(b, i + 2)
        case Err(e) => Err(e)
        case Ok((low, j)) =>
          if !IsLowSurrogate(low) then Err(Failure(LoneSurrogate, j))
          else Scalar(Combined(high, low), j)
      else Scalar(high, i)
  }

  function ShortEscape(b: Byte): Option<char> {
    if b == QUOTE then Some('\"')
    else if b == BACKSLASH then Some('\\')
    else if b == '/' as Byte then Some('/')
    else if b == 'b' as Byte then Some('\U{8}')
    else if b == 'f' as Byte then Some('\U{C}')
    else if b == 'n' as Byte then Some('\n')
    else if b == 'r' as Byte then Some('\r')
    else if b == 't' as Byte then Some('\t')
    else None
  }

  /** The character of the escape whose letter is at `at`. */
  function Escaped(b: Bytes, at: nat): (r: Read<char>)
    ensures r.Ok? ==> at < r.value.1 <= |b|
  {
    if at >= |b| then Err(Failure(Unterminated, at))
    else if b[at] == 'u' as Byte then Unicode(b, at + 1)
    else
      match ShortEscape(b[at])
      case Some(c) => Ok((c, at + 1))
      case None => Err(Failure(UnknownEscape, at + 1))
  }

  function Before(out: Bytes, rest: Read<Bytes>): Read<Bytes> {
    match rest
    case Ok((more, end)) => Ok((out + more, end))
    case Err(e) => Err(e)
  }

  /** What the string being read at `at` still contains, and where reading goes on after it. */
  function StringBytes(b: Bytes, at: nat): (r: Read<Bytes>)
    requires at <= |b|
    ensures r.Ok? ==> at < r.value.1 <= |b|
    decreases |b| - at
  {
    if at == |b| then Err(Failure(Unterminated, at))
    else if b[at] == QUOTE then Ok(([], at + 1))
    else if b[at] == BACKSLASH then
      match Escaped(b, at + 1)
      case Err(e) => Err(e)
      case Ok((c, next)) => Before(EncodeChar(c), StringBytes(b, next))
    else Before([b[at]], StringBytes(b, at + 1))
  }

  /** The string whose opening quote is at `at`. */
  function StringAt(b: Bytes, at: nat): (r: Read<string>)
    requires at < |b|
    ensures r.Ok? ==> at < r.value.1 <= |b|
  {
    match StringBytes(b, at + 1)
    case Err(e) => Err(e)
    case Ok((bytes, end)) =>
      match Decode(bytes)
      case Some(s) => Ok((s, end))
      case None => Err(Failure(NotUtf8, end))
  }

  const TRUE: Bytes := Ascii("true")
  const FALSE: Bytes := Ascii("false")
  const NULL: Bytes := Ascii("null")

  function Word(b: Bytes, at: nat, word: Bytes, v: Value): (r: Read<Value>)
    requires at <= |b| && word != []
    ensures r.Ok? ==> at < r.value.1 <= |b|
  {
    if OccursAt(b, at, word) then Ok((v, at + |word|)) else Err(Failure(UnexpectedCharacter, at))
  }

  function ValueAt(b: Bytes, at: nat, depth: nat): (r: Read<Value>)
    requires at <= |b|
    ensures r.Ok? ==> at < r.value.1 <= |b|
    decreases |b| - at, 3
  {
    var i := Space(b, at);
    if i == |b| then Err(Failure(UnexpectedEnd, i))
    else if b[i] == OPEN_BRACE || b[i] == OPEN_BRACKET then
      if depth + 1 > MAX_DEPTH then Err(Failure(TooDeep, i))
      else if b[i] == OPEN_BRACE then ObjectAt(b, i, depth + 1)
      else ArrayAt(b, i, depth + 1)
    else if b[i] == QUOTE then
      match StringAt(b, i)
      case Ok((s, end)) => Ok((Str(s), end))
      case Err(e) => Err(e)
    else if b[i] == 't' as Byte then Word(b, i, TRUE, Bool(true))
    else if b[i] == 'f' as Byte then Word(b, i, FALSE, Bool(false))
    else if b[i] == 'n' as Byte then Word(b, i, NULL, Null)
    else if b[i] == '-' as Byte || IsDigit(b[i]) then
      var end := NumberEnd(b, i);
      Ok((NumberValue(Chars(b[i..end])), end))
    else Err(Failure(UnexpectedCharacter, i))
  }

  /** The array whose bracket is at `at`. */
  function ArrayAt(b: Bytes, at: nat, depth: nat): (r: Read<Value>)
    requires Here(b, at, OPEN_BRACKET)
    ensures r.Ok? ==> at < r.value.1 <= |b|
    decreases |b| - at, 2
  {
    var i := Space(b, at + 1);
    if Here(b, i, CLOSE_BRACKET) then Ok((Arr([]), i + 1))
    else
      match ItemsAt(b, i, depth)
      case Ok((items, end)) => Ok((Arr(items), end))
      case Err(e) => Err(e)
  }

  function BeforeItem(v: Value, rest: Read<seq<Value>>): Read<seq<Value>> {
    match rest
    case Ok((more, end)) => Ok(([v] + more, end))
    case Err(e) => Err(e)
  }

  /** The items from `at`, past the closing bracket. */
  function ItemsAt(b: Bytes, at: nat, depth: nat): (r: Read<seq<Value>>)
    requires at <= |b|
    ensures r.Ok? ==> at < r.value.1 <= |b|
    decreases |b| - at, 4
  {
    match ValueAt(b, at, depth)
    case Err(e) => Err(e)
    case Ok((v, next)) =>
      var i := Space(b, next);
      if Here(b, i, COMMA) then BeforeItem(v, ItemsAt(b, i + 1, depth))
      else if Here(b, i, CLOSE_BRACKET) then Ok(([v], i + 1))
      else Err(Failure(ExpectedCommaOr(CLOSE_BRACKET), i))
  }

  function ObjectAt(b: Bytes, at: nat, depth: nat): (r: Read<Value>)
    requires Here(b, at, OPEN_BRACE)
    ensures r.Ok? ==> at < r.value.1 <= |b|
    decreases |b| - at, 2
  {
    var i := Space(b, at + 1);
    if Here(b, i, CLOSE_BRACE) then Ok((Obj([]), i + 1))
    else
      match MembersAt(b, i, depth)
      case Ok((pairs, end)) => Ok((Obj(pairs), end))
      case Err(e) => Err(e)
  }

  function BeforeMember(m: Member, rest: Read<seq<Member>>): Read<seq<Member>> {
    match rest
    case Ok((more, end)) => Ok(([m] + more, end))
    case Err(e) => Err(e)
  }

  function MemberAt(b: Bytes, at: nat, depth: nat): (r: Read<Member>)
    requires at <= |b|
    ensures r.Ok? ==> at < r.value.1 <= |b|
    decreases |b| - at, 4
  {
    var i := Space(b, at);
    if !Here(b, i, QUOTE) then Err(Failure(ExpectedKey, i))
    else
      match StringAt(b, i)
      case Err(e) => Err(e)
      case Ok((key, next)) =>
        match Eat(b, next, COLON)
        case Err(e) => Err(e)
        case Ok(j) =>
          match ValueAt(b, j, depth)
          case Err(e) => Err(e)
          case Ok((v, end)) => Ok((Member(key, v), end))
  }

  function MembersAt(b: Bytes, at: nat, depth: nat): (r: Read<seq<Member>>)
    requires at <= |b|
    ensures r.Ok? ==> at < r.value.1 <= |b|
    decreases |b| - at, 5
  {
    match MemberAt(b, at, depth)
    case Err(e) => Err(e)
    case Ok((m, next)) =>
      var i := Space(b, next);
      if Here(b, i, COMMA) then BeforeMember(m, MembersAt(b, i + 1, depth))
      else if Here(b, i, CLOSE_BRACE) then Ok(([m], i + 1))
      else Err(Failure(ExpectedCommaOr(CLOSE_BRACE), i))
  }

  /** A whole document. */
  function Parse(text: string): Result<Value, Failure> {
    var b := Encode(text);
    match ValueAt(b, 0, 0)
    case Err(e) => Err(e)
    case Ok((v, next)) =>
      var i := Space(b, next);
      if i != |b| then Err(Failure(TextAfter, i)) else Ok(v)
  }

  // ---- the reader as it runs --------------------------------------------------------------------

  /** A result without the cursor, which the reader holds itself. */
  function Only<T>(r: Read<T>): Result<T, Failure> {
    match r
    case Ok((v, _)) => Ok(v)
    case Err(e) => Err(e)
  }

  class Reader {
    const bytes: Bytes
    var at: nat
    var depth: nat

    constructor (bytes: Bytes)
      ensures this.bytes == bytes && at == 0 && depth == 0
    {
      this.bytes := bytes;
      at := 0;
      depth := 0;
    }

    ghost predicate Valid()
      reads this
    {
      at <= |bytes|
    }

    function Fail(what: Problem): Failure
      reads this
    {
      Failure(what, at)
    }

    method SkipSpace()
      requires Valid()
      modifies this`at
      ensures Valid() && at == Space(bytes, old(at))
    {
      while at < |bytes| && IsSpace(bytes[at])
        invariant Valid() && Space(bytes, at) == Space(bytes, old(at))
      {
        at := at + 1;
      }
    }

    method EatByte(x: Byte) returns (r: Result<(), Failure>)
      requires Valid()
      modifies this`at
      ensures match Eat(bytes, old(at), x) {
                case Ok(next) => r.Ok? && Valid() && at == next
                case Err(e) => r == Err(e)
              }
    {
      SkipSpace();
      if at < |bytes| && bytes[at] == x {
        at := at + 1;
        return Ok(());
      }
      return Err(Fail(Expected(x)));
    }

    method ReadNumber() returns (v: Value)
      requires Valid()
      modifies this`at
      ensures Valid() && at == NumberEnd(bytes, old(at)) && v == NumberValue(Chars(bytes[old(at)..at]))
    {
      var start := at;
      while at < |bytes| && IsNumberByte(bytes[at])
        invariant start <= at <= |bytes| && NumberEnd(bytes, at) == NumberEnd(bytes, start)
      {
        at := at + 1;
      }
      return NumberValue(Chars(bytes[start..at]));
    }

    method ReadHex4() returns (r: Result<nat, Failure>)
      modifies this`at
      ensures r == Only(Hex4(bytes, old(at)))
      ensures r.Ok? ==> at == old(at) + 4 <= |bytes|
    {
      if at + 4 > |bytes| {
        return Err(Fail(BadEscape));
      }
      var digits := ParseHex(Chars(bytes[at..at + 4]));
      if digits.None? {
        return Err(Fail(BadEscape));
      }
      at := at + 4;
      return Ok(digits.value);
    }

    method ReadUnicode() returns (r: Result<char, Failure>)
      modifies this`at
      ensures r == Only(Unicode(bytes, old(at)))
      ensures r.Ok? ==> at == Unicode(bytes, old(at)).value.1
    {
      var high := ReadHex4();
      if high.Err? {
        return Err(high.error);
      }
      var code := high.value;
      if IsHighSurrogate(high.value) && at + 1 < |bytes| && bytes[at] == BACKSLASH && bytes[at + 1] == 'u' as Byte {
        at := at + 2;
        var low := ReadHex4();
        if low.Err? {
          return Err(low.error);
        }
        if !IsLowSurrogate(low.value) {
          return Err(Fail(LoneSurrogate));
        }
        code := Combined(high.value, low.value);
      }
      if !IsScalar(code) {
        return Err(Fail(LoneSurrogate));
      }
      return Ok(code as char);
    }

    method ReadString() returns (r: Result<string, Failure>)
      requires at < |bytes|
      modifies this`at
      ensures r == Only(StringAt(bytes, old(at)))
      ensures r.Ok? ==> Valid() && at == StringAt(bytes, old(at)).value.1
    {
      hide Unicode, Decode, EncodeChar, ShortEscape;
      ghost var start := at + 1;
      at := at + 1;
      var out: Bytes := [];
      NothingBefore(StringBytes(bytes, start));
      while true
        invariant start <= at <= |bytes|
        invariant StringBytes(bytes, start) == Before(out, StringBytes(bytes, at))
        decreases |bytes| - at
      {
        if at == |bytes| {
          return Err(Fail(Unterminated));
        }
        var byte := bytes[at];
        ghost var from := at;
        at := at + 1;
        if byte == QUOTE {
          assert out + [] == out;
          break;
        } else if byte == BACKSLASH {
          if at == |bytes| {
            return Err(Fail(Unterminated));
          }
          var escaped := bytes[at];
          at := at + 1;
          var c: char;
          if escaped == 'u' as Byte {
            var u := ReadUnicode();
            if u.Err? {
              return Err(u.error);
            }
            c := u.value;
          } else {
            var short := ShortEscape(escaped);
            if short.None? {
              return Err(Fail(UnknownEscape));
            }
            c := short.value;
          }
          OneBefore(out, EncodeChar(c), StringBytes(bytes, at));
          out := out + EncodeChar(c);
        } else {
          OneBefore(out, [byte], StringBytes(bytes, at));
          out := out + [byte];
        }
      }
      var text := Decode(out);
      if text.None? {
        return Err(Fail(NotUtf8));
      }
      return Ok(text.value);
    }

    method ReadWord(word: Bytes, v: Value) returns (r: Result<Value, Failure>)
      requires Valid() && word != []
      modifies this`at
      ensures r == Only(Word(bytes, old(at), word, v))
      ensures r.Ok? ==> Valid() && at == old(at) + |word|
    {
      if at + |word| <= |bytes| && bytes[at..at + |word|] == word {
        at := at + |word|;
        return Ok(v);
      }
      return Err(Fail(UnexpectedCharacter));
    }

    method ReadValue() returns (r: Result<Value, Failure>)
      requires Valid()
      modifies this
      ensures r == Only(ValueAt(bytes, old(at), old(depth)))
      ensures r.Ok? ==> Valid() && at == ValueAt(bytes, old(at), old(depth)).value.1 && depth == old(depth)
      decreases |bytes| - at, 3
    {
      hide StringAt, ObjectAt, ArrayAt, NumberValue;
      SkipSpace();
      if at == |bytes| {
        return Err(Fail(UnexpectedEnd));
      }
      var byte := bytes[at];
      if byte == OPEN_BRACE || byte == OPEN_BRACKET {
        depth := depth + 1;
        if depth > MAX_DEPTH {
          return Err(Fail(TooDeep));
        }
        if byte == OPEN_BRACE {
          r := ReadObject();
        } else {
          r := ReadArray();
        }
        depth := if depth > 0 then depth - 1 else 0;
      } else if byte == QUOTE {
        var s := ReadString();
        r := match s { case Ok(text) => Ok(Str(text)) case Err(e) => Err(e) };
      } else if byte == 't' as Byte {
        r := ReadWord(TRUE, Bool(true));
      } else if byte == 'f' as Byte {
        r := ReadWord(FALSE, Bool(false));
      } else if byte == 'n' as Byte {
        r := ReadWord(NULL, Null);
      } else if byte == '-' as Byte || IsDigit(byte) {
        var v := ReadNumber();
        r := Ok(v);
      } else {
        r := Err(Fail(UnexpectedCharacter));
      }
    }

    method ReadArray() returns (r: Result<Value, Failure>)
      requires Here(bytes, at, OPEN_BRACKET)
      modifies this
      ensures r == Only(ArrayAt(bytes, old(at), old(depth)))
      ensures r.Ok? ==> Valid() && at == ArrayAt(bytes, old(at), old(depth)).value.1 && depth == old(depth)
      decreases |bytes| - at, 2
    {
      hide ValueAt, ItemsAt, ArrayAt, Space, Eat;
      ghost var start := at;
      ArrayUnfolds(bytes, start, depth);
      var eaten := EatByte(OPEN_BRACKET);
      EatBracket(bytes, start, OPEN_BRACKET);
      var items: seq<Value> := [];
      SkipSpace();
      if at < |bytes| && bytes[at] == CLOSE_BRACKET {
        at := at + 1;
        return Ok(Arr(items));
      }
      ghost var first := at;
      NoItemsBefore(ItemsAt(bytes, first, depth));
      while true
        invariant start < first <= at <= |bytes| && depth == old(depth)
        invariant ItemsAt(bytes, first, depth) == BeforeItems(items, ItemsAt(bytes, at, depth))
        decreases |bytes| - at
      {
        ItemsUnfold(bytes, at, depth);
        var v := ReadValue();
        if v.Err? {
          return Err(v.error);
        }
        SkipSpace();
        if at < |bytes| && bytes[at] == COMMA {
          at := at + 1;
          ItemBefore(items, v.value, ItemsAt(bytes, at, depth));
          items := items + [v.value];
        } else if at < |bytes| && bytes[at] == CLOSE_BRACKET {
          at := at + 1;
          return Ok(Arr(items + [v.value]));
        } else {
          return Err(Fail(ExpectedCommaOr(CLOSE_BRACKET)));
        }
      }
    }

    method ReadObject() returns (r: Result<Value, Failure>)
      requires Here(bytes, at, OPEN_BRACE)
      modifies this
      ensures r == Only(ObjectAt(bytes, old(at), old(depth)))
      ensures r.Ok? ==> Valid() && at == ObjectAt(bytes, old(at), old(depth)).value.1 && depth == old(depth)
      decreases |bytes| - at, 2
    {
      hide MemberAt, MembersAt, ObjectAt, Space, Eat;
      ghost var start := at;
      ObjectUnfolds(bytes, start, depth);
      var eaten := EatByte(OPEN_BRACE);
      EatBracket(bytes, start, OPEN_BRACE);
      var pairs: seq<Member> := [];
      SkipSpace();
      if at < |bytes| && bytes[at] == CLOSE_BRACE {
        at := at + 1;
        return Ok(Obj(pairs));
      }
      ghost var first := at;
      NoMembersBefore(MembersAt(bytes, first, depth));
      while true
        invariant start < first <= at <= |bytes| && depth == old(depth)
        invariant MembersAt(bytes, first, depth) == BeforeMembers(pairs, MembersAt(bytes, at, depth))
        decreases |bytes| - at
      {
        MembersUnfold(bytes, at, depth);
        var m := ReadMember();
        if m.Err? {
          return Err(m.error);
        }
        SkipSpace();
        if at < |bytes| && bytes[at] == COMMA {
          at := at + 1;
          MemberBefore(pairs, m.value, MembersAt(bytes, at, depth));
          pairs := pairs + [m.value];
        } else if at < |bytes| && bytes[at] == CLOSE_BRACE {
          at := at + 1;
          return Ok(Obj(pairs + [m.value]));
        } else {
          return Err(Fail(ExpectedCommaOr(CLOSE_BRACE)));
        }
      }
    }

    method ReadMember() returns (r: Result<Member, Failure>)
      requires Valid()
      modifies this
      ensures r == Only(MemberAt(bytes, old(at), old(depth)))
      ensures r.Ok? ==> Valid() && at == MemberAt(bytes, old(at), old(depth)).value.1 && depth == old(depth)
      decreases |bytes| - at, 4
    {
      hide ValueAt, StringAt;
      SkipSpace();
      if at == |bytes| || bytes[at] != QUOTE {
        return Err(Fail(ExpectedKey));
      }
      var key := ReadString();
      if key.Err? {
        return Err(key.error);
      }
      var colon := EatByte(COLON);
      if colon.Err? {
        return Err(colon.error);
      }
      var v := ReadValue();
      if v.Err? {
        return Err(v.error);
      }
      return Ok(Member(key.value, v.value));
    }
  }

  method ParseDocument(text: string) returns (r: Result<Value, Failure>)
    ensures r == Parse(text)
  {
    hide ValueAt, Encode;
    var reader := new Reader(Encode(text));
    var value := reader.ReadValue();
    if value.Err? {
      return Err(value.error);
    }
    reader.SkipSpace();
    if reader.at != |reader.bytes| {
      return Err(reader.Fail(TextAfter));
    }
    return Ok(value.value);
  }

  // ---- bookkeeping of what was read before ------------------------------------------------------

  lemma NothingBefore(rest: Read<Bytes>)
    ensures Before([], rest) == rest
  {
    match rest
    case Ok((more, _)) => assert [] + more == more;
    case Err(_) =>
  }

  lemma OneBefore(out: Bytes, next: Bytes, rest: Read<Bytes>)
    ensures Before(out, Before(next, rest)) == Before(out + next, rest)
  {
    match rest
    case Ok((more, _)) => assert out + (next + more) == (out + next) + more;
    case Err(_) =>
  }

  function BeforeItems(items: seq<Value>, rest: Read<seq<Value>>): Read<seq<Value>> {
    match rest
    case Ok((more, end)) => Ok((items + more, end))
    case Err(e) => Err(e)
  }

  lemma ArrayUnfolds(b: Bytes, at: nat, depth: nat)
    requires Here(b, at, OPEN_BRACKET)
    ensures var i := Space(b, at + 1);
            ArrayAt(b, at, depth)
            == if Here(b, i, CLOSE_BRACKET) then Ok((Arr([]), i + 1))
               else match ItemsAt(b, i, depth)
                 case Ok((items, end)) => Ok((Arr(items), end))
                 case Err(e) => Err(e)
  {
    hide ItemsAt, Space;
  }

  lemma ItemsUnfold(b: Bytes, at: nat, depth: nat)
    requires at <= |b|
    ensures ItemsAt(b, at, depth)
            == match ValueAt(b, at, depth)
               case Err(e) => Err(e)
               case Ok((v, next)) =>
                 var i := Space(b, next);
                 if Here(b, i, COMMA) then BeforeItem(v, ItemsAt(b, i + 1, depth))
                 else if Here(b, i, CLOSE_BRACKET) then Ok(([v], i + 1))
                 else Err(Failure(ExpectedCommaOr(CLOSE_BRACKET), i))
  {
    hide ValueAt, Space;
  }

  lemma ObjectUnfolds(b: Bytes, at: nat, depth: nat)
    requires Here(b, at, OPEN_BRACE)
    ensures var i := Space(b, at + 1);
            ObjectAt(b, at, depth)
            == if Here(b, i, CLOSE_BRACE) then Ok((Obj([]), i + 1))
               else match MembersAt(b, i, depth)
                 case Ok((pairs, end)) => Ok((Obj(pairs), end))
                 case Err(e) => Err(e)
  {
    hide MembersAt, Space;
  }

  lemma MembersUnfold(b: Bytes, at: nat, depth: nat)
    requires at <= |b|
    ensures MembersAt(b, at, depth)
            == match MemberAt(b, at, depth)
               case Err(e) => Err(e)
               case Ok((m, next)) =>
                 var i := Space(b, next);
                 if Here(b, i, COMMA) then BeforeMember(m, MembersAt(b, i + 1, depth))
                 else if Here(b, i, CLOSE_BRACE) then Ok(([m], i + 1))
                 else Err(Failure(ExpectedCommaOr(CLOSE_BRACE), i))
  {
    hide MemberAt, Space;
  }

  lemma NoItemsBefore(rest: Read<seq<Value>>)
    ensures BeforeItems([], rest) == rest
  {
    match rest
    case Ok((more, _)) => assert [] + more == more;
    case Err(_) =>
  }

  lemma ItemBefore(items: seq<Value>, v: Value, rest: Read<seq<Value>>)
    ensures BeforeItems(items, BeforeItem(v, rest)) == BeforeItems(items + [v], rest)
  {
    match rest
    case Ok((more, _)) => assert items + ([v] + more) == (items + [v]) + more;
    case Err(_) =>
  }

  function BeforeMembers(pairs: seq<Member>, rest: Read<seq<Member>>): Read<seq<Member>> {
    match rest
    case Ok((more, end)) => Ok((pairs + more, end))
    case Err(e) => Err(e)
  }

  lemma NoMembersBefore(rest: Read<seq<Member>>)
    ensures BeforeMembers([], rest) == rest
  {
    match rest
    case Ok((more, _)) => assert [] + more == more;
    case Err(_) =>
  }

  lemma MemberBefore(pairs: seq<Member>, m: Member, rest: Read<seq<Member>>)
    ensures BeforeMembers(pairs, BeforeMember(m, rest)) == BeforeMembers(pairs + [m], rest)
  {
    match rest
    case Ok((more, _)) => assert pairs + ([m] + more) == (pairs + [m]) + more;
    case Err(_) =>
  }

  lemma EatBracket(b: Bytes, at: nat, x: Byte)
    requires Here(b, at, x) && (x == OPEN_BRACKET || x == OPEN_BRACE)
    ensures Eat(b, at, x) == Ok(at + 1)
  {
    EatHere(b, at, x);
  }

  /** A byte that is there and is no space is eaten where it stands. */
  lemma EatHere(b: Bytes, at: nat, x: Byte)
    requires Here(b, at, x) && !IsSpace(x)
    ensures Eat(b, at, x) == Ok(at + 1)
  {
  }
}
