/**
 JSON values and the pretty-printer, which appends to one string, two spaces to a level, each item or
 member on a line of its own.
 */
module Json {
  import opened ByteStrings
  import opened Numerals
  import opened Utf8
  import opened Wrappers

  datatype Value =
    | Null
    | Bool(b: bool)
    | Int(n: int)
    | Str(s: string)
    | Arr(items: seq<Value>)
    | Obj(pairs: seq<Member>)

  datatype Member = Member(key: string, value: Value)

  /** Every number fits in 64 bits, as the type it has in the program ensures. */
  predicate InRange(v: Value) {
    match v
    case Int(n) => MIN_I64 <= n <= MAX_I64
    case Arr(items) => forall x <- items :: InRange(x)
    case Obj(pairs) => forall p <- pairs :: InRange(p.value)
    case _ => true
  }

  function Max(a: nat, b: nat): nat {
    if a < b then b else a
  }

  /** How deep arrays and objects nest. */
  function Height(v: Value): nat
    decreases v, 1
  {
    match v
    case Arr(items) => 1 + ItemsHeight(items)
    case Obj(pairs) => 1 + PairsHeight(pairs)
    case _ => 0
  }

  function ItemsHeight(items: seq<Value>): nat
    decreases items, 0
  {
    if items == [] then 0 else Max(Height(items[0]), ItemsHeight(items[1..]))
  }

  function PairsHeight(pairs: seq<Member>): nat
    decreases pairs, 0
  {
    if pairs == [] then 0 else Max(Height(pairs[0].value), PairsHeight(pairs[1..]))
  }

  // ---- strings ----------------------------------------------------------------------------------

  function Hex4Lower(n: nat): string
    requires n < 0x10000
  {
    [HexLower(n / 0x1000), HexLower(n / 0x100 % 0x10), HexLower(n / 0x10 % 0x10), HexLower(n % 0x10)]
  }

  predicate NeedsUnicodeEscape(c: char) {
    c as int < 0x20 || c as int == 0x7F || c as int == 0x2028 || c as int == 0x2029
  }

  function EscapeChar(c: char): string {
    match c
    case '\"' => "\\\""
    case '\\' => "\\\\"
    case '\n' => "\\n"
    case '\r' => "\\r"
    case '\t' => "\\t"
    case '\U{8}' => "\\b"
    case '\U{C}' => "\\f"
    case _ => if NeedsUnicodeEscape(c) then "\\u" + Hex4Lower(c as nat) else [c]
  }

  function EscapeChars(s: string): string {
    if s == [] then [] else EscapeChar(s[0]) + EscapeChars(s[1..])
  }

  function Escape(s: string): string {
    "\"" + (EscapeChars(s) + "\"")
  }

  // ---- documents --------------------------------------------------------------------------------

  function Indentation(depth: nat): string {
    if depth == 0 then [] else "  " + Indentation(depth - 1)
  }

  function Print(v: Value, depth: nat): string
    decreases v, 1
  {
    match v
    case Null => "null"
    case Bool(b) => if b then "true" else "false"
    case Int(n) => IntText(n)
    case Str(s) => Escape(s)
    case Arr(items) =>
      if items == [] then "[]"
      else "[" + (PrintItems(items, depth + 1, "\n") + ("\n" + (Indentation(depth) + "]")))
    case Obj(pairs) =>
      if pairs == [] then "{}"
      else "{" + (PrintPairs(pairs, depth + 1, "\n") + ("\n" + (Indentation(depth) + "}")))
  }

  /** Items at `depth`, the first after `before` and each other after a comma and a line break. */
  function PrintItems(items: seq<Value>, depth: nat, before: string): string
    decreases items, 0
  {
    if items == [] then []
    else before + (Indentation(depth) + (Print(items[0], depth) + PrintItems(items[1..], depth, ",\n")))
  }

  function PrintPairs(pairs: seq<Member>, depth: nat, before: string): string
    decreases pairs, 0
  {
    if pairs == [] then []
    else
      before + (Indentation(depth) + (Escape(pairs[0].key)
      + (": " + (Print(pairs[0].value, depth) + PrintPairs(pairs[1..], depth, ",\n")))))
  }

  function Render(v: Value): string {
    Print(v, 0) + "\n"
  }

  // ---- the printer as it runs: appending to one string -------------------------------------------

  class Output {
    var text: string

    constructor ()
      ensures text == []
    {
      text := [];
    }

    method Push(s: string)
      modifies this
      ensures text == old(text) + s
    {
      text := text + s;
    }
  }

  method WriteIndent(out: Output, depth: nat)
    modifies out
    ensures out.text == old(out.text) + Indentation(depth)
  {
    ghost var before := out.text;
    for k := 0 to depth
      invariant out.text + Indentation(depth - k) == before + Indentation(depth)
    {
      assert out.text + ("  " + Indentation(depth - k - 1)) == (out.text + "  ") + Indentation(depth - k - 1);
      out.Push("  ");
    }
    assert out.text + [] == out.text;
  }

  method EscapeInto(s: string, out: Output)
    modifies out
    ensures out.text == old(out.text) + Escape(s)
  {
    hide EscapeChar;
    ghost var before := out.text;
    out.Push("\"");
    for k := 0 to |s|
      invariant out.text + EscapeChars(s[k..]) == before + "\"" + EscapeChars(s)
    {
      assert s[k..][0] == s[k] && s[k..][1..] == s[k + 1..];
      assert out.text + (EscapeChar(s[k]) + EscapeChars(s[k + 1..])) == (out.text + EscapeChar(s[k])) + EscapeChars(s[k + 1..]);
      out.Push(EscapeChar(s[k]));
    }
    assert out.text + [] == out.text;
    out.Push("\"");
    assert before + "\"" + EscapeChars(s) + "\"" == before + ("\"" + (EscapeChars(s) + "\""));
  }

  method Write(v: Value, out: Output, depth: nat)
    modifies out
    ensures out.text == old(out.text) + Print(v, depth)
    decreases v, 1
  {
    hide IntText, Escape;
    match v
    case Null => out.Push("null");
    case Bool(b) => out.Push(if b then "true" else "false");
    case Int(n) => out.Push(IntText(n));
    case Str(s) => EscapeInto(s, out);
    case Arr(items) =>
      if items == [] {
        out.Push("[]");
      } else {
        WriteItems(items, out, depth);
      }
    case Obj(pairs) =>
      if pairs == [] {
        out.Push("{}");
      } else {
        WritePairs(pairs, out, depth);
      }
  }

  lemma Appended(a: string, open: string, items: string, nl: string, indent: string, close: string)
    ensures a + (open + (items + (nl + (indent + close)))) == a + open + items + nl + indent + close
  {
    assert a + (open + (items + (nl + (indent + close)))) == a + open + (items + (nl + (indent + close)));
    assert (a + open) + (items + (nl + (indent + close))) == (a + open + items) + (nl + (indent + close));
    assert (a + open + items) + (nl + (indent + close)) == (a + open + items + nl) + (indent + close);
  }

  method WriteItems(items: seq<Value>, out: Output, depth: nat)
    requires items != []
    modifies out
    ensures out.text == old(out.text) + ("[" + (PrintItems(items, depth + 1, "\n") + ("\n" + (Indentation(depth) + "]"))))
    decreases items, 0
  {
    hide Indentation, Print;
    ghost var before := out.text;
    out.Push("[");
    for k := 0 to |items|
      invariant out.text + PrintItems(items[k..], depth + 1, if k == 0 then "\n" else ",\n")
                == before + "[" + PrintItems(items, depth + 1, "\n")
    {
      var sep := if k == 0 then "\n" else ",\n";
      ghost var start := out.text;
      out.Push(sep);
      WriteIndent(out, depth + 1);
      Write(items[k], out, depth + 1);
      ItemsNext(items, k, depth + 1, sep, start);
    }
    assert out.text + [] == out.text;
    out.Push("\n");
    WriteIndent(out, depth);
    out.Push("]");
    Appended(before, "[", PrintItems(items, depth + 1, "\n"), "\n", Indentation(depth), "]");
  }

  lemma ItemsNext(items: seq<Value>, k: nat, depth: nat, sep: string, start: string)
    requires k < |items|
    ensures start + sep + Indentation(depth) + Print(items[k], depth) + PrintItems(items[k + 1..], depth, ",\n")
            == start + PrintItems(items[k..], depth, sep)
  {
    hide Indentation, Print;
    assert items[k..][0] == items[k] && items[k..][1..] == items[k + 1..];
    var a, b, c := Indentation(depth), Print(items[k], depth), PrintItems(items[k + 1..], depth, ",\n");
    Nested(start, sep, a, b, c);
  }

  lemma Nested(s: string, sep: string, a: string, b: string, c: string)
    ensures s + (sep + (a + (b + c))) == s + sep + a + b + c
  {
    assert s + (sep + (a + (b + c))) == (s + sep) + (a + (b + c));
    assert (s + sep) + (a + (b + c)) == (s + sep + a) + (b + c);
  }

  method WritePairs(pairs: seq<Member>, out: Output, depth: nat)
    requires pairs != []
    modifies out
    ensures out.text == old(out.text) + ("{" + (PrintPairs(pairs, depth + 1, "\n") + ("\n" + (Indentation(depth) + "}"))))
    decreases pairs, 0
  {
    hide Indentation, Print, Escape;
    ghost var before := out.text;
    out.Push("{");
    for k := 0 to |pairs|
      invariant out.text + PrintPairs(pairs[k..], depth + 1, if k == 0 then "\n" else ",\n")
                == before + "{" + PrintPairs(pairs, depth + 1, "\n")
    {
      var sep := if k == 0 then "\n" else ",\n";
      ghost var start := out.text;
      out.Push(sep);
      WriteIndent(out, depth + 1);
      EscapeInto(pairs[k].key, out);
      out.Push(": ");
      Write(pairs[k].value, out, depth + 1);
      PairsNext(pairs, k, depth + 1, sep, start);
    }
    assert out.text + [] == out.text;
    out.Push("\n");
    WriteIndent(out, depth);
    out.Push("}");
    Appended(before, "{", PrintPairs(pairs, depth + 1, "\n"), "\n", Indentation(depth), "}");
  }

  lemma PairsNext(pairs: seq<Member>, k: nat, depth: nat, sep: string, start: string)
    requires k < |pairs|
    ensures start + sep + Indentation(depth) + Escape(pairs[k].key) + ": " + Print(pairs[k].value, depth)
            + PrintPairs(pairs[k + 1..], depth, ",\n")
            == start + PrintPairs(pairs[k..], depth, sep)
  {
    hide Indentation, Print, Escape;
    assert pairs[k..][0] == pairs[k] && pairs[k..][1..] == pairs[k + 1..];
    var a, b := Indentation(depth), Escape(pairs[k].key);
    var c, d := Print(pairs[k].value, depth), PrintPairs(pairs[k + 1..], depth, ",\n");
    Nested(start, sep, a, b, ": " + (c + d));
    Nested(start + sep + a + b, ": ", c, d, []);
    assert d + [] == d;
    assert (start + sep + a + b + ": " + c + d) + [] == start + sep + a + b + ": " + c + d;
  }

  method RenderDocument(v: Value) returns (text: string)
    ensures text == Render(v)
  {
    var out := new Output();
    Write(v, out, 0);
    out.Push("\n");
    assert [] + Print(v, 0) == Print(v, 0);
    text := out.text;
  }
}
