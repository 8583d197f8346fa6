/**
 Values as they are written. TOML values as syntax trees, printed over as many lines as they take.
 */
module TomlValues {
  import opened Wrappers
  import opened Text
  import opened TomlLexer

  // ---- the grammar ----------------------------------------------------------------------------------

  /** A character of a one-line string in double quotes: itself, or a backslash and what it escapes. */
  datatype Unit = Plain(c: char) | Escape(c: char)

  /** A piece of a string over several lines: one or two quotes may stand before anything but the end's own. */
  datatype Chunk = Chunk(quotes: nat, unit: LongUnit)
  datatype LongUnit = LongPlain(c: char) | LongEscape(c: char) | NewLine | EscapedNewLine

  datatype Value =
    | Bare(text: string)
    | Basic(units: seq<Unit>)
    | Literal(text: string)
    | LongBasic(chunks: seq<Chunk>, quotes: nat)
    | LongLiteral(chunks: seq<Chunk>, quotes: nat)
    | Array(parts: seq<Part>)
    | Table(parts: seq<Part>)

  /** Between the brackets: a comma, an equals sign, a blank or a character of a bare key; a line break; a comment,
      to its line's end; a value, or a key in quotes. */
  datatype Part = Mark(c: char) | Break | Note(text: string) | Item(value: Value)

  predicate IsBracket(c: char) {
    c == '[' || c == ']' || c == '{' || c == '}'
  }

  /** What may be written outside strings and comments. */
  predicate IsPlain(c: char) {
    c != '\"' && c != '\'' && c != '#' && c != '\n' && !IsBracket(c)
  }

  predicate OkUnit(u: Unit) {
    match u
    case Plain(c) => c != '\"' && c != '\\' && c != '\n'
    case Escape(c) => c != '\n'
  }

  predicate OkChunk(k: Chunk, basic: bool) {
    && k.quotes <= 2
    && match k.unit
       case LongPlain(c) => c != '\n' && (if basic then c != '\"' && c != '\\' else c != '\'')
       case LongEscape(c) => basic && c != '\n'
       case NewLine => true
       case EscapedNewLine => basic
  }

  predicate OkValue(v: Value)
    decreases v
  {
    match v
    case Bare(text) => text != [] && IsTrimmed(text) && forall c <- text :: IsPlain(c)
    case Basic(units) => forall u <- units :: OkUnit(u)
    case Literal(text) => forall c <- text :: c != '\'' && c != '\n'
    case LongBasic(chunks, quotes) => quotes <= 2 && forall k <- chunks :: OkChunk(k, true)
    case LongLiteral(chunks, quotes) => quotes <= 2 && forall k <- chunks :: OkChunk(k, false)
    case Array(parts) => OkParts(parts)
    case Table(parts) => OkParts(parts)
  }

  /** Values are set apart by something that is none. */
  predicate OkParts(parts: seq<Part>)
    decreases parts
  {
    parts == []
    || (OkPart(parts[0]) && OkParts(parts[1..]) && (parts[0].Item? && |parts| > 1 ==> !parts[1].Item?))
  }

  predicate OkPart(p: Part)
    decreases p
  {
    match p
    case Mark(c) => IsPlain(c)
    case Break => true
    case Note(text) => '\n' !in text
    case Item(v) => OkValue(v)
  }

  // ---- printing -------------------------------------------------------------------------------------

  /** Text in front of what is left of a line, the other lines below it. */
  function Put(s: string, below: seq<string>): (lines: seq<string>)
    requires below != []
    ensures |lines| == |below| && lines[0] == s + below[0]
  {
    [s + below[0]] + below[1..]
  }

  function Quotes(c: char, n: nat): (s: string)
    ensures |s| == n && forall k :: 0 <= k < n ==> s[k] == c
  {
    seq(n, _ => c)
  }

  function UnitText(u: Unit): string {
    match u case Plain(c) => [c] case Escape(c) => ['\\', c]
  }

  function UnitsText(us: seq<Unit>): string {
    if us == [] then [] else UnitText(us[0]) + UnitsText(us[1..])
  }

  function PutUnit(u: LongUnit, below: seq<string>): (lines: seq<string>)
    requires below != []
    ensures |lines| >= |below|
  {
    match u
    case LongPlain(c) => Put([c], below)
    case LongEscape(c) => Put(['\\', c], below)
    case NewLine => [[]] + below
    case EscapedNewLine => [['\\']] + below
  }

  function PutChunks(ks: seq<Chunk>, quote: char, below: seq<string>): (lines: seq<string>)
    requires below != []
    ensures |lines| >= |below|
  {
    if ks == [] then below
    else Put(Quotes(quote, ks[0].quotes), PutUnit(ks[0].unit, PutChunks(ks[1..], quote, below)))
  }

  function PutLong(quote: char, ks: seq<Chunk>, quotes: nat, below: seq<string>): (lines: seq<string>)
    requires below != []
    ensures |lines| >= |below|
  {
    Put([quote, quote, quote], PutChunks(ks, quote, Put(Quotes(quote, quotes + 3), below)))
  }

  /** A value in front of what follows it. */
  function PutValue(v: Value, below: seq<string>): (lines: seq<string>)
    requires below != []
    ensures |lines| >= |below|
    decreases v
  {
    match v
    case Bare(text) => Put(text, below)
    case Basic(units) => Put("\"" + UnitsText(units) + "\"", below)
    case Literal(text) => Put("\'" + text + "\'", below)
    case LongBasic(chunks, quotes) => PutLong('\"', chunks, quotes, below)
    case LongLiteral(chunks, quotes) => PutLong('\'', chunks, quotes, below)
    case Array(parts) => Put("[", PutParts(parts, Put("]", below)))
    case Table(parts) => Put("{", PutParts(parts, Put("}", below)))
  }

  function PutPart(p: Part, below: seq<string>): (lines: seq<string>)
    requires below != []
    ensures |lines| >= |below|
    decreases p
  {
    match p
    case Mark(c) => Put([c], below)
    case Break => [[]] + below
    case Note(text) => ["#" + text] + below
    case Item(v) => PutValue(v, below)
  }

  function PutParts(parts: seq<Part>, below: seq<string>): (lines: seq<string>)
    requires below != []
    ensures |lines| >= |below|
    decreases parts
  {
    if parts == [] then below else PutPart(parts[0], PutParts(parts[1..], below))
  }

  /** The value's own lines. */
  function Lines(v: Value): (lines: seq<string>)
    ensures lines != []
  {
    PutValue(v, [[]])
  }
}
