/** The line lexer. */
module TomlLexer {
  // What each line is, given the strings and brackets that were open before it, and what is open after it.

  import opened Wrappers
  import opened Text
  import opened TomlKeys

  datatype Multi = Basic | Literal

  /** Carried from line to line: open brackets, and the multi-line string a line starts inside. */
  datatype State = State(depth: nat, open: Option<Multi>)

  const CLOSED := State(0, None)

  datatype Pair = Pair(path: seq<string>, quote: Option<char>, start: nat, end: nat)

  datatype Kind =
    | Blank
    | Comment
    | Header(path: Option<seq<string>>, double: bool)
    | Entry(pair: Option<Pair>, multiLine: bool)
    | Continuation

  function Delimiter(m: Multi): char {
    if m == Basic then '\"' else '\''
  }

  predicate Tripled(s: string, i: nat, c: char) {
    i + 3 <= |s| && s[i] == c && s[i + 1] == c && s[i + 2] == c
  }

  /** Past the run of `c` at `i`. */
  function RunEnd(s: string, i: nat, c: char): (j: nat)
    requires i <= |s|
    ensures i <= j <= |s|
    ensures forall k :: i <= k < j ==> s[k] == c
    ensures j < |s| ==> s[j] != c
    decreases |s| - i
  {
    if i < |s| && s[i] == c then RunEnd(s, i + 1, c) else i
  }

  /** The closing quote of a one-line basic string, from `i` inside it; the length if there is none. */
  function BasicClose(s: string, i: nat): (j: nat)
    requires i <= |s| + 1
    ensures j <= |s|
    ensures j < |s| ==> i <= j && s[j] == '\"'
    decreases |s| + 1 - i
  {
    if i >= |s| then |s|
    else if s[i] == '\\' then BasicClose(s, i + 2)
    else if s[i] == '\"' then i
    else BasicClose(s, i + 1)
  }

  /** Where the scan goes on after a one-line string whose closing quote is at `close`, if it has one. */
  function PastClose(s: string, close: nat): nat
    requires close <= |s|
  {
    if close < |s| then close + 1 else |s|
  }

  /** One step of the scan at `i`: the new state and where the scan goes on. */
  function Step(st: State, s: string, i: nat): (r: (State, nat))
    requires i < |s| && (st.open.None? ==> s[i] != '#')
    ensures i < r.1 <= |s| + 1
  {
    match st.open
    case Some(m) =>
      if m == Basic && s[i] == '\\' then (st, i + 2)
      else if Tripled(s, i, Delimiter(m)) then (st.(open := None), RunEnd(s, i, Delimiter(m)))
      else (st, i + 1)
    case None =>
      if s[i] == '\"' && Tripled(s, i, '\"') then (st.(open := Some(Basic)), i + 3)
      else if s[i] == '\'' && Tripled(s, i, '\'') then (st.(open := Some(Literal)), i + 3)
      else if s[i] == '\"' then (st, PastClose(s, BasicClose(s, i + 1)))
      else if s[i] == '\'' then (st, PastClose(s, Find(s, '\'', i + 1)))
      else if s[i] == '[' || s[i] == '{' then (st.(depth := st.depth + 1), i + 1)
      else if s[i] == ']' || s[i] == '}' then (st.(depth := if st.depth == 0 then 0 else st.depth - 1), i + 1)
      else (st, i + 1)
  }

  /** The scan of `s[i..]`: the state it leaves, and where it stopped - at a `#` outside strings, or past the
      last character. */
  function Scan(st: State, s: string, i: nat): (r: (State, nat))
    requires i <= |s| + 1
    ensures r.1 <= |s|
    ensures i <= |s| ==> i <= r.1
    ensures r.1 < |s| ==> s[r.1] == '#'
    decreases |s| + 1 - i
  {
    if i >= |s| then (st, |s|)
    else if st.open.None? && s[i] == '#' then (st, i)
    else
      var (st', next) := Step(st, s, i);
      Scan(st', s, next)
  }

  lemma ScanStops(st: State, s: string, i: nat)
    requires |s| <= i <= |s| + 1 || (i < |s| && st.open.None? && s[i] == '#')
    ensures Scan(st, s, i) == (st, if i < |s| then i else |s|)
  {
  }

  lemma ScanSteps(st: State, s: string, i: nat)
    requires i < |s| && (st.open.None? ==> s[i] != '#')
    ensures Scan(st, s, i) == Scan(Step(st, s, i).0, s, Step(st, s, i).1)
  {
    hide Step;
  }

  // ---- headers and pair heads ---------------------------------------------------------------------

  /** The path and bracketing of a header; none if the brackets do not match or code follows them. */
  function ParseHeader(code: string): Option<(seq<string>, bool)> {
    if code == [] || code[0] != '[' then None
    else
      var double := |code| > 1 && code[1] == '[';
      var open := if double then 2 else 1;
      match KeyPath(code, open)
      case None => None
      case Some(p) =>
        var close := SkipBlanks(code, p.end);
        if close + open > |code| || exists k :: close <= k < close + open && code[k] != ']' then None
        else
          var rest := SkipBlanks(code, close + open);
          if rest == |code| || code[rest] == '#' then Some((p.segments, double)) else None
  }

  /** A pair up to its value: the path before the equals sign, and the first column after it that is not blank. */
  function PairHead(line: string, at: nat): (r: Option<(Path, nat)>)
    requires at <= |line|
    ensures r.Some? ==> at < r.value.0.end < r.value.1 <= |line| && r.value.0.segments != []
  {
    match KeyPath(line, at)
    case None => None
    case Some(p) =>
      var eq := SkipBlanks(line, p.end);
      if eq == |line| || line[eq] != '=' then None
      else Some((p, SkipBlanks(line, eq + 1)))
  }

  /** Where the value that starts at `start` ends: before the white space in front of `codeEnd`. */
  function ValueEnd(line: string, start: nat, codeEnd: nat): (e: nat)
    requires start <= codeEnd <= |line|
    ensures start <= e <= codeEnd
  {
    var trimmed := TrimmedLength(line[..codeEnd]);
    if trimmed < start then start else trimmed
  }

  function HeaderKind(code: string): Kind {
    match ParseHeader(code)
    case Some((path, double)) => Header(Some(path), double)
    case None => Header(None, false)
  }

  function EntryKind(line: string, indent: nat): (Kind, State)
    requires indent <= |line|
  {
    match PairHead(line, indent)
    case None =>
      var (st, _) := Scan(CLOSED, line, indent);
      (Entry(None, st != CLOSED), st)
    case Some((p, start)) =>
      var (st, codeEnd) := Scan(CLOSED, line, start);
      (Entry(Some(Pair(p.segments, p.quote, start, ValueEnd(line, start, codeEnd))), st != CLOSED), st)
  }

  /** What a line is, and the state the next one starts in. */
  function Classify(st: State, line: string): (r: (Kind, State))
    ensures r.0 == Continuation <==> st != CLOSED
    ensures r.0.Header? || r.0.Blank? || r.0.Comment? ==> r.1 == CLOSED
    ensures r.0.Entry? ==> r.0.multiLine == (r.1 != CLOSED)
  {
    if st != CLOSED then (Continuation, Scan(st, line, 0).0)
    else
      var indent := Indent(line);
      if indent == |line| then (Blank, st)
      else if line[indent] == '#' then (Comment, st)
      else if line[indent] == '[' then (HeaderKind(line[indent..]), st)
      else EntryKind(line, indent)
  }

  /** The lexer as the program has it: two fields, updated line by line. */
  class Lexer {
    var depth: nat
    var open: Option<Multi>

    ghost function Current(): State
      reads this
    {
      State(depth, open)
    }

    constructor ()
      ensures Current() == CLOSED
    {
      depth := 0;
      open := None;
    }

    method SkipBasic(s: string, at: nat) returns (j: nat)
      requires at < |s|
      ensures j == PastClose(s, BasicClose(s, at + 1))
    {
      var i := at + 1;
      while i < |s|
        invariant at + 1 <= i <= |s| + 1
        invariant BasicClose(s, at + 1) == BasicClose(s, i)
        decreases |s| + 1 - i
      {
        if s[i] == '\\' {
          i := i + 2;
        } else if s[i] == '\"' {
          return i + 1;
        } else {
          i := i + 1;
        }
      }
      return |s|;
    }

    /** The loop for `Scan`: the fields are its state, the result is where it stops. */
    method ScanLine(line: string, from: nat) returns (end: nat)
      requires from <= |line|
      modifies this
      ensures (Current(), end) == Scan(old(Current()), line, from)
    {
      hide Scan, BasicClose, Find;
      var i := from;
      while i < |line|
        invariant from <= i <= |line| + 1
        invariant Scan(Current(), line, i) == Scan(old(Current()), line, from)
        decreases |line| + 1 - i
      {
        if open.Some? {
          ScanSteps(Current(), line, i);
          var delim := Delimiter(open.value);
          if open.value == Basic && line[i] == '\\' {
            i := i + 2;
          } else if Tripled(line, i, delim) {
            ghost var run := RunEnd(line, i, delim);
            while i < |line| && line[i] == delim
              invariant i <= |line| && RunEnd(line, i, delim) == run
            {
              i := i + 1;
            }
            open := None;
          } else {
            i := i + 1;
          }
          continue;
        }
        if line[i] == '#' {
          ScanStops(Current(), line, i);
          return i;
        }
        ScanSteps(Current(), line, i);
        if line[i] == '\"' && Tripled(line, i, '\"') {
          open := Some(Basic);
          i := i + 3;
        } else if line[i] == '\'' && Tripled(line, i, '\'') {
          open := Some(Literal);
          i := i + 3;
        } else if line[i] == '\"' {
          i := SkipBasic(line, i);
        } else if line[i] == '\'' {
          i := PastClose(line, Find(line, '\'', i + 1));
        } else if line[i] == '[' || line[i] == '{' {
          depth := depth + 1;
          i := i + 1;
        } else if line[i] == ']' || line[i] == '}' {
          depth := if depth == 0 then 0 else depth - 1;
          i := i + 1;
        } else {
          i := i + 1;
        }
      }
      ScanStops(Current(), line, i);
      return |line|;
    }

    method ClassifyLine(line: string) returns (kind: Kind)
      modifies this
      ensures (kind, Current()) == Classify(old(Current()), line)
    {
      if depth > 0 || open.Some? {
        var _ := ScanLine(line, 0);
        return Continuation;
      }
      var indent := Indent(line);
      if indent == |line| {
        return Blank;
      }
      if line[indent] == '#' {
        return Comment;
      }
      if line[indent] == '[' {
        return HeaderKind(line[indent..]);
      }
      var head := PairHead(line, indent);
      var from := if head.Some? then head.value.1 else indent;
      var codeEnd := ScanLine(line, from);
      var pair: Option<Pair> := None;
      if head.Some? {
        var (p, start) := head.value;
        pair := Some(Pair(p.segments, p.quote, start, ValueEnd(line, start, codeEnd)));
      }
      return Entry(pair, depth > 0 || open.Some?);
    }
  }
}
