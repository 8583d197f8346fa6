/**
 Entry lines. A new entry, and an entry with another value, as the lexer reads them.
 */
module TomlEntries {
  import opened Wrappers
  import opened Text
  import opened TomlKeys
  import opened TomlLexer
  import opened TomlScan

  // ---- a pair's head depends on the line up to the value ----------------------------------------

  ghost predicate AgreeTo(s: string, t: string, m: nat) {
    m <= |s| && m <= |t| && forall k :: 0 <= k < m ==> s[k] == t[k]
  }

  lemma BasicCharAgrees(s: string, t: string, m: nat, i: nat)
    requires AgreeTo(s, t, m) && i < m && BasicChar(s, i).Some? && BasicChar(s, i).value.1 <= m
    ensures BasicChar(t, i) == BasicChar(s, i)
  {
    if s[i] == '\\' && i + 2 <= m && (s[i + 1] == 'u' || s[i + 1] == 'U') {
      var digits := if s[i + 1] == 'u' then 4 else 8;
      assert i + 2 + digits <= m ==> s[i + 2..i + 2 + digits] == t[i + 2..i + 2 + digits];
    }
  }

  lemma {:induction false} BasicRestAgrees(s: string, t: string, m: nat, i: nat)
    requires AgreeTo(s, t, m) && i <= m && BasicRest(s, i).Some? && BasicRest(s, i).value.1 <= m
    ensures BasicRest(t, i) == BasicRest(s, i)
    decreases |s| - i
  {
    hide BasicChar;
    if s[i] != '\"' {
      var next := BasicChar(s, i).value.1;
      assert BasicRest(s, next).value.1 == BasicRest(s, i).value.1;
      BasicCharAgrees(s, t, m, i);
      BasicRestAgrees(s, t, m, next);
    }
  }

  lemma SegmentAgrees(s: string, t: string, m: nat, i: nat)
    requires AgreeTo(s, t, m) && i < m && Segment(s, i).Some? && Segment(s, i).value.1 < m
    ensures Segment(t, i) == Segment(s, i)
  {
    hide BasicRest;
    if s[i] == '\"' {
      BasicRestAgrees(s, t, m, i + 1);
    } else if s[i] == '\'' {
      var close := Find(s, '\'', i + 1);
      FindIs(t, '\'', i + 1, close);
      assert s[i + 1..close] == t[i + 1..close];
    } else {
      var end := BareEnd(s, i);
      BareEndIs(t, i, end);
      assert s[i..end] == t[i..end];
    }
  }

  lemma {:induction false} BareEndIs(s: string, i: nat, j: nat)
    requires i <= j <= |s| && (forall k :: i <= k < j ==> IsBareKeyChar(s[k])) && (j < |s| ==> !IsBareKeyChar(s[j]))
    ensures BareEnd(s, i) == j
  {
  }

  lemma {:induction false} KeyPathAgrees(s: string, t: string, m: nat, at: nat)
    requires AgreeTo(s, t, m) && at <= m && KeyPath(s, at).Some? && SkipBlanks(s, KeyPath(s, at).value.end) < m
    ensures KeyPath(t, at) == KeyPath(s, at)
    ensures SkipBlanks(t, KeyPath(s, at).value.end) == SkipBlanks(s, KeyPath(s, at).value.end)
    decreases |s| - at
  {
    hide Segment, SkipBlanks, KeyPath, IsQuote;
    KeyPathUnfolds(s, at);
    KeyPathUnfolds(t, at);
    var i := SkipBlanks(s, at);
    var next := Segment(s, i).value.1;
    var j := SkipBlanks(s, next);
    SkipBlanksAgrees(s, t, m, at);
    SegmentAgrees(s, t, m, i);
    SkipBlanksAgrees(s, t, m, next);
    if j < |s| && s[j] == '.' {
      KeyPathAgrees(s, t, m, j + 1);
    }
  }

  lemma SkipBlanksAgrees(s: string, t: string, m: nat, at: nat)
    requires AgreeTo(s, t, m) && at <= m && SkipBlanks(s, at) < m
    ensures SkipBlanks(t, at) == SkipBlanks(s, at) && t[SkipBlanks(s, at)] == s[SkipBlanks(s, at)]
  {
    hide SkipBlanks;
    SkipBlanksIs(t, at, SkipBlanks(s, at));
  }

  lemma PairHeadAgrees(s: string, t: string, at: nat)
    requires at <= |s| && PairHead(s, at).Some?
    requires var start := PairHead(s, at).value.1; AgreeTo(s, t, start) && start < |t| && !IsBlankChar(t[start])
    ensures PairHead(t, at) == PairHead(s, at)
  {
    hide KeyPath;
    var (p, start) := PairHead(s, at).value;
    var eq := SkipBlanks(s, p.end);
    KeyPathAgrees(s, t, start, at);
    SkipBlanksIs(t, eq + 1, start);
  }

  // ---- another value ----------------------------------------------------------------------------

  function WithValue(line: string, start: nat, end: nat, value: string): string
    requires start <= end <= |line|
  {
    line[..start] + (value + line[end..])
  }

  /** What follows an entry's value: white space, then nothing or a comment. */
  lemma AfterValue(line: string, start: nat, codeEnd: nat)
    requires start <= codeEnd <= |line| && (codeEnd < |line| ==> line[codeEnd] == '#')
    ensures var end := ValueEnd(line, start, codeEnd);
            var q := line[end..];
            && (forall k :: 0 <= k < codeEnd - end ==> IsWhitespace(q[k]))
            && (codeEnd - end < |q| ==> q[codeEnd - end] == '#')
  {
    var end := ValueEnd(line, start, codeEnd);
    assert forall k :: end <= k < codeEnd ==> line[..codeEnd][k] == line[k];
  }

  ghost predicate IsEntry(line: string, pair: Pair) {
    Classify(CLOSED, line) == (Entry(Some(pair), false), CLOSED)
  }

  lemma EntryFacts(line: string, pair: Pair) returns (indent: nat, p: Path, codeEnd: nat)
    requires IsEntry(line, pair)
    ensures indent == Indent(line) < |line| && line[indent] != '#' && line[indent] != '['
    ensures PairHead(line, indent) == Some((p, pair.start)) && pair.path == p.segments && pair.quote == p.quote
    ensures Scan(CLOSED, line, pair.start) == (CLOSED, codeEnd) && pair.end == ValueEnd(line, pair.start, codeEnd)
    ensures indent < pair.start <= pair.end <= codeEnd <= |line|
  {
    hide Scan, PairHead, ValueEnd;
    indent := Indent(line);
    p := PairHead(line, indent).value.0;
    codeEnd := Scan(CLOSED, line, pair.start).1;
  }

  /** An entry given another complete value is the same entry with that value, and nothing after it
      is read differently. */
  lemma ReplacedLine(line: string, pair: Pair, value: string)
    requires IsEntry(line, pair) && CompleteValue(value)
    ensures pair.start <= pair.end <= |line|
    ensures IsEntry(WithValue(line, pair.start, pair.end, value), pair.(end := pair.start + |value|))
  {
    hide Scan, PairHead, Classify, Walks, IsEntry, ValueEnd;
    var indent, p, codeEnd := EntryFacts(line, pair);
    var start := pair.start;
    var q := line[pair.end..];
    var blank := codeEnd - pair.end;
    AfterValue(line, start, codeEnd);
    var line' := line[..start] + (value + q);
    ScanValue(line[..start], value, q, blank);
    assert line'[start] == value[0];
    assert AgreeTo(line, line', start);
    PairHeadAgrees(line, line', indent);
    IndentIs(line', indent);
    NewValueEnd(line[..start], value, q, blank);
    EntryIs(line', indent, p, start, start + |value| + blank, start + |value|);
  }

  lemma NewValueEnd(p: string, v: string, q: string, blank: nat)
    requires v != [] && !IsWhitespace(v[|v| - 1])
    requires blank <= |q| && forall k :: 0 <= k < blank ==> IsWhitespace(q[k])
    ensures ValueEnd(p + (v + q), |p|, |p| + |v| + blank) == |p| + |v|
  {
    var line := p + (v + q);
    var code := line[..|p| + |v| + blank];
    assert code[|p| + |v| - 1] == v[|v| - 1];
    assert forall k :: |p| + |v| <= k < |code| ==> code[k] == q[k - |p| - |v|];
    TrimmedLengthIs(code, |p| + |v|);
  }

  lemma EntryIs(line: string, indent: nat, p: Path, start: nat, codeEnd: nat, end: nat)
    requires indent < |line| && indent == Indent(line) && line[indent] != '#' && line[indent] != '['
    requires PairHead(line, indent) == Some((p, start)) && start <= |line|
    requires Scan(CLOSED, line, start) == (CLOSED, codeEnd) && ValueEnd(line, start, codeEnd) == end
    ensures IsEntry(line, Pair(p.segments, p.quote, start, end))
  {
    hide Scan, PairHead, ValueEnd;
  }

  // ---- a new entry ------------------------------------------------------------------------------

  const ASSIGN := " = "

  function NewEntry(indent: string, key: string, single: bool, value: string): string {
    indent + (RenderKey(key, single) + (ASSIGN + value))
  }

  lemma {:induction false} ScanBlanks(s: string, i: nat, j: nat)
    requires i <= j <= |s| && forall k :: i <= k < j ==> IsBlankChar(s[k])
    ensures Scan(CLOSED, s, i) == Scan(CLOSED, s, j)
    decreases j - i
  {
    if i < j {
      ScanBlanks(s, i + 1, j);
    }
  }

  /** A new entry's line is an entry for exactly its key, on one line, whatever the key holds. */
  lemma AddedLine(indent: string, key: string, single: bool, value: string) returns (pair: Pair)
    requires forall c <- indent :: IsWhitespace(c)
    requires Scan(CLOSED, value, 0).0 == CLOSED
    ensures IsEntry(NewEntry(indent, key, single, value), pair) && pair.path == [key]
  {
    hide Scan, Classify, RenderKey, ValueEnd, IsEntry, PairHead, SkipBlanks, NewEntry, Indent;
    var line := NewEntry(indent, key, single, value);
    var at := |indent|;
    var start := NewEntryRead(indent, key, single, value);
    var codeEnd := Scan(CLOSED, line, start).1;
    var end := ValueEnd(line, start, codeEnd);
    pair := Pair([key], Some(line[at]), start, end);
    EntryIs(line, at, Path([key], Some(line[at]), at + |RenderKey(key, single)|), start, codeEnd, end);
  }

  /** A new entry's line by its parts: the indent, the key read back, the value from `start`. */
  lemma NewEntryRead(indent: string, key: string, single: bool, value: string) returns (start: nat)
    requires forall c <- indent :: IsWhitespace(c)
    requires Scan(CLOSED, value, 0).0 == CLOSED
    ensures var line := NewEntry(indent, key, single, value);
            var at := |indent|;
            && at < |line| && at == Indent(line) && IsQuote(line[at]) && start <= |line|
            && PairHead(line, at) == Some((Path([key], Some(line[at]), at + |RenderKey(key, single)|), start))
            && Scan(CLOSED, line, start).0 == CLOSED
  {
    hide Scan, RenderKey, PairHead, SkipBlanks, StandsAt;
    var k := RenderKey(key, single);
    var line := NewEntry(indent, key, single, value);
    var at, eq := |indent|, |indent| + |k| + 1;
    RenderedKeyStarts(key, single);
    NewEntryParts(indent, k, value);
    HeadReadsBack(line, at, key, single);
    NewEntryIndent(indent, k, value);
    NewEntryRegroups(indent, k, value);
    ValueCloses(indent + k + ASSIGN, value, eq + 1);
    start := SkipBlanks(line, eq + 1);
  }

  lemma RenderedKeyStarts(key: string, single: bool)
    ensures RenderKey(key, single) != []
  {
  }

  /** A key written at `at` with an equals sign after it, read back, and where its value starts. */
  lemma HeadReadsBack(line: string, at: nat, key: string, single: bool)
    requires var after := at + |RenderKey(key, single)|;
             && StandsAt(line, at, RenderKey(key, single)) && at < after && after + 1 < |line|
             && SkipBlanks(line, after) == after + 1 && line[after + 1] == '='
    ensures var after := at + |RenderKey(key, single)|;
            && IsQuote(line[at])
            && PairHead(line, at) == Some((Path([key], Some(line[at]), after), SkipBlanks(line, after + 2)))
  {
    hide RenderKey, KeyPath, SkipBlanks, StandsAt, IsQuote;
    KeyReadsBack(line, at, key, single);
  }

  lemma NewEntryIndent(indent: string, k: string, value: string)
    requires forall c <- indent :: IsWhitespace(c)
    requires var line := indent + (k + (ASSIGN + value)); !IsWhitespace(line[|indent|])
    ensures Indent(indent + (k + (ASSIGN + value))) == |indent|
  {
    hide IsWhitespace;
    var line := indent + (k + (ASSIGN + value));
    forall n | 0 <= n < |indent|
      ensures IsWhitespace(line[n])
    {
      assert line[n] == indent[n] && indent[n] in indent;
    }
    IndentIs(line, |indent|);
  }

  /** Nothing stays open after a value that leaves nothing open, whatever stands before it. */
  lemma ValueCloses(head: string, value: string, from: nat)
    requires from + 1 == |head| && IsBlankChar(head[from])
    requires Scan(CLOSED, value, 0).0 == CLOSED
    ensures Scan(CLOSED, head + value, SkipBlanks(head + value, from)).0 == CLOSED
  {
    hide Scan, SkipBlanks;
    var line := head + value;
    assert line[from] == head[from];
    var start := SkipBlanks(line, from);
    SkipBlanksPast(line, from);
    ScanBlanks(line, from + 1, start);
    ScanShift(CLOSED, head, value, 0);
  }

  lemma NewEntryRegroups(indent: string, k: string, value: string)
    ensures indent + (k + (ASSIGN + value)) == (indent + k + ASSIGN) + value
    ensures (indent + k + ASSIGN)[|indent| + |k| + 2] == ' '
  {
    assert indent + (k + (ASSIGN + value)) == (indent + k) + (ASSIGN + value);
  }

  lemma SkipBlanksPast(line: string, i: nat)
    requires i < |line| && IsBlankChar(line[i])
    ensures SkipBlanks(line, i) > i
  {
  }

  lemma NewEntryParts(indent: string, k: string, value: string)
    ensures var line := indent + (k + (ASSIGN + value));
            var at, after := |indent|, |indent| + |k|;
            && StandsAt(line, at, k)
            && line[after] == ' ' && line[after + 1] == '=' && line[after + 2] == ' '
            && SkipBlanks(line, after) == after + 1
  {
    var line := indent + (k + (ASSIGN + value));
    var after := |indent| + |k|;
    assert line[|indent|..after] == k;
    SkipBlanksIs(line, after, after + 1);
  }

  /** A new entry is one line: its key is written without line breaks. */
  lemma {:induction false} NewEntryIsOneLine(indent: string, key: string, single: bool, value: string)
    requires '\n' !in indent && '\n' !in value && !EndsWith(value, '\r')
    ensures var line := NewEntry(indent, key, single, value); '\n' !in line && !EndsWith(line, '\r')
  {
    RenderedKeyIsOneLine(key, single);
    var line := NewEntry(indent, key, single, value);
    assert line[|line| - 1] == if value == [] then ' ' else value[|value| - 1];
  }

  lemma RenderedKeyIsOneLine(key: string, single: bool)
    ensures '\n' !in RenderKey(key, single)
  {
    RenderedCharsAreOneLine(key);
    if single && AllowsSingleQuotes(key) {
      assert forall c <- key :: c != '\n';
    }
  }

  lemma {:induction false} RenderedCharsAreOneLine(key: string)
    ensures '\n' !in RenderChars(key)
  {
    if key != [] {
      RenderedCharsAreOneLine(key[1..]);
      assert '\n' !in RenderChar(key[0]);
    }
  }
}
