/**
 How the lexer's scan depends on the line: not on what precedes the place it starts, and, over a complete
 value, not on what follows.
 */
module TomlScan {
  import opened Wrappers
  import opened Text
  import opened TomlKeys
  import opened TomlLexer

  // ---- what precedes does not matter ----------------------------------------------------------

  lemma {:induction false} RunEndShift(p: string, s: string, i: nat, c: char)
    requires i <= |s|
    ensures RunEnd(p + s, |p| + i, c) == |p| + RunEnd(s, i, c)
    decreases |s| - i
  {
    if i < |s| {
      assert (p + s)[|p| + i] == s[i];
      if s[i] == c {
        RunEndShift(p, s, i + 1, c);
      }
    }
  }

  lemma {:induction false} BasicCloseShift(p: string, s: string, i: nat)
    requires i <= |s| + 1
    ensures BasicClose(p + s, |p| + i) == |p| + BasicClose(s, i)
    decreases |s| + 1 - i
  {
    if i < |s| {
      assert (p + s)[|p| + i] == s[i];
      if s[i] == '\\' {
        BasicCloseShift(p, s, i + 2);
      } else if s[i] != '\"' {
        BasicCloseShift(p, s, i + 1);
      }
    }
  }

  lemma FindShift(p: string, s: string, c: char, i: nat)
    requires i <= |s|
    ensures Find(p + s, c, |p| + i) == |p| + Find(s, c, i)
  {
    FindIs(p + s, c, |p| + i, |p| + Find(s, c, i));
  }

  lemma TripledShift(p: string, s: string, i: nat, c: char)
    ensures Tripled(p + s, |p| + i, c) == Tripled(s, i, c)
  {
    assert forall k :: i <= k < |s| ==> (p + s)[|p| + k] == s[k];
  }

  lemma StepShift(st: State, p: string, s: string, i: nat)
    requires i < |s| && (st.open.None? ==> s[i] != '#')
    ensures (p + s)[|p| + i] == s[i]
    ensures Step(st, p + s, |p| + i) == (Step(st, s, i).0, |p| + Step(st, s, i).1)
  {
    hide RunEnd, BasicClose, Find, Tripled;
    assert (p + s)[|p| + i] == s[i];
    TripledShift(p, s, i, '\"');
    TripledShift(p, s, i, '\'');
    RunEndShift(p, s, i, '\"');
    RunEndShift(p, s, i, '\'');
    BasicCloseShift(p, s, i + 1);
    FindShift(p, s, '\'', i + 1);
  }

  lemma {:induction false} ScanShift(st: State, p: string, s: string, i: nat)
    requires i <= |s| + 1
    ensures Scan(st, p + s, |p| + i) == (Scan(st, s, i).0, |p| + Scan(st, s, i).1)
    decreases |s| + 1 - i
  {
    hide Step;
    if i < |s| {
      assert (p + s)[|p| + i] == s[i];
      if st.open.Some? || s[i] != '#' {
        StepShift(st, p, s, i);
        var (st', next) := Step(st, s, i);
        ScanShift(st', p, s, next);
      }
    }
  }

  // ---- over a complete value what follows does not matter either ------------------------------

  /** The step at `i` does not run to the line's end for want of a closing quote. */
  predicate Closes(st: State, s: string, i: nat)
    requires i < |s|
  {
    st.open.Some? || Tripled(s, i, '\"') || Tripled(s, i, '\'')
    || (if s[i] == '\"' then BasicClose(s, i + 1) < |s| else s[i] == '\'' ==> Find(s, '\'', i + 1) < |s|)
  }

  /** The scan goes from `i` to exactly `j`, meeting no comment and leaving no string unclosed. */
  predicate Walks(st: State, s: string, i: nat, j: nat, end: State)
    requires j <= |s|
    decreases |s| + 1 - i
  {
    if i >= j then i == j && st == end
    else
      && (st.open.None? ==> s[i] != '#')
      && Closes(st, s, i)
      && Walks(Step(st, s, i).0, s, Step(st, s, i).1, j, end)
  }

  lemma {:induction false} WalkThenScan(st: State, s: string, i: nat, j: nat, end: State)
    requires j <= |s| && i <= j && Walks(st, s, i, j, end)
    ensures Scan(st, s, i) == Scan(end, s, j)
    decreases |s| + 1 - i
  {
    hide Step, Closes;
    if i < j {
      WalkPast(st, s, i, j, end);
      WalkThenScan(Step(st, s, i).0, s, Step(st, s, i).1, j, end);
    }
  }

  lemma WalkPast(st: State, s: string, i: nat, j: nat, end: State)
    requires i < j <= |s| && Walks(st, s, i, j, end)
    ensures Step(st, s, i).1 <= j
  {
    hide Step;
  }

  /** What may follow a value: nothing, white space or a comment - in any case no quote. */
  predicate NoQuoteFirst(s: string) {
    s == [] || !IsQuote(s[0])
  }

  lemma {:induction false} RunEndExtend(v: string, q: string, i: nat, c: char)
    requires i <= |v| && IsQuote(c) && NoQuoteFirst(q)
    ensures RunEnd(v + q, i, c) == RunEnd(v, i, c)
    decreases |v| - i
  {
    if i < |v| {
      assert (v + q)[i] == v[i];
      if v[i] == c {
        RunEndExtend(v, q, i + 1, c);
      }
    } else if q != [] {
      assert (v + q)[|v|] == q[0];
    }
  }

  lemma {:induction false} BasicCloseExtend(v: string, q: string, i: nat)
    requires i <= |v| + 1 && BasicClose(v, i) < |v|
    ensures BasicClose(v + q, i) == BasicClose(v, i)
    decreases |v| + 1 - i
  {
    if i < |v| {
      assert (v + q)[i] == v[i];
      if v[i] == '\\' {
        BasicCloseExtend(v, q, i + 2);
      } else if v[i] != '\"' {
        BasicCloseExtend(v, q, i + 1);
      }
    }
  }

  lemma FindExtend(v: string, q: string, c: char, i: nat)
    requires i <= |v| && Find(v, c, i) < |v|
    ensures Find(v + q, c, i) == Find(v, c, i)
  {
    FindIs(v + q, c, i, Find(v, c, i));
  }

  lemma TripledExtend(v: string, q: string, i: nat, c: char)
    requires i < |v| && IsQuote(c) && NoQuoteFirst(q)
    ensures Tripled(v + q, i, c) == Tripled(v, i, c)
  {
    assert forall k :: i <= k < |v| ==> (v + q)[k] == v[k];
    if q != [] {
      assert (v + q)[|v|] == q[0];
    }
  }

  lemma StepExtend(st: State, v: string, q: string, i: nat)
    requires i < |v| && (st.open.None? ==> v[i] != '#') && Closes(st, v, i) && NoQuoteFirst(q)
    ensures (v + q)[i] == v[i] && Closes(st, v + q, i) && Step(st, v + q, i) == Step(st, v, i)
  {
    hide RunEnd, BasicClose, Find;
    TripledExtend(v, q, i, '\"');
    TripledExtend(v, q, i, '\'');
    RunEndExtend(v, q, i, '\"');
    RunEndExtend(v, q, i, '\'');
    if BasicClose(v, i + 1) < |v| {
      BasicCloseExtend(v, q, i + 1);
    }
    if Find(v, '\'', i + 1) < |v| {
      FindExtend(v, q, '\'', i + 1);
    }
  }

  lemma {:induction false} WalkExtend(st: State, v: string, q: string, i: nat, end: State)
    requires i <= |v| && Walks(st, v, i, |v|, end) && NoQuoteFirst(q)
    ensures Walks(st, v + q, i, |v|, end)
    decreases |v| - i
  {
    hide Step, Closes;
    if i < |v| {
      StepExtend(st, v, q, i);
      WalkPast(st, v, i, |v|, end);
      WalkExtend(Step(st, v, i).0, v, q, Step(st, v, i).1, end);
    }
  }

  /** After a value, white space leads on to the comment or the line's end. */
  lemma {:induction false} ScanTrailing(s: string, i: nat, end: nat)
    requires i <= end <= |s| && (forall k :: i <= k < end ==> IsWhitespace(s[k])) && (end < |s| ==> s[end] == '#')
    ensures Scan(CLOSED, s, i) == (CLOSED, end)
    decreases end - i
  {
    if i < end {
      ScanTrailing(s, i + 1, end);
    }
  }

  /** A value another can stand in for: trimmed, nonempty, every string and bracket closed, no
      bare `#`. */
  predicate CompleteValue(v: string) {
    && v != [] && !IsWhitespace(v[0]) && !IsWhitespace(v[|v| - 1])
    && Walks(CLOSED, v, 0, |v|, CLOSED)
  }

  /** In a line `p + v + q`, the scan from `v` ends where `q`'s white space does. */
  lemma ScanValue(p: string, v: string, q: string, blank: nat)
    requires CompleteValue(v)
    requires blank <= |q| && (forall k :: 0 <= k < blank ==> IsWhitespace(q[k])) && (blank < |q| ==> q[blank] == '#')
    ensures Scan(CLOSED, p + (v + q), |p|) == (CLOSED, |p| + |v| + blank)
  {
    hide Walks, Step;
    assert NoQuoteFirst(q);
    WalkExtend(CLOSED, v, q, 0, CLOSED);
    WalkThenScan(CLOSED, v + q, 0, |v|, CLOSED);
    assert forall k :: 0 <= k < |q| ==> (v + q)[|v| + k] == q[k];
    ScanTrailing(v + q, |v|, |v| + blank);
    ScanShift(CLOSED, p, v + q, 0);
  }
}
