/** Rewriting one text. */
module Rewriting {
  // Where a name may start, the left-to-right scan, and what the scan computes in terms of the original
  // text alone.

  import opened ByteStrings
  import opened Wrappers
  import opened Relocation

  // ---- where a name may start ---------------------------------------------------------------

  /** What the walk back from an `L` passes over: the descriptors of primitives, and array dimensions. */
  const TYPE_PREFIX: Bytes :=
    ['B' as Byte, 'C' as Byte, 'D' as Byte, 'F' as Byte, 'I' as Byte, 'J' as Byte,
     'S' as Byte, 'Z' as Byte, '[' as Byte]

  /** And what it may end at. */
  const BEFORE_CLASS_TYPE: Bytes :=
    ['(' as Byte, ')' as Byte, ';' as Byte, '<' as Byte, '>' as Byte, ':' as Byte,
     '^' as Byte, '+' as Byte, '-' as Byte, '*' as Byte]

  const CLASS_OPEN: Byte := 'L' as Byte

  predicate IsTypePrefix(b: Byte) {
    b == 'B' as Byte || b == 'C' as Byte || b == 'D' as Byte || b == 'F' as Byte || b == 'I' as Byte
    || b == 'J' as Byte || b == 'S' as Byte || b == 'Z' as Byte || b == '[' as Byte
  }

  predicate IsBeforeClassType(b: Byte) {
    b == '(' as Byte || b == ')' as Byte || b == ';' as Byte || b == '<' as Byte || b == '>' as Byte
    || b == ':' as Byte || b == '^' as Byte || b == '+' as Byte || b == '-' as Byte || b == '*' as Byte
  }

  /** The two classes are the two byte sets, and they are disjoint. */
  lemma ByteClasses(b: Byte)
    ensures b in TYPE_PREFIX <==> IsTypePrefix(b)
    ensures b in BEFORE_CLASS_TYPE <==> IsBeforeClassType(b)
    ensures !(IsTypePrefix(b) && IsBeforeClassType(b))
  {
  }

  /** A type may open at `j`: only primitive letters and `[` lie between `j` and the start of the
      text or a byte that may precede a class type. */
  predicate Opens(text: Bytes, j: nat)
    requires j <= |text|
  {
    j == 0
    || (if IsTypePrefix(text[j - 1]) then Opens(text, j - 1) else IsBeforeClassType(text[j - 1]))
  }

  predicate CanStart(text: Bytes, i: nat, context: Context)
    requires i < |text|
  {
    i == 0 ||
    match context
    case Whole => false
    case Text => !IsNameByte(text[i - 1]) && text[i - 1] != DOT && text[i - 1] != SLASH
    case Constant =>
      (i == 1 && text[0] == SLASH) || (text[i - 1] == CLASS_OPEN && Opens(text, i - 1))
  }

  /** The same, by its meaning: a run of type prefixes reaching back from `j` to an opener. */
  ghost predicate OpensAfterRun(text: Bytes, j: nat)
    requires j <= |text|
  {
    exists k: nat :: k <= j && RunFromOpener(text, k, j)
  }

  ghost predicate RunFromOpener(text: Bytes, k: nat, j: nat)
    requires k <= j <= |text|
  {
    (k == 0 || IsBeforeClassType(text[k - 1])) && forall m :: k <= m < j ==> IsTypePrefix(text[m])
  }

  lemma {:induction false} OpensMeaning(text: Bytes, j: nat)
    requires j <= |text|
    ensures Opens(text, j) <==> OpensAfterRun(text, j)
  {
    if j == 0 {
      assert RunFromOpener(text, 0, 0);
    } else {
      OpensMeaning(text, j - 1);
      ByteClasses(text[j - 1]);
      if IsTypePrefix(text[j - 1]) {
        if OpensAfterRun(text, j) {
          var k: nat :| k <= j && RunFromOpener(text, k, j);
          assert RunFromOpener(text, k, j - 1);
        }
        if OpensAfterRun(text, j - 1) {
          var k: nat :| k <= j - 1 && RunFromOpener(text, k, j - 1);
          assert RunFromOpener(text, k, j);
        }
      } else if IsBeforeClassType(text[j - 1]) {
        assert RunFromOpener(text, j, j);
      }
    }
  }

  /** The walk back from an `L`, as the scan does it. */
  method CanStartAt(text: Bytes, i: nat, context: Context) returns (r: bool)
    requires i < |text|
    ensures r == CanStart(text, i, context)
  {
    if i == 0 {
      return true;
    }
    match context
    case Whole => return false;
    case Text =>
      var before := text[i - 1];
      return !IsNameByte(before) && before != DOT && before != SLASH;
    case Constant =>
      if i == 1 && text[0] == SLASH {
        return true;
      }
      if text[i - 1] != CLASS_OPEN {
        return false;
      }
      var j := i - 1;
      while j > 0
        invariant 0 <= j <= i - 1
        invariant Opens(text, i - 1) == Opens(text, j)
      {
        var b := text[j - 1];
        ByteClasses(b);
        if b in TYPE_PREFIX {
          j := j - 1;
        } else {
          return b in BEFORE_CLASS_TYPE;
        }
      }
      return true;
  }

  // ---- the scan -----------------------------------------------------------------------------

  /** Matches span at least one byte, so the scan always advances. */
  ghost predicate Advances(rules: seq<Rule>) {
    forall r <- rules :: r.slashedFrom != [] && r.dottedFrom != []
  }

  /** A relocated name starts at `i`. */
  ghost predicate Hit(rules: seq<Rule>, text: Bytes, i: nat, context: Context)
    requires i < |text|
  {
    CanStart(text, i, context) && MatchAt(rules, text, i) != None
  }

  lemma {:induction false} MatchAdvances(rules: seq<Rule>, text: Bytes, i: nat)
    requires i <= |text| && Advances(rules) && MatchAt(rules, text, i) != None
    ensures var m := MatchAt(rules, text, i).value; 0 < m.consumed && i + m.consumed <= |text|
  {
    if AppliesSomehow(rules[0], text, i) {
    } else {
      MatchAdvances(rules[1..], text, i);
    }
  }

  /** What the scan makes of `text[i..]`. */
  ghost function RewriteFrom(rules: seq<Rule>, text: Bytes, i: nat, context: Context): Bytes
    requires i <= |text| && Advances(rules)
    decreases |text| - i
  {
    if i == |text| then []
    else if Hit(rules, text, i, context) then
      var m := MatchAt(rules, text, i).value;
      MatchAdvances(rules, text, i);
      m.replacement + RewriteFrom(rules, text, i + m.consumed, context)
    else [text[i]] + RewriteFrom(rules, text, i + 1, context)
  }

  ghost function Rewritten(rules: seq<Rule>, text: Bytes, context: Context): Bytes
    requires Advances(rules)
  {
    RewriteFrom(rules, text, 0, context)
  }

  ghost predicate Mentions(rules: seq<Rule>, text: Bytes, context: Context) {
    exists i :: 0 <= i < |text| && Hit(rules, text, i, context)
  }

  lemma Regroup(a: Bytes, b: Bytes, c: Bytes)
    ensures a + (b + c) == (a + b) + c
  {
  }

  /** Having put out `done` for `text[..i]`, the scan goes on to its result. */
  ghost predicate OnTrack(rules: seq<Rule>, text: Bytes, context: Context, done: Bytes, i: nat)
    requires Advances(rules)
  {
    i <= |text| && done + RewriteFrom(rules, text, i, context) == Rewritten(rules, text, context)
  }

  lemma OnTrackHit(rules: seq<Rule>, text: Bytes, context: Context, done: Bytes, i: nat)
    requires Advances(rules) && OnTrack(rules, text, context, done, i)
    requires i < |text| && Hit(rules, text, i, context)
    ensures var m := MatchAt(rules, text, i).value;
            0 < m.consumed && OnTrack(rules, text, context, done + m.replacement, i + m.consumed)
  {
    hide CanStart, MatchAt;
    MatchAdvances(rules, text, i);
    var m := MatchAt(rules, text, i).value;
    Regroup(done, m.replacement, RewriteFrom(rules, text, i + m.consumed, context));
  }

  lemma OnTrackCopy(rules: seq<Rule>, text: Bytes, context: Context, done: Bytes, i: nat)
    requires Advances(rules) && OnTrack(rules, text, context, done, i)
    requires i < |text| && !Hit(rules, text, i, context)
    ensures OnTrack(rules, text, context, done + [text[i]], i + 1)
  {
    hide CanStart, MatchAt;
    Regroup(done, [text[i]], RewriteFrom(rules, text, i + 1, context));
  }

  lemma OnTrackDone(rules: seq<Rule>, text: Bytes, context: Context, done: Bytes)
    requires Advances(rules) && OnTrack(rules, text, context, done, |text|)
    ensures done == Rewritten(rules, text, context)
  {
    assert done + [] == done;
  }

  lemma ExtendSlice(out: Bytes, text: Bytes, copied: nat, i: nat)
    requires copied <= i < |text|
    ensures out + text[copied..i] + [text[i]] == out + text[copied..i + 1]
  {
  }

  /** One scan, copying what lies between replacements; `None` when nothing was replaced. */
  method Rewrite(rules: seq<Rule>, text: Bytes, context: Context) returns (r: Option<Bytes>)
    requires Advances(rules)
    ensures r == None <==> !Mentions(rules, text, context)
    ensures r != None ==> r.value == Rewritten(rules, text, context)
  {
    hide RewriteFrom, MatchAt, CanStart;
    var replaced := false;
    var out: Bytes := [];
    var copied: nat, i: nat := 0, 0;
    ghost var done: Bytes := [];
    while i < |text|
      invariant copied <= i <= |text| && done == out + text[copied..i]
      invariant OnTrack(rules, text, context, done, i)
      invariant if replaced then Mentions(rules, text, context) else NoHitIn(rules, text, 0, i, context)
      decreases |text| - i
    {
      var start := CanStartAt(text, i, context);
      var found := MatchAt(rules, text, i);
      if start && found != None {
        assert Hit(rules, text, i, context);
        OnTrackHit(rules, text, context, done, i);
        done := done + found.value.replacement;
        replaced := true;
        out := out + text[copied..i] + found.value.replacement;
        i := i + found.value.consumed;
        copied := i;
        continue;
      }
      OnTrackCopy(rules, text, context, done, i);
      ExtendSlice(out, text, copied, i);
      done := done + [text[i]];
      i := i + 1;
    }
    OnTrackDone(rules, text, context, done);
    r := if replaced then Some(out + text[copied..]) else None;
  }

  // ---- leftmost, non-overlapping replacement ------------------------------------------------

  /** One replaced stretch of the original text. */
  datatype Span = Span(at: nat, consumed: nat, replacement: Bytes)

  ghost predicate NoHitIn(rules: seq<Rule>, text: Bytes, lo: nat, hi: nat, context: Context)
    requires hi <= |text|
  {
    forall k :: lo <= k < hi ==> !Hit(rules, text, k, context)
  }

  /** `s` is a hit, with what the rules make of it. */
  ghost predicate IsHit(rules: seq<Rule>, text: Bytes, s: Span, context: Context) {
    && s.at < |text|
    && Hit(rules, text, s.at, context)
    && MatchAt(rules, text, s.at) == Some(Match(s.consumed, s.replacement))
  }

  /** `spans` are hits of the original text, in order and disjoint, with no hit outside them. */
  ghost predicate LeftmostHits(rules: seq<Rule>, text: Bytes, from: nat, spans: seq<Span>, context: Context)
    requires from <= |text|
    decreases |spans|
  {
    if spans == [] then NoHitIn(rules, text, from, |text|, context)
    else
      var s := spans[0];
      && from <= s.at
      && s.at + s.consumed <= |text|
      && NoHitIn(rules, text, from, s.at, context)
      && IsHit(rules, text, s, context)
      && LeftmostHits(rules, text, s.at + s.consumed, spans[1..], context)
  }

  ghost predicate InBounds(text: Bytes, from: nat, spans: seq<Span>)
    decreases |spans|
  {
    if spans == [] then from <= |text|
    else from <= spans[0].at && InBounds(text, spans[0].at + spans[0].consumed, spans[1..])
  }

  /** The original text with every span's stretch exchanged for its replacement. */
  ghost function Splice(text: Bytes, from: nat, spans: seq<Span>): Bytes
    requires InBounds(text, from, spans)
    decreases |spans|
  {
    if spans == [] then text[from..]
    else
      InBoundsEnd(text, spans[0].at + spans[0].consumed, spans[1..]);
      text[from..spans[0].at]
      + (spans[0].replacement + Splice(text, spans[0].at + spans[0].consumed, spans[1..]))
  }

  lemma InBoundsEnd(text: Bytes, from: nat, spans: seq<Span>)
    requires InBounds(text, from, spans)
    ensures from <= |text|
    decreases |spans|
  {
    if spans != [] {
      InBoundsEnd(text, spans[0].at + spans[0].consumed, spans[1..]);
    }
  }

  /** Over a stretch with no hit the scan copies. */
  lemma {:induction false} CopiesOver(rules: seq<Rule>, text: Bytes, lo: nat, hi: nat, context: Context)
    requires lo <= hi <= |text| && Advances(rules) && NoHitIn(rules, text, lo, hi, context)
    ensures RewriteFrom(rules, text, lo, context) == text[lo..hi] + RewriteFrom(rules, text, hi, context)
    decreases hi - lo
  {
    hide CanStart, MatchAt;
    if lo == hi {
    } else {
      CopiesOver(rules, text, lo + 1, hi, context);
      assert text[lo..hi] == [text[lo]] + text[lo + 1..hi];
      Regroup([text[lo]], text[lo + 1..hi], RewriteFrom(rules, text, hi, context));
    }
  }

  lemma {:induction false} LeftmostInBounds(rules: seq<Rule>, text: Bytes, from: nat, spans: seq<Span>, context: Context)
    requires from <= |text| && LeftmostHits(rules, text, from, spans, context)
    ensures InBounds(text, from, spans)
    decreases |spans|
  {
    if spans == [] {
    } else {
      LeftmostInBounds(rules, text, spans[0].at + spans[0].consumed, spans[1..], context);
    }
  }

  lemma {:induction false} ScanIsSplice(rules: seq<Rule>, text: Bytes, from: nat, spans: seq<Span>, context: Context)
    requires from <= |text| && Advances(rules) && LeftmostHits(rules, text, from, spans, context)
    ensures InBounds(text, from, spans)
    ensures RewriteFrom(rules, text, from, context) == Splice(text, from, spans)
    decreases |spans|
  {
    hide CanStart, MatchAt, RewriteFrom, IsHit, NoHitIn, Hit, Splice, InBounds;
    LeftmostInBounds(rules, text, from, spans, context);
    if spans == [] {
      CopiesOver(rules, text, from, |text|, context);
      ScanEnds(rules, text, context);
      SpliceNone(text, from);
    } else {
      var s := spans[0];
      CopiesOver(rules, text, from, s.at, context);
      ScanHit(rules, text, s, context);
      ScanIsSplice(rules, text, s.at + s.consumed, spans[1..], context);
      SpliceFirst(text, from, spans);
    }
  }

  lemma SpliceNone(text: Bytes, from: nat)
    requires from <= |text|
    ensures InBounds(text, from, []) && Splice(text, from, []) == text[from..|text|] + []
  {
    assert text[from..|text|] + [] == text[from..];
  }

  lemma SpliceFirst(text: Bytes, from: nat, spans: seq<Span>)
    requires InBounds(text, from, spans) && spans != []
    ensures var s := spans[0];
            && from <= s.at <= |text| && InBounds(text, s.at + s.consumed, spans[1..])
            && Splice(text, from, spans)
               == text[from..s.at] + (s.replacement + Splice(text, s.at + s.consumed, spans[1..]))
  {
    InBoundsEnd(text, spans[0].at + spans[0].consumed, spans[1..]);
  }

  lemma ScanEnds(rules: seq<Rule>, text: Bytes, context: Context)
    requires Advances(rules)
    ensures RewriteFrom(rules, text, |text|, context) == []
  {
  }

  lemma ScanHit(rules: seq<Rule>, text: Bytes, s: Span, context: Context)
    requires Advances(rules) && IsHit(rules, text, s, context) && s.at + s.consumed <= |text|
    ensures RewriteFrom(rules, text, s.at, context)
            == s.replacement + RewriteFrom(rules, text, s.at + s.consumed, context)
  {
    hide CanStart, MatchAt;
  }

  lemma {:induction false} HitsExist(rules: seq<Rule>, text: Bytes, from: nat, context: Context) returns (spans: seq<Span>)
    requires from <= |text| && Advances(rules)
    ensures LeftmostHits(rules, text, from, spans, context)
    ensures spans == [] <==> NoHitIn(rules, text, from, |text|, context)
    decreases |text| - from
  {
    hide CanStart, MatchAt;
    if from == |text| {
      spans := [];
    } else if Hit(rules, text, from, context) {
      MatchAdvances(rules, text, from);
      var m := MatchAt(rules, text, from).value;
      var rest := HitsExist(rules, text, from + m.consumed, context);
      spans := [Span(from, m.consumed, m.replacement)] + rest;
      assert spans[1..] == rest;
    } else {
      spans := HitsExist(rules, text, from + 1, context);
      if spans != [] {
        assert LeftmostHits(rules, text, from + 1, spans, context);
        assert LeftmostHits(rules, text, from, spans, context);
      }
    }
  }

  /** The scan is the leftmost, non-overlapping replacement decided on the original text: there
      is such a choice of hits, and splicing any such choice gives the scan's result. */
  lemma RewriteIsLeftmostReplacement(rules: seq<Rule>, text: Bytes, context: Context)
    requires Advances(rules)
    ensures exists spans :: LeftmostHits(rules, text, 0, spans, context)
    ensures forall spans :: LeftmostHits(rules, text, 0, spans, context) ==>
              InBounds(text, 0, spans) && Rewritten(rules, text, context) == Splice(text, 0, spans)
    ensures !Mentions(rules, text, context) ==> Rewritten(rules, text, context) == text
  {
    var found := HitsExist(rules, text, 0, context);
    forall spans | LeftmostHits(rules, text, 0, spans, context)
      ensures InBounds(text, 0, spans) && Rewritten(rules, text, context) == Splice(text, 0, spans)
    {
      ScanIsSplice(rules, text, 0, spans, context);
    }
  }
}
