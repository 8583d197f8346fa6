/**
 Reading back one quoted argument, backslash by backslash and quote by quote, and collapsing the percent
 signs that were doubled for `cmd`.
 */
module QuotingSteps {
  import opened Quoting
  import opened Text

  // ---- the quoted argument reads back -------------------------------------------------------------

  /** Nothing, or a blank: where an argument ends. */
  predicate EndsArgument(rest: string) {
    rest == [] || IsBlankChar(rest[0])
  }

  lemma {:induction false} TakeBackslashes(k: nat, s: string, n: nat, quoting: bool)
    ensures TakeArgument(Repeat('\\', k) + s, n, quoting) == TakeArgument(s, n + k, quoting)
    decreases k
  {
    hide TakeArgument;
    if k == 0 {
      assert Repeat('\\', k) + s == s;
    } else {
      var more := Repeat('\\', k - 1) + s;
      assert Repeat('\\', k) + s == ['\\'] + more;
      OneBackslash(more, n, quoting);
      TakeBackslashes(k - 1, s, n + 1, quoting);
    }
  }

  lemma NothingMore(n: nat, rest: string)
    requires EndsArgument(rest)
    ensures TakeArgument(rest, n, false) == Taken(Repeat('\\', n), rest)
  {
  }

  lemma ClosingQuote(n: nat, rest: string)
    requires EndsArgument(rest)
    ensures TakeArgument(Repeat('\\', 2 * n) + ("\"" + rest), 0, true) == Taken(Repeat('\\', n), rest)
  {
    TakeBackslashes(2 * n, "\"" + rest, 0, true);
    assert ("\"" + rest)[1..] == rest;
    NothingMore(0, rest);
    assert Repeat('\\', n) + [] == Repeat('\\', n);
    assert 2 * n / 2 == n && 2 * n % 2 == 0;
  }

  lemma EscapedQuote(n: nat, s: string)
    ensures TakeArgument(Repeat('\\', 2 * n + 1) + ("\"" + s), 0, true)
            == Before(Repeat('\\', n) + "\"", TakeArgument(s, 0, true))
  {
    TakeBackslashes(2 * n + 1, "\"" + s, 0, true);
    assert ("\"" + s)[1..] == s;
    assert (2 * n + 1) / 2 == n && (2 * n + 1) % 2 == 1;
  }

  lemma OrdinaryCharacter(n: nat, c: char, s: string)
    requires c != '\\' && c != '\"'
    ensures TakeArgument(Repeat('\\', n) + ([c] + s), 0, true) == Before(Repeat('\\', n) + [c], TakeArgument(s, 0, true))
  {
    TakeBackslashes(n, [c] + s, 0, true);
    assert ([c] + s)[1..] == s;
  }

  lemma OneBackslash(s: string, n: nat, quoting: bool)
    ensures TakeArgument(['\\'] + s, n, quoting) == TakeArgument(s, n + 1, quoting)
  {
    assert (['\\'] + s)[1..] == s;
  }

  lemma RepeatMore(n: nat, s: string)
    ensures Repeat('\\', n + 1) + s == Repeat('\\', n) + (['\\'] + s)
  {
  }

  lemma NoBackslashes(s: string)
    ensures Repeat('\\', 0) + s == s
  {
  }

  lemma Regroup(a: string, b: string, c: string, d: string)
    ensures (a + (b + c)) + d == a + (b + (c + d))
    ensures (a + b) + c == a + (b + c)
  {
  }

  lemma QuotedUnfolds(s: string, n: nat)
    requires s != []
    ensures var more := QuotedFrom(s[1..], 0);
            QuotedFrom(s, n)
            == if s[0] == '\\' then QuotedFrom(s[1..], n + 1)
               else Repeat('\\', if s[0] == '\"' then 2 * n + 1 else n) + ([s[0]] + more)
  {
    hide Repeat;
  }

  lemma QuotedEnd(n: nat, rest: string)
    ensures QuotedFrom([], n) + rest == Repeat('\\', 2 * n) + ("\"" + rest)
  {
    hide Repeat;
    assert (Repeat('\\', 2 * n) + "\"") + rest == Repeat('\\', 2 * n) + ("\"" + rest);
  }

  lemma {:induction false} QuotedReadsBack(s: string, n: nat, rest: string)
    requires EndsArgument(rest)
    ensures TakeArgument(QuotedFrom(s, n) + rest, 0, true) == Taken(Repeat('\\', n) + s, rest)
    decreases |s|
  {
    hide TakeArgument, Repeat, QuotedFrom;
    var r := Repeat('\\', n);
    if s == [] {
      ClosingQuote(n, rest);
      QuotedEnd(n, rest);
      assert r + s == r;
    } else {
      var tail := s[1..];
      var more := QuotedFrom(tail, 0);
      assert s == [s[0]] + tail;
      QuotedUnfolds(s, n);
      if s[0] == '\\' {
        QuotedReadsBack(tail, n + 1, rest);
        RepeatMore(n, tail);
      } else {
        QuotedReadsBack(tail, 0, rest);
        NoBackslashes(tail);
        Regroup(r, [s[0]], tail, []);
        Regroup(Repeat('\\', if s[0] == '\"' then 2 * n + 1 else n), [s[0]], more, rest);
        if s[0] == '\"' {
          EscapedQuote(n, more + rest);
        } else {
          OrdinaryCharacter(n, s[0], more + rest);
        }
      }
    }
  }

  lemma PlainCharacter(c: char, s: string, n: nat)
    requires c != '\\' && !IsWhitespace(c) && !IsOperator(c)
    ensures TakeArgument([c] + s, n, false) == Before(Repeat('\\', n) + [c], TakeArgument(s, 0, false))
  {
    assert ([c] + s)[1..] == s;
  }

  /** Without quotes, text that needs none reads as itself. */
  lemma {:induction false} PlainReadsBack(s: string, n: nat, rest: string)
    requires EndsArgument(rest) && forall k :: 0 <= k < |s| ==> !IsWhitespace(s[k]) && !IsOperator(s[k])
    ensures TakeArgument(s + rest, n, false) == Taken(Repeat('\\', n) + s, rest)
    decreases |s|
  {
    hide TakeArgument, Repeat, IsWhitespace, IsOperator;
    var r := Repeat('\\', n);
    if s == [] {
      assert s + rest == rest && r + s == r;
      NothingMore(n, rest);
    } else {
      var tail := s[1..];
      assert s == [s[0]] + tail;
      Regroup([s[0]], tail, rest, []);
      if s[0] == '\\' {
        OneBackslash(tail + rest, n, false);
        PlainReadsBack(tail, n + 1, rest);
        RepeatMore(n, tail);
      } else {
        PlainCharacter(s[0], tail + rest, n);
        PlainReadsBack(tail, 0, rest);
        NoBackslashes(tail);
        Regroup(r, [s[0]], tail, []);
      }
    }
  }

  lemma ArgumentReadsBack(s: string, rest: string)
    requires EndsArgument(rest)
    ensures Quoted(s) != [] && !IsBlankChar(Quoted(s)[0])
    ensures TakeArgument(Quoted(s) + rest, 0, false) == Taken(s, rest)
  {
    hide TakeArgument;
    if NeedsQuotes(s) {
      QuotedReadsBack(s, 0, rest);
      assert Repeat('\\', 0) + s == s;
      OpeningQuote(QuotedFrom(s, 0) + rest);
      assert ("\"" + QuotedFrom(s, 0)) + rest == "\"" + (QuotedFrom(s, 0) + rest);
    } else {
      PlainReadsBack(s, 0, rest);
      assert Repeat('\\', 0) + s == s;
    }
  }

  lemma OpeningQuote(s: string)
    ensures TakeArgument("\"" + s, 0, false) == TakeArgument(s, 0, true)
  {
    assert ("\"" + s)[1..] == s;
    var taken := TakeArgument(s, 0, true);
    assert Repeat('\\', 0) + taken.arg == taken.arg;
  }

  // ---- percent signs ----------------------------------------------------------------------------

  lemma CollapsedPair(more: string)
    ensures Collapsed("%%" + more) == ['%'] + Collapsed(more)
  {
    assert ("%%" + more)[2..] == more;
  }

  lemma CollapsedOther(c: char, more: string)
    requires c != '%'
    ensures Collapsed([c] + more) == [c] + Collapsed(more)
  {
    assert ([c] + more)[1..] == more;
  }

  lemma {:induction false} CollapseDoubled(s: string, rest: string)
    ensures Collapsed(Doubled(s) + rest) == s + Collapsed(rest)
  {
    hide Collapsed;
    if s == [] {
      assert [] + rest == rest && [] + Collapsed(rest) == Collapsed(rest);
    } else {
      CollapseDoubled(s[1..], rest);
      var more := Doubled(s[1..]) + rest;
      assert s + Collapsed(rest) == [s[0]] + (s[1..] + Collapsed(rest));
      if s[0] == '%' {
        assert Doubled(s) + rest == "%%" + more;
        CollapsedPair(more);
      } else {
        assert Doubled(s) + rest == [s[0]] + more;
        CollapsedOther(s[0], more);
      }
    }
  }

  lemma {:induction false} DoubledConcat(a: string, b: string)
    ensures Doubled(a + b) == Doubled(a) + Doubled(b)
  {
    hide Doubled, DoubledChar;
    if a == [] {
      DoubledNothing(b);
    } else {
      var rest := a[1..];
      assert [a[0]] + rest == a && [a[0]] + (rest + b) == a + b;
      DoubledMore(a[0], rest);
      DoubledMore(a[0], rest + b);
      DoubledConcat(rest, b);
      assert DoubledChar(a[0]) + (Doubled(rest) + Doubled(b)) == (DoubledChar(a[0]) + Doubled(rest)) + Doubled(b);
    }
  }

  lemma DoubledNothing(b: string)
    ensures Doubled([] + b) == Doubled([]) + Doubled(b)
  {
    assert [] + b == b && [] + Doubled(b) == Doubled(b);
  }

  lemma {:induction false} NoPercents(s: string)
    requires '%' !in s
    ensures Doubled(s) == s
  {
    if s != [] {
      assert s[0] in s && forall c <- s[1..] :: c in s;
      NoPercents(s[1..]);
    }
  }

  /** Quoting what has its percent signs doubled is doubling those of what is quoted. */
  lemma {:induction false} QuotedDoubled(s: string, n: nat)
    ensures QuotedFrom(Doubled(s), n) == Doubled(QuotedFrom(s, n))
    decreases |s|
  {
    if s == [] {
      NoPercents(Repeat('\\', 2 * n) + "\"");
    } else {
      var more := QuotedFrom(s[1..], 0);
      if s[0] == '\\' {
        QuotedDoubled(s[1..], n + 1);
        assert Doubled(s)[1..] == Doubled(s[1..]);
      } else {
        QuotedDoubled(s[1..], 0);
        if s[0] == '\"' {
          assert Doubled(s)[1..] == Doubled(s[1..]);
          DoubledOver(Repeat('\\', 2 * n + 1), '\"', more);
        } else {
          QuotedPercent(s, n);
          DoubledOver(Repeat('\\', n), s[0], more);
        }
      }
    }
  }

  lemma DoubledOver(before: string, c: char, more: string)
    requires '%' !in before
    ensures Doubled(before + ([c] + more)) == before + ((if c == '%' then "%%" else [c]) + Doubled(more))
  {
    NoPercents(before);
    DoubledConcat(before, [c] + more);
    assert ([c] + more)[1..] == more;
  }

  lemma QuotedOrdinary(c: char, s: string, n: nat)
    requires c != '\\' && c != '\"'
    ensures QuotedFrom([c] + s, n) == Repeat('\\', n) + ([c] + QuotedFrom(s, 0))
  {
    assert ([c] + s)[1..] == s;
  }

  /** A character that is neither backslash nor quote, with a percent sign doubled, goes in as it is. */
  lemma QuotedPercent(s: string, n: nat)
    requires s != [] && s[0] != '\\' && s[0] != '\"'
    ensures QuotedFrom(Doubled(s), n)
            == Repeat('\\', n) + ((if s[0] == '%' then "%%" else [s[0]]) + QuotedFrom(Doubled(s[1..]), 0))
  {
    hide QuotedFrom, Repeat;
    var d := Doubled(s[1..]);
    if s[0] == '%' {
      assert Doubled(s) == ['%'] + (['%'] + d);
      QuotedOrdinary('%', ['%'] + d, n);
      QuotedOrdinary('%', d, 0);
      NoBackslashes(['%'] + QuotedFrom(d, 0));
      assert ['%'] + (['%'] + QuotedFrom(d, 0)) == "%%" + QuotedFrom(d, 0);
    } else {
      QuotedOrdinary(s[0], d, n);
    }
  }

  lemma {:induction false} SpecialIn(s: string)
    ensures NeedsQuotes(Doubled(s)) == NeedsQuotes(s)
  {
    if s != [] {
      var head := if s[0] == '%' then "%%" else [s[0]];
      SpecialIn(s[1..]);
      SpecialConcat(head, Doubled(s[1..]));
      SpecialConcat([s[0]], s[1..]);
      assert s == [s[0]] + s[1..];
      assert head[0] == s[0];
      assert s[1..] == [] ==> Doubled(s[1..]) == [];
    }
  }

  lemma SpecialConcat(a: string, b: string)
    ensures HasSpecial(a + b) <==> HasSpecial(a) || HasSpecial(b)
  {
    var s := a + b;
    assert forall k :: 0 <= k < |a| ==> s[k] == a[k];
    assert forall k :: 0 <= k < |b| ==> b[k] == s[|a| + k];
    assert forall k :: |a| <= k < |s| ==> s[k] == b[k - |a|];
  }

  lemma BatQuotedIsDoubled(arg: string)
    ensures BatQuoted(arg) == Doubled(Quoted(arg))
  {
    SpecialIn(arg);
    if NeedsQuotes(arg) {
      QuotedDoubled(arg, 0);
      DoubledConcat("\"", QuotedFrom(arg, 0));
      NoPercents("\"");
    }
  }
}
