/** Quoted arguments. */
module QuotingLaws {
  // Whatever is in them, they reach the program as they are.

  import opened Quoting
  import opened QuotingSteps
  import opened Text

  /** Arguments as the launcher script writes them, each after a space. */
  function CommandLine(args: seq<string>): string {
    if args == [] then [] else " " + (BatQuoted(args[0]) + CommandLine(args[1..]))
  }

  function Plainly(args: seq<string>): string {
    if args == [] then [] else " " + (Quoted(args[0]) + Plainly(args[1..]))
  }

  /** What `cmd` would act on, or a space would end. */
  predicate IsSpecial(c: char) {
    IsWhitespace(c) || c in "\"&|<>^"
  }

  lemma {:induction false} DoubledKeeps(arg: string, c: char)
    ensures c in Doubled(arg) <==> c in arg
  {
    if arg != [] {
      DoubledKeeps(arg[1..], c);
      assert arg == [arg[0]] + arg[1..];
    }
  }

  lemma SpecialInDoubled(arg: string)
    ensures HasSpecial(Doubled(arg)) <==> exists c <- arg :: IsSpecial(c)
    ensures Doubled(arg) == [] <==> arg == []
  {
    hide IsWhitespace, Doubled;
    var d := Doubled(arg);
    if c :| c in arg && IsSpecial(c) {
      DoubledKeeps(arg, c);
      var k :| 0 <= k < |d| && d[k] == c;
      assert IsOperator(d[k]) || IsWhitespace(d[k]);
    }
    if k :| 0 <= k < |d| && (IsWhitespace(d[k]) || IsOperator(d[k])) {
      DoubledKeeps(arg, d[k]);
      assert IsSpecial(d[k]);
    }
    NothingDoubled(arg);
  }

  lemma NothingDoubled(arg: string)
    ensures Doubled(arg) == [] <==> arg == []
  {
  }

  /** An argument is put in quotes exactly when it is empty or has a special character; either way its percent
      signs are doubled. */
  lemma QuotedWhenNeeded(arg: string)
    ensures var q := BatQuoted(arg);
            if arg == [] || exists c <- arg :: IsSpecial(c) then |q| >= 2 && q[0] == '\"' && q[|q| - 1] == '\"'
            else q == Doubled(arg)
    ensures Collapsed(BatQuoted(arg)) == Quoted(arg)
  {
    hide IsSpecial, HasSpecial, Doubled, QuotedFrom, Collapsed;
    SpecialInDoubled(arg);
    QuotedEnds(Doubled(arg), 0);
    CollapsedBack(arg);
  }

  lemma CollapsedBack(arg: string)
    ensures Collapsed(BatQuoted(arg)) == Quoted(arg)
  {
    hide Quoted, Doubled, BatQuoted;
    BatQuotedIsDoubled(arg);
    CollapseDoubled(Quoted(arg), []);
    assert BatQuoted(arg) + [] == BatQuoted(arg) && Quoted(arg) + [] == Quoted(arg);
    NothingCollapsed();
  }

  lemma NothingCollapsed()
    ensures Collapsed([]) == []
  {
  }

  lemma {:induction false} QuotedEnds(s: string, n: nat)
    ensures QuotedFrom(s, n) != [] && QuotedFrom(s, n)[|QuotedFrom(s, n)| - 1] == '\"'
  {
    if s != [] {
      QuotedEnds(s[1..], 0);
      QuotedEnds(s[1..], n + 1);
    }
  }

  lemma {:induction false} CollapsedLine(args: seq<string>)
    ensures Collapsed(CommandLine(args)) == Plainly(args)
  {
    if args != [] {
      CollapsedLine(args[1..]);
      BatQuotedIsDoubled(args[0]);
      CollapseDoubled(Quoted(args[0]), CommandLine(args[1..]));
      var line := BatQuoted(args[0]) + CommandLine(args[1..]);
      assert (" " + line)[1..] == line;
    }
  }

  /** However many arguments, and whatever is in them, the program is started with exactly those. */
  lemma {:induction false} ArgumentsReadBack(args: seq<string>)
    ensures Arguments(Collapsed(CommandLine(args))) == args
  {
    CollapsedLine(args);
    PlainArguments(args);
  }

  lemma {:induction false} PlainArguments(args: seq<string>)
    ensures Arguments(Plainly(args)) == args && EndsArgument(Plainly(args))
  {
    hide TakeArgument, Quoted;
    var line := Plainly(args);
    if args == [] {
    } else {
      var more := Plainly(args[1..]);
      PlainArguments(args[1..]);
      ArgumentReadsBack(args[0], more);
      var rest := Quoted(args[0]) + more;
      assert line[1..] == rest && rest[0] == Quoted(args[0])[0];
      SkipBlanksIs(line, 0, 1);
      assert args == [args[0]] + args[1..];
    }
  }

  /** One argument on its own. */
  lemma ArgumentReadsAlone(arg: string)
    ensures Arguments(Collapsed(BatQuoted(arg))) == [arg]
  {
    hide TakeArgument, Quoted, Doubled, Collapsed;
    BatQuotedIsDoubled(arg);
    CollapseDoubled(Quoted(arg), []);
    assert Doubled(Quoted(arg)) + [] == Doubled(Quoted(arg));
    CollapsedNothing();
    var q := Quoted(arg);
    assert q + [] == q;
    ArgumentReadsBack(arg, []);
    SkipBlanksIs(q, 0, 0);
    assert q[0..] == q;
    assert Arguments([]) == [];
  }

  lemma CollapsedNothing()
    ensures Collapsed([]) == []
  {
  }
}
