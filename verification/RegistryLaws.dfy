/** Merging again. */
module RegistryLaws {
  // Exactly when merging what was merged changes nothing.

  import opened ByteStrings
  import opened FirstSeen
  import opened Registries
  import opened RegistryReading
  import opened Splitting
  import opened Text
  import opened Wrappers

  /** A merged `spring.factories` may be merged again, whatever it is merged with, exactly when no line
      of it starts as a comment or ends in an odd run of backslashes. */
  lemma FactoriesMergeAgain(a: seq<string>)
    ensures (forall b: seq<string> :: MergedFactories([MergedFactories(a)] + b) == MergedFactories(a + b))
            <==> forall line <- Lines(MergedFactories(a)) :: IsWhole(line)
  {
    hide MergedFactories, Lines, IsWhole;
    if forall line <- Lines(MergedFactories(a)) :: IsWhole(line) {
      forall b: seq<string>
        ensures MergedFactories([MergedFactories(a)] + b) == MergedFactories(a + b)
      {
        WholeMergesAgain(a, b);
      }
    } else {
      BrokenChanges(a);
      var none: seq<string> := [];
      assert [MergedFactories(a)] + none == [MergedFactories(a)] && a + none == a;
      assert MergedFactories([MergedFactories(a)] + none) != MergedFactories(a + none);
    }
  }

  /** A key that starts with `#`, which a continued line can give, is written as a comment: merged again,
      it is lost, although there is no backslash in what was merged. */
  lemma CommentedKeyIsLost()
    ensures MergedFactories(["\\\n#a=b"]) == "#a=b\n"
    ensures MergedFactories(["#a=b\n"]) == ""
  {
    hide Properties, AddPairs, WriteLines, SlotLines, CleanKey, CleanValue;
    ContinuedKey();
    OneCopy("\\\n#a=b");
    HashPairIsClean();
    OnePair("#a", "b");
    CommentedKey();
    OneCopy("#a=b\n");
    NothingMerged();
    assert "#a" + ("=" + "b") + "\n" == "#a=b\n";
  }

  lemma HashPairIsClean()
    ensures CleanKey("#a") && CleanValue("b")
  {
  }

  lemma NothingMerged()
    ensures WriteLines(SlotLines(AddPairs([], []))) == ""
  {
  }

  lemma OneCopy(copy: string)
    ensures AllProperties([copy]) == Properties(copy)
  {
    hide Properties;
    assert [copy][1..] == [] && Properties(copy) + [] == Properties(copy);
  }

  lemma ContinuedKey()
    ensures Properties("\\\n#a=b") == [Pair("#a", "b")]
  {
    hide Lines, PairsFrom, PairOn, Trim, TrimStart, CleanKey, IsTrimmed;
    FirstLine("\\", "#a=b");
    LastLine("#a=b");
    assert "\\\n#a=b" == "\\" + ("\n" + "#a=b");
    StartsAtOnce("\\");
    StartsAtOnce("#a=b");
    OneBackslash();
    LineContinues("\\", ["#a=b"]);
    LineEnds("#a=b", "\\"[..0]);
    assert "\\"[..0] + "#a=b" == "#a=b" == "#a" + ("=" + "b");
    HashPairIsClean();
    CleanIsTrimmed("b");
    LineReads("#a", "b");
    assert StripReturn("\\") == "\\";
    assert ["\\"] + ["#a=b"] == ["\\", "#a=b"];
  }

  lemma CleanIsTrimmed(v: string)
    requires CleanValue(v)
    ensures IsTrimmed(v)
  {
  }

  lemma OneBackslash()
    ensures Continues("\\") && !Continues("#a=b")
  {
    assert "\\"[..0] == "" && !Continues("");
  }

  lemma CommentedKey()
    ensures Properties("#a=b\n") == []
  {
    hide Lines, TrimStart;
    FirstLine("#a=b", "");
    assert "#a=b\n" == "#a=b" + ("\n" + "");
    assert Lines("") == [] by { NoLinesAtAll(); }
    assert ["#a=b"] + [] == ["#a=b"] && ["#a=b"][1..] == [];
    StartsAtOnce("#a=b");
  }

  lemma NoLinesAtAll()
    ensures Lines("") == []
  {
  }

  lemma LastLine(line: string)
    requires '\n' !in line && line != []
    ensures Lines(line) == [line]
  {
    FindIs(line, '\n', 0, |line|);
  }

  lemma StartsAtOnce(line: string)
    requires line != [] && !IsWhitespace(line[0])
    ensures TrimStart(line) == line
  {
    IndentIs(line, 0);
  }

  /** A line continued on the next is pending, without its last backslash. */
  lemma LineContinues(line: string, rest: seq<string>)
    requires TrimStart(line) == line && !IsSkipped(line) && Continues(line)
    ensures PairsFrom([line] + rest, None) == PairsFrom(rest, Some(line[..|line| - 1]))
  {
    hide PairOn, TrimStart, IsSkipped;
    assert ([line] + rest)[1..] == rest && [] + line[..|line| - 1] == line[..|line| - 1];
  }

  /** The line that ends what is pending. */
  lemma LineEnds(line: string, pending: string)
    requires TrimStart(line) == line && !Continues(line)
    ensures PairsFrom([line], Some(pending)) == PairOn(pending + line)
  {
    hide PairOn, TrimStart, IsSkipped;
    assert [line][1..] == [] && PairsFrom([], None) == [];
    assert PairOn(pending + line) + [] == PairOn(pending + line);
  }

  lemma OnePair(key: string, value: string)
    requires CleanKey(key) && CleanValue(value)
    ensures WriteLines(SlotLines(AddPairs([], [Pair(key, value)]))) == key + ("=" + value) + "\n"
  {
    hide CleanKey, IsTrimmed, Trim;
    var pair := Pair(key, value);
    ValuesBack([value]);
    assert Join([value], ',') == value;
    assert [pair][1..] == [];
    var slots := [Slot(key, [value])];
    assert AddPairs([], [pair]) == slots;
    assert slots[1..] == [] && SlotLines(slots)[1..] == [];
    assert "\n" + [] == "\n";
  }

  // ---- appended files ---------------------------------------------------------------------------

  lemma {:induction false} AppendAllConcat(merged: Bytes, a: seq<Bytes>, b: seq<Bytes>)
    ensures AppendAll(merged, a + b) == AppendAll(AppendAll(merged, a), b)
    decreases |a|
  {
    if a == [] {
      assert a + b == b;
    } else {
      assert (a + b)[1..] == a[1..] + b;
      AppendAllConcat(AppendCopy(merged, a[0]), a[1..], b);
    }
  }

  /** Appending to an appended file is appending all the copies. */
  lemma AppendedAppendsAgain(a: seq<Bytes>, b: seq<Bytes>)
    ensures AppendAll([], [AppendAll([], a)] + b) == AppendAll([], a + b)
  {
    hide AppendAll;
    var first := AppendAll([], a);
    AppendAllConcat([], a, b);
    AppendAllConcat([], [first], b);
    AppendOne(first);
  }

  lemma AppendOne(copy: Bytes)
    ensures AppendAll([], [copy]) == copy
  {
    assert [copy][1..] == [] && [] + copy == copy;
  }

  /** The lines of a file, without their line feeds; nothing follows the last one. */
  function FileLines(b: Bytes): (lines: seq<Bytes>)
    ensures b != [] ==> lines != []
    decreases |b|
  {
    if b == [] then []
    else if b[0] == LINE_FEED then [[]] + FileLines(b[1..])
    else if |b| == 1 then [b]
    else
      var rest := FileLines(b[1..]);
      [[b[0]] + rest[0]] + rest[1..]
  }

  lemma {:induction false} FileLinesConcat(a: Bytes, b: Bytes)
    requires EndsLine(a)
    ensures FileLines(a + b) == FileLines(a) + FileLines(b)
    decreases |a|
  {
    if a == [] {
      assert a + b == b;
    } else {
      assert (a + b)[1..] == a[1..] + b;
      if |a| > 1 {
        assert a[1..][|a| - 2] == a[|a| - 1];
      }
      FileLinesConcat(a[1..], b);
    }
  }

  lemma {:induction false} LastLineEnded(a: Bytes)
    requires !EndsLine(a)
    ensures FileLines(a + [LINE_FEED]) == FileLines(a)
    decreases |a|
  {
    assert (a + [LINE_FEED])[1..] == a[1..] + [LINE_FEED];
    if |a| > 1 {
      assert a[1..][|a| - 2] == a[|a| - 1];
      LastLineEnded(a[1..]);
    } else {
      assert [LINE_FEED][1..] == [] && FileLines([LINE_FEED]) == [[]];
      assert [a[0]] + [] == a;
    }
  }

  function AllFileLines(copies: seq<Bytes>): seq<Bytes> {
    if copies == [] then [] else FileLines(copies[0]) + AllFileLines(copies[1..])
  }

  /** No line of one copy runs into another's: the lines of what is appended are those of the copies. */
  lemma {:induction false} AppendedKeepsLines(merged: Bytes, copies: seq<Bytes>)
    ensures FileLines(AppendAll(merged, copies)) == FileLines(merged) + AllFileLines(copies)
    decreases |copies|
  {
    hide FileLines;
    if copies != [] {
      var ended := if EndsLine(merged) then merged else merged + [LINE_FEED];
      if !EndsLine(merged) {
        LastLineEnded(merged);
      }
      FileLinesConcat(ended, copies[0]);
      AppendedKeepsLines(AppendCopy(merged, copies[0]), copies[1..]);
    }
  }
}
