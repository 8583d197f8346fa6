/**
 Merged lines. Merging `.imports` files keeps every line once, and merging what was merged changes
 nothing.
 */
module RegistryImports {
  import opened FirstSeen
  import opened Registries
  import opened Splitting
  import opened Text

  // ---- .imports ---------------------------------------------------------------------------------

  predicate IsImport(line: string) {
    IsTrimmed(line) && '#' !in line && '\n' !in line
  }

  lemma ImportIsImport(line: string)
    requires '\n' !in line
    ensures IsImport(Import(line))
  {
    hide Trim, IsTrimmed;
    TrimIsTrimmed(line[..Find(line, '#', 0)]);
  }

  lemma {:induction false} ImportsAreImports(lines: seq<string>)
    requires forall line <- lines :: '\n' !in line
    ensures forall line <- Imports(lines) :: IsImport(line)
  {
    hide Import, IsImport;
    if lines != [] {
      ImportIsImport(lines[0]);
      ImportsAreImports(lines[1..]);
    }
  }

  lemma {:induction false} AllImportsAreImports(copies: seq<string>)
    ensures forall line <- AllImports(copies) :: IsImport(line)
  {
    hide Imports, Lines, IsImport;
    if copies != [] {
      LinesHaveNone(copies[0]);
      ImportsAreImports(Lines(copies[0]));
      AllImportsAreImports(copies[1..]);
    }
  }

  lemma {:induction false} AllImportsConcat(a: seq<string>, b: seq<string>)
    ensures AllImports(a + b) == AllImports(a) + AllImports(b)
  {
    hide AllImports, Imports, Lines;
    if a == [] {
      AllImportsOfNone(b);
    } else {
      var rest := a[1..];
      assert [a[0]] + rest == a && [a[0]] + (rest + b) == a + b;
      AllImportsMore(a[0], rest);
      AllImportsMore(a[0], rest + b);
      AllImportsConcat(rest, b);
      var first := Imports(Lines(a[0]));
      assert first + (AllImports(rest) + AllImports(b)) == (first + AllImports(rest)) + AllImports(b);
    }
  }

  lemma AllImportsOfNone(b: seq<string>)
    ensures AllImports([] + b) == AllImports([]) + AllImports(b)
  {
    assert [] + b == b && [] + AllImports(b) == AllImports(b);
  }

  lemma AllImportsMore(copy: string, copies: seq<string>)
    ensures AllImports([copy] + copies) == Imports(Lines(copy)) + AllImports(copies)
  {
    assert ([copy] + copies)[1..] == copies;
  }

  lemma ImportBack(line: string)
    requires IsImport(line)
    ensures Import(line) == line
  {
    hide Trim, IsTrimmed;
    FindIs(line, '#', 0, |line|);
    assert line[..|line|] == line;
    TrimmedStays(line);
  }

  lemma {:induction false} ImportsBack(lines: seq<string>)
    requires forall line <- lines :: IsImport(line)
    ensures Imports(lines) == lines
  {
    hide Import, IsImport;
    if lines != [] {
      assert lines[0] in lines && forall l <- lines[1..] :: l in lines;
      ImportBack(lines[0]);
      ImportsBack(lines[1..]);
    }
  }

  lemma ImportIsLine(line: string)
    requires IsImport(line)
    ensures IsLine(line)
  {
  }

  /** The merged lines: each line of a copy, without its comment, once, in the order first seen. */
  lemma ImportsKeepEveryLine(copies: seq<string>)
    ensures var lines := Lines(MergedImports(copies));
            && Distinct(lines)
            && (forall line :: line in lines <==> line != [] && line in AllImports(copies))
            && (forall i, j :: 0 <= i < j < |lines| ==>
                  lines[i] in AllImports(copies) && lines[j] in AllImports(copies)
                  && FirstIndex(AllImports(copies), lines[i]) < FirstIndex(AllImports(copies), lines[j]))
            && Imports(lines) == lines
  {
    hide AddAll, Lines, IsImport, IsLine, Imports;
    var union := AddAll([], AllImports(copies));
    UnionIsFirstSeen(AllImports(copies));
    AllImportsAreImports(copies);
    forall line | line in union
      ensures IsImport(line) && IsLine(line)
    {
      ImportIsLine(line);
    }
    WrittenLinesBack(union);
    ImportsBack(union);
  }

  /** Merging a merged file with more copies is merging all the copies. */
  lemma ImportsMergeAgain(a: seq<string>, b: seq<string>)
    ensures MergedImports([MergedImports(a)] + b) == MergedImports(a + b)
  {
    hide AddAll, Lines, Imports, WriteLines;
    var merged := MergedImports(a);
    var union := AddAll([], AllImports(a));
    ImportsKeepEveryLine(a);
    UnionLines(a);
    assert ([merged] + b)[1..] == b;
    AllImportsConcat(a, b);
    AddAllConcat([], AllImports(a), AllImports(b));
    AddAllConcat([], union, AllImports(b));
    assert [] + union == union;
    UnionOfDistinct([], union);
  }

  lemma UnionLines(copies: seq<string>)
    ensures Lines(MergedImports(copies)) == AddAll([], AllImports(copies))
  {
    hide AddAll, Lines, IsImport, IsLine;
    var union := AddAll([], AllImports(copies));
    UnionIsFirstSeen(AllImports(copies));
    AllImportsAreImports(copies);
    forall line | line in union
      ensures IsLine(line)
    {
      ImportIsLine(line);
    }
    WrittenLinesBack(union);
  }
}
