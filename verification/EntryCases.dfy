/** Classes that part from their files. */
module EntryCases {
  // Checked relocations that move a class file and not the references to it, or the references and not the
  // file.

  import opened ByteStrings
  import opened Wrappers
  import opened Relocation
  import opened Rewriting
  import opened Signatures
  import opened SignatureNames
  import opened EntryNames

  const a: Byte := 'a' as Byte
  const b: Byte := 'b' as Byte
  const c: Byte := 'c' as Byte
  const C: Byte := 'C' as Byte
  const I: Byte := 'I' as Byte
  const L: Byte := 'L' as Byte
  const x: Byte := 'x' as Byte
  const y: Byte := 'y' as Byte

  lemma CheckedRule(r: Relocation)
    requires ValidRelocation(r)
    ensures AllWellFormed([RuleOf(r)]) && Advances([RuleOf(r)])
  {
    ValidIsWellFormed(r);
    WellFormedAdvances([RuleOf(r)]);
  }

  lemma OutsideMetaInf(n: Bytes)
    requires n != [] && n[0] != 'M' as Byte
    ensures !(META_INF <= n)
  {
    assert META_INF[0] == 'M' as Byte;
  }

  // ---- the package `a.class` ----------------------------------------------------------------------

  const A_CLASS := Relocation([a] + CLASS_SUFFIX, [b, DOT, c], [])

  lemma AClassIsChecked()
    ensures ValidRelocation(A_CLASS)
  {
    var from := A_CLASS.from;
    FileBytes([a]);
    assert CLASS_SUFFIX[1] == 'c' as Byte && CLASS_SUFFIX[5] == 's' as Byte;
    assert |from| == 7 && from[0] == a && from[1] == DOT && from[2] == CLASS_SUFFIX[1] && from[6] == CLASS_SUFFIX[5];
    forall k | 0 <= k < |from|
      ensures ValidNameByteAt(from, k)
    {
      if k > 2 {
        OneDot([a]);
        assert IsNameByte(from[k]) && from[k] < 0x80 by { SuffixIsAscii(); }
      }
    }
    assert from[0] != A_CLASS.to[0];
  }

  lemma SuffixIsAscii()
    ensures forall k :: 0 <= k < 6 ==> CLASS_SUFFIX[k] < 0x80
  {
  }

  /** A package spelled like a class's file name: the file moves, the references stay. */
  lemma FileMovesAlone()
    ensures ValidRelocation(A_CLASS) && Advances([RuleOf(A_CLASS)])
    ensures Rewritten([RuleOf(A_CLASS)], [a], Constant) == [a]
    ensures EntryName([RuleOf(A_CLASS)], [a] + CLASS_SUFFIX) == [b, DOT, c]
  {
    AClassIsChecked();
    CheckedRule(A_CLASS);
    var rules := [RuleOf(A_CLASS)];
    FileBytes([a]);
    assert rules[0].dottedFrom != [a];
    UnnamedEntry(rules, [a]);
  }

  /** The file and the references of a class in the unnamed package. */
  lemma UnnamedEntry(rules: seq<Rule>, n: Bytes)
    requires AllWellFormed(rules) && Advances(rules) && IsClassName(n) && SLASH !in n && n[0] != 'M' as Byte
    ensures Rewritten(rules, n, Constant) == match NameTaker(rules, n) { case None => n case Some(r) => r.dottedTo }
    ensures EntryName(rules, n + CLASS_SUFFIX)
            == match FileTaker(rules, n) {
                 case None => n + CLASS_SUFFIX
                 case Some(r) => if r.dottedFrom == n then r.dottedTo + CLASS_SUFFIX else r.dottedTo
               }
  {
    hide MatchAt, AllWellFormed, EntryName, WholeName, IsClassName;
    OutsideIsNonempty(n);
    OutsideMetaInf(n);
    NotInMetaInf(n);
    var m := n + CLASS_SUFFIX;
    FileNameIsWhole(rules, m);
    OutsidePackages(rules, n);
    UnnamedConstant(rules, n);
    WholeIsMatchAtStart(rules, m);
    assert m[|n|..] == CLASS_SUFFIX && m[|m|..] == [];
  }

  // ---- the package `a` without `a.class` ----------------------------------------------------------

  const A_ALONE := Relocation([a], [b], [[a] + CLASS_SUFFIX])

  /** A class named like a package whose exclusions spell its file: the references move, the file stays. */
  lemma FileStaysBehind()
    ensures AllWellFormed([RuleOf(A_ALONE)]) && Advances([RuleOf(A_ALONE)])
    ensures Rewritten([RuleOf(A_ALONE)], [a], Constant) == [b]
    ensures EntryName([RuleOf(A_ALONE)], [a] + CLASS_SUFFIX) == [a] + CLASS_SUFFIX
  {
    AAloneIsChecked();
    var rules := [RuleOf(A_ALONE)];
    CheckedRule(A_ALONE);
    FileBytes([a]);
    ExcludesItsFile();
    assert rules[0].dottedFrom == [a] && rules[0].dottedTo == [b];
    UnnamedEntry(rules, [a]);
  }

  lemma AAloneIsChecked()
    ensures ValidRelocation(A_ALONE)
  {
    FileBytes([a]);
    assert ValidNameByteAt([a], 0) && ValidNameByteAt([b], 0);
    assert ([a] + CLASS_SUFFIX)[..2] == [a] + [DOT];
  }

  lemma ExcludesItsFile()
    ensures RuleOf(A_ALONE).Excludes([a] + CLASS_SUFFIX)
  {
    var e := [a] + CLASS_SUFFIX;
    assert CLASS_SUFFIX[5] == 's' as Byte && e[6] == CLASS_SUFFIX[5];
    assert e[5..] == [e[5], e[6]];
    assert ExcludeOf(e) == Class(e);
    assert RuleOf(A_ALONE).exclude[0] == Class(e);
    assert ExcludesName(Class(e), e);
  }

  // ---- a name that reads like a descriptor --------------------------------------------------------

  const A_B := Relocation([a, DOT, b], [x, DOT, y], [])
  const DESCRIPTOR_LIKE: Bytes := [I, L, a, SLASH, b, SLASH, C]

  /** The class `ILa/b/C`: its name reads like a descriptor of a class of the package `a.b`, so the
      references to it move with that package, and its file stays. */
  lemma ReferencesMoveAlone()
    ensures ValidRelocation(A_B) && Advances([RuleOf(A_B)])
    ensures Rewritten([RuleOf(A_B)], DESCRIPTOR_LIKE, Constant) == [I, L, x, SLASH, y, SLASH, C]
    ensures EntryName([RuleOf(A_B)], DESCRIPTOR_LIKE + CLASS_SUFFIX) == DESCRIPTOR_LIKE + CLASS_SUFFIX
  {
    hide MatchAt, AllWellFormed, RewriteFrom, EntryName, WholeName, CanStart;
    AbIsChecked();
    CheckedRule(A_B);
    var rules := [RuleOf(A_B)];
    var n := DESCRIPTOR_LIKE;
    MatchesOfName(rules, n);
    StartsAtName(n);
    assert SLASH in n by { assert n[3] == SLASH; }
    OutsideMetaInf(n);
    NotInMetaInf(n);
    FileNameIsWhole(rules, n + CLASS_SUFFIX);
    InPackage(rules, n);
    WholeIsMatchAtStart(rules, n + CLASS_SUFFIX);
    CopiesOver(rules, n, 0, 2, Constant);
    ScanHit(rules, n, Span(2, 3, [x, SLASH, y]), Constant);
    CopiesOver(rules, n, 5, 7, Constant);
    ScanEnds(rules, n, Constant);
    assert n[0..2] == [I, L] && n[5..7] == [SLASH, C];
  }

  lemma AbIsChecked()
    ensures ValidRelocation(A_B)
  {
  }

  lemma MatchesOfName(rules: seq<Rule>, n: Bytes)
    requires rules == [RuleOf(A_B)] && n == DESCRIPTOR_LIKE
    ensures MatchAt(rules, n, 0) == None
    ensures MatchAt(rules, n, 2) == Some(Match(3, [x, SLASH, y]))
    ensures AllWellFormed(rules) ==> IsClassName(n)
  {
    var rule := rules[0];
    assert n[0..3][0] == I;
    assert n[2..5] == [a, SLASH, b] == rule.slashedFrom && rule.slashedTo == [x, SLASH, y];
    assert Applies(rule, Slashed, n, 2);
  }

  lemma StartsAtName(n: Bytes)
    requires n == DESCRIPTOR_LIKE
    ensures CanStart(n, 2, Constant) && !CanStart(n, 1, Constant) && !CanStart(n, 5, Constant) && !CanStart(n, 6, Constant)
  {
    assert Opens(n, 0) && Opens(n, 1);
  }
}
