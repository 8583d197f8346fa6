/** Where a jar entry goes. */
module EntryNames {
  // The name an entry gets, by the three kinds of names, and when a class file lands where the references to
  // the class point.

  import opened ByteStrings
  import opened Wrappers
  import opened Relocation
  import opened Rewriting
  import opened Signatures
  import opened SignatureNames

  const SERVICES: Bytes := Ascii("META-INF/services/")
  const VERSIONS: Bytes := Ascii("META-INF/versions/")
  const META_INF: Bytes := Ascii("META-INF/")
  const CLASS_SUFFIX: Bytes := Ascii(".class")

  /** The index of the first `/`. */
  function FindSlash(s: Bytes): (r: Option<nat>)
    ensures r.Some? ==> r.value < |s| && s[r.value] == SLASH && SLASH !in s[..r.value]
    ensures r.None? ==> SLASH !in s
  {
    if s == [] then None
    else if s[0] == SLASH then Some(0)
    else
      match FindSlash(s[1..])
      case None => None
      case Some(k) => assert s[..k + 1] == [s[0]] + s[1..][..k]; Some(k + 1)
  }

  predicate AllDigits(s: Bytes) {
    forall b <- s :: IsDigit(b)
  }

  /** A name rewritten where it starts, and nowhere else. */
  ghost function WholeName(rules: seq<Rule>, name: Bytes): Bytes
    requires Advances(rules)
  {
    Rewritten(rules, name, Whole)
  }

  ghost function EntryName(rules: seq<Rule>, name: Bytes): Bytes
    requires Advances(rules)
  {
    if rules == [] then name
    else if SERVICES <= name then SERVICES + WholeName(rules, name[|SERVICES|..])
    else
      match VersionOf(name)
      case Some(cut) => name[..cut] + WholeName(rules, name[cut..])
      case None => WholeName(rules, name)
  }

  /** Past `META-INF/versions/<digits>/`, when `name` starts so. */
  function VersionOf(name: Bytes): (r: Option<nat>)
    ensures r.Some? ==> r.value <= |name|
  {
    if VERSIONS <= name then
      var rest := name[|VERSIONS|..];
      match FindSlash(rest)
      case Some(k) => if 0 < k && AllDigits(rest[..k]) then Some(|VERSIONS| + k + 1) else None
      case None => None
    else None
  }

  method RewriteWhole(rules: seq<Rule>, name: Bytes) returns (r: Bytes)
    requires Advances(rules)
    ensures r == WholeName(rules, name)
  {
    RewriteIsLeftmostReplacement(rules, name, Whole);
    var bytes := Rewrite(rules, name, Whole);
    r := match bytes { case Some(b) => b case None => name };
  }

  method RelocateEntryName(rules: seq<Rule>, name: Bytes) returns (r: Bytes)
    requires Advances(rules)
    ensures r == EntryName(rules, name)
  {
    if rules == [] {
      return name;
    }
    if SERVICES <= name {
      var service := RewriteWhole(rules, name[|SERVICES|..]);
      return SERVICES + service;
    }
    var version := VersionOf(name);
    if version.Some? {
      var path := RewriteWhole(rules, name[version.value..]);
      return name[..version.value] + path;
    }
    r := RewriteWhole(rules, name);
  }

  // ---- a name rewritten where it starts -------------------------------------------------------

  lemma WholeIsMatchAtStart(rules: seq<Rule>, name: Bytes)
    requires Advances(rules)
    ensures WholeName(rules, name) ==
            match MatchAt(rules, name, 0) {
              case None => name
              case Some(m) =>
                m.replacement + if m.consumed <= |name| then name[m.consumed..] else []
            }
  {
    hide CanStart;
    hide MatchAt;
    if name == [] {
      EmptyNameMatchesNothing(rules);
    } else {
      StartsOnlyAtStart(name);
      if MatchAt(rules, name, 0) == None {
        CopiesOver(rules, name, 0, |name|, Whole);
        assert name[0..|name|] + [] == name;
      } else {
        MatchAdvances(rules, name, 0);
        var c := MatchAt(rules, name, 0).value.consumed;
        CopiesOver(rules, name, c, |name|, Whole);
        assert name[c..|name|] + [] == name[c..];
      }
    }
  }

  lemma StartsOnlyAtStart(name: Bytes)
    ensures forall i :: 0 < i < |name| ==> !CanStart(name, i, Whole)
    ensures name != [] ==> CanStart(name, 0, Whole)
  {
  }

  lemma {:induction false} EmptyNameMatchesNothing(rules: seq<Rule>)
    requires Advances(rules)
    ensures MatchAt(rules, [], 0) == None
  {
    if rules == [] {
    } else {
      assert rules[0] in rules;
      EmptyNameMatchesNothing(rules[1..]);
    }
  }

  // ---- a class and its file -------------------------------------------------------------------

  /** The internal name of a class, slashes between its parts (section 4.2 of the JVM Specification). */
  predicate IsClassName(n: Bytes) {
    n != [] && DOT !in n && SEMI !in n && '[' as Byte !in n
  }

  /** How far a match at the first byte reaches. */
  function MatchedAtStart(rules: seq<Rule>, n: Bytes): nat {
    match MatchAt(rules, n, 0)
    case None => 0
    case Some(m) => m.consumed
  }

  /** Past its start `n` reads like a descriptor of a relocated class, or a path to one: an `L` that may
      open a class type (or a leading slash), then a relocated name. */
  ghost predicate ReadsAsDescriptor(rules: seq<Rule>, n: Bytes) {
    exists i :: 0 < i < |n| && MatchedAtStart(rules, n) <= i && Hit(rules, n, i, Constant)
  }

  /** The rule that takes a bare dotted word `n` for its package. */
  function NameTaker(rules: seq<Rule>, n: Bytes): Option<Rule> {
    if rules == [] then None
    else if rules[0].dottedFrom == n then Some(rules[0])
    else NameTaker(rules[1..], n)
  }

  predicate TakesFile(r: Rule, n: Bytes) {
    r.dottedFrom == n + CLASS_SUFFIX || (r.dottedFrom == n && !r.Excludes(n + CLASS_SUFFIX))
  }

  /** The rule that takes the file's name for its package, or for something in it. */
  function FileTaker(rules: seq<Rule>, n: Bytes): Option<Rule> {
    if rules == [] then None
    else if TakesFile(rules[0], n) then Some(rules[0])
    else FileTaker(rules[1..], n)
  }

  /** Nothing takes a class of the unnamed package, or its file, for a package; or what does puts one
      where it puts the other. */
  predicate FileGoesAlong(rules: seq<Rule>, n: Bytes) {
    match (NameTaker(rules, n), FileTaker(rules, n))
    case (None, None) => true
    case (Some(a), Some(b)) =>
      if b.dottedFrom == n then a.dottedTo == b.dottedTo else b.dottedTo == a.dottedTo + CLASS_SUFFIX
    case _ => false
  }

  lemma FileBytes(n: Bytes)
    ensures var m := n + CLASS_SUFFIX;
            && |n| < |m| && m[|n|] == DOT && DOT !in CLASS_SUFFIX[1..]
            && (forall k :: 0 <= k < |n| ==> m[k] == n[k])
            && (forall k :: |n| < k < |m| ==> IsNameByte(m[k]))
  {
    var m := n + CLASS_SUFFIX;
    assert CLASS_SUFFIX[0] == '.' as Byte && CLASS_SUFFIX[1] == 'c' as Byte && CLASS_SUFFIX[2] == 'l' as Byte;
    assert CLASS_SUFFIX[3] == 'a' as Byte && CLASS_SUFFIX[4] == 's' as Byte && CLASS_SUFFIX[5] == 's' as Byte;
    assert forall k :: |n| <= k < |m| ==> m[k] == CLASS_SUFFIX[k - |n|];
  }

  /** Outside `META-INF/` a file moves as a whole. */
  lemma FileNameIsWhole(rules: seq<Rule>, m: Bytes)
    requires Advances(rules) && !(META_INF <= m)
    ensures EntryName(rules, m) == WholeName(rules, m)
  {
    hide WholeName;
    assert SERVICES[..9] == META_INF && VERSIONS[..9] == META_INF;
    if rules == [] {
      WholeIsMatchAtStart([], m);
    }
  }

  lemma NotInMetaInf(n: Bytes)
    requires !(META_INF <= n)
    ensures !(META_INF <= n + CLASS_SUFFIX)
  {
    hide IsNameByte;
    var m := n + CLASS_SUFFIX;
    FileBytes(n);
    if |n| < 9 <= |m| {
      MetaInfHasNoDot();
      assert m[|n|] != META_INF[|n|];
    } else if 9 <= |n| {
      assert m[..9] == n[..9];
    }
  }

  lemma MetaInfHasNoDot()
    ensures |META_INF| == 9 && DOT !in META_INF
  {
  }

  // ---- matches at the start of a name and of its file's name ----------------------------------

  lemma {:induction false} SameNameAt(n: Bytes, i: nat)
    requires i <= |n|
    ensures NameAt(n + CLASS_SUFFIX, i, SLASH) == NameAt(n, i, SLASH)
    decreases |n| - i
  {
    FileBytes(n);
    if i < |n| {
      SameNameAt(n, i + 1);
    }
  }

  lemma OccursInBoth(n: Bytes, from: Bytes)
    ensures |from| <= |n| ==> (OccursAt(n + CLASS_SUFFIX, 0, from) <==> OccursAt(n, 0, from))
  {
    assert |from| <= |n| ==> (n + CLASS_SUFFIX)[0..|from|] == n[0..|from|];
  }

  /** The slashed form applies to both or to neither. */
  lemma SlashedAlike(r: Rule, n: Bytes)
    requires WellFormed(r) && IsClassName(n)
    ensures Applies(r, Slashed, n + CLASS_SUFFIX, 0) <==> Applies(r, Slashed, n, 0)
    ensures Applies(r, Slashed, n, 0) ==> |r.slashedFrom| < |n| && n[|r.slashedFrom|] == SLASH && r.slashedFrom != []
  {
    hide NameAt, WellFormed, IsNameByte;
    var m, from := n + CLASS_SUFFIX, r.slashedFrom;
    FileBytes(n);
    SameNameAt(n, 0);
    OccursInBoth(n, from);
    SlashedHasNoDot(r);
    if |n| < |from| && OccursAt(m, 0, from) {
      DotReached(n, from);
    }
  }

  lemma DotReached(n: Bytes, from: Bytes)
    requires |n| < |from| && OccursAt(n + CLASS_SUFFIX, 0, from)
    ensures DOT in from
  {
    FileBytes(n);
    OccursElements(n + CLASS_SUFFIX, 0, from);
    assert (n + CLASS_SUFFIX)[0 + |n|] == from[|n|];
  }

  lemma SlashedHasNoDot(r: Rule)
    requires WellFormed(r)
    ensures DOT !in r.slashedFrom && r.slashedFrom != [] && SLASH !in r.dottedFrom && r.dottedFrom != []
  {
  }

  /** The dotted form applies to a bare internal name exactly when it is the package. */
  lemma DottedAtClass(r: Rule, n: Bytes)
    requires WellFormed(r) && IsClassName(n)
    ensures Applies(r, Dotted, n, 0) <==> r.dottedFrom == n
  {
    hide NameAt;
    var from := r.dottedFrom;
    if Applies(r, Dotted, n, 0) {
      assert forall k :: 0 <= k < |n| ==> n[k] in n;
      assert n[0..|n|] == n;
    }
    if from == n {
      assert n[0..|n|] == n;
      LongExclusion(r, n);
    }
  }

  /** And to its file's name exactly when that is the package or in it. */
  lemma DottedAtFile(r: Rule, n: Bytes)
    requires WellFormed(r) && IsClassName(n)
    ensures Applies(r, Dotted, n + CLASS_SUFFIX, 0) <==> TakesFile(r, n)
  {
    hide NameAt, WellFormed, IsNameByte;
    var m, from := n + CLASS_SUFFIX, r.dottedFrom;
    FileBytes(n);
    OneDot(n);
    assert m[0..|m|] == m && m[0..|n|] == n;
    if from == n {
      NameOfFile(r, n);
    }
    if from == m {
      LongExclusion(r, m);
    }
    if Applies(r, Dotted, m, 0) && |from| < |m| {
      assert |from| == |n|;
    }
  }

  lemma OneDot(n: Bytes)
    requires IsClassName(n)
    ensures var m := n + CLASS_SUFFIX; forall k :: 0 <= k < |m| && m[k] == DOT ==> k == |n|
  {
    FileBytes(n);
    assert forall k :: 0 <= k < |n| ==> n[k] in n;
  }

  lemma NameOfFile(r: Rule, n: Bytes)
    requires WellFormed(r) && r.dottedFrom == n
    ensures NameAt(n + CLASS_SUFFIX, 0, DOT) == n + CLASS_SUFFIX
  {
    hide IsAlpha, IsDigit;
    var m := n + CLASS_SUFFIX;
    FileBytes(n);
    forall b | b in m
      ensures IsNameByte(b) || b == DOT
    {
      var k :| 0 <= k < |m| && m[k] == b;
      assert k < |n| ==> n[k] in n;
    }
    DottedNameAt(m, 0);
    assert m[0..] == m;
  }

  /** A class in a package and its file are matched alike, in slashes. */
  lemma {:induction false} InPackage(rules: seq<Rule>, n: Bytes)
    requires AllWellFormed(rules) && IsClassName(n) && SLASH in n
    ensures MatchAt(rules, n + CLASS_SUFFIX, 0) == MatchAt(rules, n, 0)
    ensures MatchAt(rules, n, 0).Some? ==>
              var c := MatchAt(rules, n, 0).value.consumed; 0 < c < |n| && n[c] == SLASH
    ensures NameTaker(rules, n) == None && FileTaker(rules, n) == None
  {
    hide Applies, WellFormed;
    if rules != [] {
      var r := rules[0];
      assert WellFormed(r) && r in rules;
      SlashedAlike(r, n);
      DottedAtClass(r, n);
      DottedAtFile(r, n);
      SlashedHasNoDot(r);
      assert SLASH in n + CLASS_SUFFIX;
      InPackage(rules[1..], n);
    }
  }

  /** One in the unnamed package, and its file, by the rules that take them for packages. */
  lemma {:induction false} OutsidePackages(rules: seq<Rule>, n: Bytes)
    requires AllWellFormed(rules) && IsClassName(n) && SLASH !in n
    ensures MatchAt(rules, n, 0)
            == match NameTaker(rules, n) { case None => None case Some(a) => Some(Match(|n|, a.dottedTo)) }
    ensures MatchAt(rules, n + CLASS_SUFFIX, 0)
            == match FileTaker(rules, n) { case None => None case Some(b) => Some(Match(|b.dottedFrom|, b.dottedTo)) }
    ensures NameTaker(rules, n).Some? ==>
              NameTaker(rules, n).value.dottedFrom == n && NameTaker(rules, n).value.dottedTo != n
    ensures FileTaker(rules, n).Some? ==>
              var b := FileTaker(rules, n).value;
              (b.dottedFrom == n || b.dottedFrom == n + CLASS_SUFFIX) && b.dottedTo != b.dottedFrom
    ensures NameTaker(rules, n) == None && FileTaker(rules, n).Some? ==> FileTaker(rules, n).value.dottedFrom == n + CLASS_SUFFIX
  {
    hide Applies;
    if rules != [] {
      var r := rules[0];
      assert WellFormed(r) && r in rules;
      SlashedAlike(r, n);
      assert forall k :: 0 <= k < |n| ==> n[k] in n;
      DottedAtClass(r, n);
      DottedAtFile(r, n);
      OutsidePackages(rules[1..], n);
    }
  }

  // ---- the constant-pool rewrite of a bare name ---------------------------------------------

  lemma ConstantIsMatchThenRest(rules: seq<Rule>, n: Bytes)
    requires AllWellFormed(rules) && Advances(rules) && n != []
    ensures MatchedAtStart(rules, n) <= |n|
    ensures Rewritten(rules, n, Constant)
            == match MatchAt(rules, n, 0) {
                 case None => RewriteFrom(rules, n, 0, Constant)
                 case Some(m) => m.replacement + RewriteFrom(rules, n, MatchedAtStart(rules, n), Constant)
               }
  {
    hide MatchAt;
    if MatchAt(rules, n, 0) != None {
      MatchAdvances(rules, n, 0);
      var m := MatchAt(rules, n, 0).value;
      ScanHit(rules, n, Span(0, m.consumed, m.replacement), Constant);
    }
  }

  /** Where the run of name bytes and slashes from `i` stops. */
  function RunStop(n: Bytes, i: nat): (q: nat)
    requires i <= |n|
    ensures i <= q <= |n|
    ensures forall k :: i <= k < q ==> !EndsSpelling(n[k])
    ensures q < |n| ==> EndsSpelling(n[q])
    decreases |n| - i
  {
    if i < |n| && !EndsSpelling(n[i]) then RunStop(n, i + 1) else i
  }

  /** A stretch of the name stays exactly when nothing is matched in it: a replacement is told apart from
      what it replaced before the next byte that is in no name, and no further match can begin earlier. */
  lemma TailUnchanged(rules: seq<Rule>, n: Bytes, c: nat)
    requires AllWellFormed(rules) && Advances(rules) && IsClassName(n) && c < |n|
    requires !Hit(rules, n, c, Constant)
    ensures RewriteFrom(rules, n, c, Constant) == n[c..] <==> NoHitIn(rules, n, c, |n|, Constant)
  {
    hide MatchAt, CanStart, AllWellFormed, IsClassName;
    if NoHitIn(rules, n, c, |n|, Constant) {
      CopiesOver(rules, n, c, |n|, Constant);
      assert n[c..|n|] + [] == n[c..];
    } else {
      var hi :| c <= hi < |n| && Hit(rules, n, hi, Constant);
      var i := FirstHit(rules, n, c, c, hi);
      HitDiffers(rules, n, i);
      CopiesOver(rules, n, c, i, Constant);
      assert n[c..] == n[c..i] + n[i..];
      Peel(n[c..i], RewriteFrom(rules, n, i, Constant), n[i..]);
    }
  }

  /** The least hit from `from`. */
  lemma {:induction false} FirstHit(rules: seq<Rule>, n: Bytes, from: nat, lo: nat, hi: nat) returns (i: nat)
    requires from <= lo <= hi < |n| && Hit(rules, n, hi, Constant) && NoHitIn(rules, n, from, lo, Constant)
    ensures lo <= i <= hi && Hit(rules, n, i, Constant) && NoHitIn(rules, n, from, i, Constant)
    decreases hi - lo
  {
    hide MatchAt, CanStart;
    if Hit(rules, n, lo, Constant) {
      i := lo;
    } else {
      i := FirstHit(rules, n, from, lo + 1, hi);
    }
  }

  /** What precedes a hit inside a name. */
  lemma StopBeforeHit(n: Bytes, i: nat)
    requires 0 < i < |n| && CanStart(n, i, Constant)
    ensures n[i - 1] == CLASS_OPEN || (i == 1 && n[0] == SLASH)
  {
  }

  lemma HitDiffers(rules: seq<Rule>, n: Bytes, i: nat)
    requires AllWellFormed(rules) && Advances(rules) && IsClassName(n) && 0 < i < |n| && Hit(rules, n, i, Constant)
    ensures RewriteFrom(rules, n, i, Constant) != n[i..]
  {
    hide MatchAt, CanStart, AllWellFormed, RewriteFrom, NoHitIn, IsClassName, EndsSpelling;
    var m := MatchAt(rules, n, i).value;
    var r := MatchChanges(rules, n, i);
    var e := i + m.consumed;
    MatchIsRun(rules, n, i);
    var q := RunStop(n, e);
    StopBeforeHit(n, i);
    NoStartInRun(rules, n, i, e, q);
    CopiesOver(rules, n, e, q, Constant);
    ScanHit(rules, n, Span(i, m.consumed, m.replacement), Constant);
    var after := RewriteFrom(rules, n, q, Constant);
    Regroup(m.replacement, n[e..q], after);
    assert n[i..] == (n[i..e] + n[e..q]) + n[q..];
    SuffixInjective(m.replacement, n[i..e], n[e..q]);
    if q == |n| {
      ScanEnds(rules, n, Constant);
      assert (m.replacement + n[e..q]) + [] == m.replacement + n[e..q];
      assert (n[i..e] + n[e..q]) + [] == n[i..e] + n[e..q];
    } else {
      StopCopied(rules, n, q);
      RunsDiffer(n, i, e, q, m.replacement);
      SameUpTo(m.replacement + n[e..q], after, n[i..e] + n[e..q], n[q..]);
    }
  }

  lemma RunsDiffer(n: Bytes, i: nat, e: nat, q: nat, replacement: Bytes)
    requires i <= e <= q < |n| && EndsSpelling(n[q]) && forall k :: i <= k < q ==> !EndsSpelling(n[k])
    requires IsRun(replacement)
    ensures n[q] !in replacement + n[e..q] && n[q] !in n[i..e] + n[e..q]
  {
  }

  /** The byte that stops a run is copied. */
  lemma StopCopied(rules: seq<Rule>, n: Bytes, q: nat)
    requires AllWellFormed(rules) && Advances(rules) && q < |n| && EndsSpelling(n[q])
    ensures RewriteFrom(rules, n, q, Constant) != [] && RewriteFrom(rules, n, q, Constant)[0] == n[q]
  {
    NoMatchAtPunctuation(rules, n, q);
  }

  lemma NoStartInRun(rules: seq<Rule>, n: Bytes, i: nat, e: nat, q: nat)
    requires 0 < i < e <= q <= |n| && forall k :: i <= k < q ==> !EndsSpelling(n[k])
    requires n[i - 1] == CLASS_OPEN || (i == 1 && n[0] == SLASH)
    ensures NoHitIn(rules, n, e, q, Constant)
  {
    hide MatchAt;
    forall p | e <= p < q
      ensures !CanStart(n, p, Constant)
    {
      NothingOpensInName(n, i - 1, p - 1);
    }
  }

  // ---- the laws -----------------------------------------------------------------------------------

  /** A class file moves where the references to it point, exclusions included, exactly when its name does
      not read like a descriptor of a relocated class and, should it or its file be taken for a package,
      both are taken along. */
  lemma ClassMovesWithItsReferences(rules: seq<Rule>, n: Bytes)
    requires AllWellFormed(rules) && IsClassName(n) && !(META_INF <= n)
    ensures Advances(rules)
    ensures EntryName(rules, n + CLASS_SUFFIX) == Rewritten(rules, n, Constant) + CLASS_SUFFIX
            <==> !ReadsAsDescriptor(rules, n) && FileGoesAlong(rules, n)
  {
    hide MatchAt, EntryName, AllWellFormed, RewriteFrom, WholeName;
    WellFormedAdvances(rules);
    NotInMetaInf(n);
    FileNameIsWhole(rules, n + CLASS_SUFFIX);
    if SLASH in n {
      PackagedClassMoves(rules, n);
    } else {
      UnnamedClassMoves(rules, n);
    }
  }

  lemma PackagedClassMoves(rules: seq<Rule>, n: Bytes)
    requires AllWellFormed(rules) && Advances(rules) && IsClassName(n) && SLASH in n
    ensures FileGoesAlong(rules, n)
    ensures WholeName(rules, n + CLASS_SUFFIX) == Rewritten(rules, n, Constant) + CLASS_SUFFIX <==> !ReadsAsDescriptor(rules, n)
  {
    hide MatchAt, AllWellFormed, RewriteFrom, WholeName, IsClassName, CanStart;
    var m := n + CLASS_SUFFIX;
    assert n != [] by { var k :| 0 <= k < |n| && n[k] == SLASH; }
    InPackage(rules, n);
    WholeIsMatchAtStart(rules, m);
    ConstantIsMatchThenRest(rules, n);
    var c := MatchedAtStart(rules, n);
    if c > 0 {
      NoMatchAtPunctuation(rules, n, c);
    }
    TailUnchanged(rules, n, c);
    assert n[0..] == n;
    assert m[c..] == n[c..] + CLASS_SUFFIX;
    assert NoHitIn(rules, n, c, |n|, Constant) <==> !ReadsAsDescriptor(rules, n);
    var rest := RewriteFrom(rules, n, c, Constant);
    SuffixInjective(rest, n[c..], CLASS_SUFFIX);
    if MatchAt(rules, n, 0) != None {
      var to := MatchAt(rules, n, 0).value.replacement;
      Regroup(to, rest, CLASS_SUFFIX);
      Peel(to, n[c..] + CLASS_SUFFIX, rest + CLASS_SUFFIX);
    }
  }

  lemma UnnamedClassMoves(rules: seq<Rule>, n: Bytes)
    requires AllWellFormed(rules) && Advances(rules) && IsClassName(n) && SLASH !in n
    ensures !ReadsAsDescriptor(rules, n)
    ensures WholeName(rules, n + CLASS_SUFFIX) == Rewritten(rules, n, Constant) + CLASS_SUFFIX <==> FileGoesAlong(rules, n)
  {
    hide MatchAt, AllWellFormed, RewriteFrom, WholeName, CanStart, IsClassName;
    var m := n + CLASS_SUFFIX;
    OutsidePackages(rules, n);
    WholeIsMatchAtStart(rules, m);
    UnnamedConstant(rules, n);
    var name := match NameTaker(rules, n) { case None => n case Some(a) => a.dottedTo };
    match FileTaker(rules, n) {
      case None => SuffixInjective(n, name, CLASS_SUFFIX);
      case Some(b) =>
        assert m[|m|..] == [] && b.dottedTo + [] == b.dottedTo;
        assert m[|n|..] == CLASS_SUFFIX;
        SuffixInjective(b.dottedTo, name, CLASS_SUFFIX);
    }
  }

  /** The reference to a class of the unnamed package: the package it is taken for, or itself. */
  lemma UnnamedConstant(rules: seq<Rule>, n: Bytes)
    requires AllWellFormed(rules) && Advances(rules) && IsClassName(n) && SLASH !in n
    ensures !ReadsAsDescriptor(rules, n)
    ensures Rewritten(rules, n, Constant) == match NameTaker(rules, n) { case None => n case Some(a) => a.dottedTo }
  {
    hide MatchAt, AllWellFormed, RewriteFrom, CanStart, IsClassName;
    assert n != [] by { OutsideIsNonempty(n); }
    OutsidePackages(rules, n);
    ConstantIsMatchThenRest(rules, n);
    forall i | 0 < i < |n|
      ensures !Hit(rules, n, i, Constant)
    {
      NoMatchInside(rules, n, i);
    }
    if NameTaker(rules, n) == None {
      CopiesOver(rules, n, 0, |n|, Constant);
      ScanEnds(rules, n, Constant);
      assert n[0..|n|] + [] == n;
    } else {
      ScanEnds(rules, n, Constant);
      assert NameTaker(rules, n).value.dottedTo + [] == NameTaker(rules, n).value.dottedTo;
    }
  }

  lemma OutsideIsNonempty(n: Bytes)
    requires IsClassName(n)
    ensures n != []
  {
  }

  /** Past its start a name without slashes and dots has no match. */
  lemma {:induction false} NoMatchInside(rules: seq<Rule>, n: Bytes, i: nat)
    requires IsClassName(n) && SLASH !in n && 0 < i <= |n|
    ensures MatchAt(rules, n, i) == None
  {
    if rules != [] {
      assert forall k :: 0 <= k < |n| ==> n[k] in n;
      NoMatchInside(rules[1..], n, i);
    }
  }

  // ---- under a release of a multi-release jar -------------------------------------------------

  /** The same holds below `META-INF/versions/<digits>/`: the path after it moves as it would at
      the root. */
  lemma VersionedClassMoves(rules: seq<Rule>, version: Bytes, n: Bytes)
    requires AllWellFormed(rules) && !(META_INF <= n) && version != [] && AllDigits(version)
    ensures Advances(rules)
    ensures EntryName(rules, VERSIONS + version + [SLASH] + n + CLASS_SUFFIX)
            == VERSIONS + version + [SLASH] + EntryName(rules, n + CLASS_SUFFIX)
  {
    hide WholeName, EntryName;
    WellFormedAdvances(rules);
    var path := n + CLASS_SUFFIX;
    var head := VERSIONS + version + [SLASH];
    assert VERSIONS + version + [SLASH] + n + CLASS_SUFFIX == head + path;
    VersionFound(version, path);
    NotInMetaInf(n);
    FileNameIsWhole(rules, path);
    VersionedMoves(rules, head, path);
  }

  lemma VersionFound(version: Bytes, path: Bytes)
    requires version != [] && AllDigits(version)
    ensures var head := VERSIONS + version + [SLASH];
            VersionOf(head + path) == Some(|head|) && !(SERVICES <= head + path)
  {
    hide AllDigits;
    var head := VERSIONS + version + [SLASH];
    var name := head + path;
    assert name[..|VERSIONS|] == VERSIONS;
    assert SERVICES[9] == 's' as Byte && VERSIONS[9] == 'v' as Byte && name[9] == VERSIONS[9];
    var rest := name[|VERSIONS|..];
    assert rest == version + ([SLASH] + path);
    SlashAfterDigits(version, path);
    assert rest[..|version|] == version;
  }

  lemma VersionedMoves(rules: seq<Rule>, head: Bytes, path: Bytes)
    requires Advances(rules) && VersionOf(head + path) == Some(|head|) && !(SERVICES <= head + path)
    requires EntryName(rules, path) == WholeName(rules, path)
    ensures EntryName(rules, head + path) == head + EntryName(rules, path)
  {
    hide WholeName, VersionOf;
    assert (head + path)[..|head|] == head && (head + path)[|head|..] == path;
  }

  lemma {:induction false} SlashAfterDigits(version: Bytes, path: Bytes)
    requires AllDigits(version)
    ensures FindSlash(version + ([SLASH] + path)) == Some(|version|)
  {
    var s := version + ([SLASH] + path);
    if version == [] {
      assert s[0] == SLASH;
    } else {
      assert s[0] == version[0] && version[0] in version;
      SlashAfterDigits(version[1..], path);
      assert s[1..] == version[1..] + ([SLASH] + path);
    }
  }
}
