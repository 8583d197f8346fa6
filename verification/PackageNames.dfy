/** Packages. */
module PackageNames {
  // Names and where they stand. The bytes of names, the packages the manifest accepts, the parts of an entry's
  // name, and paths that start with a slash.

  import opened ByteStrings
  import opened EntryNames
  import opened RelocatedNames
  import opened RelocatedTexts
  import opened Relocation
  import opened Rewriting
  import opened Signatures
  import opened SignatureNames
  import opened Wrappers

  predicate IsLetter(b: Byte) {
    65 <= b <= 90 || 97 <= b <= 122
  }

  predicate IsFigure(b: Byte) {
    48 <= b <= 57
  }

  /** A name is written with letters, digits, `_` and `$`, and with any byte of a character beyond ASCII. */
  lemma NameBytesAre(b: Byte)
    ensures IsNameByte(b) <==> IsLetter(b) || IsFigure(b) || b == 95 || b == 36 || 128 <= b
  {
  }

  // ---- packages -----------------------------------------------------------------------------------

  /** An identifier: it does not start with a digit. */
  predicate IsIdentifier(part: Bytes) {
    part != [] && !IsFigure(part[0]) && forall b <- part :: IsLetter(b) || IsFigure(b) || b == 95 || b == 36
  }

  /** The identifiers with a dot between each two. */
  function Dotted(parts: seq<Bytes>): Bytes {
    if parts == [] then []
    else if |parts| == 1 then parts[0]
    else parts[0] + (['.' as Byte] + Dotted(parts[1..]))
  }

  predicate AreIdentifiers(parts: seq<Bytes>) {
    parts != [] && forall part <- parts :: IsIdentifier(part)
  }

  lemma IdentifierBytes(b: Byte)
    ensures IsIdentifierPart(b) <==> IsLetter(b) || IsFigure(b) || b == 95 || b == 36
    ensures IsIdentifierStart(b) <==> IsIdentifierPart(b) && !IsFigure(b)
  {
  }

  lemma OneIdentifier(name: Bytes)
    requires IsIdentifier(name)
    ensures ValidPackageName(name)
  {
    forall k | 0 <= k < |name|
      ensures ValidNameByteAt(name, k) && name[k] != DOT
    {
      assert name[k] in name;
      IdentifierBytes(name[k]);
      assert k > 0 ==> name[k - 1] in name;
    }
  }

  lemma OneMoreIdentifier(part: Bytes, rest: Bytes)
    requires IsIdentifier(part) && ValidPackageName(rest)
    ensures ValidPackageName(part + (['.' as Byte] + rest))
  {
    var name := part + (['.' as Byte] + rest);
    OneIdentifier(part);
    assert name[|name| - 1] == rest[|rest| - 1];
    forall k | 0 <= k < |name|
      ensures ValidNameByteAt(name, k)
    {
      if k < |part| {
        assert ValidNameByteAt(part, k);
        assert part[k] in part && (k > 0 ==> part[k - 1] in part);
      } else if k == |part| {
        assert part[k - 1] in part;
      } else {
        var m := k - |part| - 1;
        assert ValidNameByteAt(rest, m) && name[k] == rest[m];
        assert m > 0 ==> name[k - 1] == rest[m - 1];
      }
    }
  }

  lemma {:induction false} DottedIsValid(parts: seq<Bytes>)
    requires AreIdentifiers(parts)
    ensures ValidPackageName(Dotted(parts))
  {
    hide ValidPackageName;
    assert parts[0] in parts;
    if |parts| == 1 {
      OneIdentifier(parts[0]);
    } else {
      assert forall part <- parts[1..] :: part in parts;
      DottedIsValid(parts[1..]);
      OneMoreIdentifier(parts[0], Dotted(parts[1..]));
    }
  }

  /** The index of the first dot, or the length. */
  function FirstDot(name: Bytes): (k: nat)
    ensures k <= |name| && DOT !in name[..k] && (k < |name| ==> name[k] == DOT)
  {
    if name == [] || name[0] == DOT then 0
    else
      var k := FirstDot(name[1..]);
      assert name[..k + 1] == [name[0]] + name[1..][..k];
      k + 1
  }

  lemma PartIsIdentifier(name: Bytes, k: nat)
    requires ValidPackageName(name) && k <= |name| && DOT !in name[..k] && (k < |name| ==> name[k] == DOT)
    ensures IsIdentifier(name[..k])
  {
    var part := name[..k];
    assert ValidNameByteAt(name, 0);
    if k == 0 {
      assert name[0] == DOT;
      IdentifierBytes(DOT);
      assert false;
    }
    forall b | b in part
      ensures IsLetter(b) || IsFigure(b) || b == 95 || b == 36
    {
      var m :| 0 <= m < k && part[m] == b;
      assert ValidNameByteAt(name, m);
      IdentifierBytes(b);
    }
    IdentifierBytes(name[0]);
  }

  lemma RestIsValid(name: Bytes, k: nat)
    requires ValidPackageName(name) && k < |name| && name[k] == DOT
    ensures ValidPackageName(name[k + 1..])
  {
    var rest := name[k + 1..];
    assert name[|name| - 1] != DOT;
    forall m | 0 <= m < |rest|
      ensures ValidNameByteAt(rest, m)
    {
      assert ValidNameByteAt(name, k + 1 + m) && rest[m] == name[k + 1 + m];
      assert m > 0 ==> rest[m - 1] == name[k + m];
    }
  }

  lemma {:induction false} ValidIsDotted(name: Bytes) returns (parts: seq<Bytes>)
    requires ValidPackageName(name)
    ensures AreIdentifiers(parts) && name == Dotted(parts)
    decreases |name|
  {
    var k := FirstDot(name);
    PartIsIdentifier(name, k);
    if k == |name| {
      parts := [name];
      assert name[..k] == name;
    } else {
      RestIsValid(name, k);
      var more := ValidIsDotted(name[k + 1..]);
      parts := [name[..k]] + more;
      assert parts[1..] == more;
      assert name == name[..k] + (['.' as Byte] + name[k + 1..]);
    }
  }

  /** The manifest accepts exactly the packages written as identifiers with dots between them. */
  lemma ValidPackagesAre(name: Bytes)
    ensures ValidPackageName(name) <==> exists parts: seq<Bytes> :: AreIdentifiers(parts) && name == Dotted(parts)
  {
    hide ValidPackageName, AreIdentifiers, Dotted;
    if ValidPackageName(name) {
      var parts := ValidIsDotted(name);
    }
    forall parts: seq<Bytes> | AreIdentifiers(parts) && name == Dotted(parts)
      ensures ValidPackageName(name)
    {
      DottedIsValid(parts);
    }
  }

  // ---- the parts of an entry's name ---------------------------------------------------------------

  const SERVICES_BELOW: Bytes := Ascii("META-INF/services/")
  const VERSIONS_BELOW: Bytes := Ascii("META-INF/versions/")

  predicate AreFigures(digits: Bytes) {
    digits != [] && forall b <- digits :: IsFigure(b)
  }

  /** `name` is `path` below the directory of a version. */
  predicate IsBelowVersion(name: Bytes, digits: Bytes, path: Bytes) {
    AreFigures(digits) && name == VERSIONS_BELOW + digits + ['/' as Byte] + path
  }

  lemma SamePrefixes()
    ensures SERVICES == SERVICES_BELOW && VERSIONS == VERSIONS_BELOW
  {
    hide Ascii;
  }

  lemma SlashBehindFigures(digits: Bytes, rest: Bytes)
    requires AreFigures(digits)
    ensures AllDigits(digits) && FindSlash(digits + (['/' as Byte] + rest)) == Some(|digits|)
  {
    forall b | b in digits
      ensures IsDigit(b) && b != SLASH
    {
    }
    SlashIsAt(digits, rest);
  }

  lemma {:induction false} SlashIsAt(front: Bytes, rest: Bytes)
    requires SLASH !in front
    ensures FindSlash(front + (['/' as Byte] + rest)) == Some(|front|)
  {
    var s := front + (['/' as Byte] + rest);
    if front != [] {
      SlashIsAt(front[1..], rest);
      assert s[1..] == front[1..] + (['/' as Byte] + rest);
    }
  }

  lemma BelowVersionIsFound(name: Bytes, digits: Bytes, path: Bytes)
    requires IsBelowVersion(name, digits, path)
    ensures VersionOf(name) == Some(|name| - |path|) && !(SERVICES <= name)
  {
    hide Ascii, AllDigits, FindSlash, AreFigures;
    TellApart();
    hide SERVICES, VERSIONS, VERSIONS_BELOW;
    SamePrefixes();
    assert VERSIONS <= name by { assert name[..|VERSIONS|] == VERSIONS; }
    assert name[9] == VERSIONS[9];
    assert name[|VERSIONS|..] == digits + (['/' as Byte] + path);
    SlashBehindFigures(digits, path);
    assert (digits + (['/' as Byte] + path))[..|digits|] == digits;
    SomeFigures(digits);
  }

  lemma SomeFigures(digits: Bytes)
    requires AreFigures(digits)
    ensures digits != []
  {
  }

  lemma TellApart()
    ensures |SERVICES| == 18 && |VERSIONS| == 18 && SERVICES[9] == 's' as Byte && VERSIONS[9] == 'v' as Byte
  {
  }

  lemma FoundIsBelowVersion(name: Bytes)
    requires VersionOf(name).Some?
    ensures exists digits: Bytes, path: Bytes :: IsBelowVersion(name, digits, path)
  {
    hide Ascii, VERSIONS, VERSIONS_BELOW;
    SamePrefixes();
    var rest := name[|VERSIONS|..];
    var k := FindSlash(rest).value;
    var digits, path := rest[..k], rest[k + 1..];
    assert name == VERSIONS + rest && rest == digits + (['/' as Byte] + path);
    assert name == VERSIONS_BELOW + digits + ['/' as Byte] + path;
    assert IsBelowVersion(name, digits, path);
  }

  /** Of a service file's name what follows `META-INF/services/` is relocated, of a name below a version's
      directory what follows that, and any other name as it is. */
  lemma EntryNameMoves(rules: seq<Rule>, name: Bytes, x: Bytes, digits: Bytes)
    requires Advances(rules)
    ensures EntryName(rules, SERVICES_BELOW + x) == SERVICES_BELOW + WholeName(rules, x)
    ensures AreFigures(digits) ==>
              EntryName(rules, VERSIONS_BELOW + digits + ['/' as Byte] + x)
              == VERSIONS_BELOW + digits + ['/' as Byte] + WholeName(rules, x)
    ensures !(SERVICES_BELOW <= name) && !(exists d: Bytes, path: Bytes :: IsBelowVersion(name, d, path)) ==>
              EntryName(rules, name) == WholeName(rules, name)
  {
    hide WholeName, VersionOf, Ascii, SERVICES, VERSIONS, SERVICES_BELOW, VERSIONS_BELOW, AreFigures;
    SamePrefixes();
    NoRulesMove(x);
    NoRulesMove(name);
    assert (SERVICES_BELOW + x)[|SERVICES|..] == x;
    if AreFigures(digits) {
      var below := VERSIONS_BELOW + digits + ['/' as Byte];
      assert IsBelowVersion(below + x, digits, x);
      BelowVersionIsFound(below + x, digits, x);
      assert (below + x)[..|below|] == below && (below + x)[|below|..] == x;
    }
    if VersionOf(name).Some? {
      FoundIsBelowVersion(name);
    }
  }

  lemma NoRulesMove(name: Bytes)
    ensures Advances([]) && WholeName([], name) == name
  {
    hide WholeName;
    WholeIsMatchAtStart([], name);
  }

  // ---- paths that start with a slash --------------------------------------------------------------

  /** A mark descriptors put before a class type. */
  predicate IsMark(b: Byte) {
    b == 40 || b == 41 || b == 42 || b == 43 || b == 45 || b == 58 || b == 59 || b == 60 || b == 62 || b == 94
  }

  lemma {:induction false} NothingOpensBelow(text: Bytes, j: nat)
    requires 0 < j <= |text| && text[0] == SLASH && forall b <- text :: !IsMark(b)
    ensures !Opens(text, j)
  {
    assert text[j - 1] in text;
    if j > 1 {
      NothingOpensBelow(text, j - 1);
    }
  }

  lemma StartsPastSlash(text: Bytes)
    requires |text| > 1 && text[0] == SLASH && forall b <- text :: !IsMark(b)
    ensures CanStart(text, 1, Constant)
    ensures forall k :: 2 <= k < |text| ==> !CanStart(text, k, Constant)
  {
    forall k | 2 <= k < |text|
      ensures !CanStart(text, k, Constant)
    {
      NothingOpensBelow(text, k - 1);
    }
  }

  /** A resource's path with a slash before it, as classes name their own resources, moves with its package. */
  lemma ResourcePathMoves(rs: seq<Relocation>, name: Bytes, rest: Bytes)
    requires AllValid(rs) && IsName(name) && Follows(name, Slashed, rest)
    requires forall b <- rest :: !IsMark(b)
    ensures Advances(New(rs))
    ensures Rewritten(New(rs), ['/' as Byte] + Spell(name, Slashed) + rest, Constant)
            == ['/' as Byte] + Moved(rs, name, Slashed, false) + rest
  {
    hide AllValid, New, NameStands, MatchAt, AllWellFormed, IsTaken, Advances, Follows, IsAlone, Spell, Takes,
         RewriteFrom, CanStart, IsName;
    var s := Spell(name, Slashed);
    var text := ['/' as Byte] + s + rest;
    TableIsWellFormed(rs);
    SpelledLength(name, Slashed);
    StandsSecond(name, rest);
    NoNameNoMatch(rs, text, 0);
    MatchIsDecided(rs, text, 1, name, Slashed);
    StartsPastSlash(text);
    StepOver(New(rs), text);
    var moved := Moved(rs, name, Slashed, false);
    if IsTaken(rs, name, Slashed, false) {
      var k := Decider(rs, name, Slashed, false);
      var r := rs[k];
      DecidedTakes(rs, k, name, Slashed, false);
      FromSpelled(r, Slashed);
      SecondHit(New(rs), text, |r.from|, Spell(r.to, Slashed));
      assert text[1 + |r.from|..] == s[|r.from|..] + rest;
      assert moved == Spell(r.to, Slashed) + s[|r.from|..];
      assert Spell(r.to, Slashed) + (s[|r.from|..] + rest) == moved + rest;
    } else {
      SecondKept(New(rs), text);
      assert text[1..] == s + rest && moved == s;
    }
    assert ['/' as Byte] + (moved + rest) == ['/' as Byte] + moved + rest;
  }

  lemma NoMarkInName(name: Bytes)
    requires IsName(name)
    ensures forall b <- Spell(name, Slashed) :: !IsMark(b)
  {
    var s := Spell(name, Slashed);
    forall k | 0 <= k < |s|
      ensures !IsMark(s[k])
    {
      assert name[k] in name;
    }
  }

  lemma StandsSecond(name: Bytes, rest: Bytes)
    requires IsName(name) && Follows(name, Slashed, rest) && forall b <- rest :: !IsMark(b)
    ensures var text := ['/' as Byte] + Spell(name, Slashed) + rest;
            && |text| > 1 && NameStands(text, 1, name, Slashed) && !IsAlone(text, 1, name)
            && forall b <- text :: !IsMark(b)
  {
    var s := Spell(name, Slashed);
    var text := ['/' as Byte] + s + rest;
    NoMarkInName(name);
    SpelledLength(name, Slashed);
    hide IsMark, Spell, IsName;
    assert text[1..1 + |s|] == s;
    assert !IsMark('/' as Byte) by { NoMarkIsSlash(); }
    NotEmpty(name);
  }

  lemma NoMarkIsSlash()
    ensures !IsMark('/' as Byte)
  {
  }

  lemma NotEmpty(name: Bytes)
    requires IsName(name)
    ensures name != []
  {
  }

  lemma StepOver(rules: seq<Rule>, text: Bytes)
    requires Advances(rules) && text != [] && MatchAt(rules, text, 0) == None
    ensures RewriteFrom(rules, text, 0, Constant) == [text[0]] + RewriteFrom(rules, text, 1, Constant)
  {
    hide MatchAt, CanStart, Advances;
  }

  lemma SecondHit(rules: seq<Rule>, text: Bytes, c: nat, replacement: Bytes)
    requires Advances(rules) && 1 + c <= |text| && 0 < c && CanStart(text, 1, Constant)
    requires MatchAt(rules, text, 1) == Some(Match(c, replacement))
    requires forall k :: 2 <= k < |text| ==> !CanStart(text, k, Constant)
    ensures RewriteFrom(rules, text, 1, Constant) == replacement + text[1 + c..]
  {
    hide MatchAt, CanStart, Advances, RewriteFrom;
    ScanHit(rules, text, Span(1, c, replacement), Constant);
    CopiesOver(rules, text, 1 + c, |text|, Constant);
    ScanEnds(rules, text, Constant);
    assert text[1 + c..|text|] + [] == text[1 + c..];
  }

  lemma SecondKept(rules: seq<Rule>, text: Bytes)
    requires Advances(rules) && |text| > 1 && MatchAt(rules, text, 1) == None
    requires forall k :: 2 <= k < |text| ==> !CanStart(text, k, Constant)
    ensures RewriteFrom(rules, text, 1, Constant) == text[1..]
  {
    hide MatchAt, CanStart, Advances;
    CopiesOver(rules, text, 2, |text|, Constant);
    hide RewriteFrom;
    ScanEnds(rules, text, Constant);
    assert [text[1]] + (text[2..|text|] + []) == text[1..];
  }
}
