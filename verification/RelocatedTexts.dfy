/** Texts, relocated. */
module RelocatedTexts {
  // What the manifest's strings make of the names in constants, entry names and registry text.

  import opened ByteStrings
  import opened Wrappers
  import opened Relocation
  import opened Rewriting
  import opened Signatures
  import opened SignatureNames
  import opened EntryNames
  import opened RelocatedNames

  lemma TableIsWellFormed(rs: seq<Relocation>)
    requires AllValid(rs)
    ensures AllWellFormed(New(rs)) && Advances(New(rs))
  {
    hide AllWellFormed, New, ValidRelocation, Advances;
    NewIsWellFormed(rs);
    WellFormedAdvances(New(rs));
  }

  // ---- where a class goes ---------------------------------------------------------------------------

  lemma SpelledBack(name: Bytes)
    requires IsName(name)
    ensures Replace(Replace(name, DOT, SLASH), SLASH, DOT) == name && IsInternalName(Replace(name, DOT, SLASH))
  {
    var n := Replace(name, DOT, SLASH);
    forall k | 0 <= k < |name|
      ensures n[k] == (if name[k] == DOT then SLASH else name[k]) && (IsNameByte(n[k]) || n[k] == SLASH) &&
              Replace(n, SLASH, DOT)[k] == name[k]
    {
      assert name[k] in name;
    }
  }

  lemma ClosedStands(name: Bytes)
    requires IsName(name) && DOT in name
    ensures var text := Replace(name, DOT, SLASH) + [SEMI];
            NameStands(text, 0, name, Slashed) && NameEnds(text, 0, Replace(name, DOT, SLASH)) && !IsAlone(text, 0, name)
  {
    var n := Replace(name, DOT, SLASH);
    SpelledBack(name);
    assert (n + [SEMI])[0..|n|] == n;
  }

  /** The class name of a syntax tree goes where the table sends it. */
  lemma ClassMoves(rs: seq<Relocation>, name: Bytes)
    requires AllValid(rs) && IsName(name) && DOT in name
    ensures MoveName(New(rs), Spell(name, Slashed)) == Moved(rs, name, Slashed, false)
  {
    hide AllValid, New, NameStands, NameEnds, MatchAt, MoveName, IsName, AllWellFormed, IsTaken, Advances,
         IsInternalName, IsAlone;
    var n := Spell(name, Slashed);
    var text := n + [SEMI];
    TableIsWellFormed(rs);
    ClosedStands(name);
    assert text[|n|] == SEMI;
    MatchIsMove(New(rs), text, 0, n);
    MatchIsDecided(rs, text, 0, name, Slashed);
  }

  /** And what a member of an unnamed package's class is misread as is what the table takes. */
  lemma MisreadIsTaken(rs: seq<Relocation>, name: Bytes)
    requires AllValid(rs)
    ensures ReadsAsDotted(New(rs), name) <==> exists r <- rs :: Takes(r, name, Dotted, false)
  {
    hide ValidRelocation, IsSpared, SortLongestFirst;
    SortMembers(RulesInOrder(rs));
    if rule :| rule in New(rs) && rule.dottedFrom + [DOT] <= name && !rule.Excludes(name) {
      var k :| 0 <= k < |rs| && rule == RuleOf(rs[k]);
      ExclusionsAre(rs[k], name);
      assert rs[k] in rs && Takes(rs[k], name, Dotted, false);
    }
    if r :| r in rs && Takes(r, name, Dotted, false) {
      var k :| 0 <= k < |rs| && rs[k] == r;
      ExclusionsAre(r, name);
      assert RulesInOrder(rs)[k] in RulesInOrder(rs);
      assert RuleOf(r) in New(rs);
    }
  }

  // ---- a name at the start --------------------------------------------------------------------------

  /** What follows a name of that form at the start of a text. */
  predicate Follows(name: Bytes, form: Form, rest: Bytes) {
    && (rest != [] ==> !IsNameByte(rest[0]) && rest[0] != Separator(form))
    && (form == Slashed ==> DOT in name)
    && (form == Dotted && DOT !in name && rest != [] ==> rest[0] != SLASH)
  }

  lemma StandsFirst(name: Bytes, form: Form, rest: Bytes)
    requires IsName(name) && Follows(name, form, rest)
    ensures var text := Spell(name, form) + rest;
            NameStands(text, 0, name, form) && (IsAlone(text, 0, name) <==> rest == [])
  {
    var s := Spell(name, form);
    assert (s + rest)[0..|s|] == s;
  }

  /** Where the whole text is a name, or begins with one, only that is relocated. */
  lemma WholeMoves(rs: seq<Relocation>, name: Bytes, form: Form, rest: Bytes)
    requires AllValid(rs) && IsName(name) && Follows(name, form, rest)
    ensures Advances(New(rs))
    ensures WholeName(New(rs), Spell(name, form) + rest) == Moved(rs, name, form, rest == []) + rest
  {
    hide AllValid, New, NameStands, MatchAt, IsName, AllWellFormed, IsTaken, Advances, Follows, WholeName, IsAlone,
         Spell, Takes;
    var s := Spell(name, form);
    TableIsWellFormed(rs);
    StandsFirst(name, form, rest);
    MatchIsDecided(rs, s + rest, 0, name, form);
    WholeIsMatchAtStart(New(rs), s + rest);
    SpelledLength(name, form);
    if IsTaken(rs, name, form, rest == []) {
      var r := rs[Decider(rs, name, form, rest == [])];
      assert (s + rest)[|r.from|..] == s[|r.from|..] + rest;
      Regroup(Spell(r.to, form), s[|r.from|..], rest);
    }
  }

  lemma SpelledLength(name: Bytes, form: Form)
    ensures |Spell(name, form)| == |name|
  {
  }

  const SERVICE_FILES: Bytes := Ascii("META-INF/services/")

  /** A service file goes where its interface goes. */
  lemma ServiceFollowsItsInterface(rs: seq<Relocation>, name: Bytes)
    requires AllValid(rs) && IsName(name)
    ensures Advances(New(rs))
    ensures EntryName(New(rs), SERVICE_FILES + name) == SERVICE_FILES + Moved(rs, name, Dotted, true)
  {
    hide AllValid, New, IsName, WholeName, Moved, Advances;
    TableIsWellFormed(rs);
    assert Follows(name, Dotted, []);
    assert name + [] == name && Spell(name, Dotted) == name;
    WholeMoves(rs, name, Dotted, []);
    assert Moved(rs, name, Dotted, true) + [] == Moved(rs, name, Dotted, true);
    assert (SERVICE_FILES + name)[|SERVICE_FILES|..] == name;
    NoRulesMoveNothing(rs, name);
  }

  lemma NoRulesMoveNothing(rs: seq<Relocation>, name: Bytes)
    ensures New(rs) == [] ==> Moved(rs, name, Dotted, true) == name
  {
    SortMembers(RulesInOrder(rs));
    assert forall k :: 0 <= k < |rs| ==> RulesInOrder(rs)[k] in New(rs);
  }

  // ---- registry text --------------------------------------------------------------------------------

  predicate IsRunByte(b: Byte) {
    IsNameByte(b) || b == DOT || b == SLASH
  }

  /** A registry file as it is written: names and what stands between them. A word is a name in its form and,
      where that stops, the rest up to the next mark; what begins with a dot or a slash is no name. */
  datatype Piece =
    | Word(name: Bytes, form: Form, rest: Bytes)
    | Path(run: Bytes)
    | Mark(b: Byte)

  predicate OkPiece(p: Piece) {
    match p
    case Word(name, form, rest) => IsName(name) && Follows(name, form, rest) && forall b <- rest :: IsRunByte(b)
    case Path(run) => run != [] && !IsNameByte(run[0]) && forall b <- run :: IsRunByte(b)
    case Mark(b) => !IsRunByte(b)
  }

  /** Pieces in a row: words and paths are whole, with marks between them. */
  predicate OkPieces(ps: seq<Piece>) {
    ps == [] || (OkPiece(ps[0]) && OkPieces(ps[1..]) && (!ps[0].Mark? && |ps| > 1 ==> ps[1].Mark?))
  }

  function Written(p: Piece): (s: Bytes)
    ensures OkPiece(p) ==> s != []
  {
    match p
    case Word(name, form, rest) => Spell(name, form) + rest
    case Path(run) => run
    case Mark(b) => [b]
  }

  function Source(ps: seq<Piece>): Bytes {
    if ps == [] then [] else Written(ps[0]) + Source(ps[1..])
  }

  /** Every word's name relocated, everything else as it was. */
  ghost function MovedPieces(rs: seq<Relocation>, ps: seq<Piece>, alone: bool): Bytes {
    if ps == [] then []
    else
      (match ps[0]
       case Word(name, form, rest) => Moved(rs, name, form, alone && rest == [] && |ps| == 1) + rest
       case Path(run) => run
       case Mark(b) => [b])
      + MovedPieces(rs, ps[1..], false)
  }

  /** Pieces stand in the text from `i` on, with a mark or nothing before. */
  predicate PiecesStand(text: Bytes, i: nat, ps: seq<Piece>) {
    && i <= |text| && text[i..] == Source(ps) && OkPieces(ps)
    && (i > 0 && ps != [] && !ps[0].Mark? ==> !IsRunByte(text[i - 1]))
  }

  lemma PiecesSplit(text: Bytes, i: nat, ps: seq<Piece>)
    requires PiecesStand(text, i, ps) && ps != []
    ensures var e := i + |Written(ps[0])|;
            && i < e <= |text| && text[i..e] == Written(ps[0]) && PiecesStand(text, e, ps[1..])
            && (!ps[0].Mark? && e < |text| ==> !IsRunByte(text[e]))
            && (e == |text| <==> |ps| == 1)
  {
    var w, rest := Written(ps[0]), Source(ps[1..]);
    TakeAll(text, i, w, rest);
    var e := i + |w|;
    if |ps| > 1 {
      assert ps[1..][0] == ps[1] && ps[1..] != [];
      assert rest == Written(ps[1]) + Source(ps[1..][1..]);
      assert OkPieces(ps[1..]) && OkPiece(ps[1..][0]);
      assert text[e] == text[e..][0] == Written(ps[1])[0];
    } else {
      assert rest == [];
    }
    assert text[e - 1] == text[i..e][|w| - 1] == w[|w| - 1];
  }

  /** Within a run no name starts but at its first byte. */
  lemma NoneInside(rs: seq<Relocation>, text: Bytes, i: nat, j: nat, e: nat)
    requires i < j <= e <= |text| && forall k :: i <= k < e ==> IsRunByte(text[k])
    ensures Advances(New(rs)) ==> RewriteFrom(New(rs), text, j, Text) == text[j..e] + RewriteFrom(New(rs), text, e, Text)
  {
    hide MatchAt, New, RewriteFrom, Advances;
    if Advances(New(rs)) {
      forall k | j <= k < e
        ensures !CanStart(text, k, Text)
      {
        assert IsRunByte(text[k - 1]);
      }
      CopiesOver(New(rs), text, j, e, Text);
    }
  }

  lemma NoNameNoMatch(rs: seq<Relocation>, text: Bytes, i: nat)
    requires AllValid(rs) && i < |text| && !IsNameByte(text[i])
    ensures MatchAt(New(rs), text, i) == None
  {
    hide AllValid, New, AllWellFormed, MatchAt, IsNameByte, Advances;
    TableIsWellFormed(rs);
    if MatchAt(New(rs), text, i) != None {
      var r := MatchChanges(New(rs), text, i);
    }
  }

  lemma OneCopied(rs: seq<Relocation>, text: Bytes, i: nat)
    requires AllValid(rs) && i < |text| && !IsNameByte(text[i]) && Advances(New(rs))
    ensures RewriteFrom(New(rs), text, i, Text) == [text[i]] + RewriteFrom(New(rs), text, i + 1, Text)
  {
    hide AllValid, New, MatchAt, CanStart, IsNameByte, Advances;
    NoNameNoMatch(rs, text, i);
  }

  /** One word. */
  lemma WordMoves(rs: seq<Relocation>, text: Bytes, i: nat, name: Bytes, form: Form, rest: Bytes)
    requires AllValid(rs) && Advances(New(rs)) && OkPiece(Word(name, form, rest))
    requires OccursAt(text, i, Spell(name, form) + rest)
    requires i > 0 ==> !IsRunByte(text[i - 1])
    requires var e := i + |name| + |rest|; e < |text| ==> !IsRunByte(text[e])
    ensures |Spell(name, form)| == |name| && i + |name| + |rest| <= |text|
    ensures var e := i + |name| + |rest|;
            RewriteFrom(New(rs), text, i, Text)
            == (Moved(rs, name, form, i == 0 && e == |text| && rest == []) + rest) + RewriteFrom(New(rs), text, e, Text)
  {
    hide AllValid, New, MatchAt, RewriteFrom, Takes, Spell, Advances, IsTaken, OkPiece, OccursAt, CanStart,
         NameStands, IsAlone, IsRunByte;
    SpelledLength(name, form);
    var s := Spell(name, form);
    var e := i + |name| + |rest|;
    WordStands(text, i, name, form, rest);
    MatchIsDecided(rs, text, i, name, form);
    RunBytes(text, i, name, form, rest);
    var alone := IsAlone(text, i, name);
    if IsTaken(rs, name, form, alone) {
      var r := rs[Decider(rs, name, form, alone)];
      DecidedTakes(rs, Decider(rs, name, form, alone), name, form, alone);
      FromSpelled(r, form);
      SliceOfWord(text, i, s, rest, |r.from|);
      RunReplaced(rs, text, i, |r.from|, e, Spell(r.to, form));
      Regroup(Spell(r.to, form), s[|r.from|..], rest);
    } else {
      SliceOfWord(text, i, s, rest, 0);
      RunKept(rs, text, i, e);
    }
  }

  lemma SliceOfWord(text: Bytes, i: nat, s: Bytes, rest: Bytes, c: nat)
    requires OccursAt(text, i, s + rest) && c <= |s|
    ensures i + |s| + |rest| <= |text| && text[i + c..i + |s| + |rest|] == s[c..] + rest && s[0..] == s
  {
    var e := i + |s| + |rest|;
    assert text[i + c..e] == text[i..e][c..];
  }

  lemma RunReplaced(rs: seq<Relocation>, text: Bytes, i: nat, c: nat, e: nat, replacement: Bytes)
    requires Advances(New(rs)) && 0 < c && i + c <= e <= |text| && CanStart(text, i, Text)
    requires MatchAt(New(rs), text, i) == Some(Match(c, replacement))
    requires forall k :: i <= k < e ==> IsRunByte(text[k])
    ensures RewriteFrom(New(rs), text, i, Text) == (replacement + text[i + c..e]) + RewriteFrom(New(rs), text, e, Text)
  {
    hide New, MatchAt, RewriteFrom, Advances, CanStart, IsRunByte;
    ScanHit(New(rs), text, Span(i, c, replacement), Text);
    NoneInside(rs, text, i, i + c, e);
    Regroup(replacement, text[i + c..e], RewriteFrom(New(rs), text, e, Text));
  }

  lemma RunKept(rs: seq<Relocation>, text: Bytes, i: nat, e: nat)
    requires Advances(New(rs)) && i < e <= |text| && MatchAt(New(rs), text, i) == None
    requires forall k :: i <= k < e ==> IsRunByte(text[k])
    ensures RewriteFrom(New(rs), text, i, Text) == text[i..e] + RewriteFrom(New(rs), text, e, Text)
  {
    hide New, MatchAt, RewriteFrom, Advances, IsRunByte;
    NotHitCopied(rs, text, i);
    NoneInside(rs, text, i, i + 1, e);
    assert [text[i]] + text[i + 1..e] == text[i..e];
    Regroup([text[i]], text[i + 1..e], RewriteFrom(New(rs), text, e, Text));
  }

  lemma NotHitCopied(rs: seq<Relocation>, text: Bytes, i: nat)
    requires i < |text| && Advances(New(rs)) && MatchAt(New(rs), text, i) == None
    ensures RewriteFrom(New(rs), text, i, Text) == [text[i]] + RewriteFrom(New(rs), text, i + 1, Text)
  {
    hide MatchAt, New, CanStart, Advances;
  }

  lemma WordStands(text: Bytes, i: nat, name: Bytes, form: Form, rest: Bytes)
    requires OkPiece(Word(name, form, rest)) && OccursAt(text, i, Spell(name, form) + rest)
    requires var e := i + |name| + |rest|; e < |text| ==> !IsRunByte(text[e])
    ensures NameStands(text, i, name, form) && name != []
    ensures IsAlone(text, i, name) <==> i == 0 && i + |name| + |rest| == |text| && rest == []
  {
    var s := Spell(name, form);
    OccursSplit(text, i, s, rest);
    OccursElements(text, i + |s|, rest);
    if rest != [] {
      assert text[i + |s| + 0] == rest[0];
    }
  }

  lemma RunBytes(text: Bytes, i: nat, name: Bytes, form: Form, rest: Bytes)
    requires OkPiece(Word(name, form, rest)) && OccursAt(text, i, Spell(name, form) + rest)
    ensures forall k :: i <= k < i + |name| + |rest| ==> IsRunByte(text[k])
    ensures CanStart(text, i, Text) <==> (i > 0 ==> !IsRunByte(text[i - 1]))
  {
    var w := Spell(name, form) + rest;
    OccursElements(text, i, w);
    forall k | i <= k < i + |w|
      ensures IsRunByte(text[k])
    {
      assert text[i + (k - i)] == w[k - i];
      assert k - i < |name| ==> name[k - i] in name;
      assert k - i >= |name| ==> rest[k - i - |name|] in rest;
    }
  }

  /** In registry text every name is relocated, and nothing else changes. */
  lemma {:induction false} PiecesMove(rs: seq<Relocation>, text: Bytes, i: nat, ps: seq<Piece>)
    requires AllValid(rs) && Advances(New(rs)) && PiecesStand(text, i, ps)
    ensures RewriteFrom(New(rs), text, i, Text) == MovedPieces(rs, ps, i == 0)
    decreases |ps|
  {
    hide AllValid, New, RewriteFrom, PiecesStand, Advances, Moved, IsRunByte, Spell;
    if ps == [] {
      NoPiecesLeft(text, i);
      ScanEnds(New(rs), text, Text);
    } else {
      PiecesSplit(text, i, ps);
      var e := i + |Written(ps[0])|;
      PiecesMove(rs, text, e, ps[1..]);
      PieceMoves(rs, text, i, ps);
    }
  }

  lemma NoPiecesLeft(text: Bytes, i: nat)
    requires PiecesStand(text, i, [])
    ensures i == |text|
  {
    assert |text[i..]| == 0;
  }

  lemma PieceMoves(rs: seq<Relocation>, text: Bytes, i: nat, ps: seq<Piece>)
    requires AllValid(rs) && Advances(New(rs)) && PiecesStand(text, i, ps) && ps != []
    ensures i + |Written(ps[0])| <= |text|
    ensures RewriteFrom(New(rs), text, i, Text)
            == (match ps[0]
                case Word(name, form, rest) => Moved(rs, name, form, i == 0 && rest == [] && |ps| == 1) + rest
                case Path(run) => run
                case Mark(b) => [b])
               + RewriteFrom(New(rs), text, i + |Written(ps[0])|, Text)
  {
    hide AllValid, New, RewriteFrom, Advances, Moved, IsRunByte, Spell, IsName;
    PiecesSplit(text, i, ps);
    var e := i + |Written(ps[0])|;
    match ps[0]
    case Word(name, form, rest) =>
      SpelledLength(name, form);
      WordMoves(rs, text, i, name, form, rest);
    case Path(run) =>
      PathCopied(rs, text, i, run);
    case Mark(b) =>
      assert text[i] == text[i..e][0] == b;
      MarkIsNoName(b);
      OneCopied(rs, text, i);
  }

  lemma MarkIsNoName(b: Byte)
    requires !IsRunByte(b)
    ensures !IsNameByte(b)
  {
  }

  lemma PathCopied(rs: seq<Relocation>, text: Bytes, i: nat, run: Bytes)
    requires AllValid(rs) && Advances(New(rs)) && OkPiece(Path(run)) && OccursAt(text, i, run)
    ensures RewriteFrom(New(rs), text, i, Text) == run + RewriteFrom(New(rs), text, i + |run|, Text)
  {
    hide AllValid, New, RewriteFrom, Advances, IsRunByte;
    var e := i + |run|;
    OccursElements(text, i, run);
    assert text[i + 0] == run[0];
    forall k | i <= k < e
      ensures IsRunByte(text[k])
    {
      assert text[i + (k - i)] == run[k - i] && run[k - i] in run;
    }
    NoNameNoMatch(rs, text, i);
    RunKept(rs, text, i, e);
  }

  lemma RegistryTextMoves(rs: seq<Relocation>, ps: seq<Piece>)
    requires AllValid(rs) && OkPieces(ps)
    ensures Advances(New(rs))
    ensures Rewritten(New(rs), Source(ps), Text) == MovedPieces(rs, ps, true)
  {
    hide AllValid, New, Advances, RewriteFrom, MovedPieces;
    TableIsWellFormed(rs);
    assert Source(ps)[0..] == Source(ps);
    PiecesMove(rs, Source(ps), 0, ps);
  }

  /** And every text is such pieces. */
  lemma {:induction false} EveryTextIsRuns(text: Bytes) returns (ps: seq<Piece>)
    ensures text == Source(ps) && OkPieces(ps)
    ensures ps != [] && !ps[0].Mark? ==> IsRunByte(text[0])
    decreases |text|
  {
    hide IsRunByte, OkPiece;
    if text == [] {
      ps := [];
    } else {
      var first, n := FirstPiece(text);
      var rest := EveryTextIsRuns(text[n..]);
      ps := [first] + rest;
      assert text == text[..n] + text[n..];
      assert ps[1..] == rest;
      if rest != [] && !rest[0].Mark? {
        assert n < |text| && text[n..][0] == text[n];
      }
    }
  }

  /** The end of the longest run from `i` of name bytes and, if `dots`, dots, if `slashes`, slashes. */
  function RunTo(text: Bytes, i: nat, dots: bool, slashes: bool): (e: nat)
    requires i <= |text|
    ensures i <= e <= |text|
    ensures forall k :: i <= k < e ==> IsNameByte(text[k]) || (dots && text[k] == DOT) || (slashes && text[k] == SLASH)
    ensures e < |text| ==> !IsNameByte(text[e]) && (dots ==> text[e] != DOT) && (slashes ==> text[e] != SLASH)
    decreases |text| - i
  {
    if i < |text| && (IsNameByte(text[i]) || (dots && text[i] == DOT) || (slashes && text[i] == SLASH)) then
      RunTo(text, i + 1, dots, slashes)
    else i
  }

  lemma FirstPiece(text: Bytes) returns (p: Piece, n: nat)
    requires text != []
    ensures 0 < n <= |text| && OkPiece(p) && Written(p) == text[..n]
    ensures !p.Mark? ==> IsRunByte(text[0]) && (n < |text| ==> !IsRunByte(text[n]))
  {
    if !IsRunByte(text[0]) {
      p, n := Mark(text[0]), 1;
    } else {
      n := RunTo(text, 0, true, true);
      BytesOfRun(text, 0, n);
      assert text[0..n] == text[..n];
      if !IsNameByte(text[0]) {
        p := Path(text[..n]);
      } else {
        p := FirstWord(text, n);
      }
    }
  }

  lemma BytesOfRun(text: Bytes, d: nat, n: nat)
    requires d <= n <= |text| && forall k :: d <= k < n ==> IsRunByte(text[k])
    ensures forall b <- text[d..n] :: IsRunByte(b)
  {
    hide IsRunByte;
    forall b | b in text[d..n]
      ensures IsRunByte(b)
    {
      var k :| 0 <= k < n - d && text[d..n][k] == b;
      assert text[d + k] == b;
    }
  }

  lemma FirstWord(text: Bytes, n: nat) returns (p: Piece)
    requires 0 < n <= |text| && IsNameByte(text[0]) && n == RunTo(text, 0, true, true)
    ensures p.Word? && OkPiece(p) && Written(p) == text[..n]
  {
    var word := RunTo(text, 0, false, false);
    var form := if word < |text| && text[word] == SLASH then Slashed else Dotted;
    var d := RunTo(text, 0, form == Dotted, form == Slashed);
    var name := Replace(text[..d], SLASH, DOT);
    assert d <= n;
    assert IsName(name) by { NameOfRun(text, d, form); }
    p := Word(name, form, text[d..n]);
    assert Spell(name, form) == text[..d] by { NameOfRun(text, d, form); }
    assert text[..d] + text[d..n] == text[..n];
    BytesOfRun(text, d, n);
    assert d < n ==> text[d..n][0] == text[d];
    assert word <= d;
    assert word < d ==> name[word] == DOT;
    assert form == Dotted && d < n ==> word < d;
  }

  lemma NameOfRun(text: Bytes, d: nat, form: Form)
    requires 0 < d <= |text| && IsNameByte(text[0])
    requires forall k :: 0 <= k < d ==> IsNameByte(text[k]) || text[k] == Separator(form)
    ensures var name := Replace(text[..d], SLASH, DOT); IsName(name) && Spell(name, form) == text[..d]
  {
    var name := Replace(text[..d], SLASH, DOT);
    forall k | 0 <= k < d
      ensures (IsNameByte(name[k]) || name[k] == DOT) && Spell(name, form)[k] == text[..d][k]
    {
      assert text[..d][k] == text[k];
    }
    assert name[0] == text[0];
  }

  // ---- constants ------------------------------------------------------------------------------------

  /** The class's internal name as a constant, `package-info` included, goes where the table sends it, exactly
      when it does not read like a descriptor past its start. */
  lemma ConstantMoves(rs: seq<Relocation>, name: Bytes, rest: Bytes)
    requires AllValid(rs) && IsName(name) && DOT in name && Follows(name, Slashed, rest)
    requires var n := Spell(name, Slashed) + rest; IsClassName(n) && !(META_INF <= n)
    ensures Advances(New(rs))
    ensures var n := Spell(name, Slashed) + rest;
            Rewritten(New(rs), n, Constant) == Moved(rs, name, Slashed, false) + rest <==> !ReadsAsDescriptor(New(rs), n)
  {
    hide AllValid, New, IsName, AllWellFormed, Advances, RewriteFrom, EntryName, WholeName, Moved, IsClassName,
         MatchAt, IsTaken, ReadsAsDescriptor,
         FileGoesAlong, Follows;
    var n := Spell(name, Slashed) + rest;
    TableIsWellFormed(rs);
    SlashInSpelled(name, rest);
    SuffixFollows(name, rest);
    ClassMovesWithItsReferences(New(rs), n);
    PackagedClassMoves(New(rs), n);
    NotInMetaInf(n);
    FileNameIsWhole(New(rs), n + CLASS_SUFFIX);
    assert n + CLASS_SUFFIX == Spell(name, Slashed) + (rest + CLASS_SUFFIX);
    WholeMoves(rs, name, Slashed, rest + CLASS_SUFFIX);
    SlashedNeverAlone(rs, name);
    var moved := Moved(rs, name, Slashed, false);
    assert moved + (rest + CLASS_SUFFIX) == (moved + rest) + CLASS_SUFFIX;
    SuffixInjective(Rewritten(New(rs), n, Constant), moved + rest, CLASS_SUFFIX);
  }

  lemma SlashInSpelled(name: Bytes, rest: Bytes)
    requires DOT in name
    ensures SLASH in Spell(name, Slashed) + rest
  {
    var k :| 0 <= k < |name| && name[k] == DOT;
    assert (Spell(name, Slashed) + rest)[k] == SLASH;
  }

  lemma SuffixFollows(name: Bytes, rest: Bytes)
    requires Follows(name, Slashed, rest)
    ensures Follows(name, Slashed, rest + CLASS_SUFFIX) && rest + CLASS_SUFFIX != []
  {
    assert CLASS_SUFFIX[0] == DOT;
    assert (rest + CLASS_SUFFIX)[0] == if rest == [] then DOT else rest[0];
  }

  /** Standing alone makes no difference to a slashed name. */
  lemma SlashedNeverAlone(rs: seq<Relocation>, name: Bytes)
    ensures Moved(rs, name, Slashed, true) == Moved(rs, name, Slashed, false)
  {
    hide Spell, IsSpared;
    assert forall r: Relocation :: Takes(r, name, Slashed, true) == Takes(r, name, Slashed, false);
    forall k: nat
      ensures Decides(rs, k, name, Slashed, true) == Decides(rs, k, name, Slashed, false)
    {
    }
    if IsTaken(rs, name, Slashed, false) {
      var k := Decider(rs, name, Slashed, false);
      assert Decides(rs, k, name, Slashed, true);
      MovedIs(rs, k, name, Slashed, true);
      MovedIs(rs, k, name, Slashed, false);
    }
  }

  // ---- one entry ------------------------------------------------------------------------------------

  /** A text that begins with its package and a separator has no second place for an entry's name. */
  lemma {:induction false} NoSecondPlace(text: Bytes, i: nat, n: nat, separator: Byte, k: nat)
    requires 0 < i <= n && i + n <= |text| && k <= n && text[k] == separator
    requires forall j :: 0 <= j < n ==> text[i + j] == text[j]
    requires forall j :: 0 <= j < i ==> text[j] != separator
    ensures false
    decreases k
  {
    if k >= i {
      assert text[i + (k - i)] == text[k - i];
      NoSecondPlace(text, i, n, separator, k - i);
    }
  }

  /** The spelling of a name in the package of `from`. */
  lemma Beginning(from: Bytes, name: Bytes, form: Form)
    requires IsName(name) && from + [DOT] <= name
    ensures |from| < |name| && Spell(name, form)[|from|] == Separator(form) && IsNameByte(Spell(name, form)[0])
    ensures forall k :: 0 <= k < |from| ==> Spell(name, form)[k] == Spell(from, form)[k]
    ensures forall k :: 0 <= k < |name| ==> IsNameByte(Spell(name, form)[k]) || Spell(name, form)[k] == Separator(form)
    ensures DOT in name
  {
    assert name[|from|] == (from + [DOT])[|from|] == DOT;
    assert forall k :: 0 <= k < |from| ==> name[k] == (from + [DOT])[k] == from[k];
    assert forall k :: 0 <= k < |name| ==> name[k] in name;
  }

  lemma NoOpeningPastSeparator(text: Bytes, k: nat, separator: Byte)
    requires 0 < k < |text| && CanStart(text, k, Constant) && IsNameByte(text[0])
    requires separator == DOT || separator == SLASH
    requires forall j :: 0 <= j < |text| ==> IsNameByte(text[j]) || text[j] == separator
    ensures forall j :: 0 <= j < k ==> text[j] != separator
  {
    OpensMeaning(text, k - 1);
    var m: nat :| m <= k - 1 && RunFromOpener(text, m, k - 1);
    assert m == 0;
  }

  lemma OneEntryMatches(r: Relocation, text: Bytes, k: nat, name: Bytes, form: Form)
    requires ValidRelocation(r) && IsName(name) && r.from + [DOT] <= name && text == Spell(name, form)
    requires 0 < k < |text| && MatchAt(New([r]), text, k) != None
    ensures k + |r.from| <= |text| && forall j :: 0 <= j < |r.from| ==> text[k + j] == text[j]
  {
    hide MatchAt, IsName, ValidRelocation, New, Spell, RuleOf, IsNameByte;
    OneRule(r);
    var rule, f := MatchingRule(New([r]), text, k);
    OneEntryApplies(r, text, k, f);
    FromSpelled(r, f);
    Beginning(r.from, name, form);
    SpelledLength(name, form);
    SpelledLength(r.from, form);
    SpelledLength(r.from, f);
    var from := rule.From(f);
    OccursElements(text, k, from);
    forall j | 0 <= j < |r.from|
      ensures text[k + j] == text[j]
    {
      assert text[k + j] == from[j];
      assert text[j] == Spell(r.from, form)[j];
      SameSpelling(r.from, form, f, j, text[k + j]);
    }
  }

  lemma OneEntryApplies(r: Relocation, text: Bytes, k: nat, f: Form)
    requires k <= |text| && Applies(RuleOf(r), f, text, k)
    ensures OccursAt(text, k, RuleOf(r).From(f))
  {
  }

  /** A byte that may stand in both spellings stands for the same. */
  lemma SameSpelling(from: Bytes, form: Form, f: Form, j: nat, b: Byte)
    requires j < |from| && (IsNameByte(from[j]) || from[j] == DOT)
    requires b == Spell(from, f)[j] && (IsNameByte(b) || b == Separator(form))
    ensures b == Spell(from, form)[j]
  {
  }

  lemma OneRule(r: Relocation)
    ensures New([r]) == [RuleOf(r)]
  {
    assert RulesInOrder([r]) == [RuleOf(r)] && [RuleOf(r)][1..] == [];
    assert SortLongestFirst([RuleOf(r)]) == Insert(RuleOf(r), SortLongestFirst([]));
    assert [RuleOf(r)] + [] == [RuleOf(r)];
  }

  lemma OneEntryHitsOnce(r: Relocation, text: Bytes, k: nat, name: Bytes, form: Form, context: Context)
    requires ValidRelocation(r) && IsName(name) && r.from + [DOT] <= name && text == Spell(name, form)
    requires 0 < k < |text|
    ensures !Hit(New([r]), text, k, context)
  {
    hide MatchAt, IsName, ValidRelocation, New, Opens;
    Beginning(r.from, name, form);
    if Hit(New([r]), text, k, context) {
      var n, separator := |r.from|, Separator(form);
      assert context == Constant by { assert IsNameByte(text[k - 1]) || text[k - 1] == separator; }
      NoOpeningPastSeparator(text, k, separator);
      OneEntryMatches(r, text, k, name, form);
      assert k <= n;
      NoSecondPlace(text, k, n, separator, n);
    }
  }

  /** A checked entry on its own: a name in its package is left alone exactly when an exclusion spares it, and
      moves otherwise, in every context and both spellings; nothing else in the name changes. */
  lemma OneEntryMoves(r: Relocation, name: Bytes, form: Form, context: Context)
    requires ValidRelocation(r) && IsName(name) && r.from + [DOT] <= name
    ensures Advances(New([r])) && |r.from| <= |Spell(name, form)|
    ensures Rewritten(New([r]), Spell(name, form), context)
            == if IsSpared(r, name) then Spell(name, form) else Spell(r.to, form) + Spell(name, form)[|r.from|..]
  {
    hide MatchAt, IsName, ValidRelocation, New, IsSpared, CanStart, Advances, RewriteFrom, IsTaken, Spell,
         AllWellFormed;
    var rs, text := [r], Spell(name, form);
    assert AllValid(rs);
    TableIsWellFormed(rs);
    Beginning(r.from, name, form);
    SpelledLength(name, form);
    assert text + [] == text;
    StandsFirst(name, form, []);
    MatchIsDecided(rs, text, 0, name, form);
    TakenSomehow(rs, name, form, IsAlone(text, 0, name));
    FirstMayStart(text, context);
    forall k | 0 < k < |text|
      ensures !Hit(New(rs), text, k, context)
    {
      OneEntryHitsOnce(r, text, k, name, form, context);
    }
    ScanEnds(New(rs), text, context);
    if IsSpared(r, name) {
      CopiesOver(New(rs), text, 0, |text|, context);
      assert text[0..|text|] + [] == text;
    } else {
      var c := |r.from|;
      assert Takes(r, name, form, IsAlone(text, 0, name));
      ScanHit(New(rs), text, Span(0, c, Spell(r.to, form)), context);
      CopiesOver(New(rs), text, c, |text|, context);
      assert text[c..|text|] + [] == text[c..];
    }
  }

  lemma FirstMayStart(text: Bytes, context: Context)
    requires text != []
    ensures CanStart(text, 0, context)
  {
  }

  // ---- exclusions -----------------------------------------------------------------------------------

  /** A name in the class an exclusion names, or in one nested in it, is left alone. */
  lemma ExcludedClassStays(r: Relocation, e: Bytes, nested: Bytes, form: Form, context: Context)
    requires ValidRelocation(r) && e in r.exclude && !EndsInStar(e)
    requires IsName(e) && (forall b <- nested :: IsNameByte(b)) && (nested != [] ==> nested[0] == DOLLAR)
    ensures Advances(New([r])) && Rewritten(New([r]), Spell(e + nested, form), context) == Spell(e + nested, form)
  {
    hide RewriteFrom, New, Advances, Spell;
    var name := e + nested;
    assert r.from + [DOT] <= name by { assert e <= name; }
    assert forall b <- name :: b in e || b in nested;
    if nested != [] {
      assert e + [DOLLAR] <= name;
    } else {
      assert name == e;
    }
    assert Spares(e, name);
    OneEntryMoves(r, name, form, context);
  }

  /** And so is every name below an excluded package. */
  lemma ExcludedPackageStays(r: Relocation, p: Bytes, below: Bytes, form: Form, context: Context)
    requires ValidRelocation(r) && p + [DOT, STAR] in r.exclude
    requires IsName(p) && forall b <- below :: IsNameByte(b) || b == DOT
    ensures Advances(New([r])) &&
            Rewritten(New([r]), Spell(p + [DOT] + below, form), context) == Spell(p + [DOT] + below, form)
  {
    hide RewriteFrom, New, Advances, Spell;
    var e, name := p + [DOT, STAR], p + [DOT] + below;
    assert e[..|e| - 1] == p + [DOT];
    assert p + [DOT] <= name;
    BelowPackage(r.from, p, name);
    assert forall b <- name :: b in p || b == DOT || b in below;
    assert name[0] == p[0];
    assert EndsInStar(e) && Spares(e, name);
    OneEntryMoves(r, name, form, context);
  }

  lemma BelowPackage(from: Bytes, p: Bytes, name: Bytes)
    requires from + [DOT] <= p + [DOT, STAR] && p + [DOT] <= name
    ensures from + [DOT] <= name
  {
    assert (p + [DOT, STAR])[|p| + 1] == STAR && (from + [DOT])[|from|] == DOT == (p + [DOT, STAR])[|from|];
    assert |from| <= |p|;
    assert forall k :: 0 <= k <= |p| ==> (p + [DOT])[k] == (p + [DOT, STAR])[k] == name[k];
    assert forall k :: 0 <= k <= |from| ==> (from + [DOT])[k] == (p + [DOT, STAR])[k];
    assert name[..|from| + 1] == from + [DOT];
  }
}
