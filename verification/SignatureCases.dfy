/** Signatures that come out wrong. */
module SignatureCases {
  // Checked relocations, and descriptors whose rewriting does not relocate exactly their class names.

  import opened ByteStrings
  import opened Wrappers
  import opened Relocation
  import opened Rewriting
  import opened Signatures
  import opened SignatureNames
  import opened SignatureScan

  const a: Byte := 'a' as Byte
  const b: Byte := 'b' as Byte
  const C: Byte := 'C' as Byte
  const I: Byte := 'I' as Byte
  const L: Byte := 'L' as Byte
  const x: Byte := 'x' as Byte
  const y: Byte := 'y' as Byte

  lemma CheckedRule(r: Relocation)
    requires ValidRelocation(r)
    ensures AllWellFormed([RuleOf(r)]) && Advances([RuleOf(r)])
  {
    ValidIsWellFormed(r);
    WellFormedAdvances([RuleOf(r)]);
  }

  // ---- the package `I` ----------------------------------------------------------------------------

  /** A package named like a primitive rewrites that primitive's descriptor. */
  lemma PrimitivePackageRewritesDescriptor()
    ensures var r := Relocation([I], [x], []);
            && ValidRelocation(r) && Advances([RuleOf(r)])
            && Rewritten([RuleOf(r)], Print(OfField(Base(I))), Constant) == [x]
            && Print(MoveSignature([RuleOf(r)], OfField(Base(I)))) == [I]
  {
    var r := Relocation([I], [x], []);
    var rule := RuleOf(r);
    assert ValidNameByteAt(r.from, 0) && ValidNameByteAt(r.to, 0);
    CheckedRule(r);
    assert Print(OfField(Base(I))) == [I];
    assert [I][0..1] == [I];
    assert Applies(rule, Dotted, [I], 0) && !Applies(rule, Slashed, [I], 0);
    assert Hit([rule], [I], 0, Constant);
    assert RewriteFrom([rule], [I], 1, Constant) == [];
    assert [x] + [] == [x];
  }

  // ---- the package `La.b` -------------------------------------------------------------------------

  const L_PACKAGE := Relocation([L, a, DOT, b], [x, DOT, y], [])
  const OUTSIDE := OfField(ClassType([a, SLASH, b, SLASH, C], [], []))

  /** A package whose name begins with `L` rewrites descriptors of classes outside it: `La/b/C;`. */
  lemma PackageNamedLikeATypeRewritesDescriptor()
    ensures ValidRelocation(L_PACKAGE) && OkSignature(OUTSIDE)
    ensures Print(OUTSIDE) == [L, a, SLASH, b, SLASH, C, SEMI]
    ensures MoveSignature([RuleOf(L_PACKAGE)], OUTSIDE) == OUTSIDE
    ensures Advances([RuleOf(L_PACKAGE)]) && Rewritten([RuleOf(L_PACKAGE)], Print(OUTSIDE), Constant) != Print(OUTSIDE)
  {
    hide MatchAt, RewriteFrom, WellFormed, MoveName, ReadsAsDotted;
    LPackageIsChecked();
    CheckedRule(L_PACKAGE);
    LPackageMoves();
    OutsideIsPrinted();
    MovedFields([RuleOf(L_PACKAGE)], OUTSIDE.t);
    hide Spelling;
    RewriteRelocatesSignature([RuleOf(L_PACKAGE)], OUTSIDE);
  }

  lemma LPackageIsChecked()
    ensures ValidRelocation(L_PACKAGE)
  {
  }

  lemma OutsideIsPrinted()
    ensures OkSignature(OUTSIDE) && Print(OUTSIDE) == [L, a, SLASH, b, SLASH, C, SEMI]
  {
    assert InnersThen([], [SEMI]) == [SEMI] && [SEMI] + [] == [SEMI];
    ClassPrinted(OUTSIDE.t, []);
  }

  /** The class stays, and its name with the `L` in front does not. */
  lemma LPackageMoves()
    ensures var rules := [RuleOf(L_PACKAGE)];
            && MoveName(rules, OUTSIDE.t.name) == OUTSIDE.t.name
            && MoveName(rules, [L] + OUTSIDE.t.name) == [x, SLASH, y, SLASH, C]
  {
    var rule := RuleOf(L_PACKAGE);
    var name, whole := OUTSIDE.t.name, [L] + OUTSIDE.t.name;
    assert rule.slashedFrom == [L, a, SLASH, b] && rule.slashedTo == [x, SLASH, y];
    assert (rule.slashedFrom + [SLASH])[0] == L;
    assert !Covers(rule, name);
    assert rule.slashedFrom + [SLASH] == whole[..5];
    assert whole[4..] == [SLASH, C];
  }

  // ---- a member of a class in the unnamed package -------------------------------------------------

  const A_B := Relocation([a, DOT, b], [x, DOT, y], [])
  const MEMBER := OfField(ClassType([a], [], [Inner([b], []), Inner([C], [])]))

  /** `La.b.C;` names a member of the class `a`, which does not move, and is taken for a class of `a.b`. */
  lemma MemberOfUnnamedPackageIsMisread()
    ensures ValidRelocation(A_B) && OkSignature(MEMBER) && Print(MEMBER) == [L, a, DOT, b, DOT, C, SEMI]
    ensures MoveSignature([RuleOf(A_B)], MEMBER) == MEMBER && !StartMisplaced([RuleOf(A_B)], MEMBER)
    ensures Advances([RuleOf(A_B)]) && Rewritten([RuleOf(A_B)], Print(MEMBER), Constant) != Print(MEMBER)
  {
    hide MatchAt, RewriteFrom, WellFormed;
    AbIsChecked();
    CheckedRule(A_B);
    MemberIsPrinted();
    MemberReadsAsDotted();
    MemberStays();
    hide ReadsAsDotted, Spelling, DottedMembers, OkSignature, AllWellFormed;
    NoMatchAtStart([RuleOf(A_B)], MEMBER);
    UnmatchedIsNotMisplaced([RuleOf(A_B)], MEMBER);
    RewriteRelocatesSignature([RuleOf(A_B)], MEMBER);
  }

  lemma AbIsChecked()
    ensures ValidRelocation(A_B)
  {
  }

  /** One more member without arguments. */
  lemma PlainMember(id: Byte, more: seq<Inner>, rest: Bytes)
    ensures var inner := [Inner([id], [])] + more;
            && DottedMembers(inner) == [DOT, id] + DottedMembers(more)
            && InnersThen(inner, rest) == [DOT, id] + InnersThen(more, rest)
  {
    hide IsInternalName;
    var inner := [Inner([id], [])] + more;
    assert inner[0] == Inner([id], []) && inner[1..] == more;
    NoBrackets(InnersThen(more, rest));
    assert [DOT] + ([id] + InnersThen(more, rest)) == [DOT, id] + InnersThen(more, rest);
    assert [DOT] + ([id] + DottedMembers(more)) == [DOT, id] + DottedMembers(more);
  }

  lemma MembersArePrinted()
    ensures DottedMembers(MEMBER.t.inner) == [DOT, b, DOT, C]
    ensures InnersThen(MEMBER.t.inner, [SEMI] + []) == [DOT, b, DOT, C, SEMI]
  {
    hide InnersThen, DottedMembers;
    var last := [Inner([C], [])];
    assert MEMBER.t.inner == [Inner([b], [])] + last && last == last + [];
    assert [SEMI] + [] == [SEMI];
    PlainMember(b, last, [SEMI]);
    PlainMember(C, [], [SEMI]);
    NoMembers([SEMI]);
  }

  lemma NoMembers(rest: Bytes)
    ensures DottedMembers([]) == [] && InnersThen([], rest) == rest
  {
  }

  lemma MemberIsPrinted()
    ensures OkSignature(MEMBER) && Print(MEMBER) == [L, a, DOT, b, DOT, C, SEMI]
    ensures Spelling(MEMBER.t) == [a, DOT, b, DOT, C]
  {
    MembersAreOk();
    MembersArePrinted();
    hide InnersThen, DottedMembers, OkInner;
    NoBrackets(InnersThen(MEMBER.t.inner, [SEMI] + []));
    ClassPrinted(MEMBER.t, []);
    assert [L] + ([a] + [DOT, b, DOT, C, SEMI]) == [L, a, DOT, b, DOT, C, SEMI];
  }

  lemma MembersAreOk()
    ensures forall n <- MEMBER.t.inner :: OkInner(n)
  {
  }

  lemma MemberReadsAsDotted()
    ensures ReadsAsDotted([RuleOf(A_B)], [a, DOT, b, DOT, C])
  {
    var rule := RuleOf(A_B);
    var sp := [a, DOT, b, DOT, C];
    assert rule.dottedFrom + [DOT] == sp[..4];
    assert rule in [rule] && !rule.Excludes(sp);
  }

  lemma MemberStays()
    ensures MoveSignature([RuleOf(A_B)], MEMBER) == MEMBER
  {
    var rules, inner := [RuleOf(A_B)], MEMBER.t.inner;
    assert |rules[0].slashedFrom + [SLASH]| > |MEMBER.t.name|;
    assert inner[1..] == [inner[1]] && inner[1..][1..] == [];
    assert MoveInners(rules, [inner[1]]) == [inner[1]];
    assert MoveInners(rules, inner) == inner;
    MovedFields(rules, MEMBER.t);
  }
}
