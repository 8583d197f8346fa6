/** Relocated names are text. */
module EntryText {
  // A name that is UTF-8 is UTF-8 after rewriting, whatever characters it holds: packages are ASCII, so a
  // match begins and ends between characters.

  import opened ByteStrings
  import opened Wrappers
  import opened Relocation
  import opened Rewriting
  import opened SignatureNames
  import opened EntryNames
  import opened Utf8

  predicate IsAscii(b: Bytes) {
    forall k :: 0 <= k < |b| ==> b[k] < 0x80
  }

  function Chars(b: Bytes): (s: string)
    requires IsAscii(b)
    ensures |s| == |b| && forall k :: 0 <= k < |b| ==> s[k] == b[k] as char
  {
    seq(|b|, k requires 0 <= k < |b| => b[k] as char)
  }

  lemma {:induction false} CharsEncoded(b: Bytes)
    requires IsAscii(b)
    ensures Encode(Chars(b)) == b
  {
    if b != [] {
      CharsEncoded(b[1..]);
      assert Chars(b)[1..] == Chars(b[1..]);
      assert EncodeChar(Chars(b)[0]) == [b[0]];
      assert b == [b[0]] + b[1..];
    }
  }

  /** Where encoded text begins with ASCII bytes, what follows them is encoded text too. */
  lemma {:induction false} AsciiPrefix(rest: string, n: nat)
    requires n <= |Encode(rest)| && IsAscii(Encode(rest)[..n])
    ensures n <= |rest| && Encode(rest)[n..] == Encode(rest[n..])
    decreases n
  {
    hide EncodeChar;
    var bytes := Encode(rest);
    if n == 0 {
      assert rest[0..] == rest && bytes[0..] == bytes;
    } else {
      assert bytes[..n][0] == bytes[0];
      AsciiFirst(rest);
      var more := Encode(rest[1..]);
      AsciiNext(bytes, more, n);
      AsciiPrefix(rest[1..], n - 1);
      assert rest[1..][n - 1..] == rest[n..];
      assert bytes[n..] == more[n - 1..];
    }
  }

  lemma AsciiNext(bytes: Bytes, more: Bytes, n: nat)
    requires 0 < n <= |bytes| && IsAscii(bytes[..n]) && bytes == [bytes[0]] + more
    ensures n - 1 <= |more| && IsAscii(more[..n - 1])
  {
    forall k | 0 <= k < n - 1
      ensures more[k] < 0x80
    {
      assert bytes[..n][k + 1] == bytes[k + 1] == more[k];
    }
  }

  lemma AsciiFirst(rest: string)
    requires Encode(rest) != [] && Encode(rest)[0] < 0x80
    ensures rest != [] && Encode(rest) == [Encode(rest)[0]] + Encode(rest[1..])
  {
    var e := EncodeChar(rest[0]);
    assert Encode(rest)[0] == e[0] && e[0] in e;
  }

  /** A match spans ASCII bytes, at least one, and is replaced by ASCII bytes. */
  lemma {:induction false} MatchIsAscii(rules: seq<Rule>, text: Bytes, i: nat)
    requires AllWellFormed(rules) && i <= |text| && MatchAt(rules, text, i) != None
    ensures var m := MatchAt(rules, text, i).value;
            && 0 < m.consumed && i + m.consumed <= |text|
            && IsAscii(text[i..i + m.consumed]) && IsAscii(m.replacement)
  {
    hide WellFormed, NameAt, IsAscii;
    var r := rules[0];
    assert WellFormed(r);
    NamesAreAscii(r, Slashed);
    NamesAreAscii(r, Dotted);
    if !AppliesSomehow(r, text, i) {
      MatchIsAscii(rules[1..], text, i);
    }
  }

  lemma NamesAreAscii(r: Rule, form: Form)
    requires WellFormed(r)
    ensures IsAscii(r.From(form)) && IsAscii(r.To(form)) && r.From(form) != []
  {
    assert forall k :: 0 <= k < |r.dottedFrom| ==> r.dottedFrom[k] in r.dottedFrom;
    assert forall k :: 0 <= k < |r.dottedTo| ==> r.dottedTo[k] in r.dottedTo;
  }

  /** So there is none inside a character. */
  lemma NoMatchInCharacter(rules: seq<Rule>, text: Bytes, k: nat)
    requires AllWellFormed(rules) && k < |text| && text[k] >= 0x80
    ensures MatchAt(rules, text, k) == None
  {
    hide MatchAt, AllWellFormed;
    if MatchAt(rules, text, k) != None {
      MatchIsAscii(rules, text, k);
      var c := MatchAt(rules, text, k).value.consumed;
      AsciiStart(text, k, c);
    }
  }

  lemma AsciiStart(text: Bytes, k: nat, c: nat)
    requires 0 < c && k + c <= |text| && IsAscii(text[k..k + c])
    ensures text[k] < 0x80
  {
    assert text[k..k + c][0] == text[k];
  }

  lemma {:induction false} ScanKeepsText(rules: seq<Rule>, text: Bytes, i: nat, rest: string, context: Context) returns (s: string)
    requires AllWellFormed(rules) && Advances(rules) && i <= |text| && text[i..] == Encode(rest)
    ensures RewriteFrom(rules, text, i, context) == Encode(s)
    decreases |rest|
  {
    hide MatchAt, CanStart, AllWellFormed, Advances, EncodeChar, IsAscii, Encode, RewriteFrom, Chars;
    EncodedLength(rest);
    if rest == [] {
      assert |text[i..]| == 0;
      ScanEnds(rules, text, context);
      s := [];
    } else if i < |text| && Hit(rules, text, i, context) {
      var m := MatchAt(rules, text, i).value;
      MatchIsAscii(rules, text, i);
      MatchStands(text, i, rest, m.consumed);
      var after := ScanKeepsText(rules, text, i + m.consumed, rest[m.consumed..], context);
      s := Chars(m.replacement) + after;
      ScanHit(rules, text, Span(i, m.consumed, m.replacement), context);
      CharsEncoded(m.replacement);
      EncodeConcat(Chars(m.replacement), after);
    } else {
      var e := EncodeChar(rest[0]);
      var next := i + |e|;
      CharacterStands(text, i, rest);
      CharacterCopied(rules, text, i, rest[0], context);
      var after := ScanKeepsText(rules, text, next, rest[1..], context);
      s := [rest[0]] + after;
      EncodeOne(rest[0]);
      EncodeConcat([rest[0]], after);
    }
  }

  lemma EncodedLength(rest: string)
    ensures Encode(rest) == [] <==> rest == []
  {
    if rest != [] {
      assert |Encode(rest)| == |EncodeChar(rest[0])| + |Encode(rest[1..])|;
    }
  }

  lemma MatchStands(text: Bytes, i: nat, rest: string, n: nat)
    requires 0 < n && i + n <= |text| && text[i..] == Encode(rest) && IsAscii(text[i..i + n])
    ensures n <= |rest| && text[i + n..] == Encode(rest[n..])
  {
    hide Encode, IsAscii;
    assert text[i..][..n] == text[i..i + n];
    AsciiPrefix(rest, n);
    assert text[i + n..] == text[i..][n..];
  }

  lemma CharacterStands(text: Bytes, i: nat, rest: string)
    requires rest != [] && i <= |text| && text[i..] == Encode(rest)
    ensures var e := EncodeChar(rest[0]);
            i + |e| <= |text| && text[i..i + |e|] == e && text[i + |e|..] == Encode(rest[1..])
  {
    hide EncodeChar;
    TakeBytes(text, i, EncodeChar(rest[0]), Encode(rest[1..]));
  }

  lemma CharacterCopied(rules: seq<Rule>, text: Bytes, i: nat, c: char, context: Context)
    requires AllWellFormed(rules) && Advances(rules) && OccursAt(text, i, EncodeChar(c))
    requires i < |text| && !Hit(rules, text, i, context)
    ensures var next := i + |EncodeChar(c)|;
            RewriteFrom(rules, text, i, context) == EncodeChar(c) + RewriteFrom(rules, text, next, context)
  {
    hide MatchAt, CanStart, AllWellFormed, RewriteFrom;
    var e := EncodeChar(c);
    OccursElements(text, i, e);
    forall k | i <= k < i + |e|
      ensures !Hit(rules, text, k, context)
    {
      if k > i {
        assert text[i + (k - i)] == e[k - i] && e[k - i] in e;
        NoMatchInCharacter(rules, text, k);
      }
    }
    CopiesOver(rules, text, i, i + |e|, context);
  }

  /** Rewriting turns text into text, in every context. */
  lemma RewrittenIsText(rules: seq<Rule>, name: string, context: Context)
    requires AllWellFormed(rules)
    ensures Advances(rules)
    ensures exists s :: Rewritten(rules, Encode(name), context) == Encode(s)
  {
    WellFormedAdvances(rules);
    assert Encode(name)[0..] == Encode(name);
    var s := ScanKeepsText(rules, Encode(name), 0, name, context);
  }
}
