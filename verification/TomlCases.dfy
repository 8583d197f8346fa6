/** Edits that go wrong. */
module TomlCases {
  // A value that is taken out and cannot be put back, and a header that an addition brings to life.

  import opened Wrappers
  import opened Text
  import opened TomlKeys
  import opened TomlLexer
  import opened TomlScan
  import opened TomlEntries
  import opened TomlDoc
  import opened TomlLines
  import opened TomlEdit
  import opened TomlReplace
  import opened TomlEndings
  import opened TomlAdd
  import opened TomlCreate

  // ---- a carriage return in a value ---------------------------------------------------------------

  const HELD: string := "k='\r'"
  const PAIR := Pair(["k"], None, 2, 5)
  const HOLDING: seq<Line> := [Line("[d]", "\n", Header(Some(["d"]), false)), Line(HELD, "\n", Entry(Some(PAIR), false))]

  lemma HeaderDIsRead()
    ensures Classify(CLOSED, "[d]") == (Header(Some(["d"]), false), CLOSED)
  {
    HeaderIsRead("d");
    assert HeaderText("d") == "[d]";
  }

  lemma HeldKey()
    ensures PairHead(HELD, 0) == Some((Path(["k"], None, 1), 2))
  {
    SkipBlanksIs(HELD, 0, 0);
    BareEndIs(HELD, 0, 1);
    assert HELD[0..1] == "k";
    SkipBlanksIs(HELD, 1, 1);
    SkipBlanksIs(HELD, 2, 2);
  }

  lemma HeldValue()
    ensures Scan(CLOSED, HELD, 2) == (CLOSED, 5) && ValueEnd(HELD, 2, 5) == 5
  {
    FindIs(HELD, '\'', 3, 4);
    assert Step(CLOSED, HELD, 2) == (CLOSED, 5);
    assert HELD[..5] == HELD;
    TrimmedLengthIs(HELD, 5);
  }

  lemma HeldIsRead()
    ensures IsEntry(HELD, PAIR)
  {
    hide Scan, PairHead, ValueEnd;
    HeldKey();
    HeldValue();
    IndentIs(HELD, 0);
    EntryIs(HELD, 0, Path(["k"], None, 1), 2, 5, 5);
  }

  lemma HoldingIsRead()
    ensures DocOf("[d]\nk='\r'\n") == Doc(HOLDING, "\n") && StateAfter(CLOSED, HOLDING[..1]) == CLOSED
  {
    hide Classify;
    HeaderDIsRead();
    HeldIsRead();
    var text := "[d]\nk='\r'\n";
    assert HOLDING[1..] == [HOLDING[1]] && HOLDING[1..][1..] == [] && HOLDING[..1] == [HOLDING[0]];
    assert Lexed(CLOSED, HOLDING[1..]);
    assert Unparse(HOLDING[1..]) == "k='\r'\n" by { assert HELD + ("\n" + "") == "k='\r'\n"; }
    assert Unparse(HOLDING) == text by { assert "[d]" + ("\n" + "k='\r'\n") == text; }
    forall i | 0 <= i < |HOLDING|
      ensures ProperLine(HOLDING[i], i == |HOLDING| - 1)
    {
      assert HOLDING[i].text == "[d]" || HOLDING[i].text == HELD;
    }
    ParseUnparse(CLOSED, HOLDING);
  }

  lemma HoldingIsFound()
    ensures ElsewhereFrom(HOLDING, 0, true, "d", "k") == None
    ensures SectionFrom(HOLDING, 0, None, "d") == Ok(Some(0))
    ensures NextHeader(HOLDING, 1) == 2 && EntryFrom(HOLDING, 1, 2, None, "k") == Ok(Some(1))
  {
    assert NextHeader(HOLDING, 0) == 0;
    NextHeaderIs(HOLDING, 1, 2);
    ElsewhereIs(HOLDING, 0, "d", "k");
    SectionIsFound(HOLDING, 0, "d", 0);
    EntryIsFound(HOLDING, 1, 1, 2, "k", 1);
  }

  /** A value that holds a bare carriage return is reported when it is replaced, and refused when it is to be
      written back. */
  lemma CarriageReturnIsNotWrittenBack()
    ensures Upserted("[d]\nk='\r'\n", "d", "k", "1") == Ok(Replaced("[d]\nk=1\n", "'\r'"))
    ensures Upserted("[d]\nk=1\n", "d", "k", "'\r'") == Err(MultiLineValue)
  {
    hide DocOf, Upserted, StateAfter, IsEntry, NextHeader, SectionFrom, ElsewhereFrom, EntryFrom;
    var text := "[d]\nk='\r'\n";
    HoldingIsRead();
    HoldingIsFound();
    HeldIsRead();
    assert ReplacesAt(text, "d", "k", 0, 1, PAIR);
    UpsertOnto(text, "d", "k", "1", 0, 1, PAIR);
    ValueChanged();
    assert HELD[2..5] == "'\r'";
    var value := "'\r'";
    assert value[1] == '\r';
    CarriageReturnRefused("[d]\nk=1\n", "d", "k", value);
  }

  lemma ValueChanged()
    ensures Unparse(WithLine(HOLDING, 1, WithValue(HELD, 2, 5, "1"))) == "[d]\nk=1\n"
  {
    assert HELD[..2] == "k=" && HELD[5..] == [];
    assert WithValue(HELD, 2, 5, "1") == "k=1";
    var now := WithLine(HOLDING, 1, "k=1");
    assert now[1..] == [now[1]] && now[1..][1..] == [];
    assert Unparse(now[1..]) == "k=1\n" by { assert "k=1" + ("\n" + "") == "k=1\n"; }
    assert "[d]" + ("\n" + "k=1\n") == "[d]\nk=1\n";
  }

  // ---- a header brought to life -------------------------------------------------------------------

  const UNENDED: string := "[d]\r"

  /** A bare carriage return at the end of the text makes its last line no header. */
  lemma UnendedIsRead()
    ensures DocOf(UNENDED) == Doc([Line(UNENDED, [], Header(None, false))], "\n")
    ensures StateAfter(CLOSED, DocOf(UNENDED).lines) == CLOSED
  {
    hide Classify;
    HeaderTextEndsThere();
    FindIs(UNENDED, '\n', 0, 4);
    assert UNENDED[..4] == UNENDED && UNENDED[4..4] == [] && UNENDED[4..] == [];
    assert Cut(UNENDED) == (4, 4);
    assert ParseLines(CLOSED, []) == [];
    var line := Line(UNENDED, [], Header(None, false));
    assert ParseLines(CLOSED, UNENDED) == [line] + [];
    assert [line][1..] == [] && EolOf([line]) == EolOf([]);
  }

  lemma HeaderTextEndsThere()
    ensures Classify(CLOSED, UNENDED) == (Header(None, false), CLOSED)
  {
    IndentIs(UNENDED, 0);
    SkipBlanksIs(UNENDED, 1, 1);
    BareEndIs(UNENDED, 1, 2);
    SkipBlanksIs(UNENDED, 2, 2);
    SkipBlanksIs(UNENDED, 3, 3);
    assert UNENDED[0..] == UNENDED;
  }

  lemma {:induction false} RepeatedIsRefused(lines: seq<Line>, from: nat, section: string, i: nat, found: Option<nat>)
    requires from <= i < |lines| && Names(lines[i], section) && found.Some?
    ensures SectionFrom(lines, from, found, section).Err?
    decreases |lines| - from
  {
    if from < i && !Names(lines[from], section) {
      RepeatedIsRefused(lines, from + 1, section, i, found);
    }
  }

  /** Adding to a section the document seems not to have gives its last line the ending that makes it that
      section's header; then there are two, and no edit is possible any more. */
  lemma UnendedHeaderIsRevived()
    ensures Upserted(UNENDED, "d", "k", "1").Ok? && Upserted(UNENDED, "d", "k", "1").value.Added?
    ensures SectionFrom(DocOf(Upserted(UNENDED, "d", "k", "1").value.text).lines, 0, None, "d").Err?
  {
    hide DocOf, Upserted, StateAfter, NewSection, NewLines, HeaderEnded, Scan, Spliced, NewEntry, Placed;
    UnendedIsRead();
    UnendedIsAddedTo();
    OneIsClosed();
    var start, end, above, below, before, pair := CreatedLines(UNENDED, "d", "k", "1");
    var lines := DocOf(UNENDED).lines;
    var now := DocOf(Upserted(UNENDED, "d", "k", "1").value.text).lines;
    var added := NewLines("d", NewEntry("", "k", false, "1"), pair, above, below, "\n");
    NewLinesAre("d", NewEntry("", "k", false, "1"), pair, above, below, "\n");
    UnendedGoesLast();
    CreatedByLine(lines, before, added, end);
    RevivedHeader();
    var h := HeaderAt(1, above);
    NewLine(lines, now, before, added, end, h - 1);
    assert now[0] == before[0];
    assert Names(now[0], "d") && Names(now[h], "d") && !now[0].kind.double;
    RepeatedIsRefused(now, 1, "d", h, Some(0));
  }

  lemma OneIsClosed()
    ensures Scan(CLOSED, "1", 0).0 == CLOSED
  {
  }

  lemma RevivedHeader()
    ensures HeaderEnded(UNENDED, "\n") == Header(Some(["d"]), false)
  {
    hide Classify;
    HeaderDIsRead();
    assert UNENDED[..3] == "[d]";
  }

  lemma UnendedIsAddedTo()
    ensures SectionFrom(DocOf(UNENDED).lines, 0, None, "d") == Ok(None)
    ensures Upserted(UNENDED, "d", "k", "1").Ok? && Upserted(UNENDED, "d", "k", "1").value.Added?
  {
    hide DocOf, Spliced, NewEntry, NewSection;
    UnendedIsRead();
  }

  lemma UnendedGoesLast()
    ensures NewSection(DocOf(UNENDED).lines, "d", NewEntry("", "k", false, "1")).0 == 1
  {
    hide DocOf, NewEntry;
    UnendedIsRead();
  }
}
