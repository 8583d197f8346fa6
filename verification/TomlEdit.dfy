/** The two edits. */
module TomlEdit {
  // Insert or replace one entry; remove one entry.

  import opened Wrappers
  import opened Text
  import opened TomlKeys
  import opened TomlLexer
  import opened TomlEntries
  import opened TomlDoc

  datatype Edited = Added(text: string) | Replaced(text: string, previous: string)

  // ---- what the edits compute -------------------------------------------------------------------

  function PlainHeaderFrom(lines: seq<Line>, i: nat, section: string): (n: nat)
    requires i <= |lines|
    ensures i <= n <= |lines|
    decreases |lines| - i
  {
    if i < |lines| && !(Names(lines[i], section) && !lines[i].kind.double) then PlainHeaderFrom(lines, i + 1, section)
    else i
  }

  function BlankTailStart(lines: seq<Line>): nat {
    BlankRunStart(lines, 0, |lines|)
  }

  /** What is inserted, and where, for a section the document does not have: next to the other
      dependency table when there is one, at the end otherwise. */
  function NewSection(lines: seq<Line>, section: string, entry: string): (r: (nat, nat, seq<string>))
    ensures r.0 <= r.1 <= |lines|
  {
    var header := "[" + section + "]";
    var other := if section == "dev-dependencies" then "dependencies" else "dev-dependencies";
    var h := PlainHeaderFrom(lines, 0, other);
    if section == "dev-dependencies" && h < |lines| then
      var at := ContentEnd(lines, h, NextHeader(lines, h + 1));
      (at, at, [[], header, entry] + if at < |lines| && !lines[at].kind.Blank? then [[]] else [])
    else if section == "dependencies" && h < |lines| then
      var at := AttachedCommentStart(lines, h);
      (at, at, (if at > 0 && !lines[at - 1].kind.Blank? then [[]] else []) + [header, entry, []])
    else
      var at := BlankTailStart(lines);
      (at, |lines|, (if at > 0 then [[]] else []) + [header, entry])
  }

  function Upserted(text: string, section: string, key: string, value: string): Result<Edited, Refusal> {
    if '\n' in value || '\r' in value then Err(MultiLineValue)
    else
      var doc := DocOf(text);
      var lines := doc.lines;
      var elsewhere := ElsewhereFrom(lines, 0, true, section, key);
      if elsewhere.Some? then Err(elsewhere.value)
      else
        match SectionFrom(lines, 0, None, section)
        case Err(e) => Err(e)
        case Ok(None) =>
          var (start, end, insert) := NewSection(lines, section, NewEntry("", key, false, value));
          Ok(Added(Spliced(doc, start, end, insert)))
        case Ok(Some(h)) =>
          SectionFound(lines, 0, None, section);
          var end := NextHeader(lines, h + 1);
          match EntryFrom(lines, h + 1, end, None, key)
          case Err(e) => Err(e)
          case Ok(Some(k)) =>
            EntryFound(lines, h + 1, end, None, key);
            if lines[k].kind.multiLine then Err(SpansLines)
            else
              var p := lines[k].kind.pair.value;
              EntryRange(text, k);
              Ok(Replaced(Unparse(WithLine(lines, k, WithValue(lines[k].text, p.start, p.end, value))),
                          lines[k].text[p.start..p.end]))
          case Ok(None) =>
            var at := ContentEnd(lines, h, end);
            var entry := NewEntry(LastIndent(lines, h + 1, end), key, AllSingleQuoted(lines, h + 1, end), value);
            Ok(Added(Spliced(doc, at, at, [entry])))
  }

  function ContinuationEnd(lines: seq<Line>, from: nat, end: nat): (n: nat)
    requires from <= end <= |lines|
    ensures from <= n <= end
    decreases end - from
  {
    if from < end && lines[from].kind.Continuation? then ContinuationEnd(lines, from + 1, end) else from
  }

  function Removed(text: string, section: string, key: string): Result<Option<string>, Refusal> {
    var doc := DocOf(text);
    var lines := doc.lines;
    var elsewhere := ElsewhereFrom(lines, 0, true, section, key);
    if elsewhere.Some? then Err(elsewhere.value)
    else
      match SectionFrom(lines, 0, None, section)
      case Err(e) => Err(e)
      case Ok(None) => Ok(None)
      case Ok(Some(h)) =>
        SectionFound(lines, 0, None, section);
        var end := NextHeader(lines, h + 1);
        match EntryFrom(lines, h + 1, end, None, key)
        case Err(e) => Err(e)
        case Ok(None) => Ok(None)
        case Ok(Some(k)) =>
          EntryFound(lines, h + 1, end, None, key);
          Ok(Some(Spliced(doc, k, ContinuationEnd(lines, k + 1, end), [])))
  }

  // ---- a section and an entry, by what they mean ------------------------------------------------

  /** One header names the section, at `h`, and it is plain. */
  ghost predicate SectionIs(lines: seq<Line>, section: string, h: nat) {
    && h < |lines| && Names(lines[h], section) && !lines[h].kind.double
    && forall k :: 0 <= k < |lines| && k != h ==> !Names(lines[k], section)
  }

  lemma {:induction false} SectionFound(lines: seq<Line>, i: nat, found: Option<nat>, section: string)
    requires i <= |lines|
    requires found.Some? ==> found.value < i && Names(lines[found.value], section) && !lines[found.value].kind.double
    requires forall k :: 0 <= k < i && found != Some(k) ==> !Names(lines[k], section)
    ensures match SectionFrom(lines, i, found, section)
            case Ok(Some(h)) => h < |lines| && SectionIs(lines, section, h)
            case Ok(None) => forall k :: 0 <= k < |lines| ==> !Names(lines[k], section)
            case Err(_) => true
    decreases |lines| - i
  {
    if i < |lines| {
      if !Names(lines[i], section) {
        SectionFound(lines, i + 1, found, section);
      } else if !lines[i].kind.double && found.None? {
        SectionFound(lines, i + 1, Some(i), section);
      }
    }
  }

  lemma {:induction false} SectionIsFound(lines: seq<Line>, i: nat, section: string, h: nat)
    requires i <= |lines| && SectionIs(lines, section, h)
    ensures SectionFrom(lines, i, if h < i then Some(h) else None, section) == Ok(Some(h))
    decreases |lines| - i
  {
    if i < |lines| {
      SectionIsFound(lines, i + 1, section, h);
    }
  }

  /** One line in the range declares the key, at `k`, and as a plain key. */
  ghost predicate EntryIsAt(lines: seq<Line>, from: nat, end: nat, key: string, k: nat) {
    && from <= k < end <= |lines| && Declares(lines[k], key) && lines[k].kind.pair.value.path == [key]
    && forall j :: from <= j < end && j != k ==> !Declares(lines[j], key)
  }

  lemma {:induction false} EntryFound(lines: seq<Line>, i: nat, end: nat, found: Option<nat>, key: string)
    requires i <= end <= |lines|
    ensures match EntryFrom(lines, i, end, found, key)
            case Ok(Some(k)) => found == Some(k) || (i <= k < end && EntryIsAt(lines, i, end, key, k))
            case Ok(None) => found.None? && forall j :: i <= j < end ==> !Declares(lines[j], key)
            case Err(_) => true
    ensures found.Some? && EntryFrom(lines, i, end, found, key).Ok? ==>
              EntryFrom(lines, i, end, found, key) == Ok(found) && forall j :: i <= j < end ==> !Declares(lines[j], key)
    decreases end - i
  {
    if i < end {
      if !Declares(lines[i], key) {
        EntryFound(lines, i + 1, end, found, key);
      } else if |lines[i].kind.pair.value.path| == 1 && found.None? {
        EntryFound(lines, i + 1, end, Some(i), key);
      }
    }
  }

  lemma {:induction false} EntryIsFound(lines: seq<Line>, from: nat, i: nat, end: nat, key: string, k: nat)
    requires from <= i <= end && EntryIsAt(lines, from, end, key, k)
    ensures EntryFrom(lines, i, end, if k < i then Some(k) else None, key) == Ok(Some(k))
    decreases end - i
  {
    if i < end {
      EntryIsFound(lines, from, i + 1, end, key, k);
    }
  }

  /** Nothing declares the key elsewhere. */
  ghost predicate OnlyInSection(lines: seq<Line>, section: string, key: string) {
    && (forall k :: 0 <= k < |lines| ==> !IsKeyTable(lines[k], section, key))
    && forall k :: 0 <= k < NextHeader(lines, 0) ==> !Declares(lines[k], section)
  }

  lemma {:induction false} ElsewhereIs(lines: seq<Line>, i: nat, section: string, key: string)
    requires i <= |lines|
    ensures ElsewhereFrom(lines, i, i <= NextHeader(lines, 0), section, key) == None <==>
            && (forall k :: i <= k < |lines| ==> !IsKeyTable(lines[k], section, key))
            && forall k :: i <= k < NextHeader(lines, 0) ==> !Declares(lines[k], section)
    decreases |lines| - i
  {
    if i < |lines| {
      ElsewhereIs(lines, i + 1, section, key);
    }
  }

  /** The range a parsed pair gives its value lies in its line. */
  lemma {:induction false} ParsedRange(st: State, text: string, k: nat)
    requires k < |ParseLines(st, text)|
    ensures var l := ParseLines(st, text)[k];
            l.kind.Entry? && l.kind.pair.Some? ==> l.kind.pair.value.start <= l.kind.pair.value.end <= |l.text|
    decreases |text|
  {
    var (body, end) := Cut(text);
    var (kind, st') := Classify(st, text[..body]);
    if k > 0 {
      ParsedRange(st', text[end..], k - 1);
    }
  }

  lemma EntryRange(text: string, k: nat)
    requires k < |DocOf(text).lines|
    ensures var l := DocOf(text).lines[k];
            l.kind.Entry? && l.kind.pair.Some? ==> l.kind.pair.value.start <= l.kind.pair.value.end <= |l.text|
  {
    ParsedRange(CLOSED, text, k);
  }

  // ---- the edits as they are made ---------------------------------------------------------------

  method FindPlainHeader(lines: seq<Line>, section: string) returns (n: nat)
    ensures n == PlainHeaderFrom(lines, 0, section)
  {
    n := 0;
    while n < |lines| && !(Names(lines[n], section) && !lines[n].kind.double)
      invariant n <= |lines| && PlainHeaderFrom(lines, 0, section) == PlainHeaderFrom(lines, n, section)
    {
      n := n + 1;
    }
  }

  method FindBlankTail(lines: seq<Line>) returns (at: nat)
    ensures at == BlankTailStart(lines)
  {
    at := |lines|;
    while at > 0 && lines[at - 1].kind.Blank?
      invariant at <= |lines| && BlankTailStart(lines) == BlankRunStart(lines, 0, at)
    {
      at := at - 1;
    }
  }

  method CreateSection(doc: Doc, section: string, entry: string) returns (out: string)
    ensures var (start, end, insert) := NewSection(doc.lines, section, entry);
            out == Spliced(doc, start, end, insert)
  {
    hide Spliced, ContentEnd, AttachedCommentStart, BlankTailStart, PlainHeaderFrom, NextHeader;
    var lines := doc.lines;
    var header := "[" + section + "]";
    var start, end: nat, insert: seq<string>;
    var h := |lines|;
    if section == "dev-dependencies" {
      h := FindPlainHeader(lines, "dependencies");
    } else if section == "dependencies" {
      h := FindPlainHeader(lines, "dev-dependencies");
    }
    if section == "dev-dependencies" && h < |lines| {
      start := FindContentEnd(lines, h, NextHeader(lines, h + 1));
      end := start;
      insert := [[], header, entry] + if start < |lines| && !lines[start].kind.Blank? then [[]] else [];
    } else if section == "dependencies" && h < |lines| {
      start := FindAttachedCommentStart(lines, h);
      end := start;
      insert := (if start > 0 && !lines[start - 1].kind.Blank? then [[]] else []) + [header, entry, []];
    } else {
      start := FindBlankTail(lines);
      end := |lines|;
      insert := (if start > 0 then [[]] else []) + [header, entry];
    }
    assert (start, end, insert) == NewSection(lines, section, entry);
    out := Splice(doc, start, end, insert);
  }

  /** The first edit: afterwards the section says `value` for the key, on the line that had it or a new one. */
  method Upsert(text: string, section: string, key: string, value: string) returns (r: Result<Edited, Refusal>)
    ensures r == Upserted(text, section, key, value)
  {
    hide SectionFrom, EntryFrom, ElsewhereFrom, DocOf, Spliced, SectionIs, NewSection, LastIndent, AllSingleQuoted, ContentEnd, NextHeader, RenderKey, Unparse, WithLine;
    if '\n' in value || '\r' in value {
      return Err(MultiLineValue);
    }
    var doc := Parse(text);
    var lines := doc.lines;
    var elsewhere := CheckNotDeclaredElsewhere(lines, section, key);
    if elsewhere.Some? {
      return Err(elsewhere.value);
    }
    var header := FindSection(lines, section);
    if header.Err? {
      return Err(header.error);
    }
    if header.value.None? {
      var name := WriteKey(key, false);
      var created := CreateSection(doc, section, [] + (name + (ASSIGN + value)));
      return Ok(Added(created));
    }
    var h := header.value.value;
    SectionFound(lines, 0, None, section);
    var end := NextHeader(lines, h + 1);
    var found := FindEntry(lines, h + 1, end, key);
    if found.Err? {
      return Err(found.error);
    }
    if found.value.Some? {
      var k := found.value.value;
      EntryFound(lines, h + 1, end, None, key);
      if lines[k].kind.multiLine {
        return Err(SpansLines);
      }
      EntryRange(text, k);
      var p := lines[k].kind.pair.value;
      var line := lines[k].text;
      var edited := ReplaceLine(doc, k, line[..p.start] + (value + line[p.end..]));
      return Ok(Replaced(edited, line[p.start..p.end]));
    }
    var single, indent := EntryStyle(lines, h + 1, end);
    var name := WriteKey(key, single);
    var at := FindContentEnd(lines, h, end);
    var spliced := Splice(doc, at, at, [indent + (name + (ASSIGN + value))]);
    return Ok(Added(spliced));
  }

  /** The second edit: the declaring line is cut out, down to where its value ends. */
  method Remove(text: string, section: string, key: string) returns (r: Result<Option<string>, Refusal>)
    ensures r == Removed(text, section, key)
  {
    hide SectionFrom, EntryFrom, ElsewhereFrom, DocOf, Spliced, SectionIs, EntryIsAt;
    var doc := Parse(text);
    var lines := doc.lines;
    var elsewhere := CheckNotDeclaredElsewhere(lines, section, key);
    if elsewhere.Some? {
      return Err(elsewhere.value);
    }
    var header := FindSection(lines, section);
    if header.Err? {
      return Err(header.error);
    }
    if header.value.None? {
      return Ok(None);
    }
    var h := header.value.value;
    SectionFound(lines, 0, None, section);
    var secEnd := NextHeader(lines, h + 1);
    var found := FindEntry(lines, h + 1, secEnd, key);
    if found.Err? {
      return Err(found.error);
    }
    if found.value.None? {
      return Ok(None);
    }
    var k := found.value.value;
    EntryFound(lines, h + 1, secEnd, None, key);
    var end := k + 1;
    while end < secEnd && lines[end].kind.Continuation?
      invariant k < end <= secEnd && ContinuationEnd(lines, k + 1, secEnd) == ContinuationEnd(lines, end, secEnd)
    {
      end := end + 1;
    }
    var spliced := Splice(doc, k, end, []);
    return Ok(Some(spliced));
  }
}
