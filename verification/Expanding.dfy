/** Placeholders. */
module Expanding {
  // `${name}` expansion of resource text.

  import opened Text
  import opened Wrappers

  datatype Property = Property(name: string, value: string)

  /** Why text does not expand, and on which line. */
  datatype Failure =
    | Unclosed(line: nat)
    | Unknown(line: nat, name: string)

  type Expanded = Result<string, Failure>

  const ESCAPED: string := "\\$"
  const OPENING: string := "${"

  // ---- expansion --------------------------------------------------------------------------------

  predicate At(text: string, i: nat, p: string) {
    i + |p| <= |text| && text[i..i + |p|] == p
  }

  function Lookup(properties: seq<Property>, name: string): Option<string> {
    if properties == [] then None
    else if properties[0].name == name then Some(properties[0].value)
    else Lookup(properties[1..], name)
  }

  function Before(out: string, rest: Expanded): Expanded {
    match rest
    case Ok(more) => Ok(out + more)
    case Err(e) => Err(e)
  }

  /** Where the placeholder opened just before `i` closes, when that is on its line. */
  function Closing(text: string, i: nat): (end: Option<nat>)
    requires i <= |text|
    ensures end.Some? ==> i <= end.value < |text|
  {
    var end := Find(text, '}', i);
    if end < |text| && '\n' !in text[i..end] then Some(end) else None
  }

  /** The expansion of the text from `i`, which is on line `line`. */
  function ExpandFrom(properties: seq<Property>, text: string, i: nat, line: nat): Expanded
    requires i <= |text|
    decreases |text| - i
  {
    if i == |text| then Ok([])
    else if text[i] == '\n' then Before("\n", ExpandFrom(properties, text, i + 1, line + 1))
    else if At(text, i, ESCAPED) then Before("$", ExpandFrom(properties, text, i + 2, line))
    else if At(text, i, OPENING) then
      match Closing(text, i + 2)
      case None => Err(Unclosed(line))
      case Some(end) =>
        var name := Trim(text[i + 2..end]);
        match Lookup(properties, name)
        case None => Err(Unknown(line, name))
        case Some(value) => Before(value, ExpandFrom(properties, text, end + 1, line))
    else Before([text[i]], ExpandFrom(properties, text, i + 1, line))
  }

  function Expansion(properties: seq<Property>, text: string): Expanded {
    ExpandFrom(properties, text, 0, 1)
  }

  // ---- expansion as it runs: from one special character to the next ------------------------------

  predicate IsSpecial(c: char) {
    c == '\\' || c == '$' || c == '\n'
  }

  function FindSpecial(text: string, i: nat): (j: nat)
    requires i <= |text|
    ensures i <= j <= |text|
    ensures forall k :: i <= k < j ==> !IsSpecial(text[k])
    ensures j < |text| ==> IsSpecial(text[j])
    decreases |text| - i
  {
    if i < |text| && !IsSpecial(text[i]) then FindSpecial(text, i + 1) else i
  }

  lemma NothingBefore(rest: Expanded)
    ensures Before([], rest) == rest
  {
    match rest
    case Ok(more) => assert [] + more == more;
    case Err(_) =>
  }

  lemma BothBefore(a: string, b: string, rest: Expanded)
    ensures Before(a, Before(b, rest)) == Before(a + b, rest)
  {
    match rest
    case Ok(more) => assert a + (b + more) == (a + b) + more;
    case Err(_) =>
  }

  lemma NothingOpens(text: string, i: nat)
    requires i < |text| && !IsSpecial(text[i])
    ensures !At(text, i, ESCAPED) && !At(text, i, OPENING)
  {
    assert i + 2 <= |text| ==> text[i..i + 2][0] == text[i];
  }

  lemma PlainStep(properties: seq<Property>, text: string, i: nat, line: nat)
    requires i < |text| && !IsSpecial(text[i])
    ensures ExpandFrom(properties, text, i, line) == Before([text[i]], ExpandFrom(properties, text, i + 1, line))
  {
    hide Closing, Lookup;
    NothingOpens(text, i);
  }

  lemma {:induction false} PlainRun(properties: seq<Property>, text: string, i: nat, j: nat, line: nat)
    requires i <= j <= |text| && forall k :: i <= k < j ==> !IsSpecial(text[k])
    ensures ExpandFrom(properties, text, i, line) == Before(text[i..j], ExpandFrom(properties, text, j, line))
    decreases j - i
  {
    hide ExpandFrom, IsSpecial;
    if i == j {
      NothingBefore(ExpandFrom(properties, text, j, line));
    } else {
      PlainStep(properties, text, i, line);
      PlainRun(properties, text, i + 1, j, line);
      BothBefore([text[i]], text[i + 1..j], ExpandFrom(properties, text, j, line));
      assert [text[i]] + text[i + 1..j] == text[i..j];
    }
  }

  lemma Finished(properties: seq<Property>, text: string, rest: nat, line: nat, out: string)
    requires rest <= |text|
    ensures Before(out, Before(text[rest..|text|], ExpandFrom(properties, text, |text|, line))) == Ok(out + text[rest..])
  {
    assert text[rest..|text|] + [] == text[rest..];
  }

  method FindProperty(properties: seq<Property>, name: string) returns (value: Option<string>)
    ensures value == Lookup(properties, name)
  {
    for k := 0 to |properties|
      invariant Lookup(properties[k..], name) == Lookup(properties, name)
    {
      assert properties[k..][0] == properties[k] && properties[k..][1..] == properties[k + 1..];
      if properties[k].name == name {
        return Some(properties[k].value);
      }
    }
    return None;
  }

  /** What one piece comes to, where the text after it starts and on which line. */
  datatype Step = Step(piece: string, next: nat, line: nat)

  function StepAt(properties: seq<Property>, text: string, i: nat, line: nat): (r: Result<Step, Failure>)
    requires i < |text|
    ensures r.Ok? ==> i < r.value.next <= |text|
  {
    if text[i] == '\n' then Ok(Step("\n", i + 1, line + 1))
    else if At(text, i, ESCAPED) then Ok(Step("$", i + 2, line))
    else if At(text, i, OPENING) then
      match Closing(text, i + 2)
      case None => Err(Unclosed(line))
      case Some(end) =>
        var name := Trim(text[i + 2..end]);
        match Lookup(properties, name)
        case None => Err(Unknown(line, name))
        case Some(value) => Ok(Step(value, end + 1, line))
    else Ok(Step([text[i]], i + 1, line))
  }

  lemma Stepped(properties: seq<Property>, text: string, i: nat, line: nat)
    requires i < |text|
    ensures ExpandFrom(properties, text, i, line)
            == match StepAt(properties, text, i, line) {
                 case Err(e) => Err(e)
                 case Ok(step) => Before(step.piece, ExpandFrom(properties, text, step.next, step.line))
               }
  {
    hide Closing, Lookup, Trim, At, Before;
  }

  method Expand(properties: seq<Property>, text: string) returns (r: Expanded)
    ensures r == Expansion(properties, text)
  {
    hide Lookup, FindSpecial, Closing, Trim, ExpandFrom;
    var out: string := [];
    var line: nat := 1;
    var rest: nat := 0;
    NothingBefore(ExpandFrom(properties, text, 0, 1));
    var i: nat := FindSpecial(text, rest);
    while i < |text|
      invariant rest <= i <= |text| && i == FindSpecial(text, rest)
      invariant Expansion(properties, text) == Before(out, ExpandFrom(properties, text, rest, line))
      decreases |text| - rest
    {
      PlainRun(properties, text, rest, i, line);
      BothBefore(out, text[rest..i], ExpandFrom(properties, text, i, line));
      out := out + text[rest..i];
      Stepped(properties, text, i, line);
      ghost var step := StepAt(properties, text, i, line);
      var piece: string;
      if text[i] == '\n' {
        line := line + 1;
        piece := "\n";
        rest := i + 1;
      } else if At(text, i, ESCAPED) {
        piece := "$";
        rest := i + 2;
      } else if At(text, i, OPENING) {
        var end := Closing(text, i + 2);
        if end.None? {
          return Err(Unclosed(line));
        }
        var name := Trim(text[i + 2..end.value]);
        var value := FindProperty(properties, name);
        if value.None? {
          return Err(Unknown(line, name));
        }
        piece := value.value;
        rest := end.value + 1;
      } else {
        piece := [text[i]];
        rest := i + 1;
      }
      assert step == Ok(Step(piece, rest, line));
      BothBefore(out, piece, ExpandFrom(properties, text, rest, line));
      out := out + piece;
      i := FindSpecial(text, rest);
    }
    PlainRun(properties, text, rest, |text|, line);
    Finished(properties, text, rest, line, out);
    return Ok(out + text[rest..]);
  }
}
