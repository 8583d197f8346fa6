/** Round trips. */
module JsonLaws {
  // A rendered document parses back to the same value, exactly as deep as the reader descends.

  import opened ByteStrings
  import opened Json
  import opened JsonReader
  import opened JsonReading
  import opened Utf8
  import opened Wrappers

  /** A rendered value parses to itself - key order, duplicate keys and all - when it nests no deeper
      than the reader descends, and is refused for its depth otherwise. */
  lemma RenderedParsesBack(v: Value)
    requires InRange(v)
    ensures Height(v) <= 128 ==> Parse(Render(v)) == Ok(v)
    ensures Height(v) > 128 ==> Parse(Render(v)).Err? && Parse(Render(v)).error.what == TooDeep
  {
    hide Encode, Print, ValueAt, Height, InRange;
    var b := Encode(Render(v));
    EncodeConcat(Print(v, 0), "\n");
    EncodeOne('\n');
    assert b[0..] == b;
    ValueBack(b, 0, v, 0, 0, ['\n' as Byte]);
    if Height(v) <= MAX_DEPTH {
      var end: nat := |b| - 1;
      assert b[end] == '\n' as Byte;
      assert Space(b, end) == Space(b, end + 1) == |b|;
    }
  }
}
