/**
 The root rule of ljson_value::parse over whole texts: a written value with
 whitespace around it parses as itself, a value followed by anything other
 than whitespace is RootNotSingular, and a text of whitespace alone is
 ExpectValue.
 */
module Document {
  import opened JsonValue
  import opened Cursor
  import opened Scratch
  import opened Number
  import opened Parser
  import opened Serialize
  import opened RoundTrip

  /** A run of the four whitespace characters, possibly empty. */
  predicate AllWhitespace(w: seq<char>)
  {
    forall k :: 0 <= k < |w| ==> IsWhitespace(w[k])
  }

  /** Whitespace, then the written value, then whitespace: where each part begins and what the cursor sees there. */
  lemma Layout(w1: seq<char>, x: seq<char>, w2: seq<char>, t: seq<char>)
    requires AllWhitespace(w1) && AllWhitespace(w2)
    ensures var s := w1 + x + w2 + t;
      At(s, |w1|, x) &&
      (forall k :: 0 <= k < |w1| ==> IsWhitespace(s[k])) &&
      (forall k :: |w1 + x| <= k < |w1 + x + w2| ==> IsWhitespace(s[k])) &&
      Peek(s, |w1 + x + w2|) == (if |t| == 0 then '\0' else t[0]) &&
      (|w2| > 0 ==> Peek(s, |w1 + x|) == w2[0])
  {
    var s := w1 + x + w2 + t;
    assert s[|w1|..|w1| + |x|] == x;
    forall k | |w1 + x| <= k < |w1 + x + w2|
      ensures IsWhitespace(s[k])
    {
      assert s[k] == w2[k - |w1 + x|];
    }
  }

  /** A readable value, written out and padded with whitespace on both sides, parses as itself and consumes the whole text. */
  lemma ParseWritten(w1: seq<char>, v: Value, w2: seq<char>, tooBig: Overflow)
    requires AllWhitespace(w1) && AllWhitespace(w2) && Readable(v, tooBig)
    ensures Parse(w1 + Write(v) + w2, tooBig) == Parsed(ParseOk, Some(v), Context(|w1 + Write(v) + w2|, [], []))
  {
    var s := w1 + Write(v) + w2;
    hide ParseValue, Write, Readable, SkipWhitespace;
    var p, q := |w1|, |w1 + Write(v)|;
    Layout(w1, Write(v), w2, []);
    assert s + [] == s;
    ValueFirst(s, p, v, tooBig);
    SkipWhitespaceOver(s, 0, p);
    ReadValue(s, Context(p, [], []), v, tooBig);
    SkipWhitespaceOver(s, q, |s|);
  }

  /**
   A readable value followed by whitespace and then a character that is
   neither whitespace nor the end is RootNotSingular; the cursor stops on that
   character. Right after a number the character must not extend it.
   */
  lemma ParseTrailing(w1: seq<char>, v: Value, w2: seq<char>, t: seq<char>, tooBig: Overflow)
    requires AllWhitespace(w1) && AllWhitespace(w2) && Readable(v, tooBig)
    requires |t| > 0 && t[0] != '\0' && !IsWhitespace(t[0]) && (|w2| == 0 && v.Number? ==> EndsNumber(t[0]))
    ensures Parse(w1 + Write(v) + w2 + t, tooBig) ==
      Parsed(RootNotSingular, None, Context(|w1 + Write(v) + w2|, [], []))
  {
    var s := w1 + Write(v) + w2 + t;
    hide ParseValue, Write, Readable, SkipWhitespace;
    var p, q := |w1|, |w1 + Write(v)|;
    Layout(w1, Write(v), w2, t);
    ValueFirst(s, p, v, tooBig);
    SkipWhitespaceOver(s, 0, p);
    ReadValue(s, Context(p, [], []), v, tooBig);
    SkipWhitespaceOver(s, q, |w1 + Write(v) + w2|);
  }

  /** A text of whitespace alone holds no value: ExpectValue, with the cursor at the end. */
  lemma ParseBlank(w: seq<char>, tooBig: Overflow)
    requires AllWhitespace(w)
    ensures Parse(w, tooBig) == Parsed(ExpectValue, None, Context(|w|, [], []))
  {
    SkipWhitespaceOver(w, 0, |w|);
  }
}
