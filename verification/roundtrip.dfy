/**
 The round trip: the parser reads the written form of every readable value
 back as that value, at any position of a larger text, consuming exactly the
 written characters and leaving the scratch stack and the handle buffer as it
 found them.
 */
module RoundTrip {
  import opened JsonValue
  import opened Cursor
  import opened Scratch
  import opened Number
  import opened Strings
  import opened Parser
  import opened Serialize

  /**
   A written value is parsed back as itself, provided that after a number
   the next character ends it (what follows a value in JSON always does).
   */
  lemma {:induction false} ReadValue(s: seq<char>, c: Context, v: Value, tooBig: Overflow)
    requires Readable(v, tooBig) && At(s, c.pos, Write(v))
    requires v.Number? ==> EndsNumber(Peek(s, c.pos + |Write(v)|))
    ensures ParseValue(s, c, tooBig) == Parsed(ParseOk, Some(v), c.(pos := c.pos + |Write(v)|))
    decreases v, 0, 0
  {
    hide ParseValue, ParseArray, ParseObject, ParseString, ParseNumber, ParseLiteral, ParseStringRaw;
    hide WriteBytes, WriteElements, WriteMembers, IsNumber, Converts, EndsNumber, IsBytes;
    match v
    case Null => ReadLiteral(s, c, NullText, NullTag, tooBig);
    case False => ReadLiteral(s, c, FalseText, FalseTag, tooBig);
    case True => ReadLiteral(s, c, TrueText, TrueTag, tooBig);
    case Number(l) => ReadNumber(s, c, l, tooBig); ConvertsHere(s, c.pos, l, tooBig);
    case String(b) => ReadString(s, c, b, tooBig);
    case Array(es) => ReadArray(s, c, es, tooBig);
    case Object(ms) => ReadObject(s, c, ms, tooBig);
  }

  lemma ReadLiteral(s: seq<char>, c: Context, lit: seq<char>, tag: Tag, tooBig: Overflow)
    requires (lit, tag) in {(NullText, NullTag), (FalseText, FalseTag), (TrueText, TrueTag)}
    requires At(s, c.pos, lit)
    ensures ParseValue(s, c, tooBig) == Parsed(ParseOk, CreateByType(tag), c.(pos := c.pos + |lit|))
  {
    AtPeek(s, c.pos, lit);
    assert Peek(s, c.pos) == lit[0];
  }

  /**
   A number lexeme followed by a character that ends it is read as itself,
   unless the conversion of the text from the cursor on overflows.
   */
  lemma ReadNumber(s: seq<char>, c: Context, l: seq<char>, tooBig: Overflow)
    requires IsNumber(l) && At(s, c.pos, l) && EndsNumber(Peek(s, c.pos + |l|))
    ensures ParseValue(s, c, tooBig) ==
      if tooBig(s[c.pos..]) then Parsed(NumberTooBig, None, c)
      else Parsed(ParseOk, Some(Number(l)), c.(pos := c.pos + |l|))
  {
    hide *;
    NumberStart(l);
    AtFirst(s, c.pos, l);
    NumberDispatch(s, c, tooBig);
    ScanLexeme(s, c.pos, l);
    var r := ParseNumber(s, c, tooBig);
    if tooBig(s[c.pos..]) {
      assert r.state == NumberTooBig;
    } else {
      assert r.state == ParseOk && r.ctx.pos == c.pos + |l|;
    }
  }

  /** A value that starts with a minus sign or a digit goes to parse_number. */
  lemma NumberDispatch(s: seq<char>, c: Context, tooBig: Overflow)
    requires c.pos < |s| && (Peek(s, c.pos) == '-' || IsDigit(Peek(s, c.pos)))
    ensures ParseValue(s, c, tooBig) == ParseNumber(s, c, tooBig)
  {
    hide ParseLiteral, ParseString, ParseArray, ParseObject, ParseNumber;
  }

  /** A value that starts with `[` goes to parse_array. */
  lemma ArrayDispatch(s: seq<char>, c: Context, tooBig: Overflow)
    requires c.pos < |s| && Peek(s, c.pos) == '['
    ensures ParseValue(s, c, tooBig) == ParseArray(s, c, tooBig)
  {
    hide ParseLiteral, ParseNumber, ParseString, ParseArray, ParseObject;
  }

  /** A value that starts with `{` goes to parse_object. */
  lemma ObjectDispatch(s: seq<char>, c: Context, tooBig: Overflow)
    requires c.pos < |s| && Peek(s, c.pos) == '{'
    ensures ParseValue(s, c, tooBig) == ParseObject(s, c, tooBig)
  {
    hide ParseLiteral, ParseNumber, ParseString, ParseArray, ParseObject;
  }

  /** The scanner stops right after a lexeme written at `p` when the next character ends a number. */
  lemma ScanLexeme(s: seq<char>, p: nat, l: seq<char>)
    requires IsNumber(l) && At(s, p, l) && EndsNumber(Peek(s, p + |l|))
    ensures ScanNumber(s, p) == Some(p + |l|) && s[p..p + |l|] == l
  {
    ScanNumberComplete(s, p, p + |l|);
  }

  lemma ReadString(s: seq<char>, c: Context, b: seq<char>, tooBig: Overflow)
    requires IsBytes(b) && At(s, c.pos, WriteString(b))
    ensures ParseValue(s, c, tooBig) == Parsed(ParseOk, Some(String(b)), c.(pos := c.pos + |WriteString(b)|))
  {
    ParseWrittenString(s, c, b);
    AtFirst(s, c.pos, WriteString(b));
    assert WriteString(b)[0] == '"';
  }

  /** A written value starts with a character that is neither whitespace nor the end of the text. */
  lemma ValueFirst(s: seq<char>, p: nat, v: Value, tooBig: Overflow)
    requires Readable(v, tooBig) && At(s, p, Write(v))
    ensures p < |s| && Announces(Peek(s, p), v) && !IsWhitespace(Peek(s, p))
  {
    WriteStart(v, tooBig);
    AtFirst(s, p, Write(v));
  }

  /** Nothing is staged yet when a container starts. */
  lemma NoneStaged(buffer: seq<Staged>)
    ensures AllValues(Top(buffer, 0)) && ValuesOf(Top(buffer, 0)) == []
    ensures AllMembers(Top(buffer, 0)) && MembersOf(Top(buffer, 0)) == []
    ensures buffer[..|buffer| - 0] == buffer
  {
  }

  // Arrays

  /** The text of an array: the brackets around the first element and the rest. */
  lemma ArrayText(s: seq<char>, p: nat, es: seq<Value>)
    requires At(s, p, Write(Array(es)))
    ensures p < |s| && Peek(s, p) == '['
    ensures |es| == 0 ==> Peek(s, p + 1) == ']' && |Write(Array(es))| == 2
    ensures |es| > 0 ==>
      At(s, p + 1, Write(es[0])) && At(s, p + 1 + |Write(es[0])|, MoreElements(es, 1) + [']']) &&
      |Write(Array(es))| == 1 + |Write(es[0])| + |MoreElements(es, 1)| + 1
  {
    if |es| == 0 {
      AtInside(s, p, WriteElements(es), '[', [], [], [']']);
      AtFirst(s, p + 1, [']']);
    } else {
      AtInside(s, p, WriteElements(es), '[', Write(es[0]), MoreElements(es, 1), [']']);
    }
  }

  /** The text after element `i - 1`: `]`, or a comma, element `i` and the rest. */
  lemma MoreElementsText(s: seq<char>, p: nat, es: seq<Value>, i: nat)
    requires At(s, p, MoreElements(es, i) + [']'])
    ensures p < |s| && Peek(s, p) == (if i < |es| then ',' else ']') && EndsNumber(Peek(s, p))
    ensures i >= |es| ==> |MoreElements(es, i)| == 0
    ensures i < |es| ==>
      At(s, p + 1, Write(es[i])) && At(s, p + 1 + |Write(es[i])|, MoreElements(es, i + 1) + [']']) &&
      |MoreElements(es, i)| == 1 + |Write(es[i])| + |MoreElements(es, i + 1)|
  {
    if i < |es| {
      AtLead(s, p, MoreElements(es, i), ',', Write(es[i]), MoreElements(es, i + 1), [']']);
    } else {
      AtFirst(s, p, [']']);
    }
  }

  /** parse_array reads `[` and hands the first element to the loop. */
  lemma ArrayOpens(s: seq<char>, c: Context, tooBig: Overflow, v: Value)
    requires c.pos < |s| && Peek(s, c.pos) == '[' && Announces(Peek(s, c.pos + 1), v)
    ensures ParseValue(s, c, tooBig) == ArrayLoop(s, c.(pos := c.pos + 1), 0, tooBig)
  {
    hide ParseValue, ParseLiteral, ParseNumber, ParseString, ParseStringRaw, ArrayLoop, ArrayNext, ObjectLoop, ObjectColon, ObjectValue, ObjectNext, Abandon, SkipWhitespace, ParseArray, ParseObject;
    ArrayDispatch(s, c, tooBig);
    ArrayEnters(s, c, tooBig);
  }

  /** parse_array with an element right after the `[` enters the element loop there. */
  lemma ArrayEnters(s: seq<char>, c: Context, tooBig: Overflow)
    requires c.pos < |s| && Peek(s, c.pos) == '['
    requires Peek(s, c.pos + 1) != ']' && !IsWhitespace(Peek(s, c.pos + 1))
    ensures ParseArray(s, c, tooBig) == ArrayLoop(s, c.(pos := c.pos + 1), 0, tooBig)
  {
    hide ParseValue, ParseLiteral, ParseNumber, ParseString, ParseStringRaw, ArrayLoop, ArrayNext, ObjectLoop, ObjectColon, ObjectValue, ObjectNext, Abandon, SkipWhitespace, ParseObject;
    SkipWhitespaceStays(s, c.pos + 1);
  }

  /** `[]`: parse_array meets the closing bracket at once. */
  lemma ReadEmptyArray(s: seq<char>, c: Context, tooBig: Overflow)
    requires c.pos < |s| && Peek(s, c.pos) == '[' && Peek(s, c.pos + 1) == ']'
    ensures ParseValue(s, c, tooBig) == Parsed(ParseOk, Some(Array([])), c.(pos := c.pos + 2))
  {
    SkipWhitespaceStays(s, c.pos + 1);
  }

  lemma {:induction false} ReadArray(s: seq<char>, c: Context, es: seq<Value>, tooBig: Overflow)
    requires Readable(Array(es), tooBig) && At(s, c.pos, Write(Array(es)))
    ensures ParseValue(s, c, tooBig) == Parsed(ParseOk, Some(Array(es)), c.(pos := c.pos + |Write(Array(es))|))
    decreases es, |es| + 1, 0
  {
    hide *;
    ArrayText(s, c.pos, es);
    if |es| == 0 {
      ReadEmptyArray(s, c, tooBig);
    } else {
      ElementReadable(es, 0, tooBig);
      ValueFirst(s, c.pos + 1, es[0], tooBig);
      ArrayOpens(s, c, tooBig, es[0]);
      NoneStaged(c.buffer);
      ReadElementAt(s, c.(pos := c.pos + 1), 0, es, 0, tooBig, c.pos + 1 + |Write(es[0])|, c.pos + |Write(Array(es))|);
    }
  }

  /** A parsed element is staged and the loop looks for what follows it. */
  lemma ArrayStages(s: seq<char>, c: Context, size: nat, tooBig: Overflow, v: Value, q: nat)
    requires c.pos <= |s| && size <= |c.buffer| && AllValues(Top(c.buffer, size))
    requires ParseValue(s, c, tooBig) == Parsed(ParseOk, Some(v), c.(pos := q))
    ensures AllValues(Top(c.buffer + [StagedValue(v)], size + 1))
    ensures ArrayLoop(s, c, size, tooBig) == ArrayNext(s, c.(pos := q, buffer := c.buffer + [StagedValue(v)]), size + 1, tooBig)
  {
    TopPush(c.buffer, size, StagedValue(v));
    ValuesOfPush(Top(c.buffer, size), v);
  }

  /** Element `i`, written at the cursor and followed by the rest of the array, is read up to `mid`. */
  lemma ReadElementValue(s: seq<char>, c: Context, es: seq<Value>, i: nat, tooBig: Overflow, mid: nat)
    requires i < |es| && Readable(es[i], tooBig)
    requires At(s, c.pos, Write(es[i])) && mid == c.pos + |Write(es[i])| && At(s, mid, MoreElements(es, i + 1) + [']'])
    ensures c.pos <= |s| && ParseValue(s, c, tooBig) == Parsed(ParseOk, Some(es[i]), c.(pos := mid))
    decreases es, |es| - i, 0
  {
    hide *;
    MoreElementsText(s, mid, es, i + 1);
    ReadValue(s, c, es[i], tooBig);
  }

  /** Element `i` of a readable array is readable. */
  lemma ElementReadable(es: seq<Value>, i: nat, tooBig: Overflow)
    requires i < |es| && Readable(Array(es), tooBig)
    ensures Readable(es[i], tooBig)
  {
  }

  /** Staging element `i` after the first `i` extends the staged run to the first `i + 1`. */
  lemma StageElement(buffer: seq<Staged>, size: nat, es: seq<Value>, i: nat)
    requires i < |es| && size <= |buffer| && AllValues(Top(buffer, size)) && ValuesOf(Top(buffer, size)) == es[..i]
    ensures AllValues(Top(buffer + [StagedValue(es[i])], size + 1))
    ensures ValuesOf(Top(buffer + [StagedValue(es[i])], size + 1)) == es[..i + 1]
    ensures (buffer + [StagedValue(es[i])])[..|buffer + [StagedValue(es[i])]| - (size + 1)] == buffer[..|buffer| - size]
  {
    TopPush(buffer, size, StagedValue(es[i]));
    ValuesOfPush(Top(buffer, size), es[i]);
    assert es[..i] + [es[i]] == es[..i + 1];
  }

  /**
   The element loop at element `i`, with the elements before it staged, reads
   the rest of the array and returns all of it. Element `i` ends at `mid`, the
   closing bracket just before `end`.
   */
  lemma {:induction false} ReadElementAt(s: seq<char>, c: Context, size: nat, es: seq<Value>, i: nat, tooBig: Overflow, mid: nat, end: nat)
    requires i < |es| && Readable(Array(es), tooBig)
    requires size <= |c.buffer| && AllValues(Top(c.buffer, size)) && ValuesOf(Top(c.buffer, size)) == es[..i]
    requires At(s, c.pos, Write(es[i])) && mid == c.pos + |Write(es[i])| && At(s, mid, MoreElements(es, i + 1) + [']'])
    requires end == mid + |MoreElements(es, i + 1)| + 1
    ensures ArrayLoop(s, c, size, tooBig) == Parsed(ParseOk, Some(Array(es)), Context(end, c.stack, c.buffer[..|c.buffer| - size]))
    decreases es, |es| - i, 1
  {
    hide *;
    ElementReadable(es, i, tooBig);
    ReadElementValue(s, c, es, i, tooBig, mid);
    ArrayStages(s, c, size, tooBig, es[i], mid);
    StageElement(c.buffer, size, es, i);
    ReadMoreElementsAt(s, c.(pos := mid, buffer := c.buffer + [StagedValue(es[i])]), size + 1, es, i + 1, tooBig, end);
  }

  /** The closing `]` returns the staged elements. */
  lemma CloseElements(s: seq<char>, c: Context, size: nat, tooBig: Overflow)
    requires c.pos < |s| && 0 < size <= |c.buffer| && AllValues(Top(c.buffer, size)) && Peek(s, c.pos) == ']'
    ensures ArrayNext(s, c, size, tooBig) ==
      Parsed(ParseOk, Some(Array(ValuesOf(Top(c.buffer, size)))), Context(c.pos + 1, c.stack, c.buffer[..|c.buffer| - size]))
  {
    hide ArrayLoop, CloseArray, Abandon, SkipWhitespace;
    SkipWhitespaceStays(s, c.pos);
  }

  /** A comma followed by a value start sends the loop round again. */
  lemma ArrayComma(s: seq<char>, c: Context, size: nat, tooBig: Overflow, v: Value)
    requires c.pos < |s| && 0 < size <= |c.buffer| && AllValues(Top(c.buffer, size))
    requires Peek(s, c.pos) == ',' && Announces(Peek(s, c.pos + 1), v)
    ensures ArrayNext(s, c, size, tooBig) == ArrayLoop(s, c.(pos := c.pos + 1), size, tooBig)
  {
    hide ArrayLoop, CloseArray, Abandon, SkipWhitespace, AllValues, Top;
    SkipWhitespaceStays(s, c.pos);
    SkipWhitespaceStays(s, c.pos + 1);
  }

  /** After element `i - 1`: either `]`, or a comma and the elements from `i` on; the array ends at `end`. */
  lemma {:induction false} ReadMoreElementsAt(s: seq<char>, c: Context, size: nat, es: seq<Value>, i: nat, tooBig: Overflow, end: nat)
    requires i <= |es| && Readable(Array(es), tooBig)
    requires 0 < size <= |c.buffer| && AllValues(Top(c.buffer, size)) && ValuesOf(Top(c.buffer, size)) == es[..i]
    requires At(s, c.pos, MoreElements(es, i) + [']']) && end == c.pos + |MoreElements(es, i)| + 1
    ensures ArrayNext(s, c, size, tooBig) == Parsed(ParseOk, Some(Array(es)), Context(end, c.stack, c.buffer[..|c.buffer| - size]))
    decreases es, |es| - i, 2
  {
    hide *;
    MoreElementsText(s, c.pos, es, i);
    if i < |es| {
      ElementReadable(es, i, tooBig);
      ValueFirst(s, c.pos + 1, es[i], tooBig);
      ArrayComma(s, c, size, tooBig, es[i]);
      ReadElementAt(s, c.(pos := c.pos + 1), size, es, i, tooBig, c.pos + 1 + |Write(es[i])|, end);
    } else {
      CloseElements(s, c, size, tooBig);
      assert es[..i] == es;
    }
  }

  // Objects

  /** Member `i` of a readable object has a byte key and a readable value. */
  lemma MemberReadable(ms: seq<Member>, i: nat, tooBig: Overflow)
    requires i < |ms| && Readable(Object(ms), tooBig)
    ensures IsBytes(ms[i].key) && Readable(ms[i].value, tooBig)
  {
  }

  /** The text of an object: the braces around the first member and the rest. */
  lemma ObjectText(s: seq<char>, p: nat, ms: seq<Member>)
    requires At(s, p, Write(Object(ms)))
    ensures p < |s| && Peek(s, p) == '{'
    ensures |ms| == 0 ==> Peek(s, p + 1) == '}' && |Write(Object(ms))| == 2
    ensures |ms| > 0 ==>
      At(s, p + 1, WriteMember(ms[0])) && At(s, p + 1 + |WriteMember(ms[0])|, MoreMembers(ms, 1) + ['}']) &&
      |Write(Object(ms))| == 1 + |WriteMember(ms[0])| + |MoreMembers(ms, 1)| + 1
  {
    hide WriteMember, MoreMembers, WriteElements;
    if |ms| == 0 {
      AtInside(s, p, WriteMembers(ms), '{', [], [], ['}']);
      AtFirst(s, p + 1, ['}']);
    } else {
      AtInside(s, p, WriteMembers(ms), '{', WriteMember(ms[0]), MoreMembers(ms, 1), ['}']);
    }
  }

  /** The text after member `i - 1`: `}`, or a comma, member `i` and the rest. */
  lemma MoreMembersText(s: seq<char>, p: nat, ms: seq<Member>, i: nat)
    requires At(s, p, MoreMembers(ms, i) + ['}'])
    ensures p < |s| && Peek(s, p) == (if i < |ms| then ',' else '}') && EndsNumber(Peek(s, p))
    ensures i >= |ms| ==> |MoreMembers(ms, i)| == 0
    ensures i < |ms| ==>
      At(s, p + 1, WriteMember(ms[i])) && At(s, p + 1 + |WriteMember(ms[i])|, MoreMembers(ms, i + 1) + ['}']) &&
      |MoreMembers(ms, i)| == 1 + |WriteMember(ms[i])| + |MoreMembers(ms, i + 1)|
  {
    hide WriteMember;
    if i < |ms| {
      AtLead(s, p, MoreMembers(ms, i), ',', WriteMember(ms[i]), MoreMembers(ms, i + 1), ['}']);
    } else {
      AtFirst(s, p, ['}']);
    }
  }

  /** The text of a member: the quoted key, a colon right after it, then the value. */
  lemma MemberText(s: seq<char>, p: nat, m: Member)
    requires At(s, p, WriteMember(m))
    ensures At(s, p, WriteString(m.key)) && p < |s| && Peek(s, p) == '"'
    ensures p + |WriteString(m.key)| < |s| && Peek(s, p + |WriteString(m.key)|) == ':'
    ensures At(s, p + |WriteString(m.key)| + 1, Write(m.value))
    ensures |WriteMember(m)| == |WriteString(m.key)| + 1 + |Write(m.value)|
  {
    AtAround(s, p, WriteMember(m), WriteString(m.key), ':', Write(m.value));
    AtFirst(s, p, WriteString(m.key));
  }

  /** parse_object reads `{` and hands the first member to the loop. */
  lemma ObjectOpens(s: seq<char>, c: Context, tooBig: Overflow)
    requires c.pos < |s| && Peek(s, c.pos) == '{' && Peek(s, c.pos + 1) == '"'
    ensures ParseValue(s, c, tooBig) == ObjectLoop(s, c.(pos := c.pos + 1), 0, tooBig)
  {
    hide ParseValue, ParseLiteral, ParseNumber, ParseString, ParseStringRaw, ArrayLoop, ArrayNext, ObjectLoop, ObjectColon, ObjectValue, ObjectNext, Abandon, SkipWhitespace, ParseArray, ParseObject;
    ObjectDispatch(s, c, tooBig);
    ObjectEnters(s, c, tooBig);
  }

  /** parse_object with a key right after the `{` enters the member loop there. */
  lemma ObjectEnters(s: seq<char>, c: Context, tooBig: Overflow)
    requires c.pos < |s| && Peek(s, c.pos) == '{' && Peek(s, c.pos + 1) == '"'
    ensures ParseObject(s, c, tooBig) == ObjectLoop(s, c.(pos := c.pos + 1), 0, tooBig)
  {
    hide ParseValue, ParseLiteral, ParseNumber, ParseString, ParseStringRaw, ArrayLoop, ArrayNext, ObjectLoop, ObjectColon, ObjectValue, ObjectNext, Abandon, SkipWhitespace, ParseArray;
    SkipWhitespaceStays(s, c.pos + 1);
  }

  /** `{}`: parse_object meets the closing brace at once. */
  lemma ReadEmptyObject(s: seq<char>, c: Context, tooBig: Overflow)
    requires c.pos < |s| && Peek(s, c.pos) == '{' && Peek(s, c.pos + 1) == '}'
    ensures ParseValue(s, c, tooBig) == Parsed(ParseOk, Some(Object([])), c.(pos := c.pos + 2))
  {
    SkipWhitespaceStays(s, c.pos + 1);
  }

  lemma {:induction false} ReadObject(s: seq<char>, c: Context, ms: seq<Member>, tooBig: Overflow)
    requires Readable(Object(ms), tooBig) && At(s, c.pos, Write(Object(ms)))
    ensures ParseValue(s, c, tooBig) == Parsed(ParseOk, Some(Object(ms)), c.(pos := c.pos + |Write(Object(ms))|))
    decreases ms, |ms| + 1, 0
  {
    hide *;
    ObjectText(s, c.pos, ms);
    if |ms| == 0 {
      ReadEmptyObject(s, c, tooBig);
    } else {
      MemberText(s, c.pos + 1, ms[0]);
      ObjectOpens(s, c, tooBig);
      NoneStaged(c.buffer);
      ReadMemberAt(s, c.(pos := c.pos + 1), 0, ms, 0, tooBig, c.pos + 1 + |WriteMember(ms[0])|, c.pos + |Write(Object(ms))|);
    }
  }

  /** A key that parses hands the loop over to the colon after it. */
  lemma ObjectKey(s: seq<char>, c: Context, size: nat, tooBig: Overflow, key: seq<char>, q: nat)
    requires c.pos <= |s| && size <= |c.buffer| && AllMembers(Top(c.buffer, size)) && Peek(s, c.pos) == '"'
    requires ParseStringRaw(s, c) == Raw(ParseOk, key, c.(pos := q))
    ensures ObjectLoop(s, c, size, tooBig) == ObjectColon(s, c.(pos := q), key, size, tooBig)
  {
    hide ObjectColon, Abandon, ParseStringRaw;
  }

  /** A written key at the cursor is read, and the loop goes on to the colon after it. */
  lemma ReadKey(s: seq<char>, c: Context, size: nat, tooBig: Overflow, key: seq<char>)
    requires size <= |c.buffer| && AllMembers(Top(c.buffer, size))
    requires IsBytes(key) && At(s, c.pos, WriteString(key))
    ensures ObjectLoop(s, c, size, tooBig) == ObjectColon(s, c.(pos := c.pos + |WriteString(key)|), key, size, tooBig)
  {
    hide ObjectLoop, ObjectColon, ParseStringRaw, WriteBytes;
    AtFirst(s, c.pos, WriteString(key));
    ParseWrittenString(s, c, key);
    ObjectKey(s, c, size, tooBig, key, c.pos + |WriteString(key)|);
  }

  /**
   The member loop at member `i`, with the members before it staged, reads the
   rest of the object and returns all of it. Member `i` ends at `mid`, the
   closing brace just before `end`.
   */
  lemma {:induction false} ReadMemberAt(s: seq<char>, c: Context, size: nat, ms: seq<Member>, i: nat, tooBig: Overflow, mid: nat, end: nat)
    requires i < |ms| && Readable(Object(ms), tooBig)
    requires size <= |c.buffer| && AllMembers(Top(c.buffer, size)) && MembersOf(Top(c.buffer, size)) == ms[..i]
    requires At(s, c.pos, WriteMember(ms[i])) && mid == c.pos + |WriteMember(ms[i])| && At(s, mid, MoreMembers(ms, i + 1) + ['}'])
    requires end == mid + |MoreMembers(ms, i + 1)| + 1
    ensures ObjectLoop(s, c, size, tooBig) == Parsed(ParseOk, Some(Object(ms)), Context(end, c.stack, c.buffer[..|c.buffer| - size]))
    decreases ms, |ms| - i, 3
  {
    hide *;
    MemberText(s, c.pos, ms[i]);
    MemberReadable(ms, i, tooBig);
    ReadKey(s, c, size, tooBig, ms[i].key);
    ReadColonAt(s, c.(pos := c.pos + |WriteString(ms[i].key)|), size, ms, i, tooBig, mid, end);
  }

  /** A colon followed by a value start hands the key over to the value. */
  lemma ObjectColonStep(s: seq<char>, c: Context, key: seq<char>, size: nat, tooBig: Overflow, v: Value)
    requires c.pos < |s| && size <= |c.buffer| && AllMembers(Top(c.buffer, size))
    requires Peek(s, c.pos) == ':' && Announces(Peek(s, c.pos + 1), v)
    ensures ObjectColon(s, c, key, size, tooBig) == ObjectValue(s, c.(pos := c.pos + 1), key, size, tooBig)
  {
    hide ObjectValue, Abandon, SkipWhitespace, AllMembers, Top;
    SkipWhitespaceStays(s, c.pos);
    SkipWhitespaceStays(s, c.pos + 1);
  }

  /** The colon after key `i`, then its value, which ends at `mid`, and the rest of the object. */
  lemma {:induction false} ReadColonAt(s: seq<char>, c: Context, size: nat, ms: seq<Member>, i: nat, tooBig: Overflow, mid: nat, end: nat)
    requires i < |ms| && Readable(Object(ms), tooBig)
    requires size <= |c.buffer| && AllMembers(Top(c.buffer, size)) && MembersOf(Top(c.buffer, size)) == ms[..i]
    requires Peek(s, c.pos) == ':' && At(s, c.pos + 1, Write(ms[i].value))
    requires mid == c.pos + 1 + |Write(ms[i].value)| && At(s, mid, MoreMembers(ms, i + 1) + ['}'])
    requires end == mid + |MoreMembers(ms, i + 1)| + 1
    ensures ObjectColon(s, c, ms[i].key, size, tooBig) ==
      Parsed(ParseOk, Some(Object(ms)), Context(end, c.stack, c.buffer[..|c.buffer| - size]))
    decreases ms, |ms| - i, 2
  {
    hide *;
    MemberReadable(ms, i, tooBig);
    ValueFirst(s, c.pos + 1, ms[i].value, tooBig);
    ObjectColonStep(s, c, ms[i].key, size, tooBig, ms[i].value);
    ReadMemberValueAt(s, c.(pos := c.pos + 1), size, ms, i, tooBig, mid, end);
  }

  /** The value of member `i`, written at the cursor and followed by the rest of the object, is read up to `mid`. */
  lemma ReadMemberValue(s: seq<char>, c: Context, ms: seq<Member>, i: nat, tooBig: Overflow, mid: nat)
    requires i < |ms| && Readable(ms[i].value, tooBig)
    requires At(s, c.pos, Write(ms[i].value)) && mid == c.pos + |Write(ms[i].value)| && At(s, mid, MoreMembers(ms, i + 1) + ['}'])
    ensures c.pos <= |s| && ParseValue(s, c, tooBig) == Parsed(ParseOk, Some(ms[i].value), c.(pos := mid))
    decreases ms, |ms| - i, 0
  {
    hide *;
    MoreMembersText(s, mid, ms, i + 1);
    ReadValue(s, c, ms[i].value, tooBig);
  }

  /** A parsed member value is staged with its key and the loop looks for what follows it. */
  lemma ObjectStages(s: seq<char>, c: Context, size: nat, tooBig: Overflow, key: seq<char>, v: Value, q: nat)
    requires c.pos <= |s| && size <= |c.buffer| && AllMembers(Top(c.buffer, size))
    requires ParseValue(s, c, tooBig) == Parsed(ParseOk, Some(v), c.(pos := q))
    ensures AllMembers(Top(c.buffer + [StagedMember(Member(key, v))], size + 1))
    ensures ObjectValue(s, c, key, size, tooBig) ==
      ObjectNext(s, c.(pos := q, buffer := c.buffer + [StagedMember(Member(key, v))]), size + 1, tooBig)
  {
    TopPush(c.buffer, size, StagedMember(Member(key, v)));
    MembersOfPush(Top(c.buffer, size), Member(key, v));
  }

  /** Staging member `i` after the first `i` extends the staged run to the first `i + 1`. */
  lemma StageMember(buffer: seq<Staged>, size: nat, ms: seq<Member>, i: nat)
    requires i < |ms| && size <= |buffer| && AllMembers(Top(buffer, size)) && MembersOf(Top(buffer, size)) == ms[..i]
    ensures AllMembers(Top(buffer + [StagedMember(ms[i])], size + 1))
    ensures MembersOf(Top(buffer + [StagedMember(ms[i])], size + 1)) == ms[..i + 1]
    ensures (buffer + [StagedMember(ms[i])])[..|buffer + [StagedMember(ms[i])]| - (size + 1)] == buffer[..|buffer| - size]
  {
    TopPush(buffer, size, StagedMember(ms[i]));
    MembersOfPush(Top(buffer, size), ms[i]);
    assert ms[..i] + [ms[i]] == ms[..i + 1];
  }

  /** The value of member `i`, with its key read: the member is staged and the loop goes on. */
  lemma {:induction false} ReadMemberValueAt(s: seq<char>, c: Context, size: nat, ms: seq<Member>, i: nat, tooBig: Overflow, mid: nat, end: nat)
    requires i < |ms| && Readable(Object(ms), tooBig)
    requires size <= |c.buffer| && AllMembers(Top(c.buffer, size)) && MembersOf(Top(c.buffer, size)) == ms[..i]
    requires At(s, c.pos, Write(ms[i].value)) && mid == c.pos + |Write(ms[i].value)| && At(s, mid, MoreMembers(ms, i + 1) + ['}'])
    requires end == mid + |MoreMembers(ms, i + 1)| + 1
    ensures ObjectValue(s, c, ms[i].key, size, tooBig) ==
      Parsed(ParseOk, Some(Object(ms)), Context(end, c.stack, c.buffer[..|c.buffer| - size]))
    decreases ms, |ms| - i, 1
  {
    hide *;
    MemberReadable(ms, i, tooBig);
    ReadMemberValue(s, c, ms, i, tooBig, mid);
    assert Member(ms[i].key, ms[i].value) == ms[i];
    ObjectStages(s, c, size, tooBig, ms[i].key, ms[i].value, mid);
    StageMember(c.buffer, size, ms, i);
    ReadMoreMembersAt(s, c.(pos := mid, buffer := c.buffer + [StagedMember(ms[i])]), size + 1, ms, i + 1, tooBig, end);
  }

  /** The closing `}` returns the staged members. */
  lemma CloseMembers(s: seq<char>, c: Context, size: nat, tooBig: Overflow)
    requires c.pos < |s| && 0 < size <= |c.buffer| && AllMembers(Top(c.buffer, size)) && Peek(s, c.pos) == '}'
    ensures ObjectNext(s, c, size, tooBig) ==
      Parsed(ParseOk, Some(Object(MembersOf(Top(c.buffer, size)))), Context(c.pos + 1, c.stack, c.buffer[..|c.buffer| - size]))
  {
    hide ObjectLoop, CloseObject, Abandon, SkipWhitespace;
    SkipWhitespaceStays(s, c.pos);
  }

  /** A comma followed by a key sends the member loop round again. */
  lemma ObjectComma(s: seq<char>, c: Context, size: nat, tooBig: Overflow)
    requires c.pos < |s| && 0 < size <= |c.buffer| && AllMembers(Top(c.buffer, size))
    requires Peek(s, c.pos) == ',' && Peek(s, c.pos + 1) == '"'
    ensures ObjectNext(s, c, size, tooBig) == ObjectLoop(s, c.(pos := c.pos + 1), size, tooBig)
  {
    hide ObjectLoop, CloseObject, Abandon, SkipWhitespace, AllMembers, Top;
    SkipWhitespaceStays(s, c.pos);
    SkipWhitespaceStays(s, c.pos + 1);
  }

  /** After member `i - 1`: either `}`, or a comma and the members from `i` on; the object ends at `end`. */
  lemma {:induction false} ReadMoreMembersAt(s: seq<char>, c: Context, size: nat, ms: seq<Member>, i: nat, tooBig: Overflow, end: nat)
    requires i <= |ms| && Readable(Object(ms), tooBig)
    requires 0 < size <= |c.buffer| && AllMembers(Top(c.buffer, size)) && MembersOf(Top(c.buffer, size)) == ms[..i]
    requires At(s, c.pos, MoreMembers(ms, i) + ['}']) && end == c.pos + |MoreMembers(ms, i)| + 1
    ensures ObjectNext(s, c, size, tooBig) == Parsed(ParseOk, Some(Object(ms)), Context(end, c.stack, c.buffer[..|c.buffer| - size]))
    decreases ms, |ms| - i, 4
  {
    hide *;
    MoreMembersText(s, c.pos, ms, i);
    if i < |ms| {
      MemberText(s, c.pos + 1, ms[i]);
      ObjectComma(s, c, size, tooBig);
      ReadMemberAt(s, c.(pos := c.pos + 1), size, ms, i, tooBig, c.pos + 1 + |WriteMember(ms[i])|, end);
    } else {
      CloseMembers(s, c, size, tooBig);
      assert ms[..i] == ms;
    }
  }
}
