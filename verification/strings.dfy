/**
 parse_string_raw: the body of a string between its quotes (section 7 of
 RFC 8259), decoded onto the scratch stack and popped off in one piece at the
 closing quote. Every exit restores the stack to the height it had on entry.
 */
module Strings {
  import opened JsonValue
  import opened Cursor
  import opened Scratch
  import opened Unicode

  /** What parse_string_raw reports: a state, the decoded bytes (none on failure), and the context after. */
  datatype Raw = Raw(state: State, bytes: seq<char>, ctx: Context)

  /** The states a string can end in other than success. */
  predicate IsStringError(e: State)
  {
    e == MissQuotationMark || e == InvalidStringEscape || e == InvalidStringChar ||
    e == InvalidUnicodeHex || e == InvalidUnicodeSurrogate
  }

  /** The characters that may follow a backslash and stand for one byte. */
  predicate IsSimpleEscape(e: char)
  {
    e == '"' || e == '\\' || e == '/' || e == 'b' || e == 'f' || e == 'n' || e == 'r' || e == 't'
  }

  /**
   The byte a simple escape stands for: the quote, the backslash and the slash
   stand for themselves, and the letters for the control bytes backspace (8),
   form feed (12), line feed (10), carriage return (13) and tab (9).
   */
  function Unescape(e: char): (b: char)
    requires IsSimpleEscape(e)
    ensures IsByte(b) && b != '\0'
    ensures (b == e) <==> (e == '"' || e == '\\' || e == '/')
    ensures e == 'b' ==> b as int == 8
    ensures e == 'f' ==> b as int == 12
    ensures e == 'n' ==> b as int == 10
    ensures e == 'r' ==> b as int == 13
    ensures e == 't' ==> b as int == 9
  {
    match e
    case '"' => '"'
    case '\\' => '\\'
    case '/' => '/'
    case 'b' => '\U{8}'
    case 'f' => '\U{C}'
    case 'n' => '\n'
    case 'r' => '\r'
    case 't' => '\t'
  }

  /** The bytes a simple escape stands for. */
  predicate HasShortEscape(b: char)
  {
    b == '"' || b == '\\' || b == '/' || b == '\U{8}' || b == '\U{C}' || b == '\n' || b == '\r' || b == '\t'
  }

  /** The letter of the simple escape that stands for `b`: the writer's side of the escape table. */
  function ShortEscape(b: char): (e: char)
    requires HasShortEscape(b)
    ensures IsSimpleEscape(e) && Unescape(e) == b
  {
    match b
    case '"' => '"'
    case '\\' => '\\'
    case '/' => '/'
    case '\U{8}' => 'b'
    case '\U{C}' => 'f'
    case '\n' => 'n'
    case '\r' => 'r'
    case '\t' => 't'
  }

  /** The escape table is one-to-one: every simple escape is the one written for the byte it stands for. */
  lemma ShortEscapeInverse(e: char)
    requires IsSimpleEscape(e)
    ensures HasShortEscape(Unescape(e)) && ShortEscape(Unescape(e)) == e
  {
  }

  /** STRING_ERROR: the stack goes back to its height on entry and the cursor stays after the opening quote. */
  function StringFail(c: Context, head: nat, e: State): (r: Raw)
    requires head <= |c.stack|
    ensures r.state == e && r.bytes == [] && r.ctx.pos == c.pos && r.ctx.buffer == c.buffer
    ensures r.ctx.stack + c.stack[head..] == c.stack
  {
    Raw(e, [], c.(stack := c.stack[..head]))
  }

  /** The outcome of one escape sequence: the bytes it stands for and the position after it, or an error. */
  datatype Escaped = EscapeOk(bytes: seq<char>, next: nat) | EscapeError(state: State)

  /**
   The `u` case of the escape switch, with `p` on the first hex digit. A high
   surrogate must be followed at once by a backslash, a `u` and a low
   surrogate; the pair is combined before it is encoded. Any other code unit,
   a lone low surrogate included, is encoded as it is.
   */
  function ReadUnicodeEscape(s: seq<char>, p: nat): (r: Escaped)
    ensures r.EscapeOk? ==> p + 4 <= r.next <= |s| && 1 <= |r.bytes| <= 4
    ensures r.EscapeOk? ==> forall k :: 0 <= k < |r.bytes| ==> IsByte(r.bytes[k])
    ensures r.EscapeError? ==> r.state == InvalidUnicodeHex || r.state == InvalidUnicodeSurrogate
  {
    match ParseHex4(s, p)
    case None => EscapeError(InvalidUnicodeHex)
    case Some((u, q)) =>
      HexRunInText(s, p, 4);
      if IsHighSurrogate(u) then
        if Peek(s, q) != '\\' then EscapeError(InvalidUnicodeSurrogate)
        else if Peek(s, q + 1) != 'u' then EscapeError(InvalidUnicodeSurrogate)
        else
          match ParseHex4(s, q + 2)
          case None => EscapeError(InvalidUnicodeHex)
          case Some((u2, q2)) =>
            HexRunInText(s, q + 2, 4);
            if !IsLowSurrogate(u2) then EscapeError(InvalidUnicodeSurrogate)
            else EscapeOk(EncodeUtf8(CombineSurrogates(u, u2)), q2)
      else
        EscapeOk(EncodeUtf8(u), q)
  }

  /** The `u` escape fails with INVALID_UNICODE_HEX unless four hex digits follow. */
  lemma UnicodeHexCase(s: seq<char>, p: nat)
    requires !HexRun(s, p, 4)
    ensures ReadUnicodeEscape(s, p) == EscapeError(InvalidUnicodeHex)
  {
  }

  /** A code unit that is not a high surrogate, a lone low one included, is encoded as it is. */
  lemma UnicodeUnitCase(s: seq<char>, p: nat)
    requires HexRun(s, p, 4) && !IsHighSurrogate(HexNumber(s, p, 4))
    ensures ReadUnicodeEscape(s, p) == EscapeOk(EncodeUtf8(HexNumber(s, p, 4)), p + 4)
  {
    hide EncodeUtf8, CombineSurrogates;
  }

  /**
   A high surrogate needs a backslash, a `u` and four hex digits of a low
   surrogate right after it; the pair is encoded as one code point.
   */
  lemma UnicodePairCase(s: seq<char>, p: nat)
    requires HexRun(s, p, 4) && IsHighSurrogate(HexNumber(s, p, 4))
    ensures Peek(s, p + 4) != '\\' || Peek(s, p + 5) != 'u' ==> ReadUnicodeEscape(s, p) == EscapeError(InvalidUnicodeSurrogate)
    ensures Peek(s, p + 4) == '\\' && Peek(s, p + 5) == 'u' && !HexRun(s, p + 6, 4) ==>
      ReadUnicodeEscape(s, p) == EscapeError(InvalidUnicodeHex)
    ensures Peek(s, p + 4) == '\\' && Peek(s, p + 5) == 'u' && HexRun(s, p + 6, 4) ==>
      ReadUnicodeEscape(s, p) ==
        if IsLowSurrogate(HexNumber(s, p + 6, 4))
        then EscapeOk(EncodeUtf8(CombineSurrogates(HexNumber(s, p, 4), HexNumber(s, p + 6, 4))), p + 10)
        else EscapeError(InvalidUnicodeSurrogate)
  {
    hide EncodeUtf8, CombineSurrogates;
  }

  /** The escape switch, with `p` on the character after the backslash. */
  function ReadEscape(s: seq<char>, p: nat): (r: Escaped)
    ensures r.EscapeOk? ==> p < r.next <= |s| && 1 <= |r.bytes| <= 4
    ensures r.EscapeOk? ==> forall k :: 0 <= k < |r.bytes| ==> IsByte(r.bytes[k])
    ensures r.EscapeError? ==> IsStringError(r.state) && r.state != MissQuotationMark && r.state != InvalidStringChar
    ensures IsSimpleEscape(Peek(s, p)) ==> r == EscapeOk([Unescape(Peek(s, p))], p + 1)
    ensures Peek(s, p) == 'u' ==> r == ReadUnicodeEscape(s, p + 1)
    ensures !IsSimpleEscape(Peek(s, p)) && Peek(s, p) != 'u' ==> r == EscapeError(InvalidStringEscape)
  {
    var e := Peek(s, p);
    if IsSimpleEscape(e) then EscapeOk([Unescape(e)], p + 1)
    else if e == 'u' then ReadUnicodeEscape(s, p + 1)
    else EscapeError(InvalidStringEscape)
  }

  /** What one turn of the decoding loop reads: the closing quote, bytes to push and where to go on, or an error. */
  datatype Step = Close | Push(bytes: seq<char>, next: nat) | Stop(state: State)

  /**
   The body of the decoding loop at position `p`: the switch on the next
   character. A byte below 0x20 is an error and NUL means the text ended
   before the closing quote; any other byte, 0x80 and above included, stands
   for itself.
   */
  function ReadStep(s: seq<char>, p: nat): (r: Step)
    ensures r.Close? <==> Peek(s, p) == '"'
    ensures r.Push? ==> p < r.next <= |s| && 1 <= |r.bytes| <= 4
    ensures r.Stop? ==> IsStringError(r.state)
    ensures Peek(s, p) == '\0' ==> r == Stop(MissQuotationMark)
    ensures '\0' < Peek(s, p) < ' ' ==> r == Stop(InvalidStringChar)
    ensures Peek(s, p) >= ' ' && Peek(s, p) != '"' && Peek(s, p) != '\\' ==> r == Push([Peek(s, p)], p + 1)
    ensures Peek(s, p) == '\\' ==>
      (ReadEscape(s, p + 1).EscapeOk? ==> r == Push(ReadEscape(s, p + 1).bytes, ReadEscape(s, p + 1).next)) &&
      (ReadEscape(s, p + 1).EscapeError? ==> r == Stop(ReadEscape(s, p + 1).state))
  {
    var ch := Peek(s, p);
    if ch == '"' then Close
    else if ch == '\\' then
      match ReadEscape(s, p + 1)
      case EscapeError(e) => Stop(e)
      case EscapeOk(bytes, q) => Push(bytes, q)
    else if ch == '\0' then Stop(MissQuotationMark)
    else if ch < ' ' then Stop(InvalidStringChar)
    else Push([ch], p + 1)
  }

  /**
   The decoding loop of parse_string_raw, at position `p` of the text, with
   `head` the stack height on entry. The context's cursor stays after the
   opening quote until the closing quote is found.
   */
  function StringLoop(s: seq<char>, p: nat, c: Context, head: nat): (r: Raw)
    requires p <= |s| && head <= |c.stack|
    ensures r.ctx.stack == c.stack[..head] && r.ctx.buffer == c.buffer
    ensures r.state == ParseOk || IsStringError(r.state)
    ensures r.state != ParseOk ==> r.bytes == [] && r.ctx.pos == c.pos
    ensures r.state == ParseOk ==>
      p < r.ctx.pos <= |s| && Peek(s, r.ctx.pos - 1) == '"' && c.stack[head..] <= r.bytes
    decreases |s| - p
  {
    match ReadStep(s, p)
    case Close =>
      var (bytes, c') := Pop(c, |c.stack| - head);
      assert c'.stack == c.stack[..head] && bytes == c.stack[head..];
      var r := Raw(ParseOk, bytes, c'.(pos := p + 1));
      assert Peek(s, r.ctx.pos - 1) == '"';
      r
    case Stop(e) => StringFail(c, head, e)
    case Push(bytes, q) =>
      var r := StringLoop(s, q, PushBytes(c, bytes), head);
      PrefixStep(c.stack, bytes, head, r.bytes, r.state == ParseOk);
      assert r.state == ParseOk ==> p < q < r.ctx.pos;
      r
  }

  /** Bytes pushed on top of the stack keep what was below them a prefix of the result. */
  lemma PrefixStep(stack: seq<char>, pushed: seq<char>, head: nat, bytes: seq<char>, ok: bool)
    requires head <= |stack|
    requires ok ==> (stack + pushed)[head..] <= bytes
    ensures ok ==> stack[head..] <= bytes
    ensures (stack + pushed)[..head] == stack[..head]
  {
    assert (stack + pushed)[head..] == stack[head..] + pushed;
  }

  /**
   parse_string_raw, called with the cursor on the opening quote. On success
   the cursor is just past the closing quote; on failure it is just past the
   opening quote. The scratch stack and the handle buffer end as they began.
   */
  function ParseStringRaw(s: seq<char>, c: Context): (r: Raw)
    requires Peek(s, c.pos) == '"'
    ensures r.ctx.stack == c.stack && r.ctx.buffer == c.buffer
    ensures r.state == ParseOk || IsStringError(r.state)
    ensures r.state != ParseOk ==> r.bytes == [] && r.ctx.pos == c.pos + 1
    ensures r.state == ParseOk ==> c.pos + 2 <= r.ctx.pos <= |s| && Peek(s, r.ctx.pos - 1) == '"'
    ensures r.state == (if Verdict(s, c.pos + 1).Stop? then Verdict(s, c.pos + 1).state else ParseOk)
    ensures r.state == ParseOk ==> r.bytes == Decoded(s, c.pos + 1)
  {
    LoopVerdict(s, c.pos + 1, c.(pos := c.pos + 1), |c.stack|);
    LoopDecodes(s, c.pos + 1, c.(pos := c.pos + 1), |c.stack|);
    assert c.stack[|c.stack|..] == [];
    StringLoop(s, c.pos + 1, c.(pos := c.pos + 1), |c.stack|)
  }

  /**
   The first turn of the decoding loop from `p` on that pushes nothing: the
   closing quote, or the error that ends the string.
   */
  function Verdict(s: seq<char>, p: nat): (r: Step)
    requires p <= |s|
    ensures !r.Push?
    ensures r.Stop? ==> IsStringError(r.state)
    decreases |s| - p
  {
    match ReadStep(s, p)
    case Push(_, q) => Verdict(s, q)
    case Close => Close
    case Stop(e) => Stop(e)
  }

  /** Whatever was pushed before it, the first step that pushes nothing decides how the loop ends. */
  lemma {:induction false} LoopVerdict(s: seq<char>, p: nat, c: Context, head: nat)
    requires p <= |s| && head <= |c.stack|
    ensures StringLoop(s, p, c, head).state == (if Verdict(s, p).Stop? then Verdict(s, p).state else ParseOk)
    decreases |s| - p
  {
    match ReadStep(s, p)
    case Push(bytes, q) => LoopVerdict(s, q, PushBytes(c, bytes), head);
    case Close =>
    case Stop(e) =>
  }

  /**
   The bytes the decoding loop pushes from `p` on, up to the first turn that
   pushes nothing.
   */
  function Decoded(s: seq<char>, p: nat): (b: seq<char>)
    requires p <= |s|
    decreases |s| - p
  {
    match ReadStep(s, p)
    case Push(bytes, q) => bytes + Decoded(s, q)
    case _ => []
  }

  /**
   On success the loop hands back the bytes that were above `head` on entry
   followed by every byte it pushed itself, in the order it read them.
   */
  lemma {:induction false} LoopDecodes(s: seq<char>, p: nat, c: Context, head: nat)
    requires p <= |s| && head <= |c.stack|
    ensures StringLoop(s, p, c, head).state == ParseOk ==>
      StringLoop(s, p, c, head).bytes == c.stack[head..] + Decoded(s, p)
    decreases |s| - p
  {
    hide ReadStep, ReadEscape, ReadUnicodeEscape;
    match ReadStep(s, p)
    case Push(bytes, q) =>
      var c' := PushBytes(c, bytes);
      LoopDecodes(s, q, c', head);
      assert StringLoop(s, p, c, head) == StringLoop(s, q, c', head);
      assert Decoded(s, p) == bytes + Decoded(s, q);
      PushedBytes(c.stack, bytes, head, Decoded(s, q));
    case Close =>
      assert Decoded(s, p) == [];
      var (bytes, c') := Pop(c, |c.stack| - head);
      assert bytes == c.stack[head..];
    case Stop(e) =>
  }

  /** Bytes pushed above `head` come right after what was already there. */
  lemma PushedBytes(stack: seq<char>, pushed: seq<char>, head: nat, rest: seq<char>)
    requires head <= |stack|
    ensures (stack + pushed)[head..] + rest == stack[head..] + (pushed + rest)
  {
    assert (stack + pushed)[head..] == stack[head..] + pushed;
  }

  /** Plain characters before a step that pushes nothing are read past: that step is the verdict. */
  lemma {:induction false} PlainRun(s: seq<char>, p: nat, q: nat)
    requires p <= q <= |s| && !ReadStep(s, q).Push?
    requires forall k :: p <= k < q ==> s[k] >= ' ' && s[k] != '"' && s[k] != '\\'
    ensures Verdict(s, p) == ReadStep(s, q)
    decreases q - p
  {
    if p < q {
      assert Peek(s, p) == s[p];
      PlainRun(s, p + 1, q);
    }
  }

  /** A string of byte-valued chars. */
  predicate IsBytes(b: seq<char>)
  {
    forall k :: 0 <= k < |b| ==> IsByte(b[k])
  }

  /**
   How a byte is written between quotes so that parse_string_raw reads it
   back: a byte with a simple escape as a backslash and its letter, any other
   control byte (NUL included) as `\u00XX`, any other character as it is.
   */
  function WriteByte(b: char): (t: seq<char>)
    ensures 1 <= |t| <= 6
  {
    if HasShortEscape(b) then ['\\', ShortEscape(b)]
    else if b < ' ' then UnitEscape(b as int)
    else [b]
  }

  /** A byte string written out for the inside of a JSON string. */
  function WriteBytes(b: seq<char>): (t: seq<char>)
    ensures |b| <= |t|
  {
    if |b| == 0 then [] else WriteByte(b[0]) + WriteBytes(b[1..])
  }

  /** Writing is compositional: the bytes of two strings are written one after the other. */
  lemma {:induction false} WriteBytesConcat(a: seq<char>, b: seq<char>)
    ensures WriteBytes(a + b) == WriteBytes(a) + WriteBytes(b)
    decreases |a|
  {
    if |a| > 0 {
      assert (a + b)[0] == a[0] && (a + b)[1..] == a[1..] + b;
      WriteBytesConcat(a[1..], b);
    } else {
      assert a + b == b;
    }
  }

  /** Characters that need no escape are written as they are. */
  lemma {:induction false} WritePlain(b: seq<char>)
    requires forall k :: 0 <= k < |b| ==> b[k] >= ' ' && !HasShortEscape(b[k])
    ensures WriteBytes(b) == b
    decreases |b|
  {
    if |b| > 0 {
      WritePlain(b[1..]);
    }
  }

  /** Written bytes are text: no NUL, every char a byte. */
  lemma {:induction false} WrittenIsText(b: seq<char>)
    requires IsBytes(b)
    ensures IsText(WriteBytes(b))
    decreases |b|
  {
    if |b| > 0 {
      WrittenIsText(b[1..]);
      var w := WriteByte(b[0]);
      assert IsText(w) by {
        if !HasShortEscape(b[0]) && b[0] < ' ' {
          assert w == UnitEscape(b[0] as int);
        }
      }
    }
  }

  /** A written byte is read back in one turn of the loop, which pushes exactly that byte. */
  lemma ReadWrittenByte(s: seq<char>, p: nat, b: char)
    requires IsByte(b) && At(s, p, WriteByte(b))
    ensures ReadStep(s, p) == Push([b], p + |WriteByte(b)|)
  {
    var w := WriteByte(b);
    AtPeek(s, p, w);
    if HasShortEscape(b) {
      hide ReadUnicodeEscape, UnitEscape;
      assert w == ['\\', ShortEscape(b)] && Peek(s, p + 1) == w[1];
      assert ReadEscape(s, p + 1) == EscapeOk([b], p + 2);
    } else if b < ' ' {
      UnitEscapeAt(s, p, b as int);
      assert EncodeUtf8(b as int) == [b];
    } else {
      hide ReadEscape, UnitEscape;
    }
  }

  /** At the closing quote the loop hands back everything pushed since `head`. */
  lemma ReadClosingQuote(s: seq<char>, p: nat, c: Context, head: nat)
    requires p <= |s| && head <= |c.stack| && Peek(s, p) == '"'
    ensures StringLoop(s, p, c, head) == Raw(ParseOk, c.stack[head..], c.(stack := c.stack[..head], pos := p + 1))
  {
    var (bytes, c') := Pop(c, |c.stack| - head);
    assert bytes == c.stack[head..] && c'.stack == c.stack[..head];
  }

  /**
   The loop reads back any written byte string followed by a closing quote:
   it succeeds with those bytes on top of what the stack held above `head`,
   stops just past the quote, and restores the stack.
   */
  lemma {:induction false} ReadWrittenBytes(s: seq<char>, p: nat, c: Context, head: nat, b: seq<char>)
    requires IsBytes(b) && head <= |c.stack|
    requires At(s, p, WriteBytes(b)) && Peek(s, p + |WriteBytes(b)|) == '"'
    ensures StringLoop(s, p, c, head)
         == Raw(ParseOk, c.stack[head..] + b, c.(stack := c.stack[..head], pos := p + |WriteBytes(b)| + 1))
    decreases |b|
  {
    hide *;
    WrittenBytesText(s, p, b);
    if |b| == 0 {
      ReadClosingQuote(s, p, c, head);
    } else {
      var q := p + |WriteByte(b[0])|;
      ReadWrittenByte(s, p, b[0]);
      LoopPushes(s, p, c, head, b[0], q);
      ReadWrittenBytes(s, q, c.(stack := c.stack + [b[0]]), head, b[1..]);
      ReadWrittenStep(c.stack, head, b);
    }
  }

  /** Written bytes followed by a quote: the quote at once, or the first byte's text and then the rest. */
  lemma WrittenBytesText(s: seq<char>, p: nat, b: seq<char>)
    requires IsBytes(b) && At(s, p, WriteBytes(b)) && Peek(s, p + |WriteBytes(b)|) == '"'
    ensures p <= |s|
    ensures |b| == 0 ==> Peek(s, p) == '"' && |WriteBytes(b)| == 0
    ensures |b| > 0 ==>
      IsByte(b[0]) && IsBytes(b[1..]) && At(s, p, WriteByte(b[0])) &&
      At(s, p + |WriteByte(b[0])|, WriteBytes(b[1..])) &&
      |WriteBytes(b)| == |WriteByte(b[0])| + |WriteBytes(b[1..])|
  {
    if |b| > 0 {
      AtConcat(s, p, WriteByte(b[0]), WriteBytes(b[1..]));
    }
  }

  /** One byte pushed by a turn of the loop, which then goes on from `q`. */
  lemma LoopPushes(s: seq<char>, p: nat, c: Context, head: nat, x: char, q: nat)
    requires p <= |s| && head <= |c.stack| && ReadStep(s, p) == Push([x], q)
    ensures StringLoop(s, p, c, head) == StringLoop(s, q, c.(stack := c.stack + [x]), head)
  {
    hide ReadStep;
  }

  /** Pushing the first byte and reading the rest gives the whole string, over the same stack below `head`. */
  lemma ReadWrittenStep(stack: seq<char>, head: nat, b: seq<char>)
    requires |b| > 0 && head <= |stack|
    ensures (stack + [b[0]])[head..] + b[1..] == stack[head..] + b
    ensures (stack + [b[0]])[..head] == stack[..head]
  {
    assert (stack + [b[0]])[head..] == stack[head..] + [b[0]];
  }

  /** A quoted text: the opening quote, the body right after it, the closing quote right after that. */
  lemma QuotedAt(s: seq<char>, p: nat, w: seq<char>)
    requires At(s, p, ['"'] + w + ['"'])
    ensures Peek(s, p) == '"' && At(s, p + 1, w) && Peek(s, p + 1 + |w|) == '"'
  {
    AtConcat(s, p, ['"'] + w, ['"']);
    AtConcat(s, p, ['"'], w);
    AtPeek(s, p, ['"']);
    AtPeek(s, p + 1 + |w|, ['"']);
  }

  /** parse_string_raw reads back any byte string written between quotes. */
  lemma ParseWrittenString(s: seq<char>, c: Context, b: seq<char>)
    requires IsBytes(b) && At(s, c.pos, ['"'] + WriteBytes(b) + ['"'])
    ensures ParseStringRaw(s, c) == Raw(ParseOk, b, c.(pos := c.pos + |WriteBytes(b)| + 2))
  {
    QuotedAt(s, c.pos, WriteBytes(b));
    ReadQuotedBody(s, c, b);
  }

  /** The same, from the facts about the quotes and the body taken one by one. */
  lemma ReadQuotedBody(s: seq<char>, c: Context, b: seq<char>)
    requires IsBytes(b) && Peek(s, c.pos) == '"'
    requires At(s, c.pos + 1, WriteBytes(b)) && Peek(s, c.pos + 1 + |WriteBytes(b)|) == '"'
    ensures ParseStringRaw(s, c) == Raw(ParseOk, b, c.(pos := c.pos + |WriteBytes(b)| + 2))
  {
    hide StringLoop, WriteBytes, At;
    var c1 := c.(pos := c.pos + 1);
    ReadWrittenBytes(s, c.pos + 1, c1, |c.stack|, b);
    WholeStack(c.stack, b);
  }

  /** Nothing lies above the top of the stack, and everything below it. */
  lemma WholeStack(stack: seq<char>, b: seq<char>)
    ensures stack[|stack|..] + b == b && stack[..|stack|] == stack
  {
    assert stack[|stack|..] == [];
  }

  /** A code unit written as `\u` and four hex digits. */
  function UnitEscape(u: nat): (t: seq<char>)
    requires u < 0x10000
    ensures |t| == 6 && IsText(t)
  {
    ['\\', 'u'] + Hex4(u)
  }

  /** Where a code unit escape stands, the cursor sees the backslash, the `u`, and parse_hex4 reads the unit back. */
  lemma UnitEscapeAt(s: seq<char>, p: nat, u: nat)
    requires u < 0x10000 && At(s, p, UnitEscape(u))
    ensures Peek(s, p) == '\\' && Peek(s, p + 1) == 'u' && ParseHex4(s, p + 2) == Some((u, p + 6))
  {
    AtConcat(s, p, ['\\', 'u'], Hex4(u));
    AtPeek(s, p, ['\\', 'u']);
    ParseHex4Inverse(s, p + 2, u);
  }

  /**
   A code point written as a `\u` escape: a single code unit below 0x10000,
   a surrogate pair above. A high surrogate cannot be written alone.
   */
  function WriteCodePoint(u: nat): (t: seq<char>)
    requires u <= 0x10FFFF && !IsHighSurrogate(u)
    ensures |t| == 6 || |t| == 12
  {
    if u < 0x10000 then UnitEscape(u)
    else
      var (hi, lo) := SplitSurrogates(u);
      UnitEscape(hi) + UnitEscape(lo)
  }

  /**
   A `\u` escape of any code point reads back as its UTF-8 encoding. The
   single-unit case covers the low surrogates too: the source encodes a lone
   low surrogate like any other code unit.
   */
  lemma ReadCodePoint(s: seq<char>, p: nat, u: nat)
    requires u <= 0x10FFFF && !IsHighSurrogate(u) && At(s, p, WriteCodePoint(u))
    ensures ReadEscape(s, p + 1) == EscapeOk(EncodeUtf8(u), p + |WriteCodePoint(u)|)
  {
    hide SplitSurrogates, EncodeUtf8, ParseHex4, Hex4, CombineSurrogates, UnitEscape;
    if u < 0x10000 {
      UnitEscapeAt(s, p, u);
    } else {
      var (hi, lo) := SplitSurrogates(u);
      AtConcat(s, p, UnitEscape(hi), UnitEscape(lo));
      UnitEscapeAt(s, p, hi);
      UnitEscapeAt(s, p + 6, lo);
    }
  }

  /**
   A high surrogate not followed by a backslash, or followed by a backslash
   and something other than `u`, is a surrogate error.
   */
  lemma LoneHighSurrogate(s: seq<char>, p: nat, hi: nat)
    requires IsHighSurrogate(hi) && At(s, p, UnitEscape(hi))
    requires Peek(s, p + 6) != '\\' || Peek(s, p + 7) != 'u'
    ensures ReadEscape(s, p + 1) == EscapeError(InvalidUnicodeSurrogate)
  {
    UnitEscapeAt(s, p, hi);
    assert ReadUnicodeEscape(s, p + 2) == EscapeError(InvalidUnicodeSurrogate);
  }

  /** A high surrogate followed by `\u` and a code unit that is not a low surrogate is a surrogate error. */
  lemma UnpairedHighSurrogate(s: seq<char>, p: nat, hi: nat, u2: nat)
    requires IsHighSurrogate(hi) && u2 < 0x10000 && !IsLowSurrogate(u2)
    requires At(s, p, UnitEscape(hi) + UnitEscape(u2))
    ensures ReadEscape(s, p + 1) == EscapeError(InvalidUnicodeSurrogate)
  {
    AtConcat(s, p, UnitEscape(hi), UnitEscape(u2));
    UnitEscapeAt(s, p, hi);
    UnitEscapeAt(s, p + 6, u2);
  }
}
