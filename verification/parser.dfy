/**
 The recursive-descent parser of ljson_context: one function per grammar rule,
 each taking the text and the context on entry and returning the state, the
 value (present exactly on success) and the context on exit.

 parse_number converts its lexeme with strtod, which is outside this model; the
 one thing the parser learns from it, whether the conversion overflowed, is
 the parameter `tooBig`, applied to the text from the first character of the
 number on (strtod is handed the cursor, not the matched lexeme).
 */
module Parser {
  import opened JsonValue
  import opened Cursor
  import opened Scratch
  import opened Number
  import opened Strings

  /** What a parse function hands back. */
  datatype Parsed = Parsed(state: State, value: Option<Value>, ctx: Context)

  /** The verdict of strtod on the text from a number's first character on: true when it overflows to plus or minus HUGE_VAL. */
  type Overflow = seq<char> -> bool

  /** A state some parse path produces: all but RootNotSingular (only `Parse` reports it) and the unused CommaOrCurlyBracket. */
  predicate IsValueState(e: State)
  {
    e != RootNotSingular && e != CommaOrCurlyBracket
  }

  /**
   The promise every parse function keeps: the cursor stays inside the text
   and moves forward (strictly, on success), the scratch stack is back at its
   entry height, and a value comes back exactly on success.
   */
  predicate Keeps(s: seq<char>, c: Context, r: Parsed)
  {
    c.pos <= r.ctx.pos <= |s| && r.ctx.stack == c.stack &&
    (r.value.Some? <==> r.state == ParseOk) &&
    (r.state == ParseOk ==> c.pos < r.ctx.pos) &&
    IsValueState(r.state)
  }

  /** The kind of value a first character announces (the dispatch of parse_value). */
  predicate Announces(ch: char, v: Value)
  {
    match v
    case Null => ch == 'n'
    case False => ch == 'f'
    case True => ch == 't'
    case Number(_) => ch == '-' || IsDigit(ch)
    case String(_) => ch == '"'
    case Array(_) => ch == '['
    case Object(_) => ch == '{'
  }

  const TrueText: seq<char> := "true"
  const FalseText: seq<char> := "false"
  const NullText: seq<char> := "null"

  /** The characters of a literal other than its first: `lit[i..]` must stand from `p + i` on. */
  function LiteralLoop(s: seq<char>, p: nat, lit: seq<char>, i: nat): (ok: bool)
    requires 1 <= i <= |lit|
    ensures ok <==> forall k :: i <= k < |lit| ==> Peek(s, p + k) == lit[k]
    decreases |lit| - i
  {
    if i == |lit| then true
    else if Peek(s, p + i) != lit[i] then false
    else LiteralLoop(s, p, lit, i + 1)
  }

  /**
   parse_literal: the first character was already seen by the dispatch. On a
   mismatch the cursor is left just past that first character.
   */
  function ParseLiteral(s: seq<char>, c: Context, lit: seq<char>, tag: Tag): (r: Parsed)
    requires |lit| > 0 && Peek(s, c.pos) == lit[0] && tag != NumberTag
    requires forall k :: 0 <= k < |lit| ==> lit[k] != '\0'
    ensures r.state == ParseOk || r.state == InvalidValue
    ensures r.state == ParseOk <==> At(s, c.pos, lit)
    ensures r.state == ParseOk ==> r == Parsed(ParseOk, CreateByType(tag), c.(pos := c.pos + |lit|))
    ensures r.state != ParseOk ==> r == Parsed(InvalidValue, None, c.(pos := c.pos + 1))
  {
    LiteralLoopAt(s, c.pos, lit);
    if LiteralLoop(s, c.pos, lit, 1) then Parsed(ParseOk, CreateByType(tag), c.(pos := c.pos + |lit|))
    else Parsed(InvalidValue, None, c.(pos := c.pos + 1))
  }

  /** Once the first character is seen, the loop of parse_literal accepts exactly when the whole literal stands there. */
  lemma LiteralLoopAt(s: seq<char>, p: nat, lit: seq<char>)
    requires |lit| > 0 && Peek(s, p) == lit[0]
    requires forall k :: 0 <= k < |lit| ==> lit[k] != '\0'
    ensures LiteralLoop(s, p, lit, 1) <==> At(s, p, lit)
  {
    assert lit[0] != '\0';
    if LiteralLoop(s, p, lit, 1) {
      PeekAt(s, p, lit);
    }
    if At(s, p, lit) {
      AtPeek(s, p, lit);
    }
  }

  /**
   parse_number: validate the lexeme, then ask the conversion whether it
   overflows. Either failure leaves the cursor where the number began.
   */
  function ParseNumber(s: seq<char>, c: Context, tooBig: Overflow): (r: Parsed)
    requires c.pos <= |s|
    ensures r.state == ParseOk || r.state == InvalidValue || r.state == NumberTooBig
    ensures r.state != ParseOk ==> r.value == None && r.ctx == c
    ensures r.state == NumberTooBig ==> tooBig(s[c.pos..])
    ensures r.state == ParseOk ==>
      c.pos < r.ctx.pos <= |s| && r.ctx == c.(pos := r.ctx.pos) && !tooBig(s[c.pos..]) &&
      r.value == Some(Number(s[c.pos..r.ctx.pos])) && IsNumber(s[c.pos..r.ctx.pos])
    ensures r.state == ParseOk ==> ScanNumber(s, c.pos) == Some(r.ctx.pos)
    ensures r.state == InvalidValue <==> ScanNumber(s, c.pos).None?
    ensures r.state == NumberTooBig <==> ScanNumber(s, c.pos).Some? && tooBig(s[c.pos..])
  {
    match ScanNumber(s, c.pos)
    case None => Parsed(InvalidValue, None, c)
    case Some(j) =>
      if tooBig(s[c.pos..]) then Parsed(NumberTooBig, None, c)
      else
        ScanNumberSound(s, c.pos);
        Parsed(ParseOk, Some(Number(s[c.pos..j])), c.(pos := j))
  }

  /** parse_string: the raw bytes become a string value. */
  function ParseString(s: seq<char>, c: Context): (r: Parsed)
    requires Peek(s, c.pos) == '"'
    ensures Keeps(s, c, r) && r.ctx.buffer == c.buffer
    ensures r.state == ParseOk || IsStringError(r.state)
    ensures r.state == ParseOk ==> r.value.value.String? && r.value.value.bytes == ParseStringRaw(s, c).bytes
    ensures r.state == ParseStringRaw(s, c).state
  {
    var raw := ParseStringRaw(s, c);
    if raw.state == ParseOk then Parsed(ParseOk, Some(String(raw.bytes)), raw.ctx)
    else Parsed(raw.state, None, raw.ctx)
  }

  /** A failure that drops the `size` entries the container being parsed has staged. */
  function Abandon(e: State, c: Context, size: nat): (r: Parsed)
    requires size <= |c.buffer|
    ensures r.state == e && r.value == None
    ensures r.ctx.pos == c.pos && r.ctx.stack == c.stack && r.ctx.buffer == c.buffer[..|c.buffer| - size]
  {
    Parsed(e, None, c.(buffer := PopBuffer(c.buffer, size).1))
  }

  /**
   parse_value: dispatch on the character under the cursor. The terminating
   NUL means the text ended where a value was due; anything unrecognised is
   handed to the number parser.
   */
  function ParseValue(s: seq<char>, c: Context, tooBig: Overflow): (r: Parsed)
    requires c.pos <= |s|
    ensures Keeps(s, c, r) && r.ctx.buffer == c.buffer
    ensures r.state == ParseOk ==> Announces(Peek(s, c.pos), r.value.value)
    ensures Peek(s, c.pos) == '\0' ==> r.state == ExpectValue && r.ctx == c
    decreases |s| - c.pos, 2
  {
    match Peek(s, c.pos)
    case 't' => ParseLiteral(s, c, TrueText, TrueTag)
    case 'f' => ParseLiteral(s, c, FalseText, FalseTag)
    case 'n' => ParseLiteral(s, c, NullText, NullTag)
    case '"' => ParseString(s, c)
    case '[' => ParseArray(s, c, tooBig)
    case '{' => ParseObject(s, c, tooBig)
    case '\0' => Parsed(ExpectValue, None, c)
    case _ => ParseNumber(s, c, tooBig)
  }

  /** parse_array: `[`, then either `]` at once or a run of elements. */
  function ParseArray(s: seq<char>, c: Context, tooBig: Overflow): (r: Parsed)
    requires Peek(s, c.pos) == '['
    ensures Keeps(s, c, r) && r.ctx.buffer == c.buffer
    ensures r.state == ParseOk ==> r.value.value.Array?
    decreases |s| - c.pos, 1
  {
    var p := SkipWhitespace(s, c.pos + 1);
    if Peek(s, p) == ']' then Parsed(ParseOk, Some(Array([])), c.(pos := p + 1))
    else ArrayLoop(s, c.(pos := p), 0, tooBig)
  }

  /**
   The element loop of parse_array. `size` entries, this array's elements so
   far, sit on top of the buffer; every exit takes them off again.
   */
  function ArrayLoop(s: seq<char>, c: Context, size: nat, tooBig: Overflow): (r: Parsed)
    requires c.pos <= |s| && size <= |c.buffer| && AllValues(Top(c.buffer, size))
    ensures c.pos <= r.ctx.pos <= |s| && r.ctx.stack == c.stack
    ensures r.ctx.buffer == c.buffer[..|c.buffer| - size]
    ensures (r.value.Some? <==> r.state == ParseOk) && IsValueState(r.state)
    ensures r.state == ParseOk ==> c.pos < r.ctx.pos && r.value.value.Array?
    ensures ParseValue(s, c, tooBig).state != ParseOk ==>
      r.state == ParseValue(s, c, tooBig).state && r.ctx.pos == ParseValue(s, c, tooBig).ctx.pos
    decreases |s| - c.pos, 3
  {
    hide ParseValue, Abandon, ArrayNext, ObjectNext, SkipWhitespace;
    var v := ParseValue(s, c, tooBig);
    assert Keeps(s, c, v) && v.ctx.buffer == c.buffer;
    if v.state != ParseOk then Abandon(v.state, v.ctx, size)
    else
      var x := StagedValue(v.value.value);
      TopPush(c.buffer, size, x);
      ValuesOfPush(Top(c.buffer, size), v.value.value);
      ArrayNext(s, PushBuffer(v.ctx, x), size + 1, tooBig)
  }

  /** After an element is staged: a comma continues the loop, `]` closes the array. */
  function ArrayNext(s: seq<char>, c: Context, size: nat, tooBig: Overflow): (r: Parsed)
    requires c.pos <= |s| && 0 < size <= |c.buffer| && AllValues(Top(c.buffer, size))
    ensures c.pos <= r.ctx.pos <= |s| && r.ctx.stack == c.stack
    ensures r.ctx.buffer == c.buffer[..|c.buffer| - size]
    ensures (r.value.Some? <==> r.state == ParseOk) && IsValueState(r.state)
    ensures r.state == ParseOk ==> c.pos < r.ctx.pos && r.value.value.Array?
    ensures Peek(s, SkipWhitespace(s, c.pos)) != ',' && Peek(s, SkipWhitespace(s, c.pos)) != ']' ==>
      r.state == MissCommaOrSquareBracket && r.ctx.pos == SkipWhitespace(s, c.pos)
    decreases |s| - c.pos, 4
  {
    var p := SkipWhitespace(s, c.pos);
    if Peek(s, p) == ',' then ArrayLoop(s, c.(pos := SkipWhitespace(s, p + 1)), size, tooBig)
    else if Peek(s, p) == ']' then CloseArray(c.(pos := p + 1), size)
    else Abandon(MissCommaOrSquareBracket, c.(pos := p), size)
  }

  /** The closing `]`: the staged elements come off the buffer, in source order, as the array. */
  function CloseArray(c: Context, size: nat): (r: Parsed)
    requires size <= |c.buffer| && AllValues(Top(c.buffer, size))
    ensures r.state == ParseOk && r.ctx.pos == c.pos && r.ctx.stack == c.stack
    ensures r.ctx.buffer == c.buffer[..|c.buffer| - size]
    ensures r.value == Some(Array(ValuesOf(Top(c.buffer, size))))
  {
    var (items, rest) := PopBuffer(c.buffer, size);
    Parsed(ParseOk, Some(Array(ValuesOf(items))), c.(buffer := rest))
  }

  /** parse_object: `{`, then either `}` at once or a run of members. */
  function ParseObject(s: seq<char>, c: Context, tooBig: Overflow): (r: Parsed)
    requires Peek(s, c.pos) == '{'
    ensures Keeps(s, c, r) && r.ctx.buffer == c.buffer
    ensures r.state == ParseOk ==> r.value.value.Object?
    decreases |s| - c.pos, 1
  {
    var p := SkipWhitespace(s, c.pos + 1);
    if Peek(s, p) == '}' then Parsed(ParseOk, Some(Object([])), c.(pos := p + 1))
    else ObjectLoop(s, c.(pos := p), 0, tooBig)
  }

  /**
   The member loop of parse_object: a key string, a colon, a value. Every exit
   takes this object's staged members off the buffer again.
   */
  function ObjectLoop(s: seq<char>, c: Context, size: nat, tooBig: Overflow): (r: Parsed)
    requires c.pos <= |s| && size <= |c.buffer| && AllMembers(Top(c.buffer, size))
    ensures c.pos <= r.ctx.pos <= |s| && r.ctx.stack == c.stack
    ensures r.ctx.buffer == c.buffer[..|c.buffer| - size]
    ensures (r.value.Some? <==> r.state == ParseOk) && IsValueState(r.state)
    ensures Peek(s, c.pos) != '"' ==> r.state == MissKey && r.ctx.pos == c.pos
    ensures Peek(s, c.pos) == '"' && ParseStringRaw(s, c).state != ParseOk ==>
      r.state == ParseStringRaw(s, c).state && r.ctx.pos == ParseStringRaw(s, c).ctx.pos
    ensures r.state == ParseOk ==> c.pos < r.ctx.pos && r.value.value.Object?
    decreases |s| - c.pos, 3
  {
    if Peek(s, c.pos) != '"' then Abandon(MissKey, c, size)
    else
      var key := ParseStringRaw(s, c);
      if key.state != ParseOk then Abandon(key.state, key.ctx, size)
      else ObjectColon(s, key.ctx, key.bytes, size, tooBig)
  }

  /** After the key: whitespace, then the colon that must separate key and value. */
  function ObjectColon(s: seq<char>, c: Context, key: seq<char>, size: nat, tooBig: Overflow): (r: Parsed)
    requires c.pos <= |s| && size <= |c.buffer| && AllMembers(Top(c.buffer, size))
    ensures c.pos <= r.ctx.pos <= |s| && r.ctx.stack == c.stack
    ensures r.ctx.buffer == c.buffer[..|c.buffer| - size]
    ensures (r.value.Some? <==> r.state == ParseOk) && IsValueState(r.state)
    ensures r.state == ParseOk ==> c.pos < r.ctx.pos && r.value.value.Object?
    ensures Peek(s, SkipWhitespace(s, c.pos)) != ':' ==>
      r.state == MissColon && r.ctx.pos == SkipWhitespace(s, c.pos)
    decreases |s| - c.pos, 4
  {
    var p := SkipWhitespace(s, c.pos);
    if Peek(s, p) != ':' then Abandon(MissColon, c.(pos := p), size)
    else ObjectValue(s, c.(pos := SkipWhitespace(s, p + 1)), key, size, tooBig)
  }

  /** The value of a member whose key and colon were read; the member is staged once the value parses. */
  function ObjectValue(s: seq<char>, c: Context, key: seq<char>, size: nat, tooBig: Overflow): (r: Parsed)
    requires c.pos <= |s| && size <= |c.buffer| && AllMembers(Top(c.buffer, size))
    ensures c.pos <= r.ctx.pos <= |s| && r.ctx.stack == c.stack
    ensures r.ctx.buffer == c.buffer[..|c.buffer| - size]
    ensures (r.value.Some? <==> r.state == ParseOk) && IsValueState(r.state)
    ensures r.state == ParseOk ==> c.pos < r.ctx.pos && r.value.value.Object?
    ensures ParseValue(s, c, tooBig).state != ParseOk ==>
      r.state == ParseValue(s, c, tooBig).state && r.ctx.pos == ParseValue(s, c, tooBig).ctx.pos
    decreases |s| - c.pos, 3
  {
    hide ParseValue, Abandon, ArrayNext, ObjectNext, SkipWhitespace;
    var v := ParseValue(s, c, tooBig);
    if v.state != ParseOk then Abandon(v.state, v.ctx, size)
    else
      var m := Member(key, v.value.value);
      TopPush(c.buffer, size, StagedMember(m));
      MembersOfPush(Top(c.buffer, size), m);
      ObjectNext(s, PushBuffer(v.ctx, StagedMember(m)), size + 1, tooBig)
  }

  /**
   After a member is staged: a comma continues the loop, `}` closes the object.
   Anything else is reported with the array's code, MissCommaOrSquareBracket,
   as the library does.
   */
  function ObjectNext(s: seq<char>, c: Context, size: nat, tooBig: Overflow): (r: Parsed)
    requires c.pos <= |s| && 0 < size <= |c.buffer| && AllMembers(Top(c.buffer, size))
    ensures c.pos <= r.ctx.pos <= |s| && r.ctx.stack == c.stack
    ensures r.ctx.buffer == c.buffer[..|c.buffer| - size]
    ensures (r.value.Some? <==> r.state == ParseOk) && IsValueState(r.state)
    ensures r.state == ParseOk ==> c.pos < r.ctx.pos && r.value.value.Object?
    ensures Peek(s, SkipWhitespace(s, c.pos)) != ',' && Peek(s, SkipWhitespace(s, c.pos)) != '}' ==>
      r.state == MissCommaOrSquareBracket && r.ctx.pos == SkipWhitespace(s, c.pos)
    decreases |s| - c.pos, 4
  {
    var p := SkipWhitespace(s, c.pos);
    if Peek(s, p) == ',' then ObjectLoop(s, c.(pos := SkipWhitespace(s, p + 1)), size, tooBig)
    else if Peek(s, p) == '}' then CloseObject(c.(pos := p + 1), size)
    else Abandon(MissCommaOrSquareBracket, c.(pos := p), size)
  }

  /** The closing `}`: the staged members come off the buffer, in source order, as the object. */
  function CloseObject(c: Context, size: nat): (r: Parsed)
    requires size <= |c.buffer| && AllMembers(Top(c.buffer, size))
    ensures r.state == ParseOk && r.ctx.pos == c.pos && r.ctx.stack == c.stack
    ensures r.ctx.buffer == c.buffer[..|c.buffer| - size]
    ensures r.value == Some(Object(MembersOf(Top(c.buffer, size))))
  {
    var (items, rest) := PopBuffer(c.buffer, size);
    Parsed(ParseOk, Some(Object(MembersOf(items))), c.(buffer := rest))
  }

  /**
   ljson_value::parse: whitespace, one value, whitespace, then the end of the
   text. A value followed by anything else is RootNotSingular and is dropped.
   The context starts empty and is empty again at the end, as the destructor
   of ljson_context asserts.
   */
  function Parse(s: seq<char>, tooBig: Overflow): (r: Parsed)
    ensures r.ctx.stack == [] && r.ctx.buffer == [] && r.ctx.pos <= |s|
    ensures r.value.Some? <==> r.state == ParseOk
    ensures r.state != CommaOrCurlyBracket
    ensures r.state == ParseOk ==> SkipWhitespace(s, r.ctx.pos) == r.ctx.pos && Peek(s, r.ctx.pos) == '\0'
    ensures var v := ParseValue(s, Context(SkipWhitespace(s, 0), [], []), tooBig);
      (v.state != ParseOk ==> r.state == v.state) &&
      (v.state == ParseOk ==>
        (Peek(s, SkipWhitespace(s, v.ctx.pos)) == '\0' <==> r.state == ParseOk) &&
        (Peek(s, SkipWhitespace(s, v.ctx.pos)) != '\0' ==> r.state == RootNotSingular))
  {
    var v := ParseValue(s, Context(SkipWhitespace(s, 0), [], []), tooBig);
    if v.state != ParseOk then v
    else
      var p := SkipWhitespace(s, v.ctx.pos);
      if Peek(s, p) == '\0' then v.(ctx := v.ctx.(pos := p))
      else Parsed(RootNotSingular, None, v.ctx.(pos := p))
  }
}
