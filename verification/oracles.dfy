/**
 Expected outcomes from the library's test file, each stated for any
 overflow verdict (or the one the case needs) and proved by evaluating the
 model on the concrete text.
 */
module Oracles {
  import opened JsonValue
  import opened Cursor
  import opened Scratch
  import opened Number
  import opened Unicode
  import opened Strings
  import opened Parser
  import opened Serialize
  import opened Document

  /** An empty text: EXPECT_VALUE (Step7/ljson_test.cc:247). */
  lemma ExpectValueEmpty(tooBig: Overflow)
    ensures Parse("", tooBig).state == ExpectValue
  {
  }

  /** A cut-off literal: INVALID_VALUE (Step7/ljson_test.cc:253). */
  lemma InvalidNul(tooBig: Overflow)
    ensures Parse("nul", tooBig).state == InvalidValue
  {
  }

  /** A literal followed by more text: ROOT_NOT_SINGULAR (Step7/ljson_test.cc:268). */
  lemma NullX(tooBig: Overflow)
    ensures Parse("null x", tooBig).state == RootNotSingular
  {
  }

  /** A leading zero ends the number, so the digits after it are trailing text (Step7/ljson_test.cc:271). */
  lemma LeadingZero(tooBig: Overflow)
    requires !tooBig("0123")
    ensures Parse("0123", tooBig).state == RootNotSingular
  {
    SkipWhitespaceStays("0123", 0);
    SkipWhitespaceStays("0123", 1);
    ZeroValue(tooBig);
    hide ParseValue, SkipWhitespace;
  }

  /** The value read is the lone `0`. */
  lemma ZeroValue(tooBig: Overflow)
    requires !tooBig("0123")
    ensures ParseValue("0123", Context(0, [], []), tooBig) == Parsed(ParseOk, Some(Number("0")), Context(1, [], []))
  {
    ZeroScan();
    assert "0123"[0..] == "0123" && "0123"[0..1] == "0";
    hide ScanNumber, ParseString, ParseArray, ParseObject, ParseLiteral;
  }

  /** The number scanner stops after the leading zero. */
  lemma ZeroScan()
    ensures ScanNumber("0123", 0) == Some(1)
  {
  }

  /** A plus sign cannot start a number (Step7/ljson_test.cc:258). */
  lemma PlusSign(tooBig: Overflow)
    ensures Parse("+1", tooBig).state == InvalidValue
  {
  }

  /** A text that starts like a number the scanner rejects is INVALID_VALUE. */
  lemma NumberFails(s: seq<char>, tooBig: Overflow)
    requires |s| > 0 && (s[0] == '-' || IsDigit(s[0])) && ScanNumber(s, 0).None?
    ensures Parse(s, tooBig).state == InvalidValue
  {
    SkipWhitespaceStays(s, 0);
    assert ParseValue(s, Context(0, [], []), tooBig) == ParseNumber(s, Context(0, [], []), tooBig) by {
      hide ParseLiteral, ParseString, ParseArray, ParseObject, ParseNumber;
    }
    hide ParseValue, ParseStringRaw, ParseArray, ParseObject, ParseNumber, ParseLiteral, ScanNumber;
  }

  /** A `.` with no digit after it: INVALID_VALUE (Step7/ljson_test.cc:260). */
  lemma DotDangling(tooBig: Overflow)
    ensures Parse("1.", tooBig).state == InvalidValue
  {
    hide Parse;
    NumberFails("1.", tooBig);
  }

  /** An exponent with no digit after its letter: INVALID_VALUE. */
  lemma ExpDangling(tooBig: Overflow)
    ensures Parse("1e", tooBig).state == InvalidValue
  {
    hide Parse;
    NumberFails("1e", tooBig);
  }

  /** An exponent with no digit after its sign: INVALID_VALUE. */
  lemma SignDangling(tooBig: Overflow)
    ensures Parse("1E+", tooBig).state == InvalidValue
  {
    hide Parse;
    NumberFails("1E+", tooBig);
  }

  /** A number whose conversion overflows: NUMBER_TOO_BIG (Step7/ljson_test.cc:277). */
  lemma TooBig(tooBig: Overflow)
    requires tooBig("1e309")
    ensures Parse("1e309", tooBig).state == NumberTooBig
  {
  }

  /** An array the text ends inside: MISS_COMMA_OR_SQUARE_BRACKET (Step7/ljson_test.cc:324). */
  lemma BracketMissing(tooBig: Overflow)
    requires !tooBig("1")
    ensures Parse("[1", tooBig).state == MissCommaOrSquareBracket
  {
    SkipWhitespaceStays("[1", 0);
    ArrayCut(tooBig);
    hide ParseArray, SkipWhitespace;
  }

  /** An array the text ends in before its first element: the element's EXPECT_VALUE comes back out. */
  lemma ArrayOpenEnd(tooBig: Overflow)
    ensures Parse("[", tooBig).state == ExpectValue
  {
    SkipWhitespaceStays("[", 0);
    SkipWhitespaceStays("[", 1);
    hide ParseValue, ArrayLoop, SkipWhitespace;
    assert ParseValue("[", Context(0, [], []), tooBig) == ArrayLoop("[", Context(1, [], []), 0, tooBig) by {
      hide ParseLiteral, ParseNumber, ParseString, ParseObject;
    }
    assert ParseValue("[", Context(1, [], []), tooBig).state == ExpectValue;
  }

  /** A value after an empty array at the root: ROOT_NOT_SINGULAR, the cursor on the `1`. */
  lemma EmptyArrayThenOne(tooBig: Overflow)
    ensures Parse("[]1", tooBig) == Parsed(RootNotSingular, None, Context(2, [], []))
  {
    assert Write(Array([])) == "[]";
    ParseTrailing([], Array([]), [], "1", tooBig);
    assert [] + Write(Array([])) + [] + "1" == "[]1";
  }

  /** parse_array reads the element and then finds the end of the text instead of `,` or `]`. */
  lemma ArrayCut(tooBig: Overflow)
    requires !tooBig("1")
    ensures ParseArray("[1", Context(0, [], []), tooBig).state == MissCommaOrSquareBracket
  {
    SkipWhitespaceStays("[1", 1);
    SkipWhitespaceStays("[1", 2);
    OneValue(tooBig);
    hide ParseValue, SkipWhitespace;
  }

  /** The element is the number `1`. */
  lemma OneValue(tooBig: Overflow)
    requires !tooBig("1")
    ensures ParseValue("[1", Context(1, [], []), tooBig) == Parsed(ParseOk, Some(Number("1")), Context(2, [], []))
  {
    OneScan();
    assert "[1"[1..] == "[1"[1..2] == "1";
    hide ScanNumber, ParseString, ParseArray, ParseObject, ParseLiteral;
  }

  /** The number scanner stops at the end of the text. */
  lemma OneScan()
    ensures ScanNumber("[1", 1) == Some(2)
  {
  }

  /** A colon where a key is due: MISS_KEY (Step7/ljson_test.cc:331). */
  lemma KeyMissing(tooBig: Overflow)
    ensures Parse("{:1,", tooBig).state == MissKey
  {
  }

  /** A string the text ends inside: MISS_QUOTATION_MARK (Step7/ljson_test.cc:283). */
  lemma QuoteMissing(tooBig: Overflow)
    ensures Parse("\"abs", tooBig).state == MissQuotationMark
  {
    RawQuoteMissing();
    LoopStops("\"abs", tooBig);
    hide *;
  }

  /** The decoding loop pushes `abs` and then runs into the end of the text. */
  lemma RawQuoteMissing()
    ensures Verdict("\"abs", 1) == Stop(MissQuotationMark)
  {
    PlainRun("\"abs", 1, 4);
  }

  /** `\v` is not an escape: INVALID_STRING_ESCAPE (Step7/ljson_test.cc:287). */
  lemma BadEscape(tooBig: Overflow)
    ensures Parse("\"\\v\"", tooBig).state == InvalidStringEscape
  {
    RawBadEscape();
    FirstStepStops("\"\\v\"", tooBig);
    hide *;
  }

  /** The first turn of the decoding loop stops on the unknown escape. */
  lemma RawBadEscape()
    ensures ReadStep("\"\\v\"", 1) == Stop(InvalidStringEscape)
  {
    hide ReadUnicodeEscape;
  }

  /** A raw control byte inside a string: INVALID_STRING_CHAR (Step7/ljson_test.cc:294). */
  lemma ControlChar(tooBig: Overflow)
    ensures Parse("\"\U{1}\"", tooBig).state == InvalidStringChar
  {
    RawControlChar();
    FirstStepStops("\"\U{1}\"", tooBig);
    hide *;
  }

  /** The first turn of the decoding loop stops on the control byte. */
  lemma RawControlChar()
    ensures ReadStep("\"\U{1}\"", 1) == Stop(InvalidStringChar)
  {
    hide ReadEscape;
  }

  /** A text that starts with a string whose first character the decoding loop rejects fails with that error. */
  lemma FirstStepStops(s: seq<char>, tooBig: Overflow)
    requires |s| > 1 && s[0] == '"' && ReadStep(s, 1).Stop?
    ensures Parse(s, tooBig).state == ReadStep(s, 1).state
  {
    assert Verdict(s, 1) == ReadStep(s, 1);
    LoopStops(s, tooBig);
  }

  /**
   A text that starts with a string whose decoding loop, after any number of
   pushed bytes, stops on an error fails with that error.
   */
  lemma LoopStops(s: seq<char>, tooBig: Overflow)
    requires |s| > 0 && s[0] == '"' && Verdict(s, 1).Stop?
    ensures Parse(s, tooBig).state == Verdict(s, 1).state
  {
    assert ParseStringRaw(s, Context(0, [], [])).state == Verdict(s, 1).state by {
      hide Verdict, StringLoop;
    }
    StringFails(s, tooBig);
  }

  /** A text that starts with a string the string reader rejects fails with the reader's error. */
  lemma StringFails(s: seq<char>, tooBig: Overflow)
    requires |s| > 0 && s[0] == '"' && ParseStringRaw(s, Context(0, [], [])).state != ParseOk
    ensures Parse(s, tooBig).state == ParseStringRaw(s, Context(0, [], [])).state
  {
    SkipWhitespaceStays(s, 0);
    hide ParseStringRaw, ParseArray, ParseObject, ParseNumber, ParseLiteral;
  }

  /** A key followed by `}`: MISS_COLON (Step7/ljson_test.cc:342). */
  lemma ColonMissing(tooBig: Overflow)
    ensures Parse("{\"a\"}", tooBig).state == MissColon
  {
    KeyA();
    hide ParseStringRaw, ParseArray, ParseNumber, ParseLiteral, ParseString;
  }

  /** The key of that text reads as `a` and leaves the cursor on the `}`. */
  lemma KeyA()
    ensures ParseStringRaw("{\"a\"}", Context(1, [], [])) == Raw(ParseOk, "a", Context(4, [], []))
  {
    hide ReadEscape;
  }

  /** A non-hex digit inside `\u`: INVALID_UNICODE_HEX (Step7/ljson_test.cc:306). */
  lemma BadHex(tooBig: Overflow)
    ensures Parse("\"\\u0G00\"", tooBig).state == InvalidUnicodeHex
  {
    RawBadHex();
    FirstStepStops("\"\\u0G00\"", tooBig);
    hide *;
  }

  /** The first turn of the decoding loop stops on the hex error. */
  lemma RawBadHex()
    ensures ReadStep("\"\\u0G00\"", 1) == Stop(InvalidUnicodeHex)
  {
    HexG();
    hide ParseHex4;
  }

  /** parse_hex4 rejects `0G00`. */
  lemma HexG()
    ensures ParseHex4("\"\\u0G00\"", 3) == None
  {
  }

  /** A high surrogate with nothing after it: INVALID_UNICODE_SURROGATE (Step7/ljson_test.cc:315). */
  lemma LoneHigh(tooBig: Overflow)
    ensures Parse("\"\\uD800\"", tooBig).state == InvalidUnicodeSurrogate
  {
    RawLoneHigh();
    FirstStepStops("\"\\uD800\"", tooBig);
    hide *;
  }

  /** The first turn of the decoding loop stops on the surrogate error. */
  lemma RawLoneHigh()
    ensures ReadStep("\"\\uD800\"", 1) == Stop(InvalidUnicodeSurrogate)
  {
    HexD800();
    hide ParseHex4;
  }

  /** parse_hex4 reads `D800`. */
  lemma HexD800()
    ensures ParseHex4("\"\\uD800\"", 3) == Some((0xD800, 7))
  {
  }

  /** A surrogate pair becomes the four UTF-8 bytes of U+1D11E (Step7/ljson_test.cc:126). */
  lemma Pair(tooBig: Overflow)
    ensures Parse("\"\\uD834\\uDD1E\"", tooBig) ==
      Parsed(ParseOk, Some(String(['\U{F0}', '\U{9D}', '\U{84}', '\U{9E}'])), Context(14, [], []))
  {
    PairRaw();
    SkipWhitespaceStays("\"\\uD834\\uDD1E\"", 0);
    SkipWhitespaceStays("\"\\uD834\\uDD1E\"", 14);
    hide ParseValue, SkipWhitespace, ParseStringRaw;
    assert ParseValue("\"\\uD834\\uDD1E\"", Context(0, [], []), tooBig) ==
      Parsed(ParseOk, Some(String(['\U{F0}', '\U{9D}', '\U{84}', '\U{9E}'])), Context(14, [], [])) by {
      hide ParseStringRaw, ParseArray, ParseObject, ParseNumber, ParseLiteral;
    }
  }

  /** parse_string_raw on that text: one escape pushes four bytes, then the closing quote. */
  lemma PairRaw()
    ensures ParseStringRaw("\"\\uD834\\uDD1E\"", Context(0, [], [])) ==
      Raw(ParseOk, ['\U{F0}', '\U{9D}', '\U{84}', '\U{9E}'], Context(14, [], []))
  {
    hide ReadStep, Verdict, StringLoop;
    PairPush();
    PairClose();
    assert ParseStringRaw("\"\\uD834\\uDD1E\"", Context(0, [], [])) ==
      StringLoop("\"\\uD834\\uDD1E\"", 1, Context(1, [], []), 0);
  }

  /** The first turn of the loop pushes the four bytes of the pair. */
  lemma PairPush()
    ensures StringLoop("\"\\uD834\\uDD1E\"", 1, Context(1, [], []), 0) ==
      StringLoop("\"\\uD834\\uDD1E\"", 13, Context(1, ['\U{F0}', '\U{9D}', '\U{84}', '\U{9E}'], []), 0)
  {
    hide ReadEscape, ReadStep;
    PairStep();
    assert PushBytes(Context(1, [], []), ['\U{F0}', '\U{9D}', '\U{84}', '\U{9E}']) ==
      Context(1, ['\U{F0}', '\U{9D}', '\U{84}', '\U{9E}'], []);
  }

  /** That turn reads the whole escape. */
  lemma PairStep()
    ensures ReadStep("\"\\uD834\\uDD1E\"", 1) == Push(['\U{F0}', '\U{9D}', '\U{84}', '\U{9E}'], 13)
  {
    assert Peek("\"\\uD834\\uDD1E\"", 1) == '\\';
    hide *;
    PairEscape();
  }

  /** The second turn meets the closing quote and hands the pushed bytes back. */
  lemma PairClose()
    ensures StringLoop("\"\\uD834\\uDD1E\"", 13, Context(1, ['\U{F0}', '\U{9D}', '\U{84}', '\U{9E}'], []), 0) ==
      Raw(ParseOk, ['\U{F0}', '\U{9D}', '\U{84}', '\U{9E}'], Context(14, [], []))
  {
    hide ReadEscape, ReadStep;
    assert ReadStep("\"\\uD834\\uDD1E\"", 13) == Close;
  }

  /** The escape of that text: both halves read and combined into one code point. */
  lemma PairEscape()
    ensures ReadEscape("\"\\uD834\\uDD1E\"", 2) == EscapeOk(['\U{F0}', '\U{9D}', '\U{84}', '\U{9E}'], 13)
  {
    PairHigh();
    PairLow();
    PairUtf8();
    hide ParseHex4, EncodeUtf8, CombineSurrogates;
  }

  /** parse_hex4 reads the high half of the pair. */
  lemma PairHigh()
    ensures ParseHex4("\"\\uD834\\uDD1E\"", 3) == Some((0xD834, 7))
  {
  }

  /** parse_hex4 reads the low half of the pair. */
  lemma PairLow()
    ensures ParseHex4("\"\\uD834\\uDD1E\"", 9) == Some((0xDD1E, 13))
  {
  }

  /** U+1D11E combined from its halves and encoded as UTF-8. */
  lemma PairUtf8()
    ensures EncodeUtf8(CombineSurrogates(0xD834, 0xDD1E)) == ['\U{F0}', '\U{9D}', '\U{84}', '\U{9E}']
  {
    assert CombineSurrogates(0xD834, 0xDD1E) == 0x1D11E;
  }

  /** An array holding null and an empty array, in the manner of the array tests (Step7/ljson_test.cc:130-171). */
  lemma Nested(tooBig: Overflow)
    ensures Parse("[null,[]]", tooBig) == Parsed(ParseOk, Some(Array([Null, Array([])])), Context(9, [], []))
  {
    var v := Array([Null, Array([])]);
    NestedText(tooBig);
    ParseWritten([], v, [], tooBig);
    hide *;
    assert [] + Write(v) + [] == "[null,[]]";
  }

  /** The simple escapes, each read as the byte it stands for (Step7/ljson_test.cc:121). */
  lemma ShortEscapes(tooBig: Overflow)
    ensures Parse("\"\\\" \\\\ \\/ \\b \\f \\n \\r \\t\"", tooBig) ==
      Parsed(ParseOk, Some(String("\" \\ / \U{8} \U{C} \n \r \t")), Context(25, [], []))
  {
    hide *;
    var v := String("\" \\ / \U{8} \U{C} \n \r \t");
    ShortEscapesText(tooBig);
    NoWhitespace();
    ParseWritten([], v, [], tooBig);
    assert [] + Write(v) + [] == "\"\\\" \\\\ \\/ \\b \\f \\n \\r \\t\"";
  }

  /** Those bytes are written with their short escapes, the slash included. */
  lemma ShortEscapesText(tooBig: Overflow)
    ensures Write(String("\" \\ / \U{8} \U{C} \n \r \t")) == "\"\\\" \\\\ \\/ \\b \\f \\n \\r \\t\""
    ensures Readable(String("\" \\ / \U{8} \U{C} \n \r \t"), tooBig)
  {
    hide WriteBytes;
    var b := "\" \\ / \U{8} \U{C} \n \r \t";
    EscapeBytesWritten();
    assert Write(String(b)) == ['"'] + WriteBytes(b) + ['"'];
    assert IsBytes(b);
  }

  /** The bytes of the escape test, written in four pieces. */
  lemma EscapeBytesWritten()
    ensures WriteBytes("\" \\ / \U{8} \U{C} \n \r \t") == "\\\" \\\\ \\/ \\b \\f \\n \\r \\t"
  {
    hide WriteBytes, WriteByte;
    var c1, c2, c3, c4 := "\" \\ ", "/ \U{8} ", "\U{C} \n ", "\r \t";
    EscapePieces();
    WriteBytesConcat(c3, c4);
    WriteBytesConcat(c2, c3 + c4);
    WriteBytesConcat(c1, c2 + (c3 + c4));
    assert c1 + (c2 + (c3 + c4)) == "\" \\ / \U{8} \U{C} \n \r \t";
  }

  /** The pieces of the escape test, each written byte by byte. */
  lemma EscapePieces()
    ensures WriteBytes("\" \\ ") == "\\\" \\\\ "
    ensures WriteBytes("/ \U{8} ") == "\\/ \\b "
    ensures WriteBytes("\U{C} \n ") == "\\f \\n "
    ensures WriteBytes("\r \t") == "\\r \\t"
    ensures WriteBytes("\n") == "\\n"
  {
    EscapeWrites();
    hide WriteByte;
  }

  /** The writer's escape table on the bytes of the escape test, and the space written as it is. */
  lemma EscapeWrites()
    ensures WriteByte('"') == "\\\"" && WriteByte('\\') == "\\\\" && WriteByte('/') == "\\/"
    ensures WriteByte('\U{8}') == "\\b" && WriteByte('\U{C}') == "\\f" && WriteByte('\n') == "\\n"
    ensures WriteByte('\r') == "\\r" && WriteByte('\t') == "\\t" && WriteByte(' ') == " "
  {
  }

  /** Each simple escape alone in a string reads as the byte the escape table gives it (Step7/ljson_test.cc:121). */
  lemma SimpleEscapeReads(e: char, tooBig: Overflow)
    requires IsSimpleEscape(e)
    ensures Parse(['"', '\\', e, '"'], tooBig) == Parsed(ParseOk, Some(String([Unescape(e)])), Context(4, [], []))
  {
    var v := String([Unescape(e)]);
    ShortEscapeInverse(e);
    assert WriteBytes([Unescape(e)]) == ['\\', e];
    assert Write(v) == ['"', '\\', e, '"'];
    ParseWritten([], v, [], tooBig);
    assert [] + Write(v) + [] == ['"', '\\', e, '"'];
  }

  /** An escaped line feed between two words (Step7/ljson_test.cc:120). */
  lemma LineFeed(tooBig: Overflow)
    ensures Parse("\"Hello\\nWorld\"", tooBig) == Parsed(ParseOk, Some(String("Hello\nWorld")), Context(14, [], []))
  {
    hide *;
    var v := String("Hello\nWorld");
    LineFeedText(tooBig);
    NoWhitespace();
    ParseWritten([], v, [], tooBig);
    assert [] + Write(v) + [] == "\"Hello\\nWorld\"";
  }

  /** That string is written with `\\n` for the line feed. */
  lemma LineFeedText(tooBig: Overflow)
    ensures Write(String("Hello\nWorld")) == "\"Hello\\nWorld\"" && Readable(String("Hello\nWorld"), tooBig)
  {
    hide WriteBytes;
    LineFeedBytes();
    assert Write(String("Hello\nWorld")) == ['"'] + WriteBytes("Hello\nWorld") + ['"'];
    assert IsBytes("Hello\nWorld");
  }

  /** The bytes of that string: the two words as they are, the line feed as `\\n`. */
  lemma LineFeedBytes()
    ensures WriteBytes("Hello\nWorld") == "Hello\\nWorld"
  {
    hide WriteBytes, WriteByte;
    var h, n, w := "Hello", "\n", "World";
    WritePlain(h);
    WritePlain(w);
    EscapePieces();
    WriteBytesConcat(n, w);
    WriteBytesConcat(h, n + w);
    assert h + (n + w) == "Hello\nWorld";
  }

  /** The empty text is all whitespace. */
  lemma NoWhitespace()
    ensures AllWhitespace([])
  {
  }

  /** That array is readable and written without whitespace. */
  lemma NestedText(tooBig: Overflow)
    ensures Write(Array([Null, Array([])])) == "[null,[]]" && Readable(Array([Null, Array([])]), tooBig)
  {
  }
}
