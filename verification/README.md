# ljson parser core in Dafny

ljson is a small recursive-descent JSON parser in C++. This project models
the parser of its last step, `ljson_context` in Step7/ljson.cc, which returns
a fresh value tree. It also models the in-place API of Step6/ljson.cc, which
writes the parsed value into an existing `ljson_value` record through
`set_type`, `set_number`, `set_string`, `set_array` and `set_objects`. The
model proves properties of both.

The model is a set of pure functions over the text as a `seq<char>`:

- The C string's terminating NUL is the `'\0'` that `Cursor.Peek` returns at
  or past the end of the text.
- The parser's context (`Scratch.Context`) holds three parts:
  - the cursor `json_`;
  - the byte stack (`stack_`/`top_`), used while decoding strings;
  - the handle buffer (`buffer_`), where array elements and object members
    are staged until their container closes.
- Every parse function returns the state code, the value on success, and the
  context it leaves behind.

The C library's `strtod` is not modelled. Its range check becomes a parameter
`tooBig: seq<char> -> bool`. That parameter sees the text from the number's
first character to the end, because that is what the source hands to
`strtod`.

Modules follow the source:

- `JsonValue`: the state and type enums and the value classes of
  Step7/ljson.h.
- `Cursor`: the cursor and `parse_whitespace`.
- `Scratch`: the byte stack and the handle buffer.
- `Number`: the `parse_number` scanner and the JSON number grammar of
  section 6 of RFC 8259.
- `Unicode`: `parse_hex4`, surrogate pairs and `encode_uft8`.
- `Strings`: `parse_string_raw`.
- `Parser`: the literal, number, string, array, object and value rules and
  `ljson_value::parse`.
- `Serialize`: a writer used only as the partner of the parser.
- `RoundTrip` and `Document`: writing a value out and parsing it back.
- `InPlace`: the Step6 record and its setters, accessors and `parse`.
- `Oracles`: the error cases of Step7/ljson_test.cc.

Two points about the states and the number conversion:

- The header declares `MISS_COMMA_OR_CURLY_BRACKET`, but no code returns it.
  A bad separator inside an object reuses `MISS_COMMA_OR_SQUARE_BRACKET`
  (Step7/ljson.cc:384). The model keeps the declared state, and
  `Parser.Parse` proves that it never comes out.
- `parse_number` hands `strtod` the cursor, that is, the rest of the text
  from the number's first character (Step7/ljson.cc:189). So `tooBig` sees
  that whole suffix, not only the scanned lexeme.

## Model

| member | source | states |
|---|---|---|
| JsonValue.StateCode | Step7/ljson.h:14-29 | the codes run from 0 to 13, and 0 is the code of PARSE_OK and of no other state |
| JsonValue.StateCodeInjective | Step7/ljson.h:14-29 | two states share a code only if they are the same state |
| JsonValue.TagCode | Step7/ljson.h:31-39 | the type codes run from 0 to 6, and 0 is LJSON_NULL alone |
| JsonValue.CreateByType | Step7/ljson.cc:22-39 | creation fails exactly for NUMBER, which has no case; for every other type the new value has that type and an empty payload |
| JsonValue.TypeOf | Step7/ljson.h:68-204 | get_type reports one of the three payload-less types NULL, FALSE and TRUE exactly for the literals |
| JsonValue.GetValue | Step7/ljson.h:54-207 | get_value hands out nothing exactly for the payload-less types, and otherwise a payload of the kind set_value accepts for that value |
| JsonValue.SetValue | Step7/ljson.h:62-216 | set_value keeps the value's type; a literal ignores it, and any other kind hands its payload back from get_value |
| JsonValue.SetGetIdentity | Step7/ljson.h:62-216 | storing back what get_value returned leaves the value as it was |
| Cursor.PeekNul | Step7/ljson.cc:393-404 | in a text without NUL bytes, the cursor reads the terminator exactly at the end of the text |
| Cursor.Peek | Step7/ljson.cc:134-139 | the cursor reads the text's character inside it, and a character other than the terminating NUL only inside it |
| Cursor.SkipWhitespace | Step7/ljson.cc:134-139 | the cursor stays in the text and skips only whitespace; it stops on a character that is not whitespace, so the run skipped is maximal |
| Cursor.SkipWhitespaceIdempotent | Step7/ljson.cc:134-139 | skipping whitespace a second time does not move the cursor |
| Cursor.SkipWhitespaceOver | Step7/ljson.cc:134-139 | any whitespace run that ends at a non-whitespace character is exactly what is skipped |
| Scratch.PutChar | Step7/ljson.cc:85-88 | one byte goes on top of the stack; the bytes below, the cursor and the buffer are untouched |
| Scratch.PushBytes | Step7/ljson.cc:90-103 | the bytes are appended above the old stack, which is kept below them |
| Scratch.Pop | Step7/ljson.cc:105-108 | n bytes come off the top; the bytes left plus the bytes popped make up the old stack |
| Scratch.PushPop | Step7/ljson.cc:90-108 | popping what was just pushed returns those bytes and the context from before the push |
| Scratch.PushBuffer | Step7/ljson.cc:110-112 | one handle is appended to the buffer and nothing else changes |
| Scratch.Reverse | Step7/ljson.cc:124-125 | the reversal puts the k-th element from the end in position k |
| Scratch.PopBack | Step7/ljson.cc:116-123 | the pops come newest first, after what was already popped; the buffer keeps everything below them |
| Scratch.PopBuffer | Step7/ljson.cc:114-127 | pop_buffer returns the top n handles in the order they were pushed, and the buffer below them |
| Scratch.TopPush | Step7/ljson.cc:110-127 | staging one more handle adds it at the end of the entries of the container being read |
| Scratch.ValuesOfPush | Step7/ljson.cc:317-318 | a staged element extends the element list by exactly that value |
| Scratch.MembersOfPush | Step7/ljson.cc:371-374 | a staged member extends the member list by exactly that member |
| Number.SkipDigits | Step7/ljson.cc:167 | the scan consumes a maximal run of decimal digits |
| Number.ScanInt | Step7/ljson.cc:158-168 | a successful integer part consumes at least one character |
| Number.ScanFrac | Step7/ljson.cc:169-177 | the fraction fails exactly on a `.` with no digit after it; it is absent exactly when no `.` follows; a present fraction is `.`, at least one digit, and a maximal run of digits |
| Number.ScanExp | Step7/ljson.cc:178-186 | the exponent is absent exactly when no `e` or `E` follows; after the letter and an optional sign it fails exactly when no digit follows; a present exponent ends on a non-digit |
| Number.ScanNumber | Step7/ljson.cc:155-187 | a number that scans consumes at least one character and stays in the text |
| Number.ScanNumberSound | Step7/ljson.cc:155-187 | every span the scanner accepts is a JSON number (optional minus, int, frac, exp) |
| Number.ScanNumberComplete | Step7/ljson.cc:155-187 | every JSON number not followed by a character that could extend it is scanned to exactly its end |
| Number.ScanNumberStops | Step7/ljson.cc:160-186 | after an accepted span a `.` can stand only once a fraction or exponent was read, an `e`/`E` only once an exponent was read, and a digit only after a lone integer `0`: a `.` or exponent letter with no digit after it makes the scan fail |
| Number.NumberCuts | Step7/ljson.cc:155-187 | a JSON number splits into sign, integer, fraction and exponent parts |
| Number.NumberStart | Step7/ljson.cc:157-165 | a JSON number starts with a minus or a digit, so no other first character can open one |
| Unicode.HexNumber | Step7/ljson.cc:204-211 | n hex digits spell a value below 16 to the power n |
| Unicode.Hex4Loop | Step7/ljson.cc:204-211 | the four-digit loop succeeds exactly on hex digits and accumulates their big-endian value |
| Unicode.ParseHex4 | Step7/ljson.cc:202-213 | it succeeds exactly on four hex digits, ends four characters on, and yields the value the digits spell, below 0x10000 |
| Unicode.ParseHex4Inverse | Step7/ljson.cc:202-213 | reading the four digits written for a code unit gives that unit back |
| Unicode.CombineSurrogates | Step7/ljson.cc:274 | a high and a low surrogate combine into a code point from 0x10000 to 0x10FFFF |
| Unicode.SplitSurrogates | Step7/ljson.cc:274 | every code point above the BMP is the combination of some high and low surrogate |
| Unicode.SplitCombine | Step7/ljson.cc:274 | the combination is one-to-one: splitting it gives back the surrogates |
| Unicode.EncodeUtf8 | Step7/ljson.cc:215-234 | the byte count is 1, 2, 3 or 4 by the range of the code point; the lead byte and continuation bytes carry the UTF-8 marker bits |
| Unicode.Utf8RoundTrip | Step7/ljson.cc:215-234 | decoding the bytes written for a code point gives that code point back |
| Strings.Unescape | Step7/ljson.cc:253-260 | a simple escape yields a nonzero byte, which is the escape character itself exactly for `"`, `\` and `/`; `b`, `f`, `n`, `r` and `t` yield 8, 12, 10, 13 and 9 |
| Strings.ShortEscape | Step7/ljson.cc:253-260 | for each byte that has a simple escape, the escape letter that yields that byte |
| Strings.ShortEscapeInverse | Step7/ljson.cc:253-260 | the escape table is one-to-one: each simple escape is the one written for the byte it yields |
| Strings.ReadUnicodeEscape | Step7/ljson.cc:261-277 | a good \u escape consumes at least four characters and yields 1 to 4 bytes; it fails only with INVALID_UNICODE_HEX or INVALID_UNICODE_SURROGATE |
| Strings.UnicodeHexCase | Step7/ljson.cc:262-263 | four characters that are not all hex digits are INVALID_UNICODE_HEX |
| Strings.UnicodeUnitCase | Step7/ljson.cc:262-276 | a code unit that is not a high surrogate, a lone low surrogate included, is encoded as UTF-8 and the escape ends after its four digits |
| Strings.UnicodePairCase | Step7/ljson.cc:264-275 | after a high surrogate, a missing `\` or `u` is INVALID_UNICODE_SURROGATE, four non-hex characters are INVALID_UNICODE_HEX, a unit that is not a low surrogate is INVALID_UNICODE_SURROGATE, and a low surrogate completes the pair, encoded as one code point, ten characters on |
| Strings.ReadEscape | Step7/ljson.cc:251-281 | a simple escape yields exactly its one byte and ends one character on; `u` reads a \u escape; any other character is INVALID_STRING_ESCAPE |
| Strings.ReadStep | Step7/ljson.cc:242-288 | `"` closes the string; NUL is MISS_QUOTATION_MARK; bytes 0x01 to 0x1F are INVALID_STRING_CHAR; a backslash pushes the escape's bytes or stops with its error; any other character is pushed as itself |
| Strings.Verdict | Step7/ljson.cc:240-290 | the first turn of the loop that pushes nothing is the closing quote or a string error |
| Strings.LoopVerdict | Step7/ljson.cc:240-290 | whatever was pushed before it, the first turn that pushes nothing decides the loop: its error, or OK on the closing quote |
| Strings.PlainRun | Step7/ljson.cc:284-287 | characters that are not `"`, `\` or control bytes are pushed and read past, so the turn after them is the verdict |
| Strings.StringLoop | Step7/ljson.cc:238-290 | the stack comes back to its height at entry; a failure yields no bytes and leaves the cursor; a success ends just past a closing quote, and the bytes that were above the entry height start the result |
| Strings.StringFail | Step7/ljson.cc:236 | a string error keeps the error code, yields no bytes, leaves the cursor and the buffer, and cuts the stack back to its height at entry, keeping everything below |
| Strings.LoopDecodes | Step7/ljson.cc:238-290 | on success the loop returns exactly the bytes above the entry height followed by every byte its turns pushed, in reading order, up to the closing quote |
| Strings.ParseStringRaw | Step7/ljson.cc:238-290 | the stack and buffer are as at entry; a failure leaves the cursor right after the opening quote; a success ends just past the closing quote and returns exactly the bytes the loop's turns decoded; the state is the error of the first turn that pushes nothing, or OK when that turn meets the closing quote |
| Strings.ParseWrittenString | Step7/ljson.cc:238-290 | the quoted, escaped form of any byte string decodes to exactly those bytes and ends after its closing quote |
| Strings.ReadWrittenBytes | Step7/ljson.cc:242-287 | the loop reads the written form of a byte string back byte by byte, on top of whatever it already pushed |
| Strings.ReadCodePoint | Step7/ljson.cc:261-277 | the \u escape of any code point, as a surrogate pair above the BMP, decodes to the UTF-8 encoding of that code point |
| Strings.LoneHighSurrogate | Step7/ljson.cc:265-269 | a high surrogate not followed by `\u` is INVALID_UNICODE_SURROGATE |
| Strings.UnpairedHighSurrogate | Step7/ljson.cc:270-273 | a high surrogate followed by a \u escape that is not a low surrogate is INVALID_UNICODE_SURROGATE |
| Parser.LiteralLoop | Step7/ljson.cc:145-147 | the loop succeeds exactly when the rest of the literal stands in the text |
| Parser.LiteralLoopAt | Step7/ljson.cc:141-152 | given the first character, the loop succeeds exactly when the whole literal stands at the cursor |
| Parser.ParseLiteral | Step7/ljson.cc:141-152 | OK exactly when the literal stands at the cursor, with the value of its type and the cursor after it; otherwise INVALID_VALUE with the cursor one past the first character |
| Parser.ParseNumber | Step7/ljson.cc:154-199 | OK, INVALID_VALUE or NUMBER_TOO_BIG; INVALID_VALUE exactly when the scanner rejects the text, NUMBER_TOO_BIG exactly when it accepts and the conversion overflows; on success the value is the scanned lexeme, a JSON number, and the cursor stops where the scanner does; failure moves nothing |
| Parser.ParseString | Step7/ljson.cc:292-302 | the stack and buffer are restored; the state is exactly the one parse_string_raw returned; success is a String holding the bytes it decoded |
| Parser.Abandon | Step7/ljson.cc:332-334 | an abandoned container reports its error, has no value, and frees exactly its own staged entries |
| Parser.ParseValue | Step7/ljson.cc:393-404 | the cursor only moves forward and stays in the text; stack and buffer are restored; a value exists exactly on OK; the value's kind matches the character dispatched on; the end of the text where a value is due is EXPECT_VALUE with nothing moved |
| Parser.ParseArray | Step7/ljson.cc:304-335 | as parse_value, and success yields an array |
| Parser.ArrayLoop | Step7/ljson.cc:313-334 | whatever happens, the buffer is cut back to below this array's entries; success consumes text and yields an array; an element that fails passes its own error and cursor up unchanged |
| Parser.ArrayNext | Step7/ljson.cc:319-331 | after an element the buffer is cut back the same way on `,`, `]` or an error; anything but `,` or `]` after the whitespace is MISS_COMMA_OR_SQUARE_BRACKET with the cursor on it |
| Parser.CloseArray | Step7/ljson.cc:323-326 | on `]` the array holds the staged elements in source order and they leave the buffer |
| Parser.ParseObject | Step7/ljson.cc:337-391 | as parse_value, and success yields an object |
| Parser.ObjectLoop | Step7/ljson.cc:346-390 | the buffer is cut back to below this object's members; a missing opening quote is MISS_KEY with the cursor left on it; a key that fails passes parse_string_raw's error and cursor up unchanged; success yields an object |
| Parser.ObjectColon | Step7/ljson.cc:359-365 | after a key the buffer is cut back the same way; success yields an object; anything but `:` after the whitespace is MISS_COLON with the cursor on it |
| Parser.ObjectValue | Step7/ljson.cc:365-374 | after the colon the buffer is cut back the same way; success yields an object; a member value that fails passes its own error and cursor up unchanged |
| Parser.ObjectNext | Step7/ljson.cc:375-386 | after a member the buffer is cut back the same way on `,`, `}` or an error; anything but `,` or `}` after the whitespace is MISS_COMMA_OR_SQUARE_BRACKET, the array's code, with the cursor on it |
| Parser.CloseObject | Step7/ljson.cc:379-382 | on `}` the object holds the staged members in source order and they leave the buffer |
| Parser.Parse | Step7/ljson.cc:406-419 | stack and buffer end empty; a value exists exactly on OK; MISS_COMMA_OR_CURLY_BRACKET never comes out; a root value that fails passes its error up; a root value that parses gives OK exactly when only whitespace follows it, and ROOT_NOT_SINGULAR otherwise |
| Serialize.LexemeVerdict | Step7/ljson.cc:188-197 | for an overflow verdict that, like strtod, depends only on the number at the start of the text, a lexeme converts wherever the scanner stops after it exactly when the lexeme alone does not overflow |
| Serialize.ConvertsHere | Step7/ljson.cc:188-197 | a lexeme that converts does not overflow where it is written, whatever follows the character that ends it |
| Serialize.WriteStart | Step7/ljson.cc:393-404 | a written value starts with the character that makes parse_value choose that value's rule |
| RoundTrip.ReadValue | Step7/ljson.cc:393-404 | any value written out parses back as itself and consumes exactly its text, if after a number the next character ends it |
| RoundTrip.ReadLiteral | Step7/ljson.cc:141-152 | null, true and false parse to their values |
| RoundTrip.ReadNumber | Step7/ljson.cc:154-199 | a JSON number followed by a character that ends it parses to itself with the cursor after it, unless the conversion of the text from the cursor overflows, which is NUMBER_TOO_BIG with nothing moved |
| RoundTrip.NumberDispatch | Step7/ljson.cc:394-398 | a value that starts with a minus sign or a digit is handed to parse_number |
| RoundTrip.ArrayDispatch | Step7/ljson.cc:400 | a value that starts with `[` is handed to parse_array |
| RoundTrip.ObjectDispatch | Step7/ljson.cc:401 | a value that starts with `{` is handed to parse_object |
| RoundTrip.ArrayEnters | Step7/ljson.cc:304-314 | when the character after `[` is neither whitespace nor `]`, parse_array starts its element loop right there with nothing staged |
| RoundTrip.ObjectEnters | Step7/ljson.cc:337-347 | when a `"` follows `{` at once, parse_object starts its member loop right there with nothing staged |
| RoundTrip.ScanLexeme | Step7/ljson.cc:155-187 | the scanner stops right after a written lexeme when the next character ends a number |
| RoundTrip.ReadString | Step7/ljson.cc:292-302 | a written byte string parses to those bytes |
| RoundTrip.ValueFirst | Step7/ljson.cc:393-404 | a written value starts inside the text, on the character for its kind, which is not whitespace |
| RoundTrip.ReadEmptyArray | Step7/ljson.cc:309-312 | `[]` is an empty array and consumes two characters |
| RoundTrip.ReadArray | Step7/ljson.cc:304-335 | a written array parses back to the same elements in the same order |
| RoundTrip.ReadElementAt | Step7/ljson.cc:313-331 | with the first i elements staged, the rest of a written array completes the array |
| RoundTrip.ReadMoreElementsAt | Step7/ljson.cc:319-331 | after a staged element, `,` continues and `]` closes the same array |
| RoundTrip.ReadEmptyObject | Step7/ljson.cc:342-345 | `{}` is an empty object and consumes two characters |
| RoundTrip.ReadObject | Step7/ljson.cc:337-391 | a written object parses back to the same members in the same order |
| RoundTrip.ReadKey | Step7/ljson.cc:350-358 | a written key is decoded and the loop moves on to the colon |
| RoundTrip.ReadMemberAt | Step7/ljson.cc:346-386 | with the first i members staged, the rest of a written object completes the object |
| RoundTrip.ReadMoreMembersAt | Step7/ljson.cc:375-386 | after a staged member, `,` continues and `}` closes the same object |
| Document.ParseWritten | Step7/ljson.cc:406-419 | a written value with whitespace around it parses as itself, consumes the whole text, and leaves stack and buffer empty |
| Document.ParseTrailing | Step7/ljson.cc:411-417 | a written value followed by whitespace and then another character is ROOT_NOT_SINGULAR, with the cursor on that character; only a number needs that character not to extend it |
| Document.ParseBlank | Step7/ljson.cc:406-419 | a text of only whitespace is EXPECT_VALUE |
| InPlace.SetType | Step6/ljson.h:74 | the tag becomes the one given; the payload slots stay as they were |
| InPlace.SetNumber | Step6/ljson.h:76 | the tag becomes NUMBER and the number slot holds the number; nothing else changes |
| InPlace.Destroy | Step6/ljson.cc:390-395 | the tag becomes NULL and the slots stay as they were |
| InPlace.SetString | Step6/ljson.cc:441-449 | the tag becomes STRING; get_string returns the bytes followed by a NUL, and get_string_length returns their count; nothing else changes |
| InPlace.SetArray | Step6/ljson.cc:451-454 | the tag becomes ARRAY and the record holds the elements; nothing else changes |
| InPlace.SetObjects | Step6/ljson.cc:460-463 | the tag becomes OBJECT and the record holds the members; nothing else changes |
| InPlace.GetString | Step6/ljson.cc:397-400 | only for a STRING record: the bytes followed by the terminating NUL |
| InPlace.GetObjectKey | Step6/ljson.cc:423-427 | only for an OBJECT record and an index in range: the key bytes followed by the NUL that parse_object wrote |
| InPlace.GetStringLength | Step6/ljson.cc:402-405 | only for a STRING record: the length of the string the record presents, with the NUL of get_string right after it |
| InPlace.GetArraySize | Step6/ljson.cc:407-410 | only for an ARRAY record: the number of elements the record presents |
| InPlace.GetArrayElement | Step6/ljson.cc:412-416 | only for an ARRAY record and an index in range: that element of the array the record presents |
| InPlace.GetObjectsSize | Step6/ljson.cc:418-421 | only for an OBJECT record: the number of members the record presents |
| InPlace.GetObjectKeyLength | Step6/ljson.cc:429-433 | only for an OBJECT record and an index in range: the length of that member's key, where get_object_key has its NUL |
| InPlace.GetObjectValue | Step6/ljson.cc:435-439 | only for an OBJECT record and an index in range: that member's value |
| InPlace.Load | Step6/ljson.h:100-115 | the value a record presents has the record's tag as its type |
| InPlace.AccessorsAgree | Step6/ljson.cc:397-438 | the accessors read exactly the presented value: sizes, bytes before the NUL, elements, and keys and values in order |
| InPlace.StoreAsWritten | Step6/ljson.cc:122-363 | the writes the handlers make, as in the source; afterwards the tag is the parsed value's type |
| InPlace.StoreAsWrittenLoads | Step6/ljson.cc:273-317 | the source's writes make the record present the parsed value exactly when no stale entries show: `[]` needs a record without elements, `{}` one without members |
| InPlace.FreshStore | Step6/ljson.cc:284-285 | a freshly created record, as every element and member value is, presents the value stored in it |
| InPlace.Store | Step6/ljson.cc:295-297 | the corrected writes; afterwards the tag is the parsed value's type |
| InPlace.StoreLoads | Step6/ljson.cc:295-297 | with the corrected writes, any record presents exactly the stored value, whatever it held before |
| InPlace.StoreBy | Step6/ljson.cc:273-363 | either set of writes leaves the tag at the parsed value's type |
| InPlace.ParseInto | Step6/ljson.cc:465-478 | the state is that of the Step7 parser on the same text; a failure leaves the tag NULL; success leaves the value's type as the tag; with the corrected writes the record presents the parsed value |
| InPlace.ParseIgnoresTag | Step6/ljson.cc:465-468 | the tag the record had before parse makes no difference |
| InPlace.FailureKeepsSlots | Step6/ljson.cc:465-478 | a parse that fails inside the value leaves every slot but the number slot as it was, with the tag NULL |
| InPlace.ParseIntoOk | Step6/ljson.cc:465-478 | a successful parse leaves exactly what the version's writes make of the record with its tag reset |
| InPlace.StaleElements | Step6/ljson.cc:277-280 | `[null]` then `[]` parsed into one record: the second parse reports OK and an array, yet the record still presents `[null]` |
| Oracles.ExpectValueEmpty | Step7/ljson_test.cc:247 | the empty text is EXPECT_VALUE |
| Oracles.InvalidNul | Step7/ljson_test.cc:253 | `nul` is INVALID_VALUE |
| Oracles.PlusSign | Step7/ljson_test.cc:258 | `+1` is INVALID_VALUE |
| Oracles.NumberFails | Step7/ljson.cc:155-186 | a text that starts with a minus sign or a digit but that the number scanner rejects is INVALID_VALUE at the root |
| Oracles.DotDangling | Step7/ljson_test.cc:260 | `1.` is INVALID_VALUE |
| Oracles.ExpDangling | Step7/ljson.cc:178-183 | `1e` is INVALID_VALUE |
| Oracles.SignDangling | Step7/ljson.cc:178-183 | `1E+` is INVALID_VALUE |
| Oracles.NullX | Step7/ljson_test.cc:268 | `null x` is ROOT_NOT_SINGULAR |
| Oracles.LeadingZero | Step7/ljson_test.cc:271 | `0123` is ROOT_NOT_SINGULAR: the number ends after the zero |
| Oracles.ZeroValue | Step7/ljson_test.cc:271 | parse_value on `0123` returns the lexeme `0` and stops the cursor after the zero |
| Oracles.TooBig | Step7/ljson_test.cc:277 | `1e309` is NUMBER_TOO_BIG when its conversion overflows |
| Oracles.QuoteMissing | Step7/ljson_test.cc:283 | `"abs` is MISS_QUOTATION_MARK |
| Oracles.LoopStops | Step7/ljson.cc:238-302 | a text that starts with a string whose decoding loop stops on an error, after any number of pushed bytes, fails with that error |
| Oracles.BadEscape | Step7/ljson_test.cc:287 | `"\v"` is INVALID_STRING_ESCAPE |
| Oracles.ControlChar | Step7/ljson_test.cc:294 | a control byte inside a string is INVALID_STRING_CHAR |
| Oracles.BadHex | Step7/ljson_test.cc:306 | `"\u0G00"` is INVALID_UNICODE_HEX |
| Oracles.LoneHigh | Step7/ljson_test.cc:315 | `"\uD800"` is INVALID_UNICODE_SURROGATE |
| Oracles.BracketMissing | Step7/ljson_test.cc:324 | `[1` is MISS_COMMA_OR_SQUARE_BRACKET |
| Oracles.ArrayOpenEnd | Step7/ljson.cc:313-316 | `[` is EXPECT_VALUE: the missing element's error comes out of the array |
| Oracles.EmptyArrayThenOne | Step7/ljson.cc:411-417 | `[]1` is ROOT_NOT_SINGULAR with the cursor on the `1` |
| Oracles.ArrayCut | Step7/ljson_test.cc:324 | parse_array of `[1` reads the element, then reaches the end where `,` or `]` is due |
| Oracles.OneValue | Step7/ljson_test.cc:324 | the element read from `[1` is the number `1` |
| Oracles.KeyMissing | Step7/ljson_test.cc:331 | `{:1,` is MISS_KEY |
| Oracles.ColonMissing | Step7/ljson_test.cc:342 | `{"a"}` is MISS_COLON |
| Oracles.LineFeed | Step7/ljson_test.cc:120 | `"Hello\nWorld"` is the string of the two words with a line feed between them, and it consumes all fourteen characters |
| Oracles.ShortEscapes | Step7/ljson_test.cc:121 | the string of all eight simple escapes separated by spaces reads as `"`, `\`, `/`, backspace, form feed, line feed, carriage return and tab separated by spaces |
| Oracles.SimpleEscapeReads | Step7/ljson_test.cc:121 | each simple escape alone in a string reads as the one byte the escape table gives it |
| Oracles.Pair | Step7/ljson_test.cc:126 | `"\uD834\uDD1E"` (G clef, U+1D11E) is the string of the four UTF-8 bytes F0 9D 84 9E |
| Oracles.PairUtf8 | Step7/ljson_test.cc:126 | the pair D834 DD1E combines to U+1D11E, which is encoded as F0 9D 84 9E |
| Oracles.Nested | Step7/ljson_test.cc:130-171 | in the manner of the array tests, `[null,[]]` is an array holding null and an empty array, and it consumes all nine characters |

## Left out

- Memory: the `realloc` growth of the byte stack and the handle buffer is left out. The model's stack and buffer are unbounded sequences. The destructor's `top_ == 0` assertion is covered by `Parser.Parse`, whose stack and buffer end empty.
- Reference counting: shared pointers, `malloc`/`free` and the leaks they allow are not modelled.
- Number conversion: `strtod` and floating point are left out. A number is kept as its lexeme, and overflow is the `tooBig` parameter. The lexeme can differ from what `strtod` reads when `strtod` reads past it: on `0123` the scanner stops after the `0`, while `strtod` reads 123, and on `0x10` `strtod` reads a hexadecimal 16. Such a value never comes out with OK, since the parse then ends in ROOT_NOT_SINGULAR. Step6 still leaves 123.0 in the record's number slot in that case, where `InPlace.ParseInto` leaves the lexeme `0`.
- Serialize.Readable: a number is readable when it converts without overflow wherever the scanner stops after it, that is before the end of the text or before a character that ends a number. `Serialize.LexemeVerdict` shows that for a `strtod`-like verdict this is the same as the lexeme alone not overflowing. The characters that end a number exclude `x` and `X`, because `strtod` reads `0x` as the start of a hexadecimal number.
- Recursion depth: nesting depth and a possible stack overflow in the C++ recursion are left out.
- Test driver: the test macros, counters and the printing of Step7/ljson_test.cc are left out. Only the inputs and expected states of the error tests and a few value tests are kept, as lemmas in `Oracles`.
- get_number: Step6/ljson.h:56 reads the number slot without a tag check, and it is not modelled. `InPlace.Load` reads the slot only for a NUMBER record.
- The union of str_ and number_: Step6/ljson.h:108-111 makes the string and number slots share storage, so `set_number` on a STRING record leaks the string. The model keeps the two slots apart.
- Strings left behind: parse sets the tag to NULL without `destroy` (Step6/ljson.cc:468), so a string held before is never freed. That is a leak, and it is not modelled.
- InPlace.ParseInto: after an overflow at the root, the number slot holds the text handed to the conversion rather than the converted double.
- RoundTrip.ReadValue: a number must be followed by the end of the text or by a character that ends a number. That excludes a digit, `.`, `e` and `E`, on which the scanner would read on, and `x` and `X`, on which `strtod` would read on after a leading `0`. Inside written arrays and objects this always holds.
- Strings.ReadCodePoint: a lone low surrogate (`\uDC00` with no high surrogate before it) is accepted by the source and encoded as three bytes. The lemma covers every code point that is not a high surrogate, so this case is included as the source has it, not rejected.
- Number.ScanInt: the contract states only that the integer part is non-empty. Its grammar is proved by the soundness lemmas.

## Findings

| source | as written | input that shows it | evidently intended | confidence | as-written member | corrected member |
|---|---|---|---|---|---|---|
| Step6/ljson.cc:277-280 | an empty `[]` (and likewise `{}` at 314-317) only sets the tag to ARRAY, so the elements or members already in a reused record stay there | parse `[null]` into a record, then parse `[]` into the same record: the state is OK, but get_array_size is 1 | the record holds an empty array after parsing `[]` | not executed; high | InPlace.StaleElements | InPlace.StoreLoads |
