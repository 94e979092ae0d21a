/**
 The value tree the parser builds, and the two closed enumerations of the
 library: the parse state (LJSON_STATE) and the value type tag (LJSON_TYPE).

 The C++ class hierarchy (one subclass of ljson_value per JSON type, payloads
 handed out through type-erased shared pointers) becomes one datatype; the
 type-erased payload becomes the `Payload` datatype.
 */
module JsonValue {

  datatype Option<+T> = None | Some(value: T)

  /** Result code of a parse; `ParseOk` is the only success. */
  datatype State =
    | ParseOk
    | ExpectValue
    | InvalidValue
    | RootNotSingular
    | NumberTooBig
    | MissQuotationMark
    | InvalidStringEscape
    | InvalidStringChar
    | InvalidUnicodeHex
    | InvalidUnicodeSurrogate
    | MissCommaOrSquareBracket
    | MissKey
    | MissColon
    | CommaOrCurlyBracket  // declared by the library, produced by no parse path

  /** The integer each state has in the enumeration: success is 0, the errors are 1..13 in order. */
  function StateCode(e: State): (n: nat)
    ensures n == 0 <==> e == ParseOk
    ensures n <= 13
  {
    match e
    case ParseOk => 0
    case ExpectValue => 1
    case InvalidValue => 2
    case RootNotSingular => 3
    case NumberTooBig => 4
    case MissQuotationMark => 5
    case InvalidStringEscape => 6
    case InvalidStringChar => 7
    case InvalidUnicodeHex => 8
    case InvalidUnicodeSurrogate => 9
    case MissCommaOrSquareBracket => 10
    case MissKey => 11
    case MissColon => 12
    case CommaOrCurlyBracket => 13
  }

  /** Distinct states have distinct codes, so a caller may compare codes instead of states. */
  lemma StateCodeInjective(a: State, b: State)
    ensures StateCode(a) == StateCode(b) <==> a == b
  {
  }

  /** The type tag of a value. */
  datatype Tag = NullTag | FalseTag | TrueTag | NumberTag | StringTag | ArrayTag | ObjectTag

  function TagCode(t: Tag): (n: nat)
    ensures n <= 6
    ensures n == 0 <==> t == NullTag
  {
    match t
    case NullTag => 0
    case FalseTag => 1
    case TrueTag => 2
    case NumberTag => 3
    case StringTag => 4
    case ArrayTag => 5
    case ObjectTag => 6
  }

  /**
   A JSON value. A number keeps the lexeme it was read from (the conversion to
   a double is outside this model); a string keeps its bytes, each a char in
   0..255, NUL included.
   */
  datatype Value =
    | Null
    | False
    | True
    | Number(lexeme: seq<char>)
    | String(bytes: seq<char>)
    | Array(elements: seq<Value>)
    | Object(members: seq<Member>)

  /** An object member: key bytes and value. Keys are never compared, so duplicates stay. */
  datatype Member = Member(key: seq<char>, value: Value)

  /** get_type: the fixed tag each kind of value reports. */
  function TypeOf(v: Value): (t: Tag)
    ensures TagCode(t) <= 2 <==> v.Null? || v.False? || v.True?
  {
    match v
    case Null => NullTag
    case False => FalseTag
    case True => TrueTag
    case Number(_) => NumberTag
    case String(_) => StringTag
    case Array(_) => ArrayTag
    case Object(_) => ObjectTag
  }

  /**
   create_ljson_value_by_type: a default-constructed value of the given type.
   There is no case for numbers, which yields no value at all.
   */
  function CreateByType(t: Tag): (r: Option<Value>)
    ensures r.None? <==> t == NumberTag
    ensures r.Some? ==> TypeOf(r.value) == t
    ensures r.Some? ==> GetValue(r.value).NoPayload? || GetValue(r.value) == EmptyPayload(t)
  {
    match t
    case NullTag => Some(Null)
    case TrueTag => Some(True)
    case FalseTag => Some(False)
    case StringTag => Some(String([]))
    case ArrayTag => Some(Array([]))
    case ObjectTag => Some(Object([]))
    case NumberTag => None
  }

  /** The payload a type-erased get_value hands out; null, true and false hand out nothing. */
  datatype Payload =
    | NoPayload
    | NumberPayload(lexeme: seq<char>)
    | StringPayload(bytes: seq<char>)
    | ElementsPayload(elements: seq<Value>)
    | MembersPayload(members: seq<Member>)

  /** The payload of a default-constructed value of a type that has one. */
  function EmptyPayload(t: Tag): Payload
  {
    match t
    case StringTag => StringPayload([])
    case ArrayTag => ElementsPayload([])
    case ObjectTag => MembersPayload([])
    case NumberTag => NumberPayload(['0'])
    case _ => NoPayload
  }

  /** get_value of each subclass. */
  function GetValue(v: Value): (p: Payload)
    ensures p.NoPayload? <==> TagCode(TypeOf(v)) <= 2
    ensures Accepts(v, p)
  {
    match v
    case Number(n) => NumberPayload(n)
    case String(b) => StringPayload(b)
    case Array(es) => ElementsPayload(es)
    case Object(ms) => MembersPayload(ms)
    case _ => NoPayload
  }

  /** The payload kind set_value of each subclass casts its argument to. */
  predicate Accepts(v: Value, p: Payload)
  {
    match v
    case Number(_) => p.NumberPayload?
    case String(_) => p.StringPayload?
    case Array(_) => p.ElementsPayload?
    case Object(_) => p.MembersPayload?
    case _ => true
  }

  /**
   set_value of each subclass: replaces the payload, or does nothing for null,
   true and false. The tag never changes, and reading the payload back gives
   exactly what was stored.
   */
  function SetValue(v: Value, p: Payload): (r: Value)
    requires Accepts(v, p)
    ensures TypeOf(r) == TypeOf(v)
    ensures GetValue(v).NoPayload? ==> r == v
    ensures !GetValue(v).NoPayload? ==> GetValue(r) == p
  {
    match v
    case Number(_) => Number(p.lexeme)
    case String(_) => String(p.bytes)
    case Array(_) => Array(p.elements)
    case Object(_) => Object(p.members)
    case _ => v
  }

  /** Storing back the payload a value hands out leaves the value as it was. */
  lemma SetGetIdentity(v: Value)
    ensures Accepts(v, GetValue(v)) && SetValue(v, GetValue(v)) == v
  {
  }
}
