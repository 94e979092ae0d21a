/**
 The in-place API of the earlier version of the library (Step6): a value is
 one mutable record with a type tag and a slot per payload, the parser
 writes into a record the caller supplies instead of returning a tree, and
 the accessors check the tag. Its grammar handlers are those of the returning
 parser, so the text is read by the functions of `Parser`; what is modelled
 here is what the handlers write into the record.

 Records are values: a setter returns the updated record. Elements and
 member values are records the parser creates afresh for each of them, so
 they are held as the values they load as.
 */
module InPlace {
  import opened JsonValue
  import opened Cursor
  import opened Scratch
  import opened Parser
  import opened Serialize
  import opened RoundTrip
  import opened Document

  /**
   The fields of ljson_value: the type tag, the number, the string bytes
   (their length is the length of the slot), the elements and the members.
   A number is kept as its lexeme, as everywhere in this model.
   */
  datatype Target = Target(tag: Tag, number: seq<char>, str: seq<char>, elements: seq<Value>, members: seq<Member>)

  /** A record as ljson_value::create makes it: type NULL, number 0, no string, no elements, no members. */
  const Fresh: Target := Target(NullTag, "0", [], [], [])

  /** set_type: the tag changes and nothing else. */
  function SetType(t: Target, tag: Tag): (r: Target)
    ensures r.tag == tag && r.(tag := t.tag) == t
  {
    t.(tag := tag)
  }

  /** set_number: tag NUMBER and the number; the other slots stay. */
  function SetNumber(t: Target, n: seq<char>): (r: Target)
    ensures r.tag == NumberTag && r.number == n && r.(tag := t.tag, number := t.number) == t
  {
    t.(tag := NumberTag, number := n)
  }

  /** destroy: releases the string storage and leaves the type NULL. */
  function Destroy(t: Target): (r: Target)
    ensures r.tag == NullTag && r.(tag := t.tag) == t
  {
    t.(tag := NullTag)
  }

  /**
   set_string: destroy, then a fresh copy of exactly `len` bytes with a NUL
   after them, the length beside it, and tag STRING. NUL bytes inside the
   string are copied like any other; only the length says where it ends.
   */
  function SetString(t: Target, b: seq<char>): (r: Target)
    ensures r.tag == StringTag && r.(tag := t.tag, str := t.str) == t
    ensures GetString(r) == b + ['\0'] && GetStringLength(r) == |b|
  {
    Destroy(t).(str := b, tag := StringTag)
  }

  /** set_array: tag ARRAY, and the element handles move into the record. */
  function SetArray(t: Target, es: seq<Value>): (r: Target)
    ensures r.tag == ArrayTag && r.elements == es && r.(tag := t.tag, elements := t.elements) == t
  {
    SetType(t, ArrayTag).(elements := es)
  }

  /** set_objects: tag OBJECT, and the member handles move into the record. */
  function SetObjects(t: Target, ms: seq<Member>): (r: Target)
    ensures r.tag == ObjectTag && r.members == ms && r.(tag := t.tag, members := t.members) == t
  {
    SetType(t, ObjectTag).(members := ms)
  }

  // The accessors. Each asserts the tag it serves, and the indexed ones the
  // index; both are preconditions here.

  /** get_string: the NUL-terminated copy. */
  function GetString(t: Target): (r: seq<char>)
    requires t.tag == StringTag
    ensures |r| == |t.str| + 1 && r[|t.str|] == '\0'
  {
    t.str + ['\0']
  }

  /** get_string_length. */
  function GetStringLength(t: Target): (n: nat)
    requires t.tag == StringTag
    ensures n == |Load(t).bytes| && GetString(t)[n] == '\0'
  {
    |t.str|
  }

  /** get_array_size. */
  function GetArraySize(t: Target): (n: nat)
    requires t.tag == ArrayTag
    ensures n == |Load(t).elements|
  {
    |t.elements|
  }

  /** get_array_element. */
  function GetArrayElement(t: Target, i: nat): (v: Value)
    requires t.tag == ArrayTag && i < |t.elements|
    ensures i < |Load(t).elements| && v == Load(t).elements[i]
  {
    t.elements[i]
  }

  /** get_objects_size. */
  function GetObjectsSize(t: Target): (n: nat)
    requires t.tag == ObjectTag
    ensures n == |Load(t).members|
  {
    |t.members|
  }

  /** get_object_key: the key as the NUL-terminated copy parse_object made of it. */
  function GetObjectKey(t: Target, i: nat): (r: seq<char>)
    requires t.tag == ObjectTag && i < |t.members|
    ensures |r| == |t.members[i].key| + 1 && r[|t.members[i].key|] == '\0'
  {
    t.members[i].key + ['\0']
  }

  /** get_object_key_length. */
  function GetObjectKeyLength(t: Target, i: nat): (n: nat)
    requires t.tag == ObjectTag && i < |t.members|
    ensures i < |Load(t).members| && n == |Load(t).members[i].key|
    ensures n < |GetObjectKey(t, i)| && GetObjectKey(t, i)[n] == '\0'
    ensures GetObjectKey(t, i)[..n] == Load(t).members[i].key
  {
    |t.members[i].key|
  }

  /** get_object_value. */
  function GetObjectValue(t: Target, i: nat): (v: Value)
    requires t.tag == ObjectTag && i < |t.members|
    ensures i < |Load(t).members| && v == Load(t).members[i].value
  {
    t.members[i].value
  }

  /** The value a record presents: its tag, with the slot that tag selects. */
  function Load(t: Target): (v: Value)
    ensures TypeOf(v) == t.tag
  {
    match t.tag
    case NullTag => Null
    case FalseTag => False
    case TrueTag => True
    case NumberTag => Number(t.number)
    case StringTag => String(t.str)
    case ArrayTag => Array(t.elements)
    case ObjectTag => Object(t.members)
  }

  /** The accessors read exactly the value the record presents: lengths, bytes before the terminator, entries in order. */
  lemma AccessorsAgree(t: Target)
    ensures t.tag == StringTag ==>
      GetString(t)[..GetStringLength(t)] == Load(t).bytes && GetString(t)[GetStringLength(t)] == '\0'
    ensures t.tag == ArrayTag ==>
      GetArraySize(t) == |Load(t).elements| &&
      forall i :: 0 <= i < GetArraySize(t) ==> GetArrayElement(t, i) == Load(t).elements[i]
    ensures t.tag == ObjectTag ==>
      GetObjectsSize(t) == |Load(t).members| &&
      forall i :: 0 <= i < GetObjectsSize(t) ==>
        GetObjectKey(t, i)[..GetObjectKeyLength(t, i)] == Load(t).members[i].key &&
        GetObjectKey(t, i)[GetObjectKeyLength(t, i)] == '\0' &&
        GetObjectValue(t, i) == Load(t).members[i].value
  {
    if t.tag == StringTag {
      assert GetString(t)[..GetStringLength(t)] == t.str;
    }
  }

  /**
   What a handler of this version writes into its record once the value has
   parsed, as the source does it: a literal sets the tag, a number goes
   through set_number, a string through set_string, and a container with
   entries through set_array or set_objects. The empty `[]` and `{}` only set
   the tag, so entries already in the record stay there.
   */
  function StoreAsWritten(t: Target, v: Value): (r: Target)
    ensures r.tag == TypeOf(v)
  {
    match v
    case Null => SetType(t, NullTag)
    case False => SetType(t, FalseTag)
    case True => SetType(t, TrueTag)
    case Number(l) => SetNumber(t, l)
    case String(b) => SetString(t, b)
    case Array(es) => if |es| == 0 then SetType(t, ArrayTag) else SetArray(SetType(t, ArrayTag), es)
    case Object(ms) => if |ms| == 0 then SetType(t, ObjectTag) else SetObjects(t, ms)
  }

  /** The same writes, with the empty containers handed over like any other. */
  function Store(t: Target, v: Value): (r: Target)
    ensures r.tag == TypeOf(v)
  {
    match v
    case Null => SetType(t, NullTag)
    case False => SetType(t, FalseTag)
    case True => SetType(t, TrueTag)
    case Number(l) => SetNumber(t, l)
    case String(b) => SetString(t, b)
    case Array(es) => SetArray(t, es)
    case Object(ms) => SetObjects(t, ms)
  }

  /** Whatever the record held before, it presents the stored value afterwards. */
  lemma StoreLoads(t: Target, v: Value)
    ensures Load(Store(t, v)) == v
  {
  }

  /**
   The writes as the source does them present the stored value exactly when
   no stale entries show through: an empty array needs a record without
   elements, an empty object one without members.
   */
  lemma StoreAsWrittenLoads(t: Target, v: Value)
    ensures Load(StoreAsWritten(t, v)) == v <==>
      (v == Array([]) ==> t.elements == []) && (v == Object([]) ==> t.members == [])
  {
    match v
    case Array(es) =>
      if |es| == 0 {
        assert Load(StoreAsWritten(t, v)) == Array(t.elements);
      }
    case Object(ms) =>
      if |ms| == 0 {
        assert Load(StoreAsWritten(t, v)) == Object(t.members);
      }
    case _ =>
  }

  /** A record made afresh, as every element and member value is, presents what was stored in it. */
  lemma FreshStore(v: Value)
    ensures Load(StoreAsWritten(Fresh, v)) == v
  {
    StoreAsWrittenLoads(Fresh, v);
  }

  /** The writes of the source, or the corrected ones. */
  datatype Version = AsWritten | Corrected

  /** The writes of a version. */
  function StoreBy(version: Version, t: Target, v: Value): (r: Target)
    ensures r.tag == TypeOf(v)
  {
    match version
    case AsWritten => StoreAsWritten(t, v)
    case Corrected => Store(t, v)
  }

  /** What ljson_value::parse reports, and the record it leaves. */
  datatype Outcome = Outcome(state: State, target: Target)

  /**
   ljson_value::parse of this version, into the record `t`: skip whitespace,
   set the tag to NULL, parse one value into the record, skip whitespace,
   and demand the end of the text. A value followed by more text is
   ROOT_NOT_SINGULAR and the tag goes back to NULL. A number that overflows
   is first stored by set_number and then has its tag put back to NULL; the
   stored number is the text the conversion was handed. An overflow inside a
   container happened in an element's own record, which is dropped.
   */
  function ParseInto(version: Version, t: Target, s: seq<char>, tooBig: Overflow): (r: Outcome)
    ensures r.state == Parse(s, tooBig).state
    ensures r.state != ParseOk ==> r.target.tag == NullTag
    ensures r.state == ParseOk ==> r.target.tag == TypeOf(Parse(s, tooBig).value.value)
    ensures version == Corrected && r.state == ParseOk ==> Load(r.target) == Parse(s, tooBig).value.value
  {
    var p := SkipWhitespace(s, 0);
    var t0 := SetType(t, NullTag);
    var v := ParseValue(s, Context(p, [], []), tooBig);
    if v.state == ParseOk then
      var t1 := StoreBy(version, t0, v.value.value);
      StoreLoads(t0, v.value.value);
      if Peek(s, SkipWhitespace(s, v.ctx.pos)) == '\0' then Outcome(ParseOk, t1)
      else Outcome(RootNotSingular, SetType(t1, NullTag))
    else if v.state == NumberTooBig && Peek(s, p) != '[' && Peek(s, p) != '{' then
      Outcome(NumberTooBig, SetType(SetNumber(t0, s[p..]), NullTag))
    else
      Outcome(v.state, t0)
  }

  /** The tag a record had before parsing makes no difference: parse resets it first. */
  lemma ParseIgnoresTag(version: Version, t: Target, tag: Tag, s: seq<char>, tooBig: Overflow)
    ensures ParseInto(version, t.(tag := tag), s, tooBig) == ParseInto(version, t, s, tooBig)
  {
  }

  /**
   A failed parse leaves the record's payload slots as they were, but for the
   number slot after an overflow at the root.
   */
  lemma FailureKeepsSlots(version: Version, t: Target, s: seq<char>, tooBig: Overflow)
    requires ParseInto(version, t, s, tooBig).state !in {ParseOk, RootNotSingular}
    ensures ParseInto(version, t, s, tooBig).target.(number := t.number) == t.(tag := NullTag)
  {
  }

  /**
   A successful parse leaves the record as the writes of the version leave
   it after the tag was reset, storing the value the returning parser yields.
   */
  lemma ParseIntoOk(version: Version, t: Target, s: seq<char>, tooBig: Overflow)
    requires Parse(s, tooBig).state == ParseOk
    ensures ParseInto(version, t, s, tooBig).target == StoreBy(version, SetType(t, NullTag), Parse(s, tooBig).value.value)
  {
    hide ParseValue, StoreBy, SkipWhitespace;
  }

  /**
   The records as the source leaves them: after `[null]` parsed into a fresh
   record, `[]` parsed into the same record reports success and an array,
   yet the record still presents one element.
   */
  lemma StaleElements(tooBig: Overflow)
    ensures ParseInto(AsWritten, Fresh, "[null]", tooBig) == Outcome(ParseOk, Fresh.(tag := ArrayTag, elements := [Null]))
    ensures var r := ParseInto(AsWritten, Fresh.(tag := ArrayTag, elements := [Null]), "[]", tooBig);
      r.state == ParseOk && Load(r.target) == Array([Null]) && Parse("[]", tooBig).value == Some(Array([]))
  {
    OneNull(tooBig);
    NoElements(tooBig);
    hide Parse, ParseValue, SkipWhitespace;
    ParseIntoOk(AsWritten, Fresh, "[null]", tooBig);
    ParseIntoOk(AsWritten, Fresh.(tag := ArrayTag, elements := [Null]), "[]", tooBig);
  }

  lemma OneNull(tooBig: Overflow)
    ensures Parse("[null]", tooBig) == Parsed(ParseOk, Some(Array([Null])), Context(6, [], []))
  {
    var v := Array([Null]);
    OneNullText(tooBig);
    ParseWritten([], v, [], tooBig);
    hide *;
    assert [] + Write(v) + [] == "[null]";
  }

  lemma OneNullText(tooBig: Overflow)
    ensures Write(Array([Null])) == "[null]" && Readable(Array([Null]), tooBig)
  {
  }

  lemma NoElements(tooBig: Overflow)
    ensures Parse("[]", tooBig) == Parsed(ParseOk, Some(Array([])), Context(2, [], []))
  {
    hide ParseString, ParseNumber, ParseObject, ParseLiteral;
  }
}
