/**
 A writer for the value tree, and the round trip it completes with the
 parser: every value the parser can return, written out as JSON text, is read
 back as itself. The library has no writer; this one exists to state what
 the parser accepts and what it builds from it.
 */
module Serialize {
  import opened JsonValue
  import opened Cursor
  import opened Scratch
  import opened Number
  import opened Strings
  import opened Parser

  /**
   A value the parser reads back from its written form: number lexemes follow
   the grammar and convert without overflow where they are written, string
   and key bytes are in 0..255.
   */
  ghost predicate Readable(v: Value, tooBig: Overflow)
    decreases v
  {
    match v
    case Number(l) => IsNumber(l) && Converts(tooBig, l)
    case String(b) => IsBytes(b)
    case Array(es) => forall k :: 0 <= k < |es| ==> Readable(es[k], tooBig)
    case Object(ms) => forall k :: 0 <= k < |ms| ==> IsBytes(ms[k].key) && Readable(ms[k].value, tooBig)
    case _ => true
  }

  /**
   The lexeme converts without overflow wherever the scanner stops after it:
   no text made of the lexeme and then nothing, or a character that ends a
   number, and then anything, overflows.
   */
  ghost predicate Converts(tooBig: Overflow, l: seq<char>)
  {
    forall t: seq<char> :: (|t| == 0 || EndsNumber(t[0])) ==> !tooBig(l + t)
  }

  /**
   An overflow verdict in the manner of strtod: for a number followed by
   nothing or by a character that ends it, the verdict depends on the number
   alone.
   */
  ghost predicate ReadsLexeme(tooBig: Overflow)
  {
    forall l: seq<char>, t: seq<char> :: IsNumber(l) && (|t| == 0 || EndsNumber(t[0])) ==> tooBig(l + t) == tooBig(l)
  }

  /** Under such a verdict a number lexeme converts exactly when the lexeme alone does not overflow. */
  lemma LexemeVerdict(tooBig: Overflow, l: seq<char>)
    requires ReadsLexeme(tooBig) && IsNumber(l)
    ensures Converts(tooBig, l) <==> !tooBig(l)
  {
    assert l + [] == l;
  }

  /** A lexeme that converts does not overflow where it is written, whatever comes after the character that ends it. */
  lemma ConvertsHere(s: seq<char>, p: nat, l: seq<char>, tooBig: Overflow)
    requires Converts(tooBig, l) && At(s, p, l) && EndsNumber(Peek(s, p + |l|))
    ensures !tooBig(s[p..])
  {
    var t := s[p + |l|..];
    assert s[p..] == l + t;
    if |t| > 0 {
      assert t[0] == Peek(s, p + |l|);
    }
  }

  /** A string or a key between quotes. */
  function WriteString(b: seq<char>): seq<char>
  {
    ['"'] + WriteBytes(b) + ['"']
  }

  /** The JSON text of a value, with no whitespace. */
  function Write(v: Value): seq<char>
    decreases v, 2, 0
  {
    match v
    case Null => NullText
    case False => FalseText
    case True => TrueText
    case Number(l) => l
    case String(b) => WriteString(b)
    case Array(es) => ['['] + WriteElements(es) + [']']
    case Object(ms) => ['{'] + WriteMembers(ms) + ['}']
  }

  /** Array elements separated by commas. */
  function WriteElements(es: seq<Value>): seq<char>
    decreases es, 1, 0
  {
    if |es| == 0 then [] else Write(es[0]) + MoreElements(es, 1)
  }

  /** The elements from index `i` on, each behind its comma. */
  function MoreElements(es: seq<Value>, i: nat): seq<char>
    decreases es, 0, |es| - i
  {
    if i >= |es| then [] else [','] + Write(es[i]) + MoreElements(es, i + 1)
  }

  /** One member: the key, a colon, the value. */
  function WriteMember(m: Member): seq<char>
    decreases m
  {
    WriteString(m.key) + [':'] + Write(m.value)
  }

  /** Object members separated by commas. */
  function WriteMembers(ms: seq<Member>): seq<char>
    decreases ms, 1, 0
  {
    if |ms| == 0 then [] else WriteMember(ms[0]) + MoreMembers(ms, 1)
  }

  /** The members from index `i` on, each behind its comma. */
  function MoreMembers(ms: seq<Member>, i: nat): seq<char>
    decreases ms, 0, |ms| - i
  {
    if i >= |ms| then [] else [','] + WriteMember(ms[i]) + MoreMembers(ms, i + 1)
  }

  /**
   A written value starts with the character that makes parse_value pick the
   rule for its kind (never whitespace, a separator or the end of the text).
   */
  lemma WriteStart(v: Value, tooBig: Overflow)
    requires Readable(v, tooBig)
    ensures |Write(v)| > 0 && Announces(Write(v)[0], v)
  {
    match v
    case Number(l) => NumberStart(l);
    case _ =>
  }
}
