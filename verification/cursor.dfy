/**
 The input text and the cursor over it. The library reads a NUL-terminated
 C string; here the text is the sequence of its bytes before the terminator,
 and `Peek` supplies the terminator itself at (and past) the end.
 */
module Cursor {

  /** A byte-valued char. */
  predicate IsByte(ch: char)
  {
    ch <= '\U{FF}'
  }

  /** The bytes of a NUL-terminated string, terminator excluded: each is in 1..255. */
  predicate IsText(s: seq<char>)
  {
    forall k :: 0 <= k < |s| ==> '\0' < s[k] && IsByte(s[k])
  }

  /** The character under a cursor; the terminating NUL at the end of the text. */
  function Peek(s: seq<char>, i: nat): (ch: char)
    ensures i < |s| ==> ch == s[i]
    ensures ch != '\0' ==> i < |s|
  {
    if i < |s| then s[i] else '\0'
  }

  /** Peek sees NUL exactly at the end of a text. */
  lemma PeekNul(s: seq<char>, i: nat)
    requires IsText(s) && i <= |s|
    ensures Peek(s, i) == '\0' <==> i == |s|
  {
  }

  /** The four characters JSON treats as insignificant whitespace (section 2 of RFC 8259). */
  predicate IsWhitespace(ch: char)
  {
    ch == ' ' || ch == '\t' || ch == '\n' || ch == '\r'
  }

  /**
   parse_whitespace: moves the cursor over the longest run of whitespace. It
   never passes the end, since the terminating NUL is not whitespace.
   */
  function SkipWhitespace(s: seq<char>, i: nat): (j: nat)
    requires i <= |s|
    ensures i <= j <= |s|
    ensures forall k :: i <= k < j ==> IsWhitespace(s[k])
    ensures !IsWhitespace(Peek(s, j))
    decreases |s| - i
  {
    if IsWhitespace(Peek(s, i)) then SkipWhitespace(s, i + 1) else i
  }

  /** Skipping from a non-whitespace character does not move the cursor. */
  lemma SkipWhitespaceStays(s: seq<char>, i: nat)
    requires i <= |s| && !IsWhitespace(Peek(s, i))
    ensures SkipWhitespace(s, i) == i
  {
  }

  /** Skipping is idempotent: a second skip from where the first one stopped stays there. */
  lemma SkipWhitespaceIdempotent(s: seq<char>, i: nat)
    requires i <= |s|
    ensures SkipWhitespace(s, SkipWhitespace(s, i)) == SkipWhitespace(s, i)
  {
  }

  /** A run of whitespace followed by a non-whitespace character is skipped entirely. */
  lemma {:induction false} SkipWhitespaceOver(s: seq<char>, i: nat, j: nat)
    requires i <= j <= |s|
    requires forall k :: i <= k < j ==> IsWhitespace(s[k])
    requires !IsWhitespace(Peek(s, j))
    ensures SkipWhitespace(s, i) == j
    decreases j - i
  {
    if i < j {
      SkipWhitespaceOver(s, i + 1, j);
    }
  }

  /** The text `t` stands in `s` from position `p` on. */
  predicate At(s: seq<char>, p: nat, t: seq<char>)
  {
    p + |t| <= |s| && s[p..p + |t|] == t
  }

  /** What stands at `p` is what the cursor sees there, character by character. */
  lemma AtPeek(s: seq<char>, p: nat, t: seq<char>)
    requires At(s, p, t)
    ensures forall k :: 0 <= k < |t| ==> Peek(s, p + k) == t[k]
  {
    forall k | 0 <= k < |t|
      ensures Peek(s, p + k) == t[k]
    {
      assert s[p..p + |t|][k] == s[p + k];
    }
  }

  /** In particular the cursor sees the first character of what stands there. */
  lemma AtFirst(s: seq<char>, p: nat, t: seq<char>)
    requires At(s, p, t) && |t| > 0
    ensures p < |s| && Peek(s, p) == t[0]
  {
    assert s[p..p + |t|][0] == s[p];
  }

  /** A concatenation stands at `p` exactly when its halves stand one after the other. */
  lemma AtConcat(s: seq<char>, p: nat, a: seq<char>, b: seq<char>)
    ensures At(s, p, a + b) <==> At(s, p, a) && At(s, p + |a|, b)
  {
    if At(s, p, a + b) {
      assert s[p..p + |a|] == s[p..p + |a + b|][..|a|];
      assert s[p + |a|..p + |a| + |b|] == s[p..p + |a + b|][|a|..];
    }
    if At(s, p, a) && At(s, p + |a|, b) {
      assert s[p..p + |a + b|] == s[p..p + |a|] + s[p + |a|..p + |a| + |b|];
    }
  }

  /**
   A text `t` made of a leading character and two parts, followed by `rest`:
   the character, then the first part, then the second part and the rest.
   */
  lemma AtLead(s: seq<char>, p: nat, t: seq<char>, lead: char, x: seq<char>, y: seq<char>, rest: seq<char>)
    requires t == [lead] + x + y && At(s, p, t + rest)
    ensures p < |s| && Peek(s, p) == lead
    ensures At(s, p + 1, x) && At(s, p + 1 + |x|, y + rest)
  {
    assert t + rest == [lead] + (x + (y + rest));
    AtConcat(s, p, [lead], x + (y + rest));
    AtConcat(s, p + 1, x, y + rest);
    AtFirst(s, p, [lead]);
  }

  /** A text `t` between an opening character and `close`: the character, then the two parts of `t`, then `close`. */
  lemma AtInside(s: seq<char>, p: nat, t: seq<char>, open: char, x: seq<char>, y: seq<char>, close: seq<char>)
    requires t == x + y && At(s, p, [open] + t + close)
    ensures p < |s| && Peek(s, p) == open
    ensures At(s, p + 1, x) && At(s, p + 1 + |x|, y + close)
  {
    assert [open] + t + close == [open] + x + y + close;
    AtLead(s, p, [open] + x + y, open, x, y, close);
  }

  /** A text `t` made of two parts around one character. */
  lemma AtAround(s: seq<char>, p: nat, t: seq<char>, x: seq<char>, mid: char, y: seq<char>)
    requires t == x + [mid] + y && At(s, p, t)
    ensures At(s, p, x) && p + |x| < |s| && Peek(s, p + |x|) == mid && At(s, p + |x| + 1, y)
  {
    assert t == x + ([mid] + y);
    AtConcat(s, p, x, [mid] + y);
    AtConcat(s, p + |x|, [mid], y);
    AtFirst(s, p + |x|, [mid]);
  }

  /**
   The converse of `AtPeek` for a text without NUL: if the cursor sees `t`
   character by character, `t` stands there (a NUL past the end would differ).
   */
  lemma PeekAt(s: seq<char>, p: nat, t: seq<char>)
    requires p <= |s|
    requires forall k :: 0 <= k < |t| ==> t[k] != '\0' && Peek(s, p + k) == t[k]
    ensures At(s, p, t)
  {
    if |t| > 0 {
      var last := |t| - 1;
      assert t[last] != '\0' && Peek(s, p + last) == t[last];
    }
    forall k | 0 <= k < |t|
      ensures s[p..p + |t|][k] == t[k]
    {
      assert t[k] != '\0' && Peek(s, p + k) == t[k];
    }
    assert s[p..p + |t|] == t;
  }
}
