/**
 The parse context: the cursor `json_`, the byte scratch stack whose height is
 `top_`, and the handle buffer `array_buffer_` that stages container entries.
 The raw reallocation of the scratch stack is not modelled; its contents are.
 */
module Scratch {
  import opened JsonValue

  /** An entry of the handle buffer: an array element or an object member. */
  datatype Staged = StagedValue(value: Value) | StagedMember(member: Member)

  /**
   ljson_context: `pos` is the cursor, `stack` holds the scratch bytes (its
   length is `top_`), `buffer` holds the staged entries.
   */
  datatype Context = Context(pos: nat, stack: seq<char>, buffer: seq<Staged>)

  /** put_char: pushes one byte onto the scratch stack. */
  function PutChar(c: Context, ch: char): (r: Context)
    ensures r.pos == c.pos && r.buffer == c.buffer
    ensures |r.stack| == |c.stack| + 1 && r.stack[..|c.stack|] == c.stack && r.stack[|c.stack|] == ch
  {
    c.(stack := c.stack + [ch])
  }

  /** push of a run of bytes, as put_char applied to each in turn leaves it. */
  function PushBytes(c: Context, bytes: seq<char>): (r: Context)
    ensures r.pos == c.pos && r.buffer == c.buffer
    ensures |r.stack| == |c.stack| + |bytes|
    ensures r.stack[..|c.stack|] == c.stack && r.stack[|c.stack|..] == bytes
  {
    c.(stack := c.stack + bytes)
  }

  /** Pushing bytes one at a time is pushing them all at once. */
  lemma {:induction false} PutCharEach(c: Context, bytes: seq<char>)
    ensures |bytes| > 0 ==> PushBytes(PutChar(c, bytes[0]), bytes[1..]) == PushBytes(c, bytes)
  {
    if |bytes| > 0 {
      assert (c.stack + [bytes[0]]) + bytes[1..] == c.stack + bytes;
    }
  }

  /**
   pop: takes the top `n` bytes off the scratch stack. The bytes come back in
   the order they were pushed, and together with what stays they make up the
   stack as it was.
   */
  function Pop(c: Context, n: nat): (r: (seq<char>, Context))
    requires n <= |c.stack|
    ensures |r.0| == n && r.1.stack + r.0 == c.stack
    ensures r.1.pos == c.pos && r.1.buffer == c.buffer
  {
    (c.stack[|c.stack| - n..], c.(stack := c.stack[..|c.stack| - n]))
  }

  /** Popping what was just pushed gives back the bytes and the original context. */
  lemma PushPop(c: Context, bytes: seq<char>)
    ensures Pop(PushBytes(c, bytes), |bytes|) == (bytes, c)
  {
    var r := Pop(PushBytes(c, bytes), |bytes|);
    assert r.1.stack + r.0 == c.stack + bytes;
    assert r.0 == bytes;
  }

  /** push_buffer: stages one entry. */
  function PushBuffer(c: Context, x: Staged): (r: Context)
    ensures r.pos == c.pos && r.stack == c.stack
    ensures r.buffer == c.buffer + [x]
  {
    c.(buffer := c.buffer + [x])
  }

  /** The entries in reverse order. */
  function Reverse<T>(xs: seq<T>): (r: seq<T>)
    ensures |r| == |xs|
    ensures forall k :: 0 <= k < |xs| ==> r[k] == xs[|xs| - 1 - k]
  {
    if |xs| == 0 then [] else Reverse(xs[1..]) + [xs[0]]
  }

  /**
   The loop of pop_buffer: pops `n` entries off the back of the buffer one at a
   time, appending each to `pops`, so the most recent entry comes first.
   */
  function PopBack(buffer: seq<Staged>, n: nat, pops: seq<Staged>): (r: (seq<Staged>, seq<Staged>))
    requires n <= |buffer|
    ensures r.1 == buffer[..|buffer| - n]
    ensures |r.0| == |pops| + n && r.0[..|pops|] == pops
    ensures forall k :: |pops| <= k < |pops| + n ==> r.0[k] == buffer[|buffer| - 1 - (k - |pops|)]
    decreases n
  {
    if n == 0 then (pops, buffer)
    else
      var r := PopBack(buffer[..|buffer| - 1], n - 1, pops + [buffer[|buffer| - 1]]);
      assert r.0[|pops|] == (pops + [buffer[|buffer| - 1]])[|pops|];
      r
  }

  /**
   pop_buffer: removes the top `n` entries and returns them in the order they
   were pushed (the loop pops them newest first; the final reverse restores
   source order).
   */
  function PopBuffer(buffer: seq<Staged>, n: nat): (r: (seq<Staged>, seq<Staged>))
    requires n <= |buffer|
    ensures r.0 == buffer[|buffer| - n..]
    ensures r.1 == buffer[..|buffer| - n]
  {
    var (pops, rest) := PopBack(buffer, n, []);
    assert Reverse(pops) == buffer[|buffer| - n..] by {
      forall k | 0 <= k < n
        ensures Reverse(pops)[k] == buffer[|buffer| - n..][k]
      {
        assert Reverse(pops)[k] == pops[n - 1 - k];
      }
    }
    (Reverse(pops), rest)
  }

  /** The top `n` entries of the buffer: those staged by the container being parsed. */
  function Top(buffer: seq<Staged>, n: nat): seq<Staged>
    requires n <= |buffer|
  {
    buffer[|buffer| - n..]
  }

  /** Staging one more entry adds it to the top run. */
  lemma TopPush(buffer: seq<Staged>, n: nat, x: Staged)
    requires n <= |buffer|
    ensures Top(buffer + [x], n + 1) == Top(buffer, n) + [x]
    ensures (buffer + [x])[..|buffer + [x]| - (n + 1)] == buffer[..|buffer| - n]
  {
  }

  /** Every entry is an array element. */
  predicate AllValues(xs: seq<Staged>)
  {
    forall k :: 0 <= k < |xs| ==> xs[k].StagedValue?
  }

  /** Every entry is an object member. */
  predicate AllMembers(xs: seq<Staged>)
  {
    forall k :: 0 <= k < |xs| ==> xs[k].StagedMember?
  }

  /** The array elements of a run of entries, in order (ValuesOfAt states which). */
  function ValuesOf(xs: seq<Staged>): (vs: seq<Value>)
    requires AllValues(xs)
    ensures |vs| == |xs|
  {
    if |xs| == 0 then [] else [xs[0].value] + ValuesOf(xs[1..])
  }

  /** The object members of a run of entries, in order (MembersOfAt states which). */
  function MembersOf(xs: seq<Staged>): (ms: seq<Member>)
    requires AllMembers(xs)
    ensures |ms| == |xs|
  {
    if |xs| == 0 then [] else [xs[0].member] + MembersOf(xs[1..])
  }

  /** Element `k` of the run is the value of entry `k`. */
  lemma {:induction false} ValuesOfAt(xs: seq<Staged>, k: nat)
    requires AllValues(xs) && k < |xs|
    ensures ValuesOf(xs)[k] == xs[k].value
    decreases k
  {
    if k > 0 {
      ValuesOfAt(xs[1..], k - 1);
    }
  }

  /** Member `k` of the run is the member of entry `k`. */
  lemma {:induction false} MembersOfAt(xs: seq<Staged>, k: nat)
    requires AllMembers(xs) && k < |xs|
    ensures MembersOf(xs)[k] == xs[k].member
    decreases k
  {
    if k > 0 {
      MembersOfAt(xs[1..], k - 1);
    }
  }

  /** Staging one more element extends the elements of the run by its value. */
  lemma ValuesOfPush(xs: seq<Staged>, v: Value)
    requires AllValues(xs)
    ensures AllValues(xs + [StagedValue(v)])
    ensures ValuesOf(xs + [StagedValue(v)]) == ValuesOf(xs) + [v]
  {
    var ys := xs + [StagedValue(v)];
    forall k | 0 <= k < |ys|
      ensures ValuesOf(ys)[k] == (ValuesOf(xs) + [v])[k]
    {
      ValuesOfAt(ys, k);
      if k < |xs| {
        ValuesOfAt(xs, k);
      }
    }
  }

  /** Staging one more member extends the members of the run by it. */
  lemma MembersOfPush(xs: seq<Staged>, m: Member)
    requires AllMembers(xs)
    ensures AllMembers(xs + [StagedMember(m)])
    ensures MembersOf(xs + [StagedMember(m)]) == MembersOf(xs) + [m]
  {
    var ys := xs + [StagedMember(m)];
    forall k | 0 <= k < |ys|
      ensures MembersOf(ys)[k] == (MembersOf(xs) + [m])[k]
    {
      MembersOfAt(ys, k);
      if k < |xs| {
        MembersOfAt(xs, k);
      }
    }
  }
}
