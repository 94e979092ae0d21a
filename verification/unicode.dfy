/**
 The pieces of string decoding that deal in code points: the four hex digits
 of a `\uXXXX` escape (section 7 of RFC 8259), the combination of a UTF-16
 surrogate pair (section 2.2 of RFC 2781) and the UTF-8 encoding of the
 resulting code point (section 3 of RFC 3629).
 */
module Unicode {
  import opened JsonValue
  import opened Cursor

  predicate IsHexDigit(ch: char)
  {
    ('0' <= ch <= '9') || ('A' <= ch <= 'F') || ('a' <= ch <= 'f')
  }

  /** The value of a hexadecimal digit in either case. */
  function HexValue(ch: char): (d: nat)
    requires IsHexDigit(ch)
    ensures d < 16
  {
    if ch <= '9' then ch as int - '0' as int
    else if ch <= 'F' then ch as int - 'A' as int + 10
    else ch as int - 'a' as int + 10
  }

  /** The `n` characters from `p` on are hex digits. */
  predicate HexRun(s: seq<char>, p: nat, n: nat)
  {
    forall k :: p <= k < p + n ==> IsHexDigit(Peek(s, k))
  }

  /** The value of the `n` hex digits at `p`, most significant first. */
  function HexNumber(s: seq<char>, p: nat, n: nat): (v: nat)
    requires HexRun(s, p, n)
    ensures v < Pow16(n)
    decreases n
  {
    if n == 0 then 0
    else
      var d, w := HexValue(Peek(s, p)), Pow16(n - 1);
      assert d * w <= 15 * w;
      d * w + HexNumber(s, p + 1, n - 1)
  }

  function Pow16(n: nat): (r: nat)
    ensures r >= 1
  {
    if n == 0 then 1 else 16 * Pow16(n - 1)
  }

  /** A run of `n` hex digits is its first digit followed by a run of `n - 1`. */
  lemma HexRunStep(s: seq<char>, p: nat, n: nat)
    requires n > 0
    ensures HexRun(s, p, n) <==> IsHexDigit(Peek(s, p)) && HexRun(s, p + 1, n - 1)
  {
  }

  /** A run of hex digits lies inside the text: the terminating NUL is not a hex digit. */
  lemma HexRunInText(s: seq<char>, p: nat, n: nat)
    requires n > 0 && HexRun(s, p, n)
    ensures p + n <= |s|
  {
    assert IsHexDigit(Peek(s, p + n - 1));
  }

  /**
   The loop of parse_hex4 with `n` digits still to read at `p` and `u` read so
   far: each step shifts `u` four bits left and ors in the next digit's value
   (the same as `u * 16 + digit`, the low four bits being clear). It fails at
   the first character that is not a hex digit, the terminating NUL included.
   */
  function Hex4Loop(s: seq<char>, p: nat, n: nat, u: nat): (r: Option<(nat, nat)>)
    ensures r.Some? <==> HexRun(s, p, n)
    ensures r.Some? ==> r.value.1 == p + n
    ensures r.Some? ==> r.value.0 == u * Pow16(n) + HexNumber(s, p, n)
    decreases n
  {
    if n == 0 then Some((u, p))
    else
      var ch := Peek(s, p);
      HexRunStep(s, p, n);
      if !IsHexDigit(ch) then None
      else
        var r := Hex4Loop(s, p + 1, n - 1, u * 16 + HexValue(ch));
        if r.None? then r
        else
          ShiftStep(u, HexValue(ch), Pow16(n - 1), HexNumber(s, p + 1, n - 1));
          r
  }

  /** One step of the loop in arithmetic: `(u * 16 + d) * w + rest` splits into the old part and the new digit. */
  lemma ShiftStep(u: nat, d: nat, w: nat, rest: nat)
    ensures (u * 16 + d) * w + rest == u * (16 * w) + (d * w + rest)
  {
  }

  /**
   parse_hex4: the code unit written as four hex digits at `p`, and the
   position after them; None unless all four are hex digits.
   */
  function ParseHex4(s: seq<char>, p: nat): (r: Option<(nat, nat)>)
    ensures r.Some? <==> HexRun(s, p, 4)
    ensures r.Some? ==> r.value.1 == p + 4 && r.value.0 < 0x10000 && r.value.0 == HexNumber(s, p, 4)
    ensures r.Some? ==>
      r.value.0 == 4096 * HexValue(Peek(s, p)) + 256 * HexValue(Peek(s, p + 1))
                   + 16 * HexValue(Peek(s, p + 2)) + HexValue(Peek(s, p + 3))
  {
    Hex4Loop(s, p, 4, 0)
  }

  /** The upper-case hex digit of a value below 16. */
  function HexChar(d: nat): (ch: char)
    requires d < 16
    ensures IsHexDigit(ch) && HexValue(ch) == d
  {
    if d < 10 then (d + '0' as int) as char else (d - 10 + 'A' as int) as char
  }

  /** A code unit written as four hex digits. */
  function Hex4(u: nat): (t: seq<char>)
    requires u < 0x10000
    ensures |t| == 4 && forall k :: 0 <= k < 4 ==> IsHexDigit(t[k]) && IsByte(t[k]) && t[k] != '\0'
  {
    [HexChar(u / 4096), HexChar(u / 256 % 16), HexChar(u / 16 % 16), HexChar(u % 16)]
  }

  /** parse_hex4 reads back any code unit written with Hex4, wherever it stands in the text. */
  lemma ParseHex4Inverse(s: seq<char>, p: nat, u: nat)
    requires u < 0x10000 && p + 4 <= |s| && s[p..p + 4] == Hex4(u)
    ensures ParseHex4(s, p) == Some((u, p + 4))
  {
    var t := Hex4(u);
    assert Peek(s, p) == t[0] && Peek(s, p + 1) == t[1] && Peek(s, p + 2) == t[2] && Peek(s, p + 3) == t[3];
    assert HexRun(s, p, 4) by {
      forall k | p <= k < p + 4
        ensures IsHexDigit(Peek(s, k))
      {
        assert Peek(s, k) == t[k - p];
      }
    }
    HexDigits(u);
  }

  /** A value below 0x10000 is the sum of its four hex digits. */
  lemma HexDigits(u: nat)
    requires u < 0x10000
    ensures u == 4096 * (u / 4096) + 256 * (u / 256 % 16) + 16 * (u / 16 % 16) + u % 16
  {
    var a, b, c := u / 16, u / 256, u / 4096;
    assert u == 16 * a + u % 16;
    assert a / 16 == b && b / 16 == c;
    assert a == 16 * b + a % 16;
    assert b == 16 * c + b % 16;
    assert c < 16;
  }

  predicate IsHighSurrogate(u: nat)
  {
    0xD800 <= u <= 0xDBFF
  }

  predicate IsLowSurrogate(u: nat)
  {
    0xDC00 <= u <= 0xDFFF
  }

  /**
   The code point of a surrogate pair: the high surrogate's offset from
   0xD800 supplies the upper ten bits and the low surrogate's offset from
   0xDC00 the lower ten, on top of 0x10000. The low offset is below 0x400, so
   setting its bits is an addition. The result is always a supplementary code
   point, within UTF-8's range.
   */
  function CombineSurrogates(hi: nat, lo: nat): (u: nat)
    requires IsHighSurrogate(hi) && IsLowSurrogate(lo)
    ensures 0x10000 <= u <= 0x10FFFF
  {
    (hi - 0xD800) * 0x400 + (lo - 0xDC00) + 0x10000
  }

  /** The surrogate pair that encodes a supplementary code point in UTF-16. */
  function SplitSurrogates(u: nat): (r: (nat, nat))
    requires 0x10000 <= u <= 0x10FFFF
    ensures IsHighSurrogate(r.0) && IsLowSurrogate(r.1)
    ensures CombineSurrogates(r.0, r.1) == u
  {
    (0xD800 + (u - 0x10000) / 0x400, 0xDC00 + (u - 0x10000) % 0x400)
  }

  /** Combining is one-to-one: splitting the combined code point gives the pair back. */
  lemma SplitCombine(hi: nat, lo: nat)
    requires IsHighSurrogate(hi) && IsLowSurrogate(lo)
    ensures SplitSurrogates(CombineSurrogates(hi, lo)) == (hi, lo)
  {
    var u := CombineSurrogates(hi, lo);
    assert u - 0x10000 == (hi - 0xD800) * 0x400 + (lo - 0xDC00);
  }

  /** The byte value of a byte-valued char. */
  function Byte(ch: char): (b: nat)
  {
    ch as int
  }

  /**
   encode_uft8: one to four bytes for a code point up to 0x10FFFF. The source
   ors each marker with a shifted field whose bits are disjoint from it, which
   is the addition written here.
   */
  function EncodeUtf8(u: nat): (r: seq<char>)
    requires u <= 0x10FFFF
    ensures 1 <= |r| <= 4
    ensures forall k :: 0 <= k < |r| ==> IsByte(r[k])
    ensures |r| == 1 <==> u <= 0x7F
    ensures |r| == 2 <==> 0x80 <= u <= 0x7FF
    ensures |r| == 3 <==> 0x800 <= u <= 0xFFFF
    ensures |r| == 4 <==> 0x10000 <= u
    ensures |r| == 1 ==> Byte(r[0]) < 0x80
    ensures |r| == 2 ==> 0xC0 <= Byte(r[0]) < 0xE0
    ensures |r| == 3 ==> 0xE0 <= Byte(r[0]) < 0xF0
    ensures |r| == 4 ==> 0xF0 <= Byte(r[0]) < 0xF8
    ensures forall k :: 1 <= k < |r| ==> 0x80 <= Byte(r[k]) < 0xC0
  {
    if u <= 0x7F then
      [u as char]
    else if u <= 0x7FF then
      [(0xC0 + u / 0x40) as char, (0x80 + u % 0x40) as char]
    else if u <= 0xFFFF then
      [(0xE0 + u / 0x1000) as char, (0x80 + u / 0x40 % 0x40) as char, (0x80 + u % 0x40) as char]
    else
      [(0xF0 + u / 0x40000) as char, (0x80 + u / 0x1000 % 0x40) as char,
       (0x80 + u / 0x40 % 0x40) as char, (0x80 + u % 0x40) as char]
  }

  /** The code point a well-formed UTF-8 sequence of one to four bytes stands for. */
  function DecodeUtf8(b: seq<char>): nat
    requires 1 <= |b| <= 4
  {
    if |b| == 1 then Byte(b[0])
    else if |b| == 2 then Byte(b[0]) % 0x20 * 0x40 + Byte(b[1]) % 0x40
    else if |b| == 3 then Byte(b[0]) % 0x10 * 0x1000 + Byte(b[1]) % 0x40 * 0x40 + Byte(b[2]) % 0x40
    else Byte(b[0]) % 0x8 * 0x40000 + Byte(b[1]) % 0x40 * 0x1000
         + Byte(b[2]) % 0x40 * 0x40 + Byte(b[3]) % 0x40
  }

  /** Decoding the bytes encode_uft8 emits gives the code point back. */
  lemma Utf8RoundTrip(u: nat)
    requires u <= 0x10FFFF
    ensures DecodeUtf8(EncodeUtf8(u)) == u
  {
    if u <= 0x7F {
    } else if u <= 0x7FF {
      Utf8RoundTrip2(u);
    } else if u <= 0xFFFF {
      Utf8RoundTrip3(u);
    } else {
      Utf8RoundTrip4(u);
    }
  }

  lemma Utf8RoundTrip2(u: nat)
    requires 0x80 <= u <= 0x7FF
    ensures DecodeUtf8(EncodeUtf8(u)) == u
  {
    var r := EncodeUtf8(u);
    assert Byte(r[0]) % 0x20 == u / 0x40 by {
      assert (0xC0 + u / 0x40) % 0x20 == u / 0x40;
    }
    assert Byte(r[1]) % 0x40 == u % 0x40 by {
      assert (0x80 + u % 0x40) % 0x40 == u % 0x40;
    }
  }

  lemma Utf8RoundTrip3(u: nat)
    requires 0x800 <= u <= 0xFFFF
    ensures DecodeUtf8(EncodeUtf8(u)) == u
  {
    var r := EncodeUtf8(u);
    var a := u / 0x40;
    assert Byte(r[0]) % 0x10 == a / 0x40 by {
      assert a / 0x40 == u / 0x1000;
      assert (0xE0 + u / 0x1000) % 0x10 == u / 0x1000;
    }
    assert Byte(r[1]) % 0x40 == a % 0x40 by {
      assert (0x80 + a % 0x40) % 0x40 == a % 0x40;
    }
    assert Byte(r[2]) % 0x40 == u % 0x40 by {
      assert (0x80 + u % 0x40) % 0x40 == u % 0x40;
    }
    assert u == a * 0x40 + u % 0x40;
    assert a == a / 0x40 * 0x40 + a % 0x40;
  }

  lemma Utf8RoundTrip4(u: nat)
    requires 0x10000 <= u <= 0x10FFFF
    ensures DecodeUtf8(EncodeUtf8(u)) == u
  {
    var r := EncodeUtf8(u);
    var a := u / 0x40;
    var b := a / 0x40;
    assert Byte(r[0]) % 0x8 == b / 0x40 by {
      assert b == u / 0x1000 && b / 0x40 == u / 0x40000;
      assert (0xF0 + u / 0x40000) % 0x8 == u / 0x40000;
    }
    assert Byte(r[1]) % 0x40 == b % 0x40 by {
      assert b == u / 0x1000;
      assert (0x80 + b % 0x40) % 0x40 == b % 0x40;
    }
    assert Byte(r[2]) % 0x40 == a % 0x40 by {
      assert (0x80 + a % 0x40) % 0x40 == a % 0x40;
    }
    assert Byte(r[3]) % 0x40 == u % 0x40 by {
      assert (0x80 + u % 0x40) % 0x40 == u % 0x40;
    }
    assert u == a * 0x40 + u % 0x40;
    assert a == b * 0x40 + a % 0x40;
    assert b == b / 0x40 * 0x40 + b % 0x40;
  }
}
