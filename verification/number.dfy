/**
 The number grammar of section 6 of RFC 8259,

   number = [ "-" ] int [ frac ] [ exp ]
   int    = "0" / ( digit1-9 *DIGIT )
   frac   = "." 1*DIGIT
   exp    = ( "e" / "E" ) [ "-" / "+" ] 1*DIGIT

 once as the scanner the parser runs (`ScanNumber`) and once as a declarative
 predicate on a lexeme (`IsNumber`), with lemmas tying the two together.
 */
module Number {
  import opened JsonValue
  import opened Cursor

  predicate IsDigit(ch: char)
  {
    '0' <= ch <= '9'
  }

  predicate IsDigit1To9(ch: char)
  {
    '1' <= ch <= '9'
  }

  /** The digit loops of parse_number: the cursor moves over a run of decimal digits. */
  function SkipDigits(s: seq<char>, p: nat): (q: nat)
    requires p <= |s|
    ensures p <= q <= |s|
    ensures forall k :: p <= k < q ==> IsDigit(s[k])
    ensures !IsDigit(Peek(s, q))
    decreases |s| - p
  {
    if IsDigit(Peek(s, p)) then SkipDigits(s, p + 1) else p
  }

  /** The integer part: a single 0, or a nonzero digit followed by any digits. */
  function ScanInt(s: seq<char>, p: nat): (r: Option<nat>)
    requires p <= |s|
    ensures r.Some? ==> p < r.value <= |s|
  {
    if Peek(s, p) == '0' then Some(p + 1)
    else if IsDigit1To9(Peek(s, p)) then Some(SkipDigits(s, p + 1))
    else None
  }

  /** The optional fraction: absent unless a '.' comes next, and then at least one digit is due. */
  function ScanFrac(s: seq<char>, p: nat): (r: Option<nat>)
    requires p <= |s|
    ensures r.Some? ==> p <= r.value <= |s|
    ensures r.None? <==> Peek(s, p) == '.' && !IsDigit(Peek(s, p + 1))
    ensures r == Some(p) <==> Peek(s, p) != '.'
    ensures r.Some? && r.value != p ==> p + 2 <= r.value && !IsDigit(Peek(s, r.value))
  {
    if Peek(s, p) != '.' then Some(p)
    else if IsDigit(Peek(s, p + 1)) then Some(SkipDigits(s, p + 2))
    else None
  }

  /** The optional exponent: 'e' or 'E', an optional sign, then at least one digit. */
  function ScanExp(s: seq<char>, p: nat): (r: Option<nat>)
    requires p <= |s|
    ensures r.Some? ==> p <= r.value <= |s|
    ensures r == Some(p) <==> Peek(s, p) != 'e' && Peek(s, p) != 'E'
    ensures Peek(s, p) == 'e' || Peek(s, p) == 'E' ==>
      var d := if Peek(s, p + 1) == '+' || Peek(s, p + 1) == '-' then p + 2 else p + 1;
      (r.None? <==> !IsDigit(Peek(s, d)))
    ensures r.Some? && r.value != p ==> p + 2 <= r.value && !IsDigit(Peek(s, r.value))
  {
    if Peek(s, p) != 'e' && Peek(s, p) != 'E' then Some(p)
    else
      var q := if Peek(s, p + 1) == '+' || Peek(s, p + 1) == '-' then p + 2 else p + 1;
      if IsDigit(Peek(s, q)) then Some(SkipDigits(s, q + 1)) else None
  }

  /**
   The validation part of parse_number: the end of the lexeme starting at `i`,
   or None when a digit the grammar requires is missing.
   */
  function ScanNumber(s: seq<char>, i: nat): (r: Option<nat>)
    requires i <= |s|
    ensures r.Some? ==> i < r.value <= |s|
  {
    var p := if Peek(s, i) == '-' then i + 1 else i;
    match ScanInt(s, p)
    case None => None
    case Some(q) =>
      match ScanFrac(s, q)
      case None => None
      case Some(q') => ScanExp(s, q')
  }

  // The grammar, stated on a lexeme.

  predicate AllDigits(t: seq<char>)
  {
    forall k :: 0 <= k < |t| ==> IsDigit(t[k])
  }

  predicate IsSignPart(t: seq<char>)
  {
    t == [] || t == ['-']
  }

  predicate IsIntPart(t: seq<char>)
  {
    t == ['0'] || (|t| > 0 && IsDigit1To9(t[0]) && AllDigits(t[1..]))
  }

  predicate IsFracPart(t: seq<char>)
  {
    t == [] || (|t| > 1 && t[0] == '.' && AllDigits(t[1..]))
  }

  predicate IsExpPart(t: seq<char>)
  {
    t == [] ||
    (|t| > 1 && (t[0] == 'e' || t[0] == 'E') &&
     if t[1] == '+' || t[1] == '-' then |t| > 2 && AllDigits(t[2..]) else AllDigits(t[1..]))
  }

  /** Cutting `t` at `a`, `b` and `c` gives its sign, integer, fraction and exponent parts. */
  predicate SplitsAt(t: seq<char>, a: nat, b: nat, c: nat)
  {
    a <= b <= c <= |t| &&
    IsSignPart(t[..a]) && IsIntPart(t[a..b]) && IsFracPart(t[b..c]) && IsExpPart(t[c..])
  }

  /** A JSON number lexeme. */
  predicate IsNumber(t: seq<char>)
  {
    exists a: nat, b: nat, c: nat :: a <= b <= c <= |t| && SplitsAt(t, a, b, c)
  }

  /** A character that could extend a number lexeme that ends just before it. */
  predicate ContinuesNumber(ch: char)
  {
    IsDigit(ch) || ch == '.' || ch == 'e' || ch == 'E'
  }

  /**
   A character at which strtod, handed a JSON number followed by it, stops
   reading: it cannot extend the number, and it is not the `x` that turns a
   leading `0` into a hexadecimal prefix.
   */
  predicate EndsNumber(ch: char)
  {
    !ContinuesNumber(ch) && ch != 'x' && ch != 'X'
  }

  lemma SliceOfSlice(s: seq<char>, i: nat, j: nat, a: nat, b: nat)
    requires i <= j <= |s| && a <= b <= j - i
    ensures s[i..j][a..b] == s[i + a..i + b]
    ensures a == 0 ==> s[i..j][..b] == s[i..i + b]
    ensures b == j - i ==> s[i..j][a..] == s[i + a..j]
  {
    assert forall k :: 0 <= k < b - a ==> s[i..j][a..b][k] == s[i + a..i + b][k];
  }

  /** Cutting the lexeme `s[i..j]` at offsets is cutting the text at the matching positions. */
  lemma SliceParts(s: seq<char>, i: nat, a: nat, b: nat, c: nat, j: nat)
    requires i <= a <= b <= c <= j <= |s|
    ensures s[i..j][..a - i] == s[i..a] && s[i..j][a - i..b - i] == s[a..b]
    ensures s[i..j][b - i..c - i] == s[b..c] && s[i..j][c - i..] == s[c..j]
  {
    var t := s[i..j];
    assert t[..a - i] == s[i..a] by { SliceOfSlice(s, i, j, 0, a - i); }
    assert t[a - i..b - i] == s[a..b] by { SliceOfSlice(s, i, j, a - i, b - i); }
    assert t[b - i..c - i] == s[b..c] by { SliceOfSlice(s, i, j, b - i, c - i); }
    assert t[c - i..] == s[c..j] by { SliceOfSlice(s, i, j, c - i, j - i); }
  }

  /** The parts located in the text are the parts of the lexeme cut out of it. */
  lemma SplitsOfText(s: seq<char>, i: nat, a: nat, b: nat, c: nat, j: nat)
    requires i <= a <= b <= c <= j <= |s|
    requires IsSignPart(s[i..a]) && IsIntPart(s[a..b]) && IsFracPart(s[b..c]) && IsExpPart(s[c..j])
    ensures SplitsAt(s[i..j], a - i, b - i, c - i)
  {
    SliceParts(s, i, a, b, c, j);
  }

  /** And conversely, with the cut points given as offsets into the lexeme. */
  lemma SplitsInText(s: seq<char>, i: nat, j: nat, a: nat, b: nat, c: nat)
    requires i <= j <= |s| && SplitsAt(s[i..j], a, b, c)
    ensures i + c <= j
    ensures IsSignPart(s[i..i + a]) && IsIntPart(s[i + a..i + b])
    ensures IsFracPart(s[i + b..i + c]) && IsExpPart(s[i + c..j])
  {
    SliceParts(s, i, i + a, i + b, i + c, j);
  }

  lemma ScanIntSound(s: seq<char>, p: nat)
    requires p <= |s| && ScanInt(s, p).Some?
    ensures IsIntPart(s[p..ScanInt(s, p).value])
  {
    var q := ScanInt(s, p).value;
    if Peek(s, p) != '0' {
      assert s[p..q][1..] == s[p + 1..q];
    }
  }

  lemma ScanFracSound(s: seq<char>, p: nat)
    requires p <= |s| && ScanFrac(s, p).Some?
    ensures IsFracPart(s[p..ScanFrac(s, p).value])
  {
    var q := ScanFrac(s, p).value;
    if q != p {
      assert s[p..q][1..] == s[p + 1..q];
    }
  }

  lemma ScanExpSound(s: seq<char>, p: nat)
    requires p <= |s| && ScanExp(s, p).Some?
    ensures IsExpPart(s[p..ScanExp(s, p).value])
  {
    var q := ScanExp(s, p).value;
    if q != p {
      var t := s[p..q];
      assert t[1..] == s[p + 1..q];
      if t[1] == '+' || t[1] == '-' {
        assert t[2..] == s[p + 2..q];
      }
    }
  }

  /** Whatever the scanner accepts is a number lexeme. */
  lemma ScanNumberSound(s: seq<char>, i: nat)
    requires i <= |s| && ScanNumber(s, i).Some?
    ensures IsNumber(s[i..ScanNumber(s, i).value])
  {
    var j := ScanNumber(s, i).value;
    var p := if Peek(s, i) == '-' then i + 1 else i;
    var q := ScanInt(s, p).value;
    assert ScanInt(s, p) == Some(q);
    var q' := ScanFrac(s, q).value;
    assert ScanFrac(s, q) == Some(q');
    assert ScanExp(s, q') == Some(j);
    ScanIntSound(s, p);
    ScanFracSound(s, q);
    ScanExpSound(s, q');
    SplitsOfText(s, i, p, q, q', j);
  }

  /** A run of digits ending before a non-digit is skipped exactly. */
  lemma {:induction false} SkipDigitsOver(s: seq<char>, p: nat, q: nat)
    requires p <= q <= |s|
    requires forall k :: p <= k < q ==> IsDigit(s[k])
    requires !IsDigit(Peek(s, q))
    ensures SkipDigits(s, p) == q
    decreases q - p
  {
    if p < q {
      SkipDigitsOver(s, p + 1, q);
    }
  }

  lemma ScanIntComplete(s: seq<char>, p: nat, q: nat)
    requires p <= q <= |s| && IsIntPart(s[p..q]) && !IsDigit(Peek(s, q))
    ensures ScanInt(s, p) == Some(q)
  {
    var t := s[p..q];
    assert t[0] == s[p];
    if t != ['0'] {
      assert forall k :: p + 1 <= k < q ==> s[k] == t[1..][k - p - 1];
      SkipDigitsOver(s, p + 1, q);
    }
  }

  lemma ScanFracComplete(s: seq<char>, p: nat, q: nat)
    requires p <= q <= |s| && IsFracPart(s[p..q]) && !IsDigit(Peek(s, q))
    requires p == q ==> Peek(s, p) != '.'
    ensures ScanFrac(s, p) == Some(q)
  {
    if p < q {
      var t := s[p..q];
      assert t[0] == s[p] && t[1] == s[p + 1];
      assert forall k :: p + 2 <= k < q ==> s[k] == t[1..][k - p - 1];
      SkipDigitsOver(s, p + 2, q);
    }
  }

  lemma ScanExpComplete(s: seq<char>, p: nat, q: nat)
    requires p <= q <= |s| && IsExpPart(s[p..q]) && !IsDigit(Peek(s, q))
    requires p == q ==> Peek(s, p) != 'e' && Peek(s, p) != 'E'
    ensures ScanExp(s, p) == Some(q)
  {
    if p < q {
      var t := s[p..q];
      assert t[0] == s[p] && t[1] == s[p + 1];
      if t[1] == '+' || t[1] == '-' {
        assert t[2] == s[p + 2];
        assert forall k :: p + 3 <= k < q ==> s[k] == t[2..][k - p - 2];
        SkipDigitsOver(s, p + 3, q);
      } else {
        assert forall k :: p + 2 <= k < q ==> s[k] == t[1..][k - p - 1];
        SkipDigitsOver(s, p + 2, q);
      }
    }
  }

  /** The completeness argument on the text itself, once the parts are located. */
  lemma ScanPartsComplete(s: seq<char>, i: nat, a: nat, b: nat, c: nat, j: nat)
    requires i <= a <= b <= c <= j <= |s|
    requires IsSignPart(s[i..a]) && IsIntPart(s[a..b]) && IsFracPart(s[b..c]) && IsExpPart(s[c..j])
    requires !ContinuesNumber(Peek(s, j))
    ensures ScanNumber(s, i) == Some(j)
  {
    assert s[a..b][0] == s[a];
    var p := if Peek(s, i) == '-' then i + 1 else i;
    assert p == a by {
      if a == i + 1 {
        assert s[i..a][0] == s[i];
      }
    }
    // what follows each part is the first character of the next part, or the
    // character after the lexeme
    assert !IsDigit(Peek(s, c)) && (c == j ==> Peek(s, c) != 'e' && Peek(s, c) != 'E') by {
      if c < j {
        assert s[c..j][0] == s[c];
      }
    }
    assert !IsDigit(Peek(s, b)) && (b == c ==> Peek(s, b) != '.') by {
      if b < c {
        assert s[b..c][0] == s[b];
      } else if c < j {
        assert s[c..j][0] == s[c];
      }
    }
    ScanIntComplete(s, a, b);
    ScanFracComplete(s, b, c);
    ScanExpComplete(s, c, j);
  }

  /** The cut points of a number lexeme. */
  lemma NumberCuts(t: seq<char>) returns (a: nat, b: nat, c: nat)
    requires IsNumber(t)
    ensures SplitsAt(t, a, b, c)
  {
    a, b, c :| a <= b <= c <= |t| && SplitsAt(t, a, b, c);
  }

  /**
   Every number lexeme is accepted, and the scanner stops exactly at its end,
   provided the next character could not extend it.
   */
  lemma ScanNumberComplete(s: seq<char>, i: nat, j: nat)
    requires i <= j <= |s| && IsNumber(s[i..j]) && !ContinuesNumber(Peek(s, j))
    ensures ScanNumber(s, i) == Some(j)
  {
    hide *;
    var a, b, c := NumberCuts(s[i..j]);
    SplitsInText(s, i, j, a, b, c);
    ScanPartsComplete(s, i, i + a, i + b, i + c, j);
  }

  /**
   What may follow a span the scanner accepts. A `.` right after the integer
   part must start a fraction and an `e` right after the fraction must start
   an exponent, so when either stands after the span the part it opens was
   already read: a `.` with no digit after it (`1.`) or an `e` with no digit
   after its sign (`1e`, `1e+`) makes the scan fail. A digit can follow only
   the single `0` of an integer part (`0123`).
   */
  lemma ScanNumberStops(s: seq<char>, i: nat)
    requires i <= |s| && ScanNumber(s, i).Some?
    ensures var j := ScanNumber(s, i).value;
      Peek(s, j) == '.' ==> exists k :: i <= k < j && (s[k] == '.' || s[k] == 'e' || s[k] == 'E')
    ensures var j := ScanNumber(s, i).value;
      (Peek(s, j) == 'e' || Peek(s, j) == 'E') ==> exists k :: i <= k < j && (s[k] == 'e' || s[k] == 'E')
    ensures var j := ScanNumber(s, i).value;
      IsDigit(Peek(s, j)) ==> s[j - 1] == '0' && (j == i + 1 || (j == i + 2 && s[i] == '-'))
  {
    var j := ScanNumber(s, i).value;
    var p := if Peek(s, i) == '-' then i + 1 else i;
    var q := ScanInt(s, p).value;
    assert ScanInt(s, p) == Some(q);
    var q' := ScanFrac(s, q).value;
    assert ScanFrac(s, q) == Some(q');
    assert ScanExp(s, q') == Some(j);
    if j != q' {
      // an exponent was read: it starts at q' and ends on a non-digit
      assert s[q'] == 'e' || s[q'] == 'E';
    } else if q' != q {
      // a fraction was read, and nothing after it starts an exponent
      assert s[q] == '.';
    } else {
      // only the integer part: what follows is neither `.` nor `e`
      assert Peek(s, j) != '.' && Peek(s, j) != 'e' && Peek(s, j) != 'E';
      if Peek(s, p) != '0' {
        assert !IsDigit(Peek(s, j));
      }
    }
  }

  /** A number lexeme is not empty and starts with a minus sign or a digit. */
  lemma NumberStart(t: seq<char>)
    requires IsNumber(t)
    ensures |t| > 0 && (t[0] == '-' || IsDigit(t[0]))
  {
    var a, b, c := NumberCuts(t);
    assert t[a..b][0] == t[a];
  }
}
