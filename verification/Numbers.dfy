/** JSON numbers: the text `print_number` writes and the text `parse_number` reads.
    Values are exact reals; the rounding of `double` is not part of the model. */
module Numbers {
  import opened Octets

  /** `parse_number` copies at most this many characters before it calls `strtod`. */
  const TOKEN_MAX: nat := 63

  /** Integers below this have at most 15 digits, which `%1.15g` writes as plain decimals. */
  const PRINT_LIMIT: int := 1_000_000_000_000_000

  predicate IsDigit(b: Byte) {
    ZERO <= b <= ZERO + 9
  }

  predicate AllDigits(s: Bytes) {
    forall k :: 0 <= k < |s| ==> IsDigit(s[k])
  }

  predicate IsExponentMark(b: Byte) {
    b == 101 || b == 69
  }

  predicate IsSign(b: Byte) {
    b == PLUS || b == MINUS
  }

  predicate IsNumberChar(b: Byte) {
    IsDigit(b) || IsSign(b) || IsExponentMark(b) || b == POINT
  }

  predicate AllNumberChars(s: Bytes) {
    forall k :: 0 <= k < |s| ==> IsNumberChar(s[k])
  }

  function Pow10(k: nat): nat
    ensures Pow10(k) > 0
  {
    if k == 0 then 1 else 10 * Pow10(k - 1)
  }

  /** `m * 10^e`. */
  function Scale(m: real, e: int): real
    decreases if e >= 0 then e else -e
  {
    if e == 0 then m else if e > 0 then Scale(10.0 * m, e - 1) else Scale(m / 10.0, e + 1)
  }

  /** Scaling multiplies by a power of ten. */
  lemma {:induction false} ScaleUp(m: real, e: nat)
    ensures Scale(m, e) == m * Pow10(e) as real
    decreases e
  {
    if e > 0 {
      ScaleUp(10.0 * m, e - 1);
    }
  }

  /** And a negative one divides by it. */
  lemma {:induction false} ScaleDown(m: real, e: nat)
    ensures Scale(m, 0 - e) * Pow10(e) as real == m
    decreases e
  {
    if e > 0 {
      ScaleDown(m / 10.0, e - 1);
      assert Scale(m, 0 - e) == Scale(m / 10.0, 0 - (e - 1));
      TenTimes(Scale(m, 0 - e), Pow10(e - 1) as real, m);
    }
  }

  lemma TenTimes(x: real, p: real, m: real)
    requires x * p == m / 10.0
    ensures x * (10.0 * p) == m
  {
  }

  /** The number a run of decimal digits denotes. */
  function DigitsValue(s: Bytes): nat
    requires AllDigits(s)
  {
    if s == [] then 0 else 10 * DigitsValue(s[..|s| - 1]) + (s[|s| - 1] - ZERO)
  }

  /** Where the run of digits that starts at `i` ends. */
  function DigitsEnd(t: Bytes, i: nat): (r: nat)
    requires i <= |t|
    ensures i <= r <= |t|
    ensures forall k :: i <= k < r ==> IsDigit(t[k])
    ensures r < |t| ==> !IsDigit(t[r])
    decreases |t| - i
  {
    if i < |t| && IsDigit(t[i]) then DigitsEnd(t, i + 1) else i
  }

  function SignLength(t: Bytes, i: nat): (r: nat)
    ensures i <= |t| ==> i + r <= |t|
  {
    if i < |t| && IsSign(t[i]) then 1 else 0
  }

  /** Where an exponent part starting at `f` ends; `f` itself when there is none. */
  function ExponentEnd(t: Bytes, f: nat): (r: nat)
    requires f <= |t|
    ensures f <= r <= |t|
  {
    if f < |t| && IsExponentMark(t[f]) then
      var j := f + 1 + SignLength(t, f + 1);
      if DigitsEnd(t, j) > j then DigitsEnd(t, j) else f
    else f
  }

  function Exponent(t: Bytes, f: nat): int
    requires f <= |t|
  {
    if ExponentEnd(t, f) == f then 0
    else
      var j := f + 1 + SignLength(t, f + 1);
      var v: int := DigitsValue(t[j..DigitsEnd(t, j)]);
      if t[f + 1] == MINUS then -v else v
  }

  /** Where a fraction part starting at `d` ends; `d` itself when there is no point there. */
  function FractionEnd(t: Bytes, d: nat): (r: nat)
    requires d <= |t|
    ensures d <= r <= |t|
    ensures r > d ==> t[d] == POINT
    ensures forall k :: d < k < r ==> IsDigit(t[k])
  {
    if d < |t| && t[d] == POINT then DigitsEnd(t, d + 1) else d
  }

  function Fraction(t: Bytes, d: nat): Bytes
    requires d <= |t|
    ensures AllDigits(Fraction(t, d))
  {
    if FractionEnd(t, d) > d then t[d + 1..FractionEnd(t, d)] else []
  }

  /** What `strtod` finds at the start of a text: a value, and how many characters denote it. */
  datatype Conversion = NoNumber | Found(value: real, length: nat)

  /** The digits before and after the point as one integer, with the sign. */
  function Mantissa(t: Bytes, i: nat, d: nat): int
    requires i <= d <= |t| && forall k :: i <= k < d ==> IsDigit(t[k])
  {
    var m: int := DigitsValue(t[i..d] + Fraction(t, d));
    if i == 1 && t[0] == MINUS then -m else m
  }

  /** The C library's `strtod` on a text made of number characters. */
  function Strtod(t: Bytes): (r: Conversion)
    ensures r.Found? ==> 0 < r.length <= |t|
  {
    var i := SignLength(t, 0);
    var d := DigitsEnd(t, i);
    var f := FractionEnd(t, d);
    if d == i && Fraction(t, d) == [] then NoNumber
    else Found(Scale(Mantissa(t, i, d) as real, Exponent(t, f) - |Fraction(t, d)|), ExponentEnd(t, f))
  }

  lemma {:induction false} DigitsEndPrefix(t: Bytes, i: nat, n: nat)
    requires i <= n <= |t|
    ensures DigitsEnd(t[..n], i) == if DigitsEnd(t, i) <= n then DigitsEnd(t, i) else n
    decreases n - i
  {
    if i < n && IsDigit(t[i]) {
      DigitsEndPrefix(t, i + 1, n);
    }
  }

  lemma ExponentPrefix(t: Bytes, f: nat, n: nat)
    requires f <= |t| && ExponentEnd(t, f) <= n <= |t|
    ensures ExponentEnd(t[..n], f) == ExponentEnd(t, f) && Exponent(t[..n], f) == Exponent(t, f)
  {
    var j := f + 1 + SignLength(t, f + 1);
    if f < n && IsExponentMark(t[f]) && j <= n {
      DigitsEndPrefix(t, j, n);
      assert SignLength(t[..n], f + 1) == SignLength(t, f + 1);
      if DigitsEnd(t, j) > j {
        assert t[..n][j..DigitsEnd(t, j)] == t[j..DigitsEnd(t, j)];
      }
    }
  }

  lemma PrefixParts(t: Bytes, i: nat, d: nat, f: nat, n: nat)
    requires i == SignLength(t, 0) <= |t| && d == DigitsEnd(t, i) && f == FractionEnd(t, d) <= n <= |t|
    requires n == d ==> f == d
    ensures DigitsEnd(t[..n], i) == d && FractionEnd(t[..n], d) == f && Fraction(t[..n], d) == Fraction(t, d)
    ensures Mantissa(t[..n], i, d) == Mantissa(t, i, d)
  {
    assert DigitsEnd(t[..n], i) == d by { DigitsEndPrefix(t, i, n); }
    assert FractionEnd(t[..n], d) == f && Fraction(t[..n], d) == Fraction(t, d) by { FractionPrefix(t, d, n); }
    assert t[..n][i..d] == t[i..d];
    assert i == 1 ==> t[..n][0] == t[0];
  }

  /** What `strtod` converts does not depend on the characters it leaves, nor on how many of them there are. */
  lemma StrtodPrefix(t: Bytes, n: nat)
    requires Strtod(t).Found? && Strtod(t).length <= n <= |t|
    ensures Strtod(t[..n]) == Strtod(t)
  {
    var i := SignLength(t, 0);
    var d := DigitsEnd(t, i);
    var f := FractionEnd(t, d);
    PrefixParts(t, i, d, f, n);
    ExponentPrefix(t, f, n);
    assert SignLength(t[..n], 0) == i;
  }

  lemma NoNumberPrefix(t: Bytes, m: nat)
    requires m <= |t| && Strtod(t).NoNumber?
    ensures Strtod(t[..m]).NoNumber?
  {
    var i := SignLength(t, 0);
    if i <= m {
      DigitsEndPrefix(t, i, m);
      if i < m && t[i] == POINT {
        DigitsEndPrefix(t, i + 1, m);
      }
    }
  }

  /** A longer text has no shorter number. */
  lemma StrtodLonger(t: Bytes, m: nat)
    requires m <= |t| && Strtod(t[..m]).Found? && Strtod(t[..m]).length == m
    ensures Strtod(t).Found? && Strtod(t).length >= m
  {
    if Strtod(t).NoNumber? {
      NoNumberPrefix(t, m);
    } else if Strtod(t).length < m {
      StrtodPrefix(t, m);
    }
  }

  lemma FractionPrefix(t: Bytes, d: nat, n: nat)
    requires d <= n <= |t| && FractionEnd(t, d) <= n
    requires n == d ==> FractionEnd(t, d) == d
    ensures FractionEnd(t[..n], d) == FractionEnd(t, d) && Fraction(t[..n], d) == Fraction(t, d)
  {
    if d < n && t[d] == POINT {
      DigitsEndPrefix(t, d + 1, n);
      assert t[..n][d + 1..FractionEnd(t, d)] == t[d + 1..FractionEnd(t, d)];
    }
  }

  /** The characters `parse_number` hands to `strtod`: number characters, at most `room` of them. */
  function Token(s: Input, room: nat): (r: Bytes)
    ensures |r| <= room && |r| <= Length(s) && AllNumberChars(r)
  {
    if room > 0 && s.More? && IsNumberChar(s.byte) then [s.byte] + Token(s.rest, room - 1) else []
  }

  /** A complete number token, as it can stand between delimiters. */
  predicate IsToken(t: Bytes) {
    && |t| <= TOKEN_MAX
    && AllNumberChars(t)
    && Strtod(t).Found? && Strtod(t).length == |t|
  }

  /** In front of `k` the token is the longest number among the characters `strtod` is given. */
  ghost predicate Maximal(t: Bytes, k: Input) {
    var read := Token(Prepend(t, k), TOKEN_MAX);
    forall n :: |t| < n <= |read| ==> !IsToken(read[..n])
  }

  /** A token followed by something else is what `strtod` is given. */
  lemma {:induction false} TokenFound(t: Bytes, k: Input, room: nat)
    requires |t| <= room && AllNumberChars(t) && (k.More? ==> !IsNumberChar(k.byte))
    ensures Token(Prepend(t, k), room) == t
  {
    if t != [] {
      TokenFound(t[1..], k, room - 1);
      assert [t[0]] + t[1..] == t;
    }
  }

  /** A token in front of something that is no part of a number is maximal. */
  lemma TokenEnds(t: Bytes, k: Input)
    requires IsToken(t) && (k.More? ==> !IsNumberChar(k.byte))
    ensures Maximal(t, k)
  {
    TokenFound(t, k, TOKEN_MAX);
  }

  /** The characters `strtod` is given start with a token, and it uses exactly those of the longest one. */
  lemma {:induction false} TokenStarts(t: Bytes, k: Input, room: nat)
    requires |t| <= room && AllNumberChars(t)
    ensures |t| <= |Token(Prepend(t, k), room)| && Token(Prepend(t, k), room)[..|t|] == t
  {
    if t != [] {
      TokenStarts(t[1..], k, room - 1);
      var read := Token(Prepend(t, k), room);
      assert read[1..] == Token(Prepend(t[1..], k), room - 1);
      assert read[..|t|] == [read[0]] + read[1..][..|t| - 1] && [t[0]] + t[1..] == t;
    }
  }

  lemma PrefixToken(read: Bytes)
    requires |read| <= TOKEN_MAX && AllNumberChars(read) && Strtod(read).Found?
    ensures IsToken(read[..Strtod(read).length])
  {
    StrtodPrefix(read, Strtod(read).length);
  }

  lemma MaximalMunch(t: Bytes, k: Input)
    requires IsToken(t) && Maximal(t, k)
    ensures Strtod(Token(Prepend(t, k), TOKEN_MAX)) == Strtod(t)
  {
    var read := Token(Prepend(t, k), TOKEN_MAX);
    TokenStarts(t, k, TOKEN_MAX);
    StrtodLonger(read, |t|);
    PrefixToken(read);
    assert Strtod(read).length == |t|;
    StrtodPrefix(read, |t|);
  }

  /** Every start of what `strtod` is given is a start of the input. */
  lemma {:induction false} TokenRead(s: Input, room: nat, n: nat)
    requires n <= |Token(s, room)|
    ensures n <= Length(s) && s == Prepend(Token(s, room)[..n], Drop(s, n))
  {
    if n > 0 {
      TokenRead(s.rest, room - 1, n - 1);
      var t := Token(s, room);
      assert t[..n][1..] == Token(s.rest, room - 1)[..n - 1];
    } else {
      assert Token(s, room)[..n] == [];
    }
  }

  /** Decimal digits of a natural number, as `%1.15g` writes an integer of at most 15 digits. */
  function Digits(n: nat): (r: Bytes)
    ensures r != [] && AllDigits(r)
  {
    if n < 10 then [ZERO + n] else Digits(n / 10) + [ZERO + n % 10]
  }

  function DecimalText(n: int): (r: Bytes)
    ensures r != []
  {
    if n < 0 then [MINUS] + Digits(-n) else Digits(n)
  }

  /** The values `print_number` is modelled for. */
  predicate Printable(v: real) {
    v == v.Floor as real && -PRINT_LIMIT < v.Floor < PRINT_LIMIT
  }

  lemma {:induction false} DigitsRoundTrip(n: nat)
    ensures DigitsValue(Digits(n)) == n
  {
    if n >= 10 {
      DigitsRoundTrip(n / 10);
      var s := Digits(n);
      assert s[..|s| - 1] == Digits(n / 10);
    }
  }

  lemma {:induction false} DigitsLength(n: nat, k: nat)
    requires k >= 1 && n < Pow10(k)
    ensures |Digits(n)| <= k
  {
    if n >= 10 {
      assert k > 1;
      DigitsLength(n / 10, k - 1);
    }
  }

  lemma DigitsEndAll(t: Bytes, i: nat)
    requires i <= |t| && forall k :: i <= k < |t| ==> IsDigit(t[k])
    ensures DigitsEnd(t, i) == |t|
  {
  }

  /** Printing an integer and converting it back gives the same number and uses the whole text. */
  lemma DecimalRoundTrip(n: int)
    requires -PRINT_LIMIT < n < PRINT_LIMIT
    ensures IsToken(DecimalText(n)) && Strtod(DecimalText(n)).value == n as real
  {
    var t := DecimalText(n);
    var m: nat := if n < 0 then -n else n;
    var i := if n < 0 then 1 else 0;
    assert t[i..|t|] == Digits(m);
    DigitsFill(t, i, m);
    assert SignLength(t, 0) == i;
    assert FractionEnd(t, |t|) == |t| && Fraction(t, |t|) == [];
    assert Mantissa(t, i, |t|) == n by {
      DigitsRoundTrip(m);
      assert t[i..|t|] + [] == Digits(m);
    }
    assert Exponent(t, |t|) == 0 && ExponentEnd(t, |t|) == |t|;
    assert |Digits(m)| <= 15 by {
      assert Pow10(15) == PRINT_LIMIT by { assert Pow10(5) == 100_000; assert Pow10(10) == 10_000_000_000; }
      DigitsLength(m, 15);
    }
  }

  lemma DigitsFill(t: Bytes, i: nat, m: nat)
    requires i <= |t| && t[i..] == Digits(m)
    ensures forall k :: i <= k < |t| ==> IsDigit(t[k])
    ensures DigitsEnd(t, i) == |t|
  {
    forall k | i <= k < |t|
      ensures IsDigit(t[k])
    {
      assert t[k] == t[i..][k - i];
    }
    DigitsEndAll(t, i);
  }
}
