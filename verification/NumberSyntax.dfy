/** The syntax of numbers: which texts are numbers, and what they mean. Nothing in the definitions says how a
    number is read; the theorem says that `strtod` reads exactly this. */
module NumberSyntax {
  import opened Octets
  import opened Characters
  import opened Numbers

  datatype Power = Power(mark: Byte, sign: Bytes, digits: Bytes)

  /** A number by its parts. The point can stand without digits on one side. */
  datatype Numeral = Numeral(sign: Bytes, whole: Bytes, point: bool, fraction: Bytes, power: Option<Power>)

  predicate ValidSign(s: Bytes) {
    s == [] || s == [Ascii('+')] || s == [Ascii('-')]
  }

  predicate IsDecimal(b: Byte) {
    Ascii('0') <= b <= Ascii('9')
  }

  predicate AllDecimal(s: Bytes) {
    forall k :: 0 <= k < |s| ==> IsDecimal(s[k])
  }

  predicate ValidPower(e: Power) {
    && (e.mark == Ascii('e') || e.mark == Ascii('E'))
    && ValidSign(e.sign) && AllDecimal(e.digits) && e.digits != []
  }

  predicate ValidNumeral(p: Numeral) {
    && ValidSign(p.sign) && AllDecimal(p.whole) && AllDecimal(p.fraction)
    && (p.whole != [] || p.fraction != []) && (!p.point ==> p.fraction == [])
    && (p.power.Some? ==> ValidPower(p.power.value))
  }

  function FractionText(p: Numeral): Bytes {
    if p.point then [Ascii('.')] + p.fraction else []
  }

  function PowerText(p: Numeral): Bytes {
    if p.power.Some? then [p.power.value.mark] + p.power.value.sign + p.power.value.digits else []
  }

  function NumeralText(p: Numeral): Bytes {
    p.sign + p.whole + FractionText(p) + PowerText(p)
  }

  function Signed(sign: Bytes, n: nat): int {
    if sign == [Ascii('-')] then 0 - n else n
  }

  /** Digits by their places: the last one counts once, each one before it ten times as much. */
  function Places(s: Bytes): nat
    requires AllDecimal(s)
  {
    if s == [] then 0 else (s[0] - Ascii('0')) * Pow10(|s| - 1) + Places(s[1..])
  }

  function PowerValue(p: Numeral): int
    requires ValidNumeral(p)
  {
    if p.power.Some? then Signed(p.power.value.sign, Places(p.power.value.digits)) else 0
  }

  function TimesTen(m: real, e: int): real {
    if e >= 0 then m * Pow10(e) as real else m / Pow10(-e) as real
  }

  /** All digits as one integer, times the power of ten, less one power for each digit of the fraction. */
  function NumeralValue(p: Numeral): real
    requires ValidNumeral(p)
  {
    TimesTen(Signed(p.sign, Places(p.whole + p.fraction)) as real, PowerValue(p) - |p.fraction|)
  }

  ghost predicate Spells(p: Numeral, t: Bytes) {
    ValidNumeral(p) && NumeralText(p) == t
  }

  /** A number that `parse_number` has room for. */
  ghost predicate IsNumeral(t: Bytes) {
    |t| <= TOKEN_MAX && exists p :: Spells(p, t)
  }

  ghost function NumberMeaning(t: Bytes): real
    requires IsNumeral(t)
  {
    var p :| Spells(p, t);
    NumeralValue(p)
  }

  /** No longer number starts where `t` does. */
  ghost predicate Longest(t: Bytes, k: Input) {
    forall m, r :: IsNumeral(m) && Prepend(m, r) == Prepend(t, k) ==> |m| <= |t|
  }

  // ----- `strtod` reads exactly this

  lemma {:induction false} PlacesMore(s: Bytes, b: Byte)
    requires AllDecimal(s) && IsDecimal(b)
    ensures Places(s + [b]) == 10 * Places(s) + (b - Ascii('0'))
  {
    var t := s + [b];
    if s == [] {
      assert t == [b] && t[1..] == [];
    } else {
      PlacesMore(s[1..], b);
      assert t[1..] == s[1..] + [b];
      TenTimesMore(s[0] - Ascii('0'), Pow10(|s| - 1));
    }
  }

  lemma TenTimesMore(d: int, p: int)
    ensures d * (10 * p) == 10 * (d * p)
  {
  }

  lemma {:induction false} PlacesValue(s: Bytes)
    requires AllDecimal(s)
    ensures AllDigits(s) && DigitsValue(s) == Places(s)
  {
    if s != [] {
      var n := |s| - 1;
      PlacesValue(s[..n]);
      PlacesMore(s[..n], s[n]);
      assert s == s[..n] + [s[n]];
    }
  }

  lemma ScaleValue(m: real, e: int)
    ensures Scale(m, e) == TimesTen(m, e)
  {
    if e >= 0 {
      ScaleUp(m, e);
    } else {
      ScaleDown(m, -e);
      assert Scale(m, e) == m / Pow10(-e) as real by { Quotient(Scale(m, e), Pow10(-e) as real, m); }
    }
  }

  lemma Quotient(x: real, p: real, m: real)
    requires p > 0.0 && x * p == m
    ensures x == m / p
  {
  }

  /** Where the parts of a numeral are in its text. */
  lemma Layout(a: Bytes, b: Bytes, c: Bytes, d: Bytes)
    ensures var t := a + b + c + d;
            var i, j, k := |a|, |a| + |b|, |a| + |b| + |c|;
            && |t| == k + |d| && t[..i] == a && t[i..j] == b && t[j..k] == c && t[k..] == d
  {
  }

  lemma DigitsStop(t: Bytes, i: nat, n: nat)
    requires i <= n <= |t| && AllDigits(t[i..n]) && (n < |t| ==> !IsDigit(t[n]))
    ensures DigitsEnd(t, i) == n
  {
    assert forall k :: i <= k < n ==> t[k] == t[i..n][k - i];
  }

  /** The positions `strtod` finds in the text of a numeral. */
  lemma NumeralPlaces(p: Numeral, t: Bytes, i: nat, d: nat, f: nat)
    requires Spells(p, t) && i == |p.sign| && d == i + |p.whole| && f == d + |FractionText(p)|
    ensures f <= |t| && t[..i] == p.sign && t[i..d] == p.whole && t[d..f] == FractionText(p) && t[f..] == PowerText(p)
    ensures SignLength(t, 0) == i && DigitsEnd(t, i) == d && FractionEnd(t, d) == f && Fraction(t, d) == p.fraction
  {
    Layout(p.sign, p.whole, FractionText(p), PowerText(p));
    assert SignLength(t, 0) == i by { SignPlace(p, t, i); }
    assert DigitsEnd(t, i) == d by { WholePlace(p, t, i, d, f); }
    FractionPlace(p, t, d, f);
  }

  lemma WholePlace(p: Numeral, t: Bytes, i: nat, d: nat, f: nat)
    requires ValidNumeral(p) && i <= d && d + |FractionText(p)| == f <= |t|
    requires t[i..d] == p.whole && t[d..f] == FractionText(p) && t[f..] == PowerText(p)
    ensures DigitsEnd(t, i) == d
  {
    if d < f {
      assert t[d] == t[d..f][0] == POINT;
    } else if d < |t| {
      assert t[d] == t[f..][0] == p.power.value.mark;
    }
    DigitsStop(t, i, d);
  }

  lemma SignPlace(p: Numeral, t: Bytes, i: nat)
    requires ValidNumeral(p) && i == |p.sign| && |t| >= i + |p.whole| + |FractionText(p)|
    requires t[..i] == p.sign && t[i..i + |p.whole|] == p.whole
    requires t[i + |p.whole|..i + |p.whole| + |FractionText(p)|] == FractionText(p)
    ensures SignLength(t, 0) == i
  {
    if i == 1 {
      assert t[0] == t[..i][0];
    } else if p.whole != [] {
      assert t[0] == t[i..i + |p.whole|][0] == p.whole[0];
    } else {
      assert t[0] == t[0..|FractionText(p)|][0] == POINT;
    }
  }

  lemma FractionPlace(p: Numeral, t: Bytes, d: nat, f: nat)
    requires ValidNumeral(p) && d + |FractionText(p)| == f <= |t|
    requires t[d..f] == FractionText(p) && t[f..] == PowerText(p)
    ensures FractionEnd(t, d) == f && Fraction(t, d) == p.fraction
  {
    assert f < |t| ==> t[f] == t[f..][0] == p.power.value.mark;
    if p.point {
      assert t[d] == t[d..f][0] == POINT;
      assert t[d + 1..f] == t[d..f][1..] == p.fraction;
      DigitsStop(t, d + 1, f);
    }
  }

  lemma PowerPlace(p: Numeral, t: Bytes, f: nat)
    requires ValidNumeral(p) && f <= |t| && t[f..] == PowerText(p)
    ensures ExponentEnd(t, f) == |t| && Exponent(t, f) == PowerValue(p)
  {
    if p.power.Some? {
      var e := p.power.value;
      var j := f + 1 + |e.sign|;
      PowerParts(e, t, f, j);
      assert SignLength(t, f + 1) == |e.sign| by { PowerSign(e, t, f, j); }
      assert t[j..|t|] == e.digits && AllDigits(e.digits) && DigitsValue(e.digits) == Places(e.digits) by {
        assert t[j..|t|] == t[j..];
        PlacesValue(e.digits);
      }
      assert DigitsEnd(t, j) == |t| by { DigitsStop(t, j, |t|); }
      assert |e.sign| == 1 ==> t[f + 1] == t[f + 1..j][0] == e.sign[0];
    }
  }

  lemma PowerParts(e: Power, t: Bytes, f: nat, j: nat)
    requires f <= |t| && t[f..] == [e.mark] + e.sign + e.digits && j == f + 1 + |e.sign|
    ensures f < j <= |t| && t[f] == e.mark && t[f + 1..j] == e.sign && t[j..] == e.digits
  {
    var u := t[f..];
    assert t[f] == u[0] && t[f + 1..j] == u[1..1 + |e.sign|] && t[j..] == u[1 + |e.sign|..];
  }

  lemma PowerSign(e: Power, t: Bytes, f: nat, j: nat)
    requires ValidPower(e) && j == f + 1 + |e.sign| <= |t| && t[f + 1..j] == e.sign && t[j..] == e.digits
    ensures SignLength(t, f + 1) == |e.sign|
  {
    if |e.sign| == 1 {
      assert t[f + 1] == t[f + 1..j][0];
    } else {
      assert t[f + 1] == t[j..][0] == e.digits[0];
    }
  }

  lemma NumeralChars(p: Numeral)
    requires ValidNumeral(p)
    ensures AllNumberChars(NumeralText(p))
  {
    assert AllNumberChars(p.sign) && AllNumberChars(p.whole) && AllNumberChars(FractionText(p));
    assert AllNumberChars(PowerText(p));
    CharsConcat(p.sign, p.whole);
    CharsConcat(p.sign + p.whole, FractionText(p));
    CharsConcat(p.sign + p.whole + FractionText(p), PowerText(p));
  }

  lemma CharsConcat(a: Bytes, b: Bytes)
    requires AllNumberChars(a) && AllNumberChars(b)
    ensures AllNumberChars(a + b)
  {
  }

  lemma MantissaPlace(p: Numeral, t: Bytes, i: nat, d: nat)
    requires ValidNumeral(p) && i == |p.sign| <= d <= |t|
    requires t[..i] == p.sign && t[i..d] == p.whole && Fraction(t, d) == p.fraction
    ensures forall k :: i <= k < d ==> IsDigit(t[k])
    ensures Mantissa(t, i, d) == Signed(p.sign, Places(p.whole + p.fraction))
  {
    PlacesValue(p.whole + p.fraction);
    assert forall k :: i <= k < d ==> t[k] == t[i..d][k - i];
    assert i == 1 ==> t[0] == t[..i][0] == p.sign[0];
  }

  lemma ConvertsFrom(t: Bytes, i: nat, d: nat, f: nat)
    requires i <= d <= f <= |t| && SignLength(t, 0) == i && DigitsEnd(t, i) == d && FractionEnd(t, d) == f
    requires d > i || Fraction(t, d) != []
    ensures Strtod(t) == Found(Scale(Mantissa(t, i, d) as real, Exponent(t, f) - |Fraction(t, d)|), ExponentEnd(t, f))
  {
  }

  /** `strtod` uses all of a numeral and returns its value. */
  lemma SpelledConverts(p: Numeral, t: Bytes)
    requires Spells(p, t)
    ensures Strtod(t) == Found(NumeralValue(p), |t|)
  {
    var i, d := |p.sign|, |p.sign| + |p.whole|;
    var f := d + |FractionText(p)|;
    NumeralPlaces(p, t, i, d, f);
    ConvertsAt(p, t, i, d, f);
  }

  lemma ConvertsAt(p: Numeral, t: Bytes, i: nat, d: nat, f: nat)
    requires ValidNumeral(p) && i == |p.sign| && d == i + |p.whole| && d <= f <= |t|
    requires t[..i] == p.sign && t[i..d] == p.whole && t[f..] == PowerText(p)
    requires SignLength(t, 0) == i && DigitsEnd(t, i) == d && FractionEnd(t, d) == f && Fraction(t, d) == p.fraction
    ensures Strtod(t) == Found(NumeralValue(p), |t|)
  {
    ConvertsFrom(t, i, d, f);
    assert ExponentEnd(t, f) == |t| && Exponent(t, f) == PowerValue(p) by { PowerPlace(p, t, f); }
    var m := Signed(p.sign, Places(p.whole + p.fraction));
    assert Mantissa(t, i, d) == m by { MantissaPlace(p, t, i, d); }
    var e := PowerValue(p) - |p.fraction|;
    assert Scale(m as real, e) == TimesTen(m as real, e) by { ScaleValue(m as real, e); }
  }

  lemma Parts(t: Bytes, i: nat, d: nat, f: nat)
    requires i <= d <= f <= |t|
    ensures t == t[..i] + t[i..d] + t[d..f] + t[f..]
  {
  }

  /** What `strtod` uses all of has the parts of a numeral. */
  lemma TokenSpelled(t: Bytes) returns (p: Numeral)
    requires Strtod(t).Found? && Strtod(t).length == |t|
    ensures Spells(p, t)
  {
    var i := SignLength(t, 0);
    var d := DigitsEnd(t, i);
    var f := FractionEnd(t, d);
    var power := PowerRead(t, f);
    p := Numeral(t[..i], t[i..d], f > d, Fraction(t, d), power);
    SignRead(t);
    DigitsRead(t, i);
    assert FractionText(p) == t[d..f] by { FractionRead(t, d); }
    Parts(t, i, d, f);
  }

  lemma DigitsRead(t: Bytes, i: nat)
    requires i <= |t|
    ensures AllDigits(t[i..DigitsEnd(t, i)])
  {
  }

  lemma FractionRead(t: Bytes, d: nat)
    requires d <= |t|
    ensures var f := FractionEnd(t, d);
            t[d..f] == if f > d then [POINT] + Fraction(t, d) else []
  {
  }

  lemma SignRead(t: Bytes)
    ensures SignLength(t, 0) <= |t| && ValidSign(t[..SignLength(t, 0)])
  {
    assert t != [] ==> t[..1] == [t[0]];
  }

  lemma PowerRead(t: Bytes, f: nat) returns (power: Option<Power>)
    requires f <= |t| && ExponentEnd(t, f) == |t|
    ensures power.Some? ==> ValidPower(power.value)
    ensures t[f..] == if power.Some? then [power.value.mark] + power.value.sign + power.value.digits else []
  {
    if f == |t| {
      power := None;
    } else {
      var j := f + 1 + SignLength(t, f + 1);
      power := Some(Power(t[f], t[f + 1..j], t[j..]));
      assert AllDigits(t[j..]);
      assert t[f..] == [t[f]] + t[f + 1..j] + t[j..];
    }
  }

  /** A text is a number if and only if `strtod` uses all of it, and it returns what the number means. */
  lemma NumeralIff(t: Bytes)
    ensures IsNumeral(t) <==> IsToken(t)
    ensures IsNumeral(t) ==> Strtod(t).value == NumberMeaning(t)
  {
    if IsNumeral(t) {
      var p :| Spells(p, t) && NumberMeaning(t) == NumeralValue(p);
      SpelledConverts(p, t);
      NumeralChars(p);
    }
    if IsToken(t) {
      var p := TokenSpelled(t);
    }
  }

  /** The longest number is the longest one among the characters `strtod` is given. */
  lemma LongestIff(t: Bytes, k: Input)
    ensures Longest(t, k) <==> Maximal(t, k)
  {
    var s := Prepend(t, k);
    var read := Token(s, TOKEN_MAX);
    if Longest(t, k) {
      forall n | |t| < n <= |read|
        ensures !IsToken(read[..n])
      {
        TokenRead(s, TOKEN_MAX, n);
        NumeralIff(read[..n]);
      }
    }
    if Maximal(t, k) {
      forall m, r | IsNumeral(m) && Prepend(m, r) == s
        ensures |m| <= |t|
      {
        NumeralIff(m);
        TokenStarts(m, r, TOKEN_MAX);
      }
    }
  }

  lemma NumeralEnds(t: Bytes, k: Input)
    requires IsNumeral(t) && (k.More? ==> !IsNumberChar(k.byte))
    ensures Longest(t, k)
  {
    NumeralIff(t);
    TokenEnds(t, k);
    LongestIff(t, k);
  }

  /** All ways to take a text apart give the same number. */
  lemma NumeralMeaning(p: Numeral, t: Bytes)
    requires IsNumeral(t) && Spells(p, t)
    ensures NumeralValue(p) == NumberMeaning(t)
  {
    NumeralIff(t);
    SpelledConverts(p, t);
  }
}
