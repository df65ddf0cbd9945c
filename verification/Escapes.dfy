/** String literals written with `\u` escapes, from the code points to the bytes `parse_string` delivers. */
module Escapes {
  import opened Octets
  import opened Unicode
  import opened Strings
  import opened Characters
  import StringSyntax
  import Parsing
  import Acceptance

  /** A Unicode scalar value: any code point but the surrogates. */
  predicate IsScalar(point: nat) {
    point <= 0x10FFFF && !(0xD800 <= point <= 0xDFFF)
  }

  predicate AllScalar(points: seq<nat>) {
    forall k :: 0 <= k < |points| ==> IsScalar(points[k])
  }

  /** The 16-bit units of a scalar value. */
  function Utf16(point: nat): (r: seq<nat>)
    requires IsScalar(point)
    ensures 1 <= |r| <= 2 && forall k :: 0 <= k < |r| ==> r[k] <= 0xFFFF
  {
    if point < 0x10000 then [point]
    else [0xD800 + (point - 0x10000) / 0x400, 0xDC00 + (point - 0x10000) % 0x400]
  }

  function Utf16All(points: seq<nat>): (r: seq<nat>)
    requires AllScalar(points)
    ensures forall k :: 0 <= k < |r| ==> r[k] <= 0xFFFF
  {
    if points == [] then [] else Utf16(points[0]) + Utf16All(points[1..])
  }

  /** Decoding the units of scalar values gives the scalar values back. */
  lemma {:induction false} DecodeUtf16All(points: seq<nat>)
    requires AllScalar(points)
    ensures DecodeUtf16(Utf16All(points)) == Some(points)
  {
    if points != [] {
      var first, rest := points[0], points[1..];
      var units := Utf16All(points);
      DecodeUtf16All(rest);
      assert [first] + rest == points;
      if first < 0x10000 {
        assert units[1..] == Utf16All(rest);
      } else {
        assert units[2..] == Utf16All(rest);
        assert Combine(units[0], units[1]) == first;
      }
    }
  }

  /** Four hexadecimal digits. */
  function HexText(unit: nat): (r: Bytes)
    requires unit <= 0xFFFF
    ensures |r| == 4
  {
    [HexDigit(unit / 0x1000), HexDigit(unit / 0x100 % 16), HexDigit(unit / 0x10 % 16), HexDigit(unit % 16)]
  }

  lemma FourDigits(a: nat, b: nat, c: nat, d: nat)
    requires a < 16 && b < 16 && c < 16 && d < 16
    ensures var q := [HexDigit(a), HexDigit(b), HexDigit(c), HexDigit(d)];
            AllHex(q) && Hex4(q) == 0x1000 * a + 0x100 * b + 0x10 * c + d
  {
    HexDigitValue(a);
    HexDigitValue(b);
    HexDigitValue(c);
    HexDigitValue(d);
  }

  lemma DigitsOf(unit: nat)
    requires unit <= 0xFFFF
    ensures unit == 0x1000 * (unit / 0x1000) + 0x100 * (unit / 0x100 % 16) + 0x10 * (unit / 0x10 % 16) + unit % 16
  {
    assert unit / 0x100 / 16 == unit / 0x1000 && unit / 0x10 / 16 == unit / 0x100;
  }

  lemma HexTextValue(unit: nat)
    requires unit <= 0xFFFF
    ensures AllHex(HexText(unit)) && Hex4(HexText(unit)) == unit
  {
    FourDigits(unit / 0x1000, unit / 0x100 % 16, unit / 0x10 % 16, unit % 16);
    DigitsOf(unit);
  }

  function Groups(units: seq<nat>): (r: seq<Bytes>)
    requires forall k :: 0 <= k < |units| ==> units[k] <= 0xFFFF
    ensures |r| == |units|
  {
    if units == [] then [] else [HexText(units[0])] + Groups(units[1..])
  }

  lemma {:induction false} GroupsValues(units: seq<nat>)
    requires forall k :: 0 <= k < |units| ==> units[k] <= 0xFFFF
    ensures HexGroups(Groups(units)) && UnitValues(Groups(units)) == units
  {
    if units != [] {
      HexTextValue(units[0]);
      GroupsValues(units[1..]);
      assert Groups(units)[1..] == Groups(units[1..]);
      assert [units[0]] + units[1..] == units;
    }
  }

  lemma {:induction false} HexRaw(q: Bytes, b: Bytes)
    requires AllHex(q) && RawBody(b)
    ensures RawBody(q + b)
  {
    if q == [] {
      assert q + b == b;
    } else {
      assert AllHex(q[1..]) && IsHex(q[0]);
      HexRaw(q[1..], b);
      assert (q + b)[1..] == q[1..] + b;
    }
  }

  lemma {:induction false} UnitTextRaw(groups: seq<Bytes>)
    requires HexGroups(groups)
    ensures RawBody(UnitText(groups))
  {
    if groups != [] {
      UnitTextRaw(groups[1..]);
      HexRaw(groups[0], UnitText(groups[1..]));
      RawPair(LETTER_U, groups[0] + UnitText(groups[1..]));
      assert UnitText(groups) == [BACKSLASH, LETTER_U] + (groups[0] + UnitText(groups[1..]));
    }
  }

  /** Groups of four hexadecimal digits, of either case. */
  predicate DigitGroups(groups: seq<Bytes>) {
    forall k :: 0 <= k < |groups| ==> |groups[k]| == 4 && AllHexDigits(groups[k])
  }

  function UnitsOf(groups: seq<Bytes>): (r: seq<nat>)
    requires DigitGroups(groups)
    ensures |r| == |groups| && forall k :: 0 <= k < |r| ==> r[k] <= 0xFFFF
  {
    if groups == [] then [] else [UnitOf(groups[0])] + UnitsOf(groups[1..])
  }

  lemma SameGroups(groups: seq<Bytes>)
    ensures DigitGroups(groups) <==> HexGroups(groups)
  {
    forall k | 0 <= k < |groups| && |groups[k]| == 4
      ensures AllHexDigits(groups[k]) <==> AllHex(groups[k])
    {
      StringSyntax.UnitIff(groups[k]);
    }
  }

  lemma {:induction false} SameUnits(groups: seq<Bytes>)
    requires DigitGroups(groups) && HexGroups(groups)
    ensures UnitsOf(groups) == UnitValues(groups)
  {
    if groups != [] {
      SameUnits(groups[1..]);
      assert UnitOf(groups[0]) == Hex4(groups[0]) by { StringSyntax.UnitIff(groups[0]); }
    }
  }

  /** A literal of well-formed `\uXXXX` escapes is parsed to the UTF-8 encoding of what its units denote as
      UTF-16, and is rejected when a surrogate is unpaired. */
  lemma ParseUnits(groups: seq<Bytes>, k: Input)
    requires DigitGroups(groups)
    ensures var points := DecodeUtf16(UnitsOf(groups));
            var r := Parsing.ParseString(Acceptance.WriteQuoted(UnitText(groups), k));
            if points.Some? then r == Parsing.Ok(Utf8All(points.value), k) else r.Fail?
  {
    SameGroups(groups);
    SameUnits(groups);
    UnitTextRaw(groups);
    ScanComplete(UnitText(groups), k);
    DecodeUnits(groups);
  }

  /** Every sequence of scalar values written with escapes is parsed to its UTF-8 encoding. */
  lemma ParseScalars(points: seq<nat>, k: Input)
    requires AllScalar(points)
    ensures Parsing.ParseString(Acceptance.WriteQuoted(UnitText(Groups(Utf16All(points))), k)) ==
            Parsing.Ok(Utf8All(points), k)
  {
    GroupsValues(Utf16All(points));
    SameGroups(Groups(Utf16All(points)));
    SameUnits(Groups(Utf16All(points)));
    DecodeUtf16All(points);
    ParseUnits(Groups(Utf16All(points)), k);
  }
}
