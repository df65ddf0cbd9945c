/** UTF-8 as section 3 of RFC 3629 defines it, UTF-16 as section 2.2 of RFC 2781 does. */
module Unicode {
  import opened Octets

  predicate IsHighSurrogate(unit: nat) {
    0xD800 <= unit <= 0xDBFF
  }

  predicate IsLowSurrogate(unit: nat) {
    0xDC00 <= unit <= 0xDFFF
  }

  /** The code point of a surrogate pair. */
  function Combine(high: nat, low: nat): (r: nat)
    requires IsHighSurrogate(high) && IsLowSurrogate(low)
    ensures 0x10000 <= r <= 0x10FFFF
  {
    0x10000 + (high - 0xD800) * 0x400 + (low - 0xDC00)
  }

  function Utf8Length(point: nat): nat {
    if point < 0x80 then 1 else if point < 0x800 then 2 else if point < 0x10000 then 3 else 4
  }

  /** The bytes that encode a code point. */
  function Utf8(point: nat): (r: Bytes)
    requires point <= 0x10FFFF
    ensures |r| == Utf8Length(point)
  {
    if point < 0x80 then [point]
    else if point < 0x800 then [0xC0 + point / 0x40, Continuation(point)]
    else if point < 0x10000 then [0xE0 + point / 0x1000, Continuation(point / 0x40), Continuation(point)]
    else
      [0xF0 + point / 0x40000, Continuation(point / 0x1000), Continuation(point / 0x40), Continuation(point)]
  }

  function Continuation(n: nat): Byte {
    0x80 + n % 0x40
  }

  predicate IsTail(b: Byte) {
    0x80 <= b <= 0xBF
  }

  predicate TwoBytes(u: Bytes, point: nat) {
    && |u| == 2 && 0xC2 <= u[0] <= 0xDF && IsTail(u[1])
    && point == 0x40 * (u[0] as int - 0xC0) + (u[1] as int - 0x80)
  }

  predicate ThreeBytes(u: Bytes, point: nat) {
    && |u| == 3 && 0xE0 <= u[0] <= 0xEF && IsTail(u[1]) && IsTail(u[2])
    && (u[0] == 0xE0 ==> u[1] >= 0xA0) && (u[0] == 0xED ==> u[1] <= 0x9F)
    && point == 0x1000 * (u[0] as int - 0xE0) + 0x40 * (u[1] as int - 0x80) + (u[2] as int - 0x80)
  }

  predicate FourBytes(u: Bytes, point: nat) {
    && |u| == 4 && 0xF0 <= u[0] <= 0xF4 && IsTail(u[1]) && IsTail(u[2]) && IsTail(u[3])
    && (u[0] == 0xF0 ==> u[1] >= 0x90) && (u[0] == 0xF4 ==> u[1] <= 0x8F)
    && point == 0x40000 * (u[0] as int - 0xF0) + 0x1000 * (u[1] as int - 0x80) + 0x40 * (u[2] as int - 0x80)
                + (u[3] as int - 0x80)
  }

  /** The bytes are a character as the syntax of section 4 of RFC 3629 has it, and are read as this code point. */
  predicate Encodes(u: Bytes, point: nat) {
    || (|u| == 1 && u[0] <= 0x7F && point == u[0])
    || TwoBytes(u, point) || ThreeBytes(u, point) || FourBytes(u, point)
  }

  /** The bytes of a scalar value are exactly those that are read as it. */
  lemma Utf8Iff(u: Bytes, point: nat)
    requires point <= 0x10FFFF && !(0xD800 <= point <= 0xDFFF)
    ensures Encodes(u, point) <==> u == Utf8(point)
  {
    if point < 0x80 {
    } else if point < 0x800 {
      assert TwoBytes(Utf8(point), point);
    } else if point < 0x10000 {
      assert ThreeBytes(Utf8(point), point) by { ThreeRead(point); }
    } else {
      assert FourBytes(Utf8(point), point) by { FourRead(point); }
    }
    if Encodes(u, point) {
      EncodedOnce(u, Utf8(point), point);
    }
  }

  lemma ThreeRead(point: nat)
    requires 0x800 <= point < 0x10000 && !(0xD800 <= point <= 0xDFFF)
    ensures ThreeBytes(Utf8(point), point)
  {
    assert point == point / 0x1000 * 0x1000 + point / 0x40 % 0x40 * 0x40 + point % 0x40;
  }

  lemma FourRead(point: nat)
    requires 0x10000 <= point <= 0x10FFFF
    ensures FourBytes(Utf8(point), point)
  {
    assert point == point / 0x40000 * 0x40000 + point / 0x1000 % 0x40 * 0x1000 + point / 0x40 % 0x40 * 0x40
                    + point % 0x40;
  }

  /** Bytes that are read as the same code point are the same. */
  lemma EncodedOnce(u: Bytes, v: Bytes, point: nat)
    requires Encodes(u, point) && Encodes(v, point)
    ensures u == v
  {
    EncodedLength(u, point);
    EncodedLength(v, point);
    if |u| == 3 {
      assert u[0] == v[0] && u[1] == v[1] && u[2] == v[2];
    } else if |u| == 4 {
      assert u[0] == v[0];
      assert u[1] == v[1];
      assert u[2] == v[2] && u[3] == v[3];
    }
  }

  lemma EncodedLength(u: Bytes, point: nat)
    requires Encodes(u, point)
    ensures |u| == Utf8Length(point)
  {
  }

  function Utf8All(points: seq<nat>): Bytes
    requires forall k :: 0 <= k < |points| ==> points[k] <= 0x10FFFF
  {
    if points == [] then [] else Utf8(points[0]) + Utf8All(points[1..])
  }

  /** The code points a sequence of 16-bit units denotes; `None` when a surrogate is unpaired. */
  function DecodeUtf16(units: seq<nat>): (r: Option<seq<nat>>)
    requires forall k :: 0 <= k < |units| ==> units[k] <= 0xFFFF
    ensures r.Some? ==> forall k :: 0 <= k < |r.value| ==> r.value[k] <= 0x10FFFF
  {
    if units == [] then Some([])
    else if IsLowSurrogate(units[0]) then None
    else if IsHighSurrogate(units[0]) then
      if |units| < 2 || !IsLowSurrogate(units[1]) then None
      else
        match DecodeUtf16(units[2..])
        case None => None
        case Some(rest) => Some([Combine(units[0], units[1])] + rest)
    else
      match DecodeUtf16(units[1..])
      case None => None
      case Some(rest) => Some([units[0]] + rest)
  }
}
