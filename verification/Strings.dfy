/** JSON string literals: escaping as `print_string_ptr` does it, and the two passes of
    `parse_string`, the first of which finds the closing quote and sizes the output buffer
    that the second one fills. */
module Strings {
  import opened Octets
  import opened Unicode

  // ----- escaping

  function HexDigit(n: nat): Byte
    requires n < 16
  {
    if n < 10 then ZERO + n else 87 + n
  }

  function EscapeByte(b: Byte): (r: Bytes)
    ensures |r| >= 1
  {
    if b == QUOTE || b == BACKSLASH then [BACKSLASH, b]
    else if b == 8 then [BACKSLASH, 98]
    else if b == 12 then [BACKSLASH, 102]
    else if b == 10 then [BACKSLASH, 110]
    else if b == 13 then [BACKSLASH, 114]
    else if b == 9 then [BACKSLASH, 116]
    else if b < 32 then [BACKSLASH, LETTER_U, ZERO, ZERO, HexDigit(b / 16), HexDigit(b % 16)]
    else [b]
  }

  function Escape(s: Bytes): (r: Bytes)
    ensures |r| >= |s|
    decreases s, 1
  {
    if s == [] then [] else EscapeMore(s)
  }

  function EscapeMore(s: Bytes): (r: Bytes)
    requires s != []
    ensures |r| >= |s|
    decreases s, 0
  {
    EscapeByte(s[0]) + Escape(s[1..])
  }

  /** The text of a string literal, quotes included. */
  function Quoted(s: Bytes): Bytes {
    [QUOTE] + Escape(s) + [QUOTE]
  }

  // ----- first pass

  /** What may stand between two quotes, as the first pass reads it: a backslash always takes
      the next byte with it. `escaped` says that a backslash has just been read. */
  predicate RawTail(b: Bytes, escaped: bool) {
    if b == [] then !escaped
    else if escaped then RawTail(b[1..], false)
    else if b[0] == BACKSLASH then RawTail(b[1..], true)
    else b[0] != QUOTE && RawTail(b[1..], false)
  }

  predicate RawBody(b: Bytes) {
    RawTail(b, false)
  }

  /** Reading on after a complete part of a body. */
  lemma {:induction false} RawAppend(b: Bytes, escaped: bool, u: Bytes)
    requires RawTail(b, escaped)
    ensures RawTail(b + u, escaped) <==> RawBody(u)
    ensures Budget(b + u, escaped) == Budget(b, escaped) + Budget(u, false)
  {
    if b == [] {
      assert b + u == u;
    } else {
      assert (b + u)[1..] == b[1..] + u;
      RawAppend(b[1..], !escaped && b[0] == BACKSLASH, u);
    }
  }

  /** The bytes the first pass counts: everything but the backslash of each pair. */
  function Budget(b: Bytes, escaped: bool): nat {
    if b == [] then 0
    else if escaped then 1 + Budget(b[1..], false)
    else if b[0] == BACKSLASH then Budget(b[1..], true)
    else 1 + Budget(b[1..], false)
  }

  /** The first pass on what follows the opening quote: the body up to the closing quote and what
      comes after it. */
  datatype Scanned = Unclosed | Scanned(body: Bytes, rest: Input)

  function Scan(s: Input): (r: Scanned)
    ensures r.Scanned? ==> Length(s) == |r.body| + 1 + Length(r.rest)
  {
    if s.End? then Unclosed
    else if s.byte == QUOTE then Scanned([], s.rest)
    else if s.byte != BACKSLASH then Put([s.byte], Scan(s.rest))
    else if s.rest.End? then Unclosed
    else Put([s.byte, s.rest.byte], Scan(s.rest.rest))
  }

  function Put(u: Bytes, r: Scanned): Scanned {
    match r
    case Unclosed => Unclosed
    case Scanned(body, rest) => Scanned(u + body, rest)
  }

  lemma PutPut(u: Bytes, v: Bytes, r: Scanned)
    ensures Put(u, Put(v, r)) == Put(u + v, r)
  {
    if r.Scanned? {
      assert u + (v + r.body) == u + v + r.body;
    }
  }

  lemma EmitNone(d: Decoding)
    ensures Emit([], d) == d
  {
    if d.Decoded? {
      assert [] + d.out == d.out;
    }
  }

  lemma EmitEmit(u: Bytes, v: Bytes, d: Decoding)
    ensures Emit(u, Emit(v, d)) == Emit(u + v, d)
  {
    if d.Decoded? {
      assert u + (v + d.out) == u + v + d.out;
    }
  }

  lemma {:induction false} ScanSound(s: Input)
    requires Scan(s).Scanned?
    ensures RawBody(Scan(s).body) && s == Prepend(Scan(s).body, More(QUOTE, Scan(s).rest))
  {
    var r := Scan(s);
    if s.byte == QUOTE {
    } else if s.byte != BACKSLASH {
      ScanSound(s.rest);
      assert r.body[1..] == Scan(s.rest).body;
    } else {
      ScanSound(s.rest.rest);
      assert r.body[1..][1..] == Scan(s.rest.rest).body;
      assert RawTail(r.body[1..], true);
    }
  }

  lemma {:induction false} ScanComplete(b: Bytes, k: Input)
    requires RawBody(b)
    ensures Scan(Prepend(b, More(QUOTE, k))) == Scanned(b, k)
    decreases |b|
  {
    if b != [] {
      if b[0] == BACKSLASH {
        assert RawTail(b[1..], true) && b[1..][1..] == b[2..];
        ScanComplete(b[2..], k);
        assert b == [b[0], b[1]] + b[2..];
      } else {
        ScanComplete(b[1..], k);
        assert b == [b[0]] + b[1..];
      }
    }
  }

  // ----- second pass

  predicate IsHex(b: Byte) {
    ZERO <= b <= ZERO + 9 || 65 <= b <= 70 || 97 <= b <= 102
  }

  function HexValue(b: Byte): (r: nat)
    requires IsHex(b)
    ensures r < 16
  {
    if b <= ZERO + 9 then b - ZERO else if b <= 70 then b - 55 else b - 87
  }

  predicate AllHex(q: Bytes) {
    forall k :: 0 <= k < |q| ==> IsHex(q[k])
  }

  /** `parse_hex4`: a malformed group of digits counts as zero. */
  function Hex4(q: Bytes): (r: nat)
    requires |q| == 4
    ensures r <= 0xFFFF
  {
    if AllHex(q) then
      0x1000 * HexValue(q[0]) + 0x100 * HexValue(q[1]) + 0x10 * HexValue(q[2]) + HexValue(q[3])
    else 0
  }

  datatype Literal = BadLiteral | Literal(length: nat, point: nat)

  /** A `\uXXXX` escape, or a pair of them for a surrogate pair, at the start of `s`, the last
      byte of which is the closing quote. */
  function Utf16Literal(s: Bytes): (r: Literal)
    ensures r.Literal? ==> 6 <= r.length < |s| && r.point <= 0x10FFFF
  {
    if |s| < 7 then BadLiteral
    else
      var first := Hex4(s[2..6]);
      if IsLowSurrogate(first) then BadLiteral
      else if IsHighSurrogate(first) then
        if |s| < 13 || s[6] != BACKSLASH || s[7] != LETTER_U then BadLiteral
        else
          var second := Hex4(s[8..12]);
          if IsLowSurrogate(second) then Literal(12, Combine(first, second)) else BadLiteral
      else Literal(6, first)
  }

  /** The byte a two-character escape stands for. */
  function SimpleEscape(b: Byte): Option<Byte> {
    if b == 98 then Some(8)
    else if b == 102 then Some(12)
    else if b == 110 then Some(10)
    else if b == 114 then Some(13)
    else if b == 116 then Some(9)
    else if b == QUOTE || b == BACKSLASH || b == SLASH then Some(b)
    else None
  }

  /** The result of the second pass. A malformed escape is reported by the number of bytes from
      its backslash up to the closing quote. */
  datatype Decoding = Decoded(out: Bytes) | Malformed(left: nat)

  function Emit(u: Bytes, d: Decoding): Decoding {
    match d
    case Decoded(out) => Decoded(u + out)
    case Malformed(_) => d
  }

  /** What one round of the second pass reads and writes. */
  datatype Unit = BadUnit | Unit(length: nat, out: Bytes)

  /** One round of the second pass on the rest `s` of a literal, closing quote included. A
      two-character escape can swallow the quote after the passes have come apart. */
  function FirstUnit(s: Bytes): (r: Unit)
    requires |s| >= 2
    ensures r.Unit? ==> 1 <= r.length <= |s|
  {
    if s[0] != BACKSLASH then Unit(1, [s[0]])
    else if s[1] == LETTER_U then
      match Utf16Literal(s)
      case BadLiteral => BadUnit
      case Literal(n, point) => Unit(n, Utf8(point))
    else
      match SimpleEscape(s[1])
      case None => BadUnit
      case Some(e) => Unit(2, [e])
  }

  /** The second pass on the rest of a literal: it stops at the closing quote, or behind it. */
  function Decode(s: Bytes): (r: Decoding)
    ensures r.Malformed? ==> r.left <= |s|
    decreases |s|, 2
  {
    if |s| <= 1 then Decoded([]) else DecodeUnit(s)
  }

  function DecodeUnit(s: Bytes): (r: Decoding)
    requires |s| >= 2
    ensures r.Malformed? ==> r.left <= |s|
    decreases |s|, 1
  {
    if s[0] != BACKSLASH then Emit([s[0]], Decode(s[1..])) else DecodeBackslash(s)
  }

  function DecodeBackslash(s: Bytes): (r: Decoding)
    requires |s| >= 2
    ensures r.Malformed? ==> r.left <= |s|
    decreases |s|, 0
  {
    match FirstUnit(s)
    case BadUnit => Malformed(|s|)
    case Unit(n, u) => Emit(u, Decode(s[n..]))
  }

  /** One round of the second pass. */
  lemma DecodeFirst(s: Bytes)
    requires |s| >= 2
    ensures FirstUnit(s).BadUnit? ==> Decode(s) == Malformed(|s|)
    ensures FirstUnit(s).Unit? ==> Decode(s) == Emit(FirstUnit(s).out, Decode(s[FirstUnit(s).length..]))
  {
    assert s[0] == BACKSLASH ==> DecodeUnit(s) == DecodeBackslash(s);
  }

  // ----- the second pass fits in the buffer

  /** The first-pass state after `k` bytes. */
  function StateAfter(b: Bytes, escaped: bool, k: nat): bool
    requires k <= |b|
  {
    if k == 0 then escaped else StateAfter(b[1..], !escaped && b[0] == BACKSLASH, k - 1)
  }

  /** Dropping bytes keeps the rest well formed for the first pass and never raises its count. */
  lemma {:induction false} BudgetDrop(b: Bytes, escaped: bool, k: nat)
    requires k <= |b| && RawTail(b, escaped)
    ensures RawTail(b[k..], StateAfter(b, escaped, k))
    ensures Budget(b[k..], StateAfter(b, escaped, k)) <= Budget(b, escaped)
  {
    if k > 0 {
      BudgetDrop(b[1..], !escaped && b[0] == BACKSLASH, k - 1);
      assert b[1..][k - 1..] == b[k..];
    } else {
      assert b[0..] == b;
    }
  }

  /** Bytes that are no backslashes are all counted. */
  lemma {:induction false} BudgetPlain(b: Bytes, k: nat)
    requires k <= |b| && RawTail(b, false)
    requires forall i :: 0 <= i < k ==> b[i] != BACKSLASH
    ensures RawTail(b[k..], false) && Budget(b, false) == k + Budget(b[k..], false)
  {
    if k > 0 {
      BudgetPlain(b[1..], k - 1);
      assert b[1..][k - 1..] == b[k..];
    } else {
      assert b[0..] == b;
    }
  }

  /** The `\u` of an escape leaves the first pass between two units and is counted at least once,
      whether or not the passes agree on where units start. */
  lemma BudgetEscapeMark(b: Bytes, escaped: bool)
    requires |b| >= 2 && RawTail(b, escaped) && b[0] == BACKSLASH && b[1] != BACKSLASH
    ensures RawTail(b[2..], false) && Budget(b, escaped) >= 1 + Budget(b[2..], false)
  {
    assert b[1..][1..] == b[2..];
  }

  /** A `\uXXXX` escape read by the second pass takes no more room than the first pass counted:
      either its four digits are all counted, or it decodes to a single zero byte. */
  lemma LiteralFits(s: Bytes, escaped: bool) returns (after: bool)
    requires |s| >= 2 && RawTail(s[..|s| - 1], escaped)
    requires s[0] == BACKSLASH && s[1] == LETTER_U && Utf16Literal(s).Literal?
    ensures var n := Utf16Literal(s).length;
            && RawTail(s[n..|s| - 1], after)
            && |Utf8(Utf16Literal(s).point)| + Budget(s[n..|s| - 1], after) <= Budget(s[..|s| - 1], escaped)
  {
    var b := s[..|s| - 1];
    var n := Utf16Literal(s).length;
    BudgetEscapeMark(b, escaped);
    var d := b[2..];
    assert s[2..6] == d[..4];
    if AllHex(d[..4]) {
      HexIsPlain(d, 4);
      BudgetPlain(d, 4);
      assert d[4..] == b[6..];
      after := false;
      if n == 12 {
        var e := b[6..];
        BudgetEscapeMark(e, false);
        assert e[2..] == b[8..];
        assert s[8..12] == b[8..][..4];
        HexIsPlain(b[8..], 4);
        BudgetPlain(b[8..], 4);
        assert b[8..][4..] == b[12..];
      }
    } else {
      after := StateAfter(d, false, 4);
      BudgetDrop(d, false, 4);
      assert d[4..] == b[6..];
    }
    assert b[n..] == s[n..|s| - 1];
  }

  lemma HexIsPlain(d: Bytes, k: nat)
    requires k <= |d| && AllHex(d[..k])
    ensures forall i :: 0 <= i < k ==> d[i] != BACKSLASH
  {
    assert forall i :: 0 <= i < k ==> IsHex(d[..k][i]) && d[..k][i] == d[i];
  }

  /** One round of the second pass takes no more room than the first pass counted for it, whether
      or not the passes agree on where escapes start. */
  lemma UnitFits(s: Bytes, escaped: bool) returns (after: bool)
    requires |s| >= 2 && RawTail(s[..|s| - 1], escaped) && FirstUnit(s).Unit?
    ensures var n := FirstUnit(s).length;
            var u := FirstUnit(s).out;
            if n == |s| then |u| <= Budget(s[..|s| - 1], escaped)
            else RawTail(s[n..|s| - 1], after) && |u| + Budget(s[n..|s| - 1], after) <= Budget(s[..|s| - 1], escaped)
  {
    var b := s[..|s| - 1];
    if s[0] == BACKSLASH && s[1] == LETTER_U {
      after := LiteralFits(s, escaped);
    } else if s[0] != BACKSLASH {
      after := false;
      assert s[1..|s| - 1] == b[1..];
    } else if |s| == 2 {
      after := false;
    } else {
      after := escaped && b[1] == BACKSLASH;
      assert s[2..|s| - 1] == b[2..] && b[1..][1..] == b[2..];
    }
  }

  /** For every literal the first pass delimits, the second pass writes at most as many bytes as
      the first one counted. The two passes may disagree on where escapes start: a malformed
      `\u` group can swallow a backslash, after which the second pass is one byte off. */
  lemma {:induction false} DecodeFits(s: Bytes, escaped: bool)
    requires |s| >= 1 && RawTail(s[..|s| - 1], escaped) && Decode(s).Decoded?
    ensures |Decode(s).out| <= Budget(s[..|s| - 1], escaped)
    decreases |s|
  {
    if |s| >= 2 {
      DecodeFirst(s);
      var after := UnitFits(s, escaped);
      var n := FirstUnit(s).length;
      if n < |s| {
        assert s[n..][..|s| - n - 1] == s[n..|s| - 1];
        DecodeFits(s[n..], after);
      }
    }
  }

  // ----- escaping and decoding are inverse

  lemma RawPlain(u: Byte, b: Bytes)
    requires u != BACKSLASH && u != QUOTE && RawBody(b)
    ensures RawBody([u] + b)
  {
    assert ([u] + b)[1..] == b;
  }

  lemma RawPair(u: Byte, b: Bytes)
    requires RawBody(b)
    ensures RawBody([BACKSLASH, u] + b)
  {
    var s := [BACKSLASH, u] + b;
    assert s[1..][1..] == b;
    assert RawTail(s[1..], true);
  }

  lemma RawControl(h: Byte, l: Byte, b: Bytes)
    requires RawBody(b) && IsHex(h) && IsHex(l)
    ensures RawBody([BACKSLASH, LETTER_U, ZERO, ZERO, h, l] + b)
  {
    var b1 := [l] + b;
    var b2 := [h] + b1;
    var b3 := [ZERO] + b2;
    var b4 := [ZERO] + b3;
    RawPlain(l, b);
    RawPlain(h, b1);
    RawPlain(ZERO, b2);
    RawPlain(ZERO, b3);
    RawPair(LETTER_U, b4);
    assert [BACKSLASH, LETTER_U, ZERO, ZERO, h, l] + b == [BACKSLASH, LETTER_U] + b4 by { ControlText(h, l, b); }
  }

  lemma ControlText(h: Byte, l: Byte, b: Bytes)
    ensures [BACKSLASH, LETTER_U, ZERO, ZERO, h, l] + b
         == [BACKSLASH, LETTER_U] + ([ZERO] + ([ZERO] + ([h] + ([l] + b))))
  {
  }

  lemma RawEscapedByte(x: Byte, b: Bytes)
    requires RawBody(b)
    ensures RawBody(EscapeByte(x) + b)
  {
    var e := EscapeByte(x);
    if |e| == 2 {
      RawPair(e[1], b);
      assert e == [BACKSLASH, e[1]];
    } else if |e| == 6 {
      HexDigitValue(x / 16);
      HexDigitValue(x % 16);
      RawControl(e[4], e[5], b);
    } else {
      RawPlain(x, b);
    }
  }

  lemma {:induction false} EscapeIsRaw(s: Bytes)
    requires NoNul(s)
    ensures RawBody(Escape(s)) && NoNul(Escape(s))
  {
    if s != [] {
      EscapeIsRaw(s[1..]);
      RawEscapedByte(s[0], Escape(s[1..]));
    }
  }

  lemma HexDigitValue(n: nat)
    requires n < 16
    ensures IsHex(HexDigit(n)) && HexValue(HexDigit(n)) == n
  {
  }

  lemma DecodePair(u: Byte, rest: Bytes)
    requires SimpleEscape(u).Some?
    ensures Decode([BACKSLASH, u] + rest) == Emit([SimpleEscape(u).value], Decode(rest))
  {
    var s := [BACKSLASH, u] + rest;
    DecodeFirst(s);
    assert s[2..] == rest;
  }

  lemma ControlDigits(b: Byte)
    requires b < 32
    ensures Hex4([ZERO, ZERO, HexDigit(b / 16), HexDigit(b % 16)]) == b
  {
    HexDigitValue(b / 16);
    HexDigitValue(b % 16);
  }

  lemma DecodeControl(b: Byte, rest: Bytes)
    requires b < 32 && |rest| >= 1
    ensures var q := [ZERO, ZERO, HexDigit(b / 16), HexDigit(b % 16)];
            Decode([BACKSLASH, LETTER_U] + q + rest) == Emit([b], Decode(rest))
  {
    var q: Bytes := [ZERO, ZERO, HexDigit(b / 16), HexDigit(b % 16)];
    var s := [BACKSLASH, LETTER_U] + q + rest;
    assert s[2..6] == q && s[6..] == rest;
    assert Utf16Literal(s) == Literal(6, b) by { ControlDigits(b); }
    DecodeLiteral(s);
  }

  /** A `\u` escape at the start of the rest of a literal. */
  lemma DecodeLiteral(s: Bytes)
    requires |s| >= 2 && s[0] == BACKSLASH && s[1] == LETTER_U
    ensures Utf16Literal(s).BadLiteral? ==> Decode(s).Malformed?
    ensures Utf16Literal(s).Literal? ==>
              Decode(s) == Emit(Utf8(Utf16Literal(s).point), Decode(s[Utf16Literal(s).length..]))
  {
    DecodeFirst(s);
  }

  /** The three shapes of an escaped byte. */
  predicate Encodes(e: Bytes, b: Byte) {
    || (|e| == 1 && e[0] == b && b != BACKSLASH)
    || (|e| == 2 && e[0] == BACKSLASH && SimpleEscape(e[1]) == Some(b))
    || (b < 32 && e == [BACKSLASH, LETTER_U] + [ZERO, ZERO, HexDigit(b / 16), HexDigit(b % 16)])
  }

  lemma EscapeEncodes(b: Byte)
    ensures Encodes(EscapeByte(b), b)
  {
  }

  lemma DecodeEncoded(e: Bytes, b: Byte, rest: Bytes)
    requires Encodes(e, b) && |rest| >= 1
    ensures Decode(e + rest) == Emit([b], Decode(rest))
  {
    if |e| == 1 {
      assert e == [b];
      DecodePlain(b, rest);
    } else if |e| == 2 {
      assert e == [BACKSLASH, e[1]];
      DecodePair(e[1], rest);
    } else {
      DecodeControl(b, rest);
    }
  }

  lemma DecodePlain(b: Byte, rest: Bytes)
    requires b != BACKSLASH && |rest| >= 1
    ensures Decode([b] + rest) == Emit([b], Decode(rest))
  {
    assert ([b] + rest)[1..] == rest;
  }

  /** Decoding what `print_string_ptr` escapes gives the string back. */
  lemma {:induction false} DecodeEscape(s: Bytes)
    requires NoNul(s)
    ensures Decode(Escape(s) + [QUOTE]) == Decoded(s)
  {
    if s != [] {
      var rest := Escape(s[1..]) + [QUOTE];
      DecodeEscape(s[1..]);
      assert Decode(EscapeByte(s[0]) + rest) == Emit([s[0]], Decode(rest)) by {
        EscapeEncodes(s[0]);
        DecodeEncoded(EscapeByte(s[0]), s[0], rest);
      }
      assert Escape(s) + [QUOTE] == EscapeByte(s[0]) + rest;
      assert [s[0]] + s[1..] == s;
    } else {
      assert Escape(s) + [QUOTE] == [QUOTE];
    }
  }

  // ----- escapes of 16-bit units

  /** The text `\uXXXX\uXXXX...` for groups of four hexadecimal digits of either case. */
  function UnitText(groups: seq<Bytes>): Bytes {
    if groups == [] then [] else [BACKSLASH, LETTER_U] + groups[0] + UnitText(groups[1..])
  }

  predicate HexGroups(groups: seq<Bytes>) {
    forall k :: 0 <= k < |groups| ==> |groups[k]| == 4 && AllHex(groups[k])
  }

  function UnitValues(groups: seq<Bytes>): (r: seq<nat>)
    requires HexGroups(groups)
    ensures |r| == |groups| && forall k :: 0 <= k < |r| ==> r[k] <= 0xFFFF
  {
    if groups == [] then [] else [Hex4(groups[0])] + UnitValues(groups[1..])
  }

  lemma UnitTextHead(groups: seq<Bytes>, tail: Bytes)
    requires HexGroups(groups) && groups != []
    ensures var s := UnitText(groups) + tail;
            && |s| == 6 + |UnitText(groups[1..])| + |tail|
            && s[0] == BACKSLASH && s[1] == LETTER_U && s[2..6] == groups[0]
            && s[6..] == UnitText(groups[1..]) + tail
  {
    assert |groups[0]| == 4;
    GroupHead(groups[0], UnitText(groups[1..]), tail);
  }

  lemma GroupHead(q: Bytes, more: Bytes, tail: Bytes)
    requires |q| == 4
    ensures var s := [BACKSLASH, LETTER_U] + q + more + tail;
            && |s| == 6 + |more| + |tail| && s[0] == BACKSLASH && s[1] == LETTER_U
            && s[2..6] == q && s[6..] == more + tail
  {
  }

  lemma {:induction false} UnitTextLength(groups: seq<Bytes>)
    requires HexGroups(groups)
    ensures |UnitText(groups)| == 6 * |groups|
  {
    if groups != [] {
      UnitTextLength(groups[1..]);
    }
  }

  /** Escaped 16-bit units decode exactly as UTF-16: to the UTF-8 encoding of the code points they
      denote, and not at all when a surrogate is unpaired. */
  lemma {:induction false} DecodeUnits(groups: seq<Bytes>)
    requires HexGroups(groups)
    ensures var points := DecodeUtf16(UnitValues(groups));
            var d := Decode(UnitText(groups) + [QUOTE]);
            if points.Some? then d == Decoded(Utf8All(points.value)) else d.Malformed?
  {
    var s := UnitText(groups) + [QUOTE];
    var units := UnitValues(groups);
    if groups == [] {
      assert s == [QUOTE];
    } else {
      UnitTextHead(groups, [QUOTE]);
      UnitTextLength(groups[1..]);
      DecodeLiteral(s);
      assert units[1..] == UnitValues(groups[1..]);
      if !IsHighSurrogate(units[0]) {
        DecodeUnits(groups[1..]);
        if !IsLowSurrogate(units[0]) {
          HeadPoint(units[0], DecodeUtf16(units[1..]));
        }
      } else if |groups| >= 2 {
        UnitTextHead(groups[1..], [QUOTE]);
        assert groups[1..][1..] == groups[2..];
        assert s[6..][2..6] == s[8..12] && s[6..][6..] == s[12..];
        assert units[2..] == UnitValues(groups[2..]) by { assert units[1..][1..] == units[2..]; }
        DecodeUnits(groups[2..]);
        if IsLowSurrogate(units[1]) {
          HeadPoint(Combine(units[0], units[1]), DecodeUtf16(units[2..]));
        }
      }
    }
  }

  lemma HeadPoint(point: nat, rest: Option<seq<nat>>)
    requires point <= 0x10FFFF
    requires rest.Some? ==> forall k :: 0 <= k < |rest.value| ==> rest.value[k] <= 0x10FFFF
    ensures rest.Some? ==> Utf8All([point] + rest.value) == Utf8(point) + Utf8All(rest.value)
  {
    if rest.Some? {
      assert ([point] + rest.value)[1..] == rest.value;
    }
  }
}
