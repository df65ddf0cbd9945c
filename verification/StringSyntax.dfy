/** The syntax of string literals: what may stand between two quotes, and which bytes it means. Nothing in
    the definitions says how a literal is read; the theorems say that the two passes of `parse_string` read
    exactly this. */
module StringSyntax {
  import opened Octets
  import opened Unicode
  import opened Characters
  import Strings

  // ----- where a literal ends

  /** A byte of its own, or a backslash with the byte it takes along. */
  datatype Unit = Char(b: Byte) | Escaped(b: Byte)

  predicate ValidUnits(us: seq<Unit>) {
    forall k :: 0 <= k < |us| ==> us[k].Char? ==> us[k].b != QUOTE && us[k].b != BACKSLASH
  }

  function UnitsText(us: seq<Unit>): Bytes {
    if us == [] then [] else (if us[0].Char? then [us[0].b] else [BACKSLASH, us[0].b]) + UnitsText(us[1..])
  }

  /** No quote stands bare in the body. */
  ghost predicate Delimited(body: Bytes) {
    exists us :: ValidUnits(us) && UnitsText(us) == body
  }

  // ----- what it means

  /** A byte of its own, a two-character escape, a `\uXXXX` escape, or two of them for a surrogate pair. */
  datatype Part = Plain(b: Byte) | Short(e: Byte) | Code(q: Bytes) | Pair(high: Bytes, low: Bytes)

  function PartText(p: Part): Bytes {
    match p
    case Plain(b) => [b]
    case Short(e) => [Ascii('\\'), e]
    case Code(q) => CodeText(q)
    case Pair(high, low) => CodeText(high) + CodeText(low)
  }

  function CodeText(q: Bytes): Bytes {
    [Ascii('\\'), Ascii('u')] + q
  }

  /** Digits that are not hexadecimal count as zero, as in `parse_hex4`. */
  function UnitRead(q: Bytes): (r: nat)
    requires |q| == 4
    ensures r <= 0xFFFF
  {
    if AllHexDigits(q) then UnitOf(q) else 0
  }

  predicate ValidPart(p: Part) {
    match p
    case Plain(b) => b != BACKSLASH
    case Short(e) => ShortMeaning(e).Some?
    case Code(q) => |q| == 4 && !IsHighSurrogate(UnitRead(q)) && !IsLowSurrogate(UnitRead(q))
    case Pair(high, low) => |high| == 4 == |low| && IsHighSurrogate(UnitRead(high)) && IsLowSurrogate(UnitRead(low))
  }

  function PartOut(p: Part): Bytes
    requires ValidPart(p)
  {
    match p
    case Plain(b) => [b]
    case Short(e) => [ShortMeaning(e).value]
    case Code(q) => Utf8(UnitRead(q))
    case Pair(high, low) => Utf8(Combine(UnitRead(high), UnitRead(low)))
  }

  predicate ValidParts(ps: seq<Part>) {
    forall k :: 0 <= k < |ps| ==> ValidPart(ps[k])
  }

  function PartsText(ps: seq<Part>): Bytes {
    if ps == [] then [] else PartText(ps[0]) + PartsText(ps[1..])
  }

  function PartsOut(ps: seq<Part>): Bytes
    requires ValidParts(ps)
  {
    if ps == [] then [] else PartOut(ps[0]) + PartsOut(ps[1..])
  }

  /** The parts spell the body. After a malformed `\u` group has swallowed a backslash the last part can be
      an escaped quote that takes the closing quote along. */
  ghost predicate Spells(ps: seq<Part>, body: Bytes) {
    && ValidParts(ps)
    && (|| PartsText(ps) == body
        || (ps != [] && ps[|ps| - 1] == Short(QUOTE) && PartsText(ps) == body + [QUOTE]))
  }

  ghost predicate ValidBody(body: Bytes) {
    Delimited(body) && exists ps :: Spells(ps, body)
  }

  ghost function BodyMeaning(body: Bytes): Bytes
    requires ValidBody(body)
  {
    var ps :| Spells(ps, body);
    PartsOut(ps)
  }

  // ----- the first pass

  lemma {:induction false} UnitsRaw(us: seq<Unit>)
    requires ValidUnits(us)
    ensures Strings.RawBody(UnitsText(us))
  {
    if us != [] {
      UnitsRaw(us[1..]);
      if us[0].Char? {
        Strings.RawPlain(us[0].b, UnitsText(us[1..]));
      } else {
        Strings.RawPair(us[0].b, UnitsText(us[1..]));
      }
    }
  }

  lemma {:induction false} RawUnits(body: Bytes) returns (us: seq<Unit>)
    requires Strings.RawBody(body)
    ensures ValidUnits(us) && UnitsText(us) == body
    decreases |body|
  {
    if body == [] {
      us := [];
    } else if body[0] == BACKSLASH {
      assert Strings.RawTail(body[1..], true) && body[1..][1..] == body[2..];
      var rest := RawUnits(body[2..]);
      us := [Escaped(body[1])] + rest;
      assert us[1..] == rest && body == [body[0], body[1]] + body[2..];
    } else {
      var rest := RawUnits(body[1..]);
      us := [Char(body[0])] + rest;
      assert us[1..] == rest && body == [body[0]] + body[1..];
    }
  }

  /** The first pass takes a text for a body exactly when no quote stands bare in it. */
  lemma DelimitedIff(body: Bytes)
    ensures Delimited(body) <==> Strings.RawBody(body)
  {
    if us :| ValidUnits(us) && UnitsText(us) == body {
      UnitsRaw(us);
    }
    if Strings.RawBody(body) {
      var us := RawUnits(body);
    }
  }

  // ----- the second pass

  /** The parser's two-character escapes are those of the RFC. */
  lemma ShortIff(e: Byte)
    ensures Strings.SimpleEscape(e) == ShortMeaning(e)
  {
    var place := Place(e, SHORT, |SHORT|);
    assert SHORT[0] as int == 34 && SHORT[1] as int == 92 && SHORT[2] as int == 47 && SHORT[3] as int == 98;
    assert SHORT[4] as int == 102 && SHORT[5] as int == 110 && SHORT[6] as int == 114 && SHORT[7] as int == 116;
  }

  lemma DigitIff(b: Byte)
    ensures Strings.IsHex(b) <==> DigitValue(b).Some?
    ensures Strings.IsHex(b) ==> Strings.HexValue(b) == DigitValue(b).value
  {
    DigitPlaces();
    CapitalPlaces();
    if 48 <= b <= 57 {
      assert DIGITS[b - 48] as int == b;
    } else if 97 <= b <= 102 {
      assert DIGITS[b - 87] as int == b;
    } else if 65 <= b <= 70 {
      assert CAPITALS[b - 55] as int == b;
    }
  }

  lemma DigitPlaces()
    ensures forall i :: 0 <= i < 16 ==> DIGITS[i] as int == if i < 10 then 48 + i else 87 + i
  {
  }

  lemma CapitalPlaces()
    ensures forall i :: 0 <= i < 16 ==> CAPITALS[i] as int == if i < 10 then 48 + i else 55 + i
  {
  }

  /** A group of digits of either case has the value the parser gives it. */
  lemma UnitIff(q: Bytes)
    requires |q| == 4
    ensures Strings.Hex4(q) == UnitRead(q) && (Strings.AllHex(q) <==> AllHexDigits(q))
  {
    forall k | 0 <= k < 4
      ensures Strings.IsHex(q[k]) <==> DigitValue(q[k]).Some?
      ensures Strings.IsHex(q[k]) ==> Strings.HexValue(q[k]) == DigitValue(q[k]).value
    {
      DigitIff(q[k]);
    }
  }

  /** One round on the text of a part that something follows. */
  lemma PartDecodes(p: Part, tail: Bytes)
    requires ValidPart(p) && tail != []
    ensures Strings.FirstUnit(PartText(p) + tail) == Strings.Unit(|PartText(p)|, PartOut(p))
  {
    var s := PartText(p) + tail;
    match p
    case Short(e) =>
      ShortIff(e);
    case Code(q) =>
      assert Strings.Utf16Literal(s) == Strings.Literal(6, UnitRead(q)) by { CodeRead(q, tail); }
    case Pair(high, low) =>
      var point := Combine(UnitRead(high), UnitRead(low));
      assert Strings.Utf16Literal(s) == Strings.Literal(12, point) by { PairRead(high, low, tail); }
    case _ =>
  }

  lemma CodeRead(q: Bytes, tail: Bytes)
    requires ValidPart(Code(q)) && tail != []
    ensures Strings.Utf16Literal(CodeText(q) + tail) == Strings.Literal(6, UnitRead(q))
  {
    assert (CodeText(q) + tail)[2..6] == q;
    UnitIff(q);
  }

  lemma PairRead(high: Bytes, low: Bytes, tail: Bytes)
    requires ValidPart(Pair(high, low)) && tail != []
    ensures Strings.Utf16Literal(CodeText(high) + CodeText(low) + tail) ==
            Strings.Literal(12, Combine(UnitRead(high), UnitRead(low)))
  {
    var s := CodeText(high) + CodeText(low) + tail;
    assert s[2..6] == high && s[8..12] == low;
    UnitIff(high);
    UnitIff(low);
  }

  lemma DecodePart(p: Part, tail: Bytes)
    requires ValidPart(p) && tail != []
    ensures Strings.Decode(PartText(p) + tail) == Strings.Emit(PartOut(p), Strings.Decode(tail))
  {
    var s := PartText(p) + tail;
    PartDecodes(p, tail);
    Strings.DecodeFirst(s);
    assert s[|PartText(p)|..] == tail;
  }

  /** The part that one round of the second pass reads. */
  lemma PartOf(s: Bytes) returns (p: Part)
    requires |s| >= 2 && Strings.FirstUnit(s).Unit?
    ensures var unit := Strings.FirstUnit(s);
            && ValidPart(p) && PartText(p) == s[..unit.length] && PartOut(p) == unit.out
            && (unit.length == |s| ==> p == Short(s[1]) && |s| == 2)
  {
    if s[0] != BACKSLASH {
      p := Plain(s[0]);
    } else if s[1] != LETTER_U {
      p := Short(s[1]);
      ShortIff(s[1]);
    } else {
      p := CodePart(s);
    }
  }

  lemma CodePart(s: Bytes) returns (p: Part)
    requires |s| >= 2 && s[0] == BACKSLASH && s[1] == LETTER_U && Strings.Utf16Literal(s).Literal?
    ensures var literal := Strings.Utf16Literal(s);
            ValidPart(p) && PartText(p) == s[..literal.length] && PartOut(p) == Utf8(literal.point)
  {
    UnitIff(s[2..6]);
    if Strings.Utf16Literal(s).length == 6 {
      p := Code(s[2..6]);
      assert CodeText(s[2..6]) == s[..6];
    } else {
      p := Pair(s[2..6], s[8..12]);
      UnitIff(s[8..12]);
      TwoCodes(s);
    }
  }

  lemma TwoCodes(s: Bytes)
    requires |s| >= 12 && s[0] == s[6] == BACKSLASH && s[1] == s[7] == LETTER_U
    ensures CodeText(s[2..6]) + CodeText(s[8..12]) == s[..12]
  {
  }

  /** The parts behind the first one spell what is left of the body. */
  lemma SpellsRest(ps: seq<Part>, body: Bytes) returns (rest: Bytes)
    requires ps != [] && Spells(ps, body) && ps != [Short(QUOTE)]
    ensures body == PartText(ps[0]) + rest && Spells(ps[1..], rest)
  {
    var t, more := PartText(ps[0]), PartsText(ps[1..]);
    assert |ps| == 1 ==> ps == [ps[0]];
    if t + more == body {
      rest := more;
    } else {
      var n := |more|;
      assert n > 0 by { assert |PartText(ps[1])| > 0; }
      rest := more[..n - 1];
      assert (t + more)[|body|] == QUOTE && more[n - 1] == QUOTE;
      assert more == rest + [QUOTE];
      assert (t + more)[..|body|] == body;
    }
  }

  /** The second pass on a body that parts spell writes what the parts mean. */
  lemma {:induction false} SpelledDecodes(ps: seq<Part>, body: Bytes)
    requires Spells(ps, body)
    ensures Strings.Decode(body + [QUOTE]) == Strings.Decoded(PartsOut(ps))
    decreases |ps|
  {
    if ps == [] {
      assert body + [QUOTE] == [QUOTE];
    } else if ps == [Short(QUOTE)] {
      var tail: Bytes := if PartsText(ps) == body then [QUOTE] else [];
      assert PartsText(ps) == [BACKSLASH, QUOTE];
      assert body + [QUOTE] == [BACKSLASH, QUOTE] + tail;
      ShortIff(QUOTE);
      Strings.DecodePair(QUOTE, tail);
    } else {
      var rest := SpellsRest(ps, body);
      SpelledDecodes(ps[1..], rest);
      DecodePart(ps[0], rest + [QUOTE]);
      assert body + [QUOTE] == PartText(ps[0]) + (rest + [QUOTE]);
    }
  }

  lemma {:induction false} DecodedSpells(body: Bytes) returns (ps: seq<Part>)
    requires Strings.Decode(body + [QUOTE]).Decoded?
    ensures Spells(ps, body)
    decreases |body|
  {
    var s := body + [QUOTE];
    if body == [] {
      ps := [];
    } else {
      Strings.DecodeFirst(s);
      var p := PartOf(s);
      var n := Strings.FirstUnit(s).length;
      if n == |s| {
        ps := [p];
        assert PartsText(ps) == s;
      } else {
        assert s[n..] == body[n..] + [QUOTE] && s[..n] == body[..n];
        var rest := DecodedSpells(body[n..]);
        ps := [p] + rest;
        SpellsMore(p, rest, body, n);
      }
    }
  }

  lemma SpellsMore(p: Part, rest: seq<Part>, body: Bytes, n: nat)
    requires ValidPart(p) && n <= |body| && PartText(p) == body[..n] && Spells(rest, body[n..])
    ensures Spells([p] + rest, body)
  {
    var ps := [p] + rest;
    assert ps[1..] == rest;
    assert PartsText(ps) == PartText(p) + PartsText(rest);
    assert rest != [] ==> ps[|ps| - 1] == rest[|rest| - 1];
    Glued(body, n);
  }

  lemma Glued(body: Bytes, n: nat)
    requires n <= |body|
    ensures body[..n] + body[n..] == body && body[..n] + (body[n..] + [QUOTE]) == body + [QUOTE]
  {
  }

  /** The second pass decodes a body to `out` exactly when some parts spell the body and mean `out`. */
  lemma DecodedIff(body: Bytes, out: Bytes)
    ensures Strings.Decode(body + [QUOTE]) == Strings.Decoded(out) <==>
            exists ps :: Spells(ps, body) && PartsOut(ps) == out
  {
    if Strings.Decode(body + [QUOTE]) == Strings.Decoded(out) {
      var ps := DecodedSpells(body);
      SpelledDecodes(ps, body);
    }
    if ps :| Spells(ps, body) && PartsOut(ps) == out {
      SpelledDecodes(ps, body);
    }
  }

  /** What the two passes make of a body is whether it is valid, and what it means. */
  lemma BodyIff(body: Bytes)
    ensures ValidBody(body) <==> Strings.RawBody(body) && Strings.Decode(body + [QUOTE]).Decoded?
    ensures ValidBody(body) ==> Strings.Decode(body + [QUOTE]) == Strings.Decoded(BodyMeaning(body))
  {
    DelimitedIff(body);
    if Strings.Decode(body + [QUOTE]).Decoded? {
      var ps := DecodedSpells(body);
    }
    if ValidBody(body) {
      var ps :| Spells(ps, body) && BodyMeaning(body) == PartsOut(ps);
      SpelledDecodes(ps, body);
    }
  }

  /** All parts that spell a body mean the same bytes. */
  lemma SpellingMeaning(ps: seq<Part>, body: Bytes)
    requires ValidBody(body) && Spells(ps, body)
    ensures PartsOut(ps) == BodyMeaning(body)
  {
    BodyIff(body);
    SpelledDecodes(ps, body);
  }

  lemma BadDigit(q: Bytes)
    requires |q| == 4 && q[3] == BACKSLASH
    ensures !AllHexDigits(q)
  {
    UnitIff(q);
    assert !Strings.IsHex(q[3]);
  }

  lemma LastQuote()
    ensures var ps := [Short(QUOTE)];
            PartsText(ps) == [BACKSLASH, QUOTE] && ValidParts(ps) && PartsOut(ps) == [QUOTE]
  {
    var ps := [Short(QUOTE)];
    assert ps[1..] == [];
    assert PartsText(ps) == [BACKSLASH, QUOTE] + [];
    assert PartsOut(ps) == [QUOTE] + [];
  }

  /** A literal on which the passes disagree: a group of digits takes in the first of two backslashes, and the
      second one takes the closing quote along. */
  lemma SwallowedQuote()
    ensures var body := [BACKSLASH, LETTER_U, ZERO, ZERO, ZERO, BACKSLASH, BACKSLASH];
            ValidBody(body) && BodyMeaning(body) == [NUL, QUOTE]
  {
    var body: Bytes := [BACKSLASH, LETTER_U, ZERO, ZERO, ZERO, BACKSLASH, BACKSLASH];
    var q: Bytes := [ZERO, ZERO, ZERO, BACKSLASH];
    var us := [Escaped(LETTER_U), Char(ZERO), Char(ZERO), Char(ZERO), Escaped(BACKSLASH)];
    var ps := [Code(q), Short(QUOTE)];
    assert !AllHexDigits(q) by { BadDigit(q); }
    assert Spells(ps, body) && PartsOut(ps) == [NUL, QUOTE] by {
      assert ps[1..] == [Short(QUOTE)];
      LastQuote();
    }
    assert UnitsText(us) == body by {
      assert UnitsText(us[5..]) == [];
      assert us[4..][1..] == us[5..] && UnitsText(us[4..]) == [BACKSLASH, BACKSLASH];
      assert us[3..][1..] == us[4..] && UnitsText(us[3..]) == [ZERO, BACKSLASH, BACKSLASH];
      assert us[2..][1..] == us[3..] && UnitsText(us[2..]) == [ZERO, ZERO, BACKSLASH, BACKSLASH];
      assert us[1..][1..] == us[2..] && UnitsText(us[1..]) == [ZERO, ZERO, ZERO, BACKSLASH, BACKSLASH];
    }
    SpellingMeaning(ps, body);
  }
}
