/** What cJSON prints is JSON as RFC 8259 defines it, denotes the printed tree, and is written as shortly as the
    RFC allows. */
module StandardPrinting {
  import opened Octets
  import opened Characters
  import opened Json
  import opened Grammar
  import opened Standard
  import opened StringSyntax
  import opened NumberSyntax
  import opened Rendering
  import Numbers
  import Strings
  import Unicode

  // ----- strings

  /** Escapes with digits use small letters. */
  predicate SmallDigits(p: Part) {
    p.Code? ==> forall k :: 0 <= k < |p.q| ==> Place(p.q[k], DIGITS, |DIGITS|).Some?
  }

  /** What the printer writes for a byte. */
  lemma EscapedPart(b: Byte) returns (p: Part)
    ensures StandardPart(p) && SmallDigits(p) && PartText(p) == Strings.EscapeByte(b) && PartOut(p) == [b]
  {
    var e := Strings.EscapeByte(b);
    if |e| == 1 {
      p := Plain(b);
    } else if |e| == 2 {
      p := Short(e[1]);
      ShortIff(e[1]);
    } else {
      p := ControlPart(b);
    }
  }

  lemma ControlPart(b: Byte) returns (p: Part)
    requires b < 32 && |Strings.EscapeByte(b)| == 6
    ensures StandardPart(p) && SmallDigits(p) && PartText(p) == Strings.EscapeByte(b) && PartOut(p) == [b]
  {
    var q: Bytes := [ZERO, ZERO, Strings.HexDigit(b / 16), Strings.HexDigit(b % 16)];
    p := Code(q);
    ControlUnit(b, q);
    assert SmallDigits(p) by { SmallControl(b, q); }
    assert PartText(p) == [BACKSLASH, LETTER_U, q[0], q[1], q[2], q[3]];
  }

  lemma ControlUnit(b: Byte, q: Bytes)
    requires b < 32 && q == [ZERO, ZERO, Strings.HexDigit(b / 16), Strings.HexDigit(b % 16)]
    ensures AllHexDigits(q) && UnitRead(q) == b
  {
    Strings.HexDigitValue(b / 16);
    Strings.HexDigitValue(b % 16);
    Strings.ControlDigits(b);
    UnitIff(q);
  }

  lemma SmallControl(b: Byte, q: Bytes)
    requires b < 32 && q == [ZERO, ZERO, Strings.HexDigit(b / 16), Strings.HexDigit(b % 16)]
    ensures SmallDigits(Code(q))
  {
    SmallDigit(0);
    SmallDigit(b / 16);
    SmallDigit(b % 16);
  }

  lemma SmallDigit(n: nat)
    requires n < 16
    ensures Place(Strings.HexDigit(n), DIGITS, |DIGITS|).Some?
  {
    DigitPlaces();
    assert DIGITS[n] as int == Strings.HexDigit(n);
  }

  predicate AllSmallDigits(ps: seq<Part>) {
    forall k :: 0 <= k < |ps| ==> SmallDigits(ps[k])
  }

  /** An escaped string is a body of the RFC that denotes the string. */
  lemma {:induction false} EscapeDenotes(s: Bytes) returns (ps: seq<Part>)
    ensures StandardParts(ps) && AllSmallDigits(ps) && PartsText(ps) == Strings.Escape(s) && PartsOut(ps) == s
  {
    if s == [] {
      ps := [];
    } else {
      var p := EscapedPart(s[0]);
      var rest := EscapeDenotes(s[1..]);
      ps := [p] + rest;
      assert ps[1..] == rest;
      assert [s[0]] + s[1..] == s;
      assert Strings.Escape(s) == Strings.EscapeMore(s);
    }
  }

  lemma {:induction false} EscapeConcat(a: Bytes, b: Bytes)
    ensures Strings.Escape(a + b) == Strings.Escape(a) + Strings.Escape(b)
  {
    if a == [] {
      assert a + b == b;
    } else {
      EscapeConcat(a[1..], b);
      assert (a + b)[1..] == a[1..] + b && (a + b)[0] == a[0];
      Behind(Strings.EscapeByte(a[0]), Strings.Escape(a[1..]), Strings.Escape(b));
      assert Strings.Escape(a + b) == Strings.EscapeMore(a + b) && Strings.Escape(a) == Strings.EscapeMore(a);
    }
  }

  lemma Behind(a: Bytes, b: Bytes, c: Bytes)
    ensures a + (b + c) == a + b + c
  {
  }

  lemma EscapeOne(b: Byte)
    ensures Strings.Escape([b]) == Strings.EscapeByte(b)
  {
    assert Strings.Escape([b]) == Strings.EscapeMore([b]);
    assert [b][1..] == [];
  }

  lemma {:induction false} EscapeHigh(u: Bytes)
    requires forall k :: 0 <= k < |u| ==> u[k] >= 0x80
    ensures |Strings.Escape(u)| == |u|
  {
    if u != [] {
      EscapeHigh(u[1..]);
      assert Strings.Escape(u) == Strings.EscapeMore(u);
    }
  }

  lemma EscapePoint(point: nat)
    requires point <= 0x10FFFF
    ensures |Strings.Escape(Unicode.Utf8(point))| <= 6
  {
    if point < 0x80 {
      EscapeOne(point);
    } else {
      EscapeHigh(Unicode.Utf8(point));
    }
  }

  /** No way to write a character is shorter than the printer's. */
  lemma PartLength(p: Part)
    requires StandardPart(p)
    ensures |Strings.Escape(PartOut(p))| <= |PartText(p)|
  {
    match p
    case Plain(b) => EscapeOne(b);
    case Short(e) =>
      ShortIff(e);
      EscapeOne(ShortMeaning(e).value);
    case Code(q) => EscapePoint(UnitRead(q));
    case Pair(high, low) => EscapePoint(Unicode.Combine(UnitRead(high), UnitRead(low)));
  }

  /** No body of the RFC that denotes a string is shorter than the one the printer writes. */
  lemma {:induction false} EscapeShortest(ps: seq<Part>)
    requires StandardParts(ps)
    ensures |Strings.Escape(PartsOut(ps))| <= |PartsText(ps)|
  {
    if ps != [] {
      EscapeShortest(ps[1..]);
      PartLength(ps[0]);
      EscapeConcat(PartOut(ps[0]), PartsOut(ps[1..]));
    }
  }

  // ----- numbers

  lemma {:induction false} NoLeadingZero(n: nat)
    ensures Numbers.Digits(n)[0] == Ascii('0') ==> |Numbers.Digits(n)| == 1
    ensures n > 0 ==> Numbers.Digits(n)[0] != Ascii('0')
  {
    if n >= 10 {
      NoLeadingZero(n / 10);
    }
  }

  /** A printed number is an integer without point and exponent. */
  lemma PrintedNumber(n: int) returns (p: Numeral)
    ensures StandardNumeral(p) && NumeralText(p) == Numbers.DecimalText(n) && NumeralValue(p) == n as real
    ensures !p.point && p.power.None?
  {
    var m: nat := if n < 0 then -n else n;
    var digits := Numbers.Digits(m);
    p := Numeral(if n < 0 then [Ascii('-')] else [], digits, false, [], None);
    NoLeadingZero(m);
    assert AllDecimal(digits);
    assert NumeralText(p) == p.sign + digits + [] + [];
    assert NumeralValue(p) == n as real by { IntegerValue(p, m); }
  }

  lemma IntegerValue(p: Numeral, m: nat)
    requires ValidNumeral(p) && p.whole == Numbers.Digits(m) && p.fraction == [] && p.power.None?
    ensures NumeralValue(p) == Signed(p.sign, m) as real
  {
    assert p.whole + p.fraction == p.whole;
    PlacesValue(p.whole);
    Numbers.DigitsRoundTrip(m);
  }

  // ----- trees

  lemma {:induction false} ElementAt(items: seq<Json>, format: bool, depth: nat, before: Bytes, k: nat)
    requires k < |items| && forall i :: 0 <= i < |items| ==> NoRaw(items[i])
    ensures ElementsOf(items, format, depth, before)[k] ==
            Element(if k == 0 then before else ItemGap(format), SyntaxOf(items[k], format, depth), [])
    decreases |items|
  {
    if k > 0 {
      ElementAt(items[1..], format, depth, ItemGap(format), k - 1);
    }
  }

  lemma {:induction false} PairAt(members: seq<Member>, format: bool, depth: nat, k: nat)
    requires depth > 0 && k < |members| && forall i :: 0 <= i < |members| ==> NoRaw(members[i].value)
    ensures PairsOf(members, format, depth)[k] ==
            Grammar.Pair(NewLine(format) + Indent(format, depth), Strings.Escape(members[k].key), [], ValueGap(format),
                         SyntaxOf(members[k].value, format, depth),
                         if k == |members| - 1 then NewLine(format) + Indent(format, depth - 1) else [])
    decreases |members|
  {
    if k > 0 {
      PairAt(members[1..], format, depth, k - 1);
    }
  }

  lemma SpaceGaps(format: bool, depth: nat)
    ensures AllSpace(NewLine(format) + Indent(format, depth)) && AllSpace(ItemGap(format)) && AllSpace(ValueGap(format))
  {
  }

  lemma {:induction false} TreeDenotes(j: Json, format: bool, depth: nat)
    requires NoRaw(j) && Printable(j)
    ensures Denotes(SyntaxOf(j, format, depth), j)
    decreases j
  {
    match j
    case Number(v) =>
      NumberPrinted(v);
    case String(text) =>
      StringPrinted(text);
    case Array(items) =>
      var es := ElementsOf(items, format, depth + 1, []);
      forall k | 0 <= k < |items|
        ensures ElementDenotes(es[k], items[k])
      {
        TreeDenotes(items[k], format, depth + 1);
        ItemPrinted(items, format, depth + 1, k);
      }
      assert Denotes(SArray([], es), j);
    case Object(members) =>
      SpaceGaps(format, depth);
      var ps := PairsOf(members, format, depth + 1);
      forall k | 0 <= k < |members|
        ensures PairDenotes(ps[k], members[k])
      {
        TreeDenotes(members[k].value, format, depth + 1);
        MemberPrinted(members, format, depth + 1, k);
      }
      assert members != [] ==> Denotes(SObject([], ps), j);
    case _ =>
  }

  lemma ItemPrinted(items: seq<Json>, format: bool, depth: nat, k: nat)
    requires k < |items| && forall i :: 0 <= i < |items| ==> NoRaw(items[i])
    requires Denotes(SyntaxOf(items[k], format, depth), items[k])
    ensures ElementDenotes(ElementsOf(items, format, depth, [])[k], items[k])
  {
    ElementAt(items, format, depth, [], k);
    SpaceGaps(format, depth);
  }

  lemma MemberPrinted(members: seq<Member>, format: bool, depth: nat, k: nat)
    requires depth > 0 && k < |members| && forall i :: 0 <= i < |members| ==> NoRaw(members[i].value)
    requires Denotes(SyntaxOf(members[k].value, format, depth), members[k].value)
    ensures PairDenotes(PairsOf(members, format, depth)[k], members[k])
  {
    PairAt(members, format, depth, k);
    SpaceGaps(format, depth);
    SpaceGaps(format, depth - 1);
    StringPrinted(members[k].key);
  }

  lemma StringPrinted(s: Bytes)
    ensures BodyDenotes(Strings.Escape(s), s)
  {
    var ps := EscapeDenotes(s);
  }

  lemma NumberPrinted(v: real)
    requires Numbers.Printable(v)
    ensures NumberDenotes(Numbers.DecimalText(v.Floor), v)
  {
    var p := PrintedNumber(v.Floor);
    assert StandardNumeral(p) && NumeralText(p) == Numbers.DecimalText(v.Floor) && NumeralValue(p) == v;
  }

  /** The text of every tree, formatted or not, is a text of the RFC that denotes the tree. */
  lemma PrintsStandard(j: Json, format: bool)
    requires NoRaw(j) && Printable(j)
    ensures var d := Document(false, [], SyntaxOf(j, format, 0), []);
            TextDenotes(d, j) && WrittenText(d) == Render(j, format, 0)
  {
    var d := Document(false, [], SyntaxOf(j, format, 0), []);
    TreeDenotes(j, format, 0);
    SyntaxText(j, format, 0);
    TextWritten(d.root);
    assert [] + (Written(d.root) + []) == Written(d.root);
  }
}
