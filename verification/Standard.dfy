/** JSON texts as RFC 8259 defines them, with the values they denote, and the theorem that cJSON reads them. The
    definitions name no function of the parser; every character is written out. */
module Standard {
  import opened Octets
  import opened Characters
  import opened Json
  import opened Grammar
  import opened Parsing
  import opened StringSyntax
  import opened NumberSyntax
  import Acceptance
  import Escapes
  import Strings
  import Unicode

  /** Whitespace, section 2. */
  predicate IsSpace(b: Byte) {
    b == Ascii(' ') || b == Ascii('\t') || b == Ascii('\n') || b == Ascii('\r')
  }

  predicate AllSpace(s: Bytes) {
    forall k :: 0 <= k < |s| ==> IsSpace(s[k])
  }

  /** Numbers, section 6: no plus sign in front, no leading zero, and digits on both sides of the point. */
  predicate StandardNumeral(p: Numeral) {
    && ValidNumeral(p) && p.sign != [Ascii('+')]
    && p.whole != [] && (p.whole[0] == Ascii('0') ==> |p.whole| == 1) && (p.point ==> p.fraction != [])
  }

  /** Characters, section 7: no bare control character, and hexadecimal digits only. Bytes from 0x80 on belong to
      encoded characters. An unpaired surrogate denotes no character. */
  predicate StandardPart(p: Part) {
    && ValidPart(p)
    && (p.Plain? ==> p.b >= 0x20 && p.b != Ascii('"') && p.b != Ascii('\\'))
    && (p.Code? ==> AllHexDigits(p.q))
    && (p.Pair? ==> AllHexDigits(p.high) && AllHexDigits(p.low))
  }

  predicate StandardParts(ps: seq<Part>) {
    forall k :: 0 <= k < |ps| ==> StandardPart(ps[k])
  }

  ghost predicate NumberDenotes(token: Bytes, x: real) {
    exists p :: StandardNumeral(p) && NumeralText(p) == token && NumeralValue(p) == x
  }

  ghost predicate BodyDenotes(body: Bytes, text: Bytes) {
    exists ps :: StandardParts(ps) && PartsText(ps) == body && PartsOut(ps) == text
  }

  /** Sections 3 to 5: the tree is written as the RFC demands, and denotes the value. */
  ghost predicate Denotes(t: Syntax, v: Json)
    decreases t
  {
    match t
    case SNull => v == Null
    case SFalse => v == False
    case STrue => v == True
    case SNumber(token) => v.Number? && NumberDenotes(token, v.value)
    case SString(body) => v.String? && BodyDenotes(body, v.text)
    case SArray(lead, es) =>
      && v.Array? && |v.items| == |es| && AllSpace(lead) && (es != [] ==> lead == [])
      && forall k :: 0 <= k < |es| ==> ElementDenotes(es[k], v.items[k])
    case SObject(lead, ps) =>
      && v.Object? && |v.members| == |ps| && AllSpace(lead) && (ps != [] ==> lead == [])
      && forall k :: 0 <= k < |ps| ==> PairDenotes(ps[k], v.members[k])
  }

  ghost predicate ElementDenotes(e: Element, v: Json)
    decreases e
  {
    AllSpace(e.before) && AllSpace(e.after) && Denotes(e.value, v)
  }

  ghost predicate PairDenotes(p: Grammar.Pair, m: Member)
    decreases p
  {
    && AllSpace(p.before) && AllSpace(p.colon) && AllSpace(p.gap) && AllSpace(p.after)
    && BodyDenotes(p.key, m.key) && Denotes(p.value, m.value)
  }

  /** The text of a value. */
  function Written(t: Syntax): Bytes
    decreases t, 1
  {
    match t
    case SNull => [Ascii('n'), Ascii('u'), Ascii('l'), Ascii('l')]
    case SFalse => [Ascii('f'), Ascii('a'), Ascii('l'), Ascii('s'), Ascii('e')]
    case STrue => [Ascii('t'), Ascii('r'), Ascii('u'), Ascii('e')]
    case SNumber(token) => token
    case SString(body) => [Ascii('"')] + body + [Ascii('"')]
    case SArray(lead, es) => [Ascii('[')] + (lead + (WrittenElements(es) + [Ascii(']')]))
    case SObject(lead, ps) => [Ascii('{')] + (lead + (WrittenPairs(ps) + [Ascii('}')]))
  }

  function WrittenElements(es: seq<Element>): Bytes
    decreases es, 0
  {
    if es == [] then []
    else
      var head := es[0].before + (Written(es[0].value) + es[0].after);
      if |es| == 1 then head else head + ([Ascii(',')] + WrittenElements(es[1..]))
  }

  function WrittenKey(p: Grammar.Pair): Bytes {
    p.before + (([Ascii('"')] + p.key + [Ascii('"')]) + (p.colon + ([Ascii(':')] + p.gap)))
  }

  function WrittenPairs(ps: seq<Grammar.Pair>): Bytes
    decreases ps, 0
  {
    if ps == [] then []
    else
      var head := WrittenKey(ps[0]) + (Written(ps[0].value) + ps[0].after);
      if |ps| == 1 then head else head + ([Ascii(',')] + WrittenPairs(ps[1..]))
  }

  function WrittenText(d: Document): Bytes {
    d.lead + (Written(d.root) + d.trail)
  }

  ghost predicate TextDenotes(d: Document, v: Json) {
    !d.mark && AllSpace(d.lead) && Denotes(d.root, v) && AllSpace(d.trail)
  }

  /** `parse_number` has room for every number. */
  predicate ShortNumbers(t: Syntax)
    decreases t
  {
    match t
    case SNumber(token) => |token| <= 63
    case SArray(_, es) => forall k :: 0 <= k < |es| ==> ShortNumbers(es[k].value)
    case SObject(_, ps) => forall k :: 0 <= k < |ps| ==> ShortNumbers(ps[k].value)
    case _ => true
  }

  /** The byte order mark, which section 8.1 lets a parser ignore, is the encoding of U+FEFF. */
  lemma MarkEncodes()
    ensures Unicode.Encodes(BYTE_ORDER_MARK, 0xFEFF)
  {
  }

  // ----- such a text belongs to the grammar

  lemma PartRaw(p: Part, b: Bytes)
    requires StandardPart(p) && Strings.RawBody(b)
    ensures Strings.RawBody(PartText(p) + b)
  {
    match p
    case Plain(c) => Strings.RawPlain(c, b);
    case Short(e) => Strings.RawPair(e, b);
    case Code(q) => CodeRaw(q, b);
    case Pair(high, low) =>
      CodeRaw(low, b);
      var rest := [BACKSLASH, LETTER_U] + low + b;
      CodeRaw(high, rest);
      assert PartText(p) + b == [BACKSLASH, LETTER_U] + high + rest;
  }

  lemma CodeRaw(q: Bytes, b: Bytes)
    requires |q| == 4 && AllHexDigits(q) && Strings.RawBody(b)
    ensures Strings.RawBody([BACKSLASH, LETTER_U] + q + b)
  {
    UnitIff(q);
    Escapes.HexRaw(q, b);
    Strings.RawPair(LETTER_U, q + b);
    assert [BACKSLASH, LETTER_U] + q + b == [BACKSLASH, LETTER_U] + (q + b);
  }

  lemma {:induction false} PartsRaw(ps: seq<Part>)
    requires StandardParts(ps)
    ensures Strings.RawBody(PartsText(ps))
  {
    if ps != [] {
      PartsRaw(ps[1..]);
      PartRaw(ps[0], PartsText(ps[1..]));
    }
  }

  lemma BodyValid(body: Bytes, text: Bytes)
    requires BodyDenotes(body, text)
    ensures ValidBody(body) && BodyMeaning(body) == text
  {
    var ps :| StandardParts(ps) && PartsText(ps) == body && PartsOut(ps) == text;
    PartsRaw(ps);
    DelimitedIff(body);
    assert StringSyntax.Spells(ps, body);
    SpellingMeaning(ps, body);
  }

  lemma NumberValid(token: Bytes, x: real)
    requires NumberDenotes(token, x) && |token| <= 63
    ensures ValidToken(token) && NumberMeaning(token) == x
  {
    var p :| StandardNumeral(p) && NumeralText(p) == token && NumeralValue(p) == x;
    assert NumberSyntax.Spells(p, token);
    NumeralMeaning(p, token);
    assert p.sign == [] ==> token[0] == p.whole[0];
  }

  lemma {:induction false} Belongs(t: Syntax, v: Json)
    requires Denotes(t, v) && ShortNumbers(t)
    ensures Valid(t) && Meaning(t) == v
    decreases t, 1
  {
    match t
    case SNumber(token) => NumberValid(token, v.value);
    case SString(body) => BodyValid(body, v.text);
    case SArray(_, es) => ElementsBelong(es, v.items);
    case SObject(_, ps) => PairsBelong(ps, v.members);
    case _ =>
  }

  lemma {:induction false} ElementsBelong(es: seq<Element>, items: seq<Json>)
    requires |items| == |es|
    requires forall k :: 0 <= k < |es| ==> ElementDenotes(es[k], items[k]) && ShortNumbers(es[k].value)
    ensures ValidElements(es) && ElementsMeaning(es) == items
    decreases es, 0
  {
    if es != [] {
      Belongs(es[0].value, items[0]);
      ElementsBelong(es[1..], items[1..]);
      assert [items[0]] + items[1..] == items;
    }
  }

  lemma {:induction false} PairsBelong(ps: seq<Grammar.Pair>, members: seq<Member>)
    requires |members| == |ps|
    requires forall k :: 0 <= k < |ps| ==> PairDenotes(ps[k], members[k]) && ShortNumbers(ps[k].value)
    ensures ValidPairs(ps) && PairsMeaning(ps) == members
    decreases ps, 0
  {
    if ps != [] {
      BodyValid(ps[0].key, members[0].key);
      Belongs(ps[0].value, members[0].value);
      PairsBelong(ps[1..], members[1..]);
      assert [members[0]] + members[1..] == members;
    }
  }

  // ----- the texts are the same

  lemma {:induction false} TextWritten(t: Syntax)
    ensures Text(t) == Written(t)
    decreases t, 1
  {
    match t
    case SArray(_, es) => ElementsWritten(es);
    case SObject(_, ps) => PairsWritten(ps);
    case _ =>
  }

  lemma {:induction false} ElementsWritten(es: seq<Element>)
    ensures ElementsText(es) == WrittenElements(es)
    decreases es, 0
  {
    if es != [] {
      TextWritten(es[0].value);
      ElementsWritten(es[1..]);
    }
  }

  lemma {:induction false} PairsWritten(ps: seq<Grammar.Pair>)
    ensures PairsText(ps) == WrittenPairs(ps)
    decreases ps, 0
  {
    if ps != [] {
      TextWritten(ps[0].value);
      PairsWritten(ps[1..]);
      assert PairHead(ps[0]) == WrittenKey(ps[0]);
    }
  }

  lemma DocumentWritten(d: Document)
    requires !d.mark
    ensures DocumentText(d) == WrittenText(d)
  {
    TextWritten(d.root);
    assert [] + WrittenText(d) == WrittenText(d);
  }

  /** `cJSON_ParseWithOpts` reads every text of the RFC whose numbers have at most 63 characters, to its end and
      with the value it denotes, if and only if the value is nested at most 1000 deep. */
  lemma ReadsStandard(d: Document, v: Json)
    requires TextDenotes(d, v) && ShortNumbers(d.root)
    ensures ParseText(WrittenText(d), true) == Ok(v, End) <==> Depth(v) <= 1000
  {
    Belongs(d.root, v);
    DocumentWritten(d);
    if Depth(v) <= 1000 {
      Acceptance.DocumentComplete(d);
    }
    if ParseText(DocumentText(d), true) == Ok(v, End) {
      var read := Acceptance.DocumentSound(DocumentText(d));
    }
  }
}
