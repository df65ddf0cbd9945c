/** The language cJSON's parser accepts, as concrete syntax trees: every tree has a text and a
    meaning, and nothing here says how a text is read. The language is larger than RFC 8259's:
    any byte up to 32 is blank, and a number can have leading zeros and a point without digits on one side. */
module Grammar {
  import opened Octets
  import opened Json
  import Numbers
  import NumberSyntax
  import StringSyntax

  datatype Syntax =
    | SNull
    | SFalse
    | STrue
    | SNumber(token: Bytes)
    | SString(body: Bytes)
    | SArray(lead: Bytes, elements: seq<Element>)
    | SObject(lead: Bytes, pairs: seq<Pair>)

  datatype Element = Element(before: Bytes, value: Syntax, after: Bytes)

  datatype Pair = Pair(before: Bytes, key: Bytes, colon: Bytes, gap: Bytes, value: Syntax, after: Bytes)

  predicate AllBlank(s: Bytes) {
    forall k :: 0 <= k < |s| ==> s[k] <= SPACE
  }

  function Quote(body: Bytes): Bytes {
    [QUOTE] + body + [QUOTE]
  }

  // ----- texts

  function Text(t: Syntax): Bytes
    decreases t, 1
  {
    match t
    case SNull => NULL_TEXT
    case SFalse => FALSE_TEXT
    case STrue => TRUE_TEXT
    case SNumber(token) => token
    case SString(body) => Quote(body)
    case SArray(lead, elements) => [OPEN_BRACKET] + (lead + (ElementsText(elements) + [CLOSE_BRACKET]))
    case SObject(lead, pairs) => [OPEN_BRACE] + (lead + (PairsText(pairs) + [CLOSE_BRACE]))
  }

  function ElementsText(es: seq<Element>): Bytes
    decreases es, 0
  {
    if es == [] then []
    else
      var head := es[0].before + (Text(es[0].value) + es[0].after);
      if |es| == 1 then head else head + ([COMMA] + ElementsText(es[1..]))
  }

  function PairHead(p: Pair): Bytes {
    p.before + (Quote(p.key) + (p.colon + ([COLON] + p.gap)))
  }

  function PairsText(ps: seq<Pair>): Bytes
    decreases ps, 0
  {
    if ps == [] then []
    else
      var head := PairHead(ps[0]) + (Text(ps[0].value) + ps[0].after);
      if |ps| == 1 then head else head + ([COMMA] + PairsText(ps[1..]))
  }

  // ----- which trees belong to the language

  ghost predicate ValidToken(token: Bytes) {
    NumberSyntax.IsNumeral(token) && token != [] && (token[0] == MINUS || Numbers.IsDigit(token[0]))
  }

  ghost predicate Valid(t: Syntax)
    decreases t, 1
  {
    match t
    case SNumber(token) => ValidToken(token)
    case SString(body) => StringSyntax.ValidBody(body)
    case SArray(lead, elements) => AllBlank(lead) && (elements != [] ==> lead == []) && ValidElements(elements)
    case SObject(lead, pairs) => AllBlank(lead) && (pairs != [] ==> lead == []) && ValidPairs(pairs)
    case _ => true
  }

  ghost predicate ValidElements(es: seq<Element>)
    decreases es, 0
  {
    es != [] ==>
      && AllBlank(es[0].before) && Valid(es[0].value) && AllBlank(es[0].after)
      && ValidElements(es[1..])
  }

  ghost predicate ValidPairHead(p: Pair) {
    AllBlank(p.before) && StringSyntax.ValidBody(p.key) && AllBlank(p.colon) && AllBlank(p.gap)
  }

  ghost predicate ValidPairs(ps: seq<Pair>)
    decreases ps, 0
  {
    ps != [] ==>
      && ValidPairHead(ps[0]) && Valid(ps[0].value) && AllBlank(ps[0].after)
      && ValidPairs(ps[1..])
  }

  // ----- meanings

  ghost function Meaning(t: Syntax): Json
    requires Valid(t)
    decreases t, 1
  {
    match t
    case SNull => Null
    case SFalse => False
    case STrue => True
    case SNumber(token) => Number(NumberSyntax.NumberMeaning(token))
    case SString(body) => String(StringSyntax.BodyMeaning(body))
    case SArray(_, elements) => Array(ElementsMeaning(elements))
    case SObject(_, pairs) => Object(PairsMeaning(pairs))
  }

  ghost function ElementsMeaning(es: seq<Element>): seq<Json>
    requires ValidElements(es)
    decreases es, 0
  {
    if es == [] then [] else [Meaning(es[0].value)] + ElementsMeaning(es[1..])
  }

  ghost function PairsMeaning(ps: seq<Pair>): seq<Member>
    requires ValidPairs(ps)
    decreases ps, 0
  {
    if ps == [] then []
    else [Member(StringSyntax.BodyMeaning(ps[0].key), Meaning(ps[0].value))] + PairsMeaning(ps[1..])
  }

  /** A whole text: an optional byte order mark and blanks around one value. */
  datatype Document = Document(mark: bool, lead: Bytes, root: Syntax, trail: Bytes)

  const BYTE_ORDER_MARK: Bytes := [0xEF, 0xBB, 0xBF]

  function DocumentText(d: Document): Bytes {
    (if d.mark then BYTE_ORDER_MARK else []) + (d.lead + (Text(d.root) + d.trail))
  }

  ghost predicate ValidDocument(d: Document) {
    AllBlank(d.lead) && Valid(d.root) && AllBlank(d.trail)
  }
}
