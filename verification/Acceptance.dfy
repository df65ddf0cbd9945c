/** The parser reads exactly the language of module `Grammar`: whatever it accepts is the text of a
    syntax tree with the value it returns, and it accepts every such text nested at most
    `NESTING_LIMIT` deep. */
module Acceptance {
  import opened Octets
  import opened Json
  import opened Grammar
  import opened Parsing
  import Numbers
  import NumberSyntax
  import Strings
  import StringSyntax

  /** Input that can follow a value. */
  predicate EndsValue(k: Input) {
    k.More? ==> k.byte <= SPACE || k.byte == COMMA || k.byte == CLOSE_BRACKET || k.byte == CLOSE_BRACE
  }

  /** A number in front of `k` ends where it could go on no further. */
  ghost predicate Bounded(t: Syntax, k: Input) {
    t.SNumber? ==> NumberSyntax.Longest(t.token, k)
  }

  // ----- texts in front of a rest

  /** The text of `t` in front of `k`. */
  function Write(t: Syntax, k: Input): Input
    decreases t, 1
  {
    match t
    case SNull => More(110, More(117, More(108, More(108, k))))
    case SFalse => More(102, More(97, More(108, More(115, More(101, k)))))
    case STrue => More(116, More(114, More(117, More(101, k))))
    case SNumber(token) => Prepend(token, k)
    case SString(body) => WriteQuoted(body, k)
    case SArray(lead, es) => More(OPEN_BRACKET, Prepend(lead, WriteElements(es, k)))
    case SObject(lead, ps) => More(OPEN_BRACE, Prepend(lead, WritePairs(ps, k)))
  }

  function WriteQuoted(body: Bytes, k: Input): Input {
    More(QUOTE, Prepend(body, More(QUOTE, k)))
  }

  function WriteElements(es: seq<Element>, k: Input): Input
    decreases es, 0
  {
    if es == [] then More(CLOSE_BRACKET, k)
    else
      var next := if |es| == 1 then More(CLOSE_BRACKET, k) else More(COMMA, WriteElements(es[1..], k));
      Prepend(es[0].before, Write(es[0].value, Prepend(es[0].after, next)))
  }

  function WriteHead(p: Pair, k: Input): Input {
    Prepend(p.before, WriteQuoted(p.key, Prepend(p.colon, More(COLON, Prepend(p.gap, k)))))
  }

  function WritePairs(ps: seq<Pair>, k: Input): Input
    decreases ps, 0
  {
    if ps == [] then More(CLOSE_BRACE, k)
    else
      var next := if |ps| == 1 then More(CLOSE_BRACE, k) else More(COMMA, WritePairs(ps[1..], k));
      WriteHead(ps[0], Write(ps[0].value, Prepend(ps[0].after, next)))
  }

  // ----- every text of the language is accepted

  lemma {:induction false} SkipBlanks(ws: Bytes, k: Input)
    requires AllBlank(ws) && (k.More? ==> k.byte > SPACE)
    ensures SkipBlank(Prepend(ws, k)) == k
  {
    if ws != [] {
      SkipBlanks(ws[1..], k);
    }
  }

  lemma BlankThenEnd(ws: Bytes, k: Input)
    requires AllBlank(ws) && EndsValue(k)
    ensures EndsValue(Prepend(ws, k))
  {
  }

  lemma StringComplete(body: Bytes, k: Input)
    requires StringSyntax.ValidBody(body)
    ensures ParseString(WriteQuoted(body, k)) == Ok(StringSyntax.BodyMeaning(body), k)
  {
    StringSyntax.BodyIff(body);
    Strings.ScanComplete(body, k);
  }

  lemma NumberComplete(token: Bytes, k: Input)
    requires NumberSyntax.IsNumeral(token) && NumberSyntax.Longest(token, k)
    ensures ParseNumber(Prepend(token, k)) == Ok(Number(NumberSyntax.NumberMeaning(token)), k)
  {
    NumberSyntax.NumeralIff(token);
    NumberSyntax.LongestIff(token, k);
    Numbers.MaximalMunch(token, k);
    DropPrepend(token, k);
  }

  lemma EndsBounded(t: Syntax, k: Input)
    requires Valid(t) && EndsValue(k)
    ensures Bounded(t, k)
  {
    if t.SNumber? {
      NumberSyntax.NumeralEnds(t.token, k);
    }
  }

  /** How the text of a value starts. */
  lemma WriteStart(t: Syntax, k: Input)
    requires Valid(t)
    ensures var s := Write(t, k);
            && s.More? && SPACE < s.byte < 128 && s.byte != CLOSE_BRACKET && s.byte != CLOSE_BRACE
            && (t.SNumber? ==> s.byte == MINUS || Numbers.IsDigit(s.byte))
  {
  }

  lemma ScalarComplete(t: Syntax, k: Input, d: nat)
    requires Valid(t) && !t.SArray? && !t.SObject? && Bounded(t, k)
    ensures ParseValue(Write(t, k), d) == Ok(Meaning(t), k)
  {
    WriteStart(t, k);
    match t
    case SNumber(token) =>
      assert ParseValue(Prepend(token, k), d) == ParseOther(Prepend(token, k), d) == ParseByFirst(Prepend(token, k), d);
      NumberComplete(token, k);
    case SString(body) =>
      var s := WriteQuoted(body, k);
      assert ParseValue(s, d) == ParseOther(s, d) == ParseByFirst(s, d);
      StringComplete(body, k);
    case _ =>
  }

  lemma {:induction false} ValueComplete(t: Syntax, k: Input, d: nat)
    requires Valid(t) && Bounded(t, k) && d + Depth(Meaning(t)) <= NESTING_LIMIT
    ensures ParseValue(Write(t, k), d) == Ok(Meaning(t), k)
    decreases t, 1
  {
    match t
    case SArray(lead, es) =>
      ArrayComplete(lead, es, k, d);
    case SObject(lead, ps) =>
      ObjectComplete(lead, ps, k, d);
    case _ =>
      ScalarComplete(t, k, d);
  }

  /** `ParseValue` at a bracket or a brace. */
  lemma BracketValue(s: Input, d: nat)
    ensures StartsWith(s, OPEN_BRACKET) ==> ParseValue(s, d) == ParseArray(s, d)
    ensures StartsWith(s, OPEN_BRACE) ==> ParseValue(s, d) == ParseObject(s, d)
  {
    if StartsWith(s, OPEN_BRACKET) || StartsWith(s, OPEN_BRACE) {
      assert ParseValue(s, d) == ParseOther(s, d) == ParseByFirst(s, d);
    }
  }

  lemma EmptyBrackets(lead: Bytes, k: Input, d: nat)
    requires AllBlank(lead) && d < NESTING_LIMIT
    ensures ParseValue(More(OPEN_BRACKET, Prepend(lead, More(CLOSE_BRACKET, k))), d) == Ok(Array([]), k)
    ensures ParseValue(More(OPEN_BRACE, Prepend(lead, More(CLOSE_BRACE, k))), d) == Ok(Object([]), k)
  {
    BracketValue(More(OPEN_BRACKET, Prepend(lead, More(CLOSE_BRACKET, k))), d);
    BracketValue(More(OPEN_BRACE, Prepend(lead, More(CLOSE_BRACE, k))), d);
    SkipBlanks(lead, More(CLOSE_BRACKET, k));
    SkipBlanks(lead, More(CLOSE_BRACE, k));
  }

  lemma FullArray(inside: Input, d: nat, items: seq<Json>, k: Input)
    requires d < NESTING_LIMIT && !StartsWith(SkipBlank(inside), CLOSE_BRACKET)
    requires ParseElements(inside, d + 1) == Ok(items, k)
    ensures ParseValue(More(OPEN_BRACKET, inside), d) == Ok(Array(items), k)
  {
    BracketValue(More(OPEN_BRACKET, inside), d);
  }

  lemma FullObject(inside: Input, d: nat, members: seq<Member>, k: Input)
    requires d < NESTING_LIMIT && !StartsWith(SkipBlank(inside), CLOSE_BRACE)
    requires ParsePairs(inside, d + 1) == Ok(members, k)
    ensures ParseValue(More(OPEN_BRACE, inside), d) == Ok(Object(members), k)
  {
    BracketValue(More(OPEN_BRACE, inside), d);
  }

  lemma {:induction false} ArrayComplete(lead: Bytes, es: seq<Element>, k: Input, d: nat)
    requires AllBlank(lead) && (es != [] ==> lead == []) && ValidElements(es)
    requires d + 1 + ItemsDepth(ElementsMeaning(es)) <= NESTING_LIMIT
    ensures ParseValue(More(OPEN_BRACKET, Prepend(lead, WriteElements(es, k))), d) == Ok(Array(ElementsMeaning(es)), k)
    decreases es, 1
  {
    if es == [] {
      EmptyBrackets(lead, k, d);
    } else {
      var inside := WriteElements(es, k);
      assert Prepend(lead, inside) == inside;
      ElementsComplete(es, k, d + 1);
      assert ParseValue(More(OPEN_BRACKET, inside), d) == Ok(Array(ElementsMeaning(es)), k) by {
        FullArray(inside, d, ElementsMeaning(es), k);
      }
    }
  }

  lemma {:induction false} ObjectComplete(lead: Bytes, ps: seq<Pair>, k: Input, d: nat)
    requires AllBlank(lead) && (ps != [] ==> lead == []) && ValidPairs(ps)
    requires d + 1 + MembersDepth(PairsMeaning(ps)) <= NESTING_LIMIT
    ensures ParseValue(More(OPEN_BRACE, Prepend(lead, WritePairs(ps, k))), d) == Ok(Object(PairsMeaning(ps)), k)
    decreases ps, 1
  {
    if ps == [] {
      EmptyBrackets(lead, k, d);
    } else {
      var inside := WritePairs(ps, k);
      assert Prepend(lead, inside) == inside;
      PairsComplete(ps, k, d + 1);
      assert ParseValue(More(OPEN_BRACE, inside), d) == Ok(Object(PairsMeaning(ps)), k) by {
        FullObject(inside, d, PairsMeaning(ps), k);
      }
    }
  }

  lemma ElementsMeaningSplit(es: seq<Element>)
    requires es != [] && ValidElements(es)
    ensures Valid(es[0].value) && ValidElements(es[1..])
    ensures ElementsMeaning(es) == [Meaning(es[0].value)] + ElementsMeaning(es[1..])
    ensures Depth(Meaning(es[0].value)) <= ItemsDepth(ElementsMeaning(es))
    ensures ItemsDepth(ElementsMeaning(es[1..])) <= ItemsDepth(ElementsMeaning(es))
  {
    assert ElementsMeaning(es)[1..] == ElementsMeaning(es[1..]);
  }

  lemma {:induction false} ElementsComplete(es: seq<Element>, k: Input, d: nat)
    requires es != [] && ValidElements(es) && d + ItemsDepth(ElementsMeaning(es)) <= NESTING_LIMIT
    ensures ParseElements(WriteElements(es, k), d) == Ok(ElementsMeaning(es), k)
    ensures !StartsWith(SkipBlank(WriteElements(es, k)), CLOSE_BRACKET)
    decreases es, 0
  {
    var t, tail := es[0].value, es[1..];
    var next := if |es| == 1 then More(CLOSE_BRACKET, k) else More(COMMA, WriteElements(tail, k));
    var after := Prepend(es[0].after, next);
    ElementsMeaningSplit(es);
    WriteStart(t, after);
    SkipBlanks(es[0].before, Write(t, after));
    SkipBlanks(es[0].after, next);
    BlankThenEnd(es[0].after, next);
    assert ParseValue(Write(t, after), d) == Ok(Meaning(t), after) by {
      EndsBounded(t, after);
      ValueComplete(t, after, d);
    }
    if |es| == 1 {
      assert ElementsMeaning(es) == [Meaning(t)];
    } else {
      ElementsComplete(tail, k, d);
    }
  }

  lemma PairsMeaningSplit(ps: seq<Pair>)
    requires ps != [] && ValidPairs(ps)
    ensures ValidPairHead(ps[0]) && Valid(ps[0].value) && ValidPairs(ps[1..])
    ensures PairsMeaning(ps) ==
            [Member(StringSyntax.BodyMeaning(ps[0].key), Meaning(ps[0].value))] + PairsMeaning(ps[1..])
    ensures Depth(Meaning(ps[0].value)) <= MembersDepth(PairsMeaning(ps))
    ensures MembersDepth(PairsMeaning(ps[1..])) <= MembersDepth(PairsMeaning(ps))
  {
    assert PairsMeaning(ps)[1..] == PairsMeaning(ps[1..]);
  }

  /** A member whose value reads as `v`. */
  lemma PairComplete(p: Pair, s: Input, d: nat, v: Json, k: Input)
    requires ValidPairHead(p) && s.More? && s.byte > SPACE && ParseValue(s, d) == Ok(v, k)
    ensures ParsePair(WriteHead(p, s), d) == Ok(Member(StringSyntax.BodyMeaning(p.key), v), k)
    ensures !StartsWith(SkipBlank(WriteHead(p, s)), CLOSE_BRACE)
  {
    var colon := More(COLON, Prepend(p.gap, s));
    SkipBlanks(p.before, WriteQuoted(p.key, Prepend(p.colon, colon)));
    StringComplete(p.key, Prepend(p.colon, colon));
    SkipBlanks(p.colon, colon);
    SkipBlanks(p.gap, s);
    assert ParsePair(WriteHead(p, s), d) == ParseMember(WriteQuoted(p.key, Prepend(p.colon, colon)), d);
  }

  lemma {:induction false} PairsComplete(ps: seq<Pair>, k: Input, d: nat)
    requires ps != [] && ValidPairs(ps) && d + MembersDepth(PairsMeaning(ps)) <= NESTING_LIMIT
    ensures ParsePairs(WritePairs(ps, k), d) == Ok(PairsMeaning(ps), k)
    ensures !StartsWith(SkipBlank(WritePairs(ps, k)), CLOSE_BRACE)
    decreases ps, 0
  {
    var t, tail := ps[0].value, ps[1..];
    var next := if |ps| == 1 then More(CLOSE_BRACE, k) else More(COMMA, WritePairs(tail, k));
    var after := Prepend(ps[0].after, next);
    PairsMeaningSplit(ps);
    WriteStart(t, after);
    SkipBlanks(ps[0].after, next);
    BlankThenEnd(ps[0].after, next);
    var m := Member(StringSyntax.BodyMeaning(ps[0].key), Meaning(t));
    var s := WriteHead(ps[0], Write(t, after));
    assert ParsePair(s, d) == Ok(m, after) && !StartsWith(SkipBlank(s), CLOSE_BRACE) by {
      EndsBounded(t, after);
      ValueComplete(t, after, d);
      PairComplete(ps[0], Write(t, after), d, Meaning(t), after);
    }
    if |ps| == 1 {
      assert PairsMeaning(ps) == [m];
    } else {
      PairsComplete(tail, k, d);
    }
  }

  // ----- every accepted text belongs to the language

  lemma {:induction false} SkippedBlanks(s: Input) returns (ws: Bytes)
    ensures AllBlank(ws) && s == Prepend(ws, SkipBlank(s))
  {
    if s.More? && s.byte <= SPACE {
      var rest := SkippedBlanks(s.rest);
      ws := [s.byte] + rest;
      assert ws[1..] == rest;
    } else {
      ws := [];
    }
  }

  lemma StringSound(s: Input) returns (body: Bytes)
    requires ParseString(s).Ok?
    ensures StringSyntax.ValidBody(body) && StringSyntax.BodyMeaning(body) == ParseString(s).value
    ensures s == WriteQuoted(body, ParseString(s).rest)
  {
    Strings.ScanSound(s.rest);
    body := Strings.Scan(s.rest).body;
    StringSyntax.BodyIff(body);
  }

  lemma NumberSound(s: Input) returns (token: Bytes)
    requires ParseNumber(s).Ok? && s.More? && (s.byte == MINUS || Numbers.IsDigit(s.byte))
    ensures ValidToken(token) && ParseNumber(s).value == Number(NumberSyntax.NumberMeaning(token))
    ensures s == Prepend(token, ParseNumber(s).rest) && NumberSyntax.Longest(token, ParseNumber(s).rest)
  {
    var read := Numbers.Token(s, Numbers.TOKEN_MAX);
    var n := Numbers.Strtod(read).length;
    token := read[..n];
    Numbers.PrefixToken(read);
    Numbers.StrtodPrefix(read, n);
    Numbers.TokenRead(s, Numbers.TOKEN_MAX, n);
    NumberSyntax.NumeralIff(token);
    NumberSyntax.LongestIff(token, Drop(s, n));
    assert token[0] == s.byte;
    forall m | n < m <= |read|
      ensures !Numbers.IsToken(read[..m])
    {
      Numbers.StrtodPrefix(read, m);
    }
  }

  lemma {:induction false} ValueSound(s: Input, d: nat) returns (t: Syntax)
    requires ParseValue(s, d).Ok? && d <= NESTING_LIMIT
    ensures Valid(t) && Meaning(t) == ParseValue(s, d).value && s == Write(t, ParseValue(s, d).rest)
    ensures d + Depth(Meaning(t)) <= NESTING_LIMIT && Bounded(t, ParseValue(s, d).rest)
    decreases Length(s), 3
  {
    if StartsWith4(s, 110, 117, 108, 108) {
      t := SNull;
    } else if StartsWith(s, 102) && StartsWith4(s.rest, 97, 108, 115, 101) {
      t := SFalse;
    } else if StartsWith4(s, 116, 114, 117, 101) {
      t := STrue;
    } else {
      assert ParseValue(s, d) == ParseOther(s, d) == ParseByFirst(s, d);
      t := ByFirstSound(s, d);
    }
  }

  lemma {:induction false} ByFirstSound(s: Input, d: nat) returns (t: Syntax)
    requires ParseByFirst(s, d).Ok? && d <= NESTING_LIMIT
    ensures Valid(t) && Meaning(t) == ParseByFirst(s, d).value && s == Write(t, ParseByFirst(s, d).rest)
    ensures d + Depth(Meaning(t)) <= NESTING_LIMIT && Bounded(t, ParseByFirst(s, d).rest)
    decreases Length(s), 2
  {
    if StartsWith(s, QUOTE) {
      var body := StringSound(s);
      t := SString(body);
    } else if s.byte == MINUS || Numbers.IsDigit(s.byte) {
      var token := NumberSound(s);
      t := SNumber(token);
    } else if StartsWith(s, OPEN_BRACKET) {
      t := ArraySound(s, d);
    } else {
      t := ObjectSound(s, d);
    }
  }

  lemma {:induction false} ArraySound(s: Input, d: nat) returns (t: Syntax)
    requires StartsWith(s, OPEN_BRACKET) && ParseArray(s, d).Ok?
    ensures Valid(t) && Meaning(t) == ParseArray(s, d).value && s == Write(t, ParseArray(s, d).rest)
    ensures d + Depth(Meaning(t)) <= NESTING_LIMIT
    decreases Length(s), 1
  {
    if StartsWith(SkipBlank(s.rest), CLOSE_BRACKET) {
      var lead := SkippedBlanks(s.rest);
      t := SArray(lead, []);
    } else {
      var es := ElementsSound(s.rest, d + 1);
      t := SArray([], es);
    }
  }

  lemma {:induction false} ObjectSound(s: Input, d: nat) returns (t: Syntax)
    requires StartsWith(s, OPEN_BRACE) && ParseObject(s, d).Ok?
    ensures Valid(t) && Meaning(t) == ParseObject(s, d).value && s == Write(t, ParseObject(s, d).rest)
    ensures d + Depth(Meaning(t)) <= NESTING_LIMIT
    decreases Length(s), 1
  {
    if StartsWith(SkipBlank(s.rest), CLOSE_BRACE) {
      var lead := SkippedBlanks(s.rest);
      t := SObject(lead, []);
    } else {
      var ps := PairsSound(s.rest, d + 1);
      t := SObject([], ps);
    }
  }

  lemma {:induction false} ElementsSound(s: Input, d: nat) returns (es: seq<Element>)
    requires ParseElements(s, d).Ok? && d <= NESTING_LIMIT
    ensures es != [] && ValidElements(es) && ElementsMeaning(es) == ParseElements(s, d).value
    ensures s == WriteElements(es, ParseElements(s, d).rest)
    ensures d + ItemsDepth(ElementsMeaning(es)) <= NESTING_LIMIT
    decreases Length(s), 4
  {
    var before := SkippedBlanks(s);
    var t := ValueSound(SkipBlank(s), d);
    var rest := ParseValue(SkipBlank(s), d).rest;
    var after := SkippedBlanks(rest);
    var next := SkipBlank(rest);
    var tail := [];
    if StartsWith(next, COMMA) {
      tail := ElementsSound(next.rest, d);
    }
    es := [Element(before, t, after)] + tail;
    assert es[1..] == tail;
    assert ElementsMeaning(es)[1..] == ElementsMeaning(tail);
  }

  lemma {:induction false} PairSound(s: Input, d: nat) returns (p: Pair)
    requires ParsePair(s, d).Ok? && d <= NESTING_LIMIT
    ensures ValidPairHead(p) && Valid(p.value) && p.after == []
    ensures Member(StringSyntax.BodyMeaning(p.key), Meaning(p.value)) == ParsePair(s, d).value
    ensures s == WriteHead(p, Write(p.value, ParsePair(s, d).rest))
    ensures d + Depth(Meaning(p.value)) <= NESTING_LIMIT
    decreases Length(s), 4
  {
    var before := SkippedBlanks(s);
    assert ParsePair(s, d) == ParseMember(SkipBlank(s), d);
    var key := StringSound(SkipBlank(s));
    var rest := ParseString(SkipBlank(s)).rest;
    var colon := SkippedBlanks(rest);
    var gap := SkippedBlanks(SkipBlank(rest).rest);
    var t := ValueSound(SkipBlank(SkipBlank(rest).rest), d);
    p := Pair(before, key, colon, gap, t, []);
  }

  lemma {:induction false} PairsSound(s: Input, d: nat) returns (ps: seq<Pair>)
    requires ParsePairs(s, d).Ok? && d <= NESTING_LIMIT
    ensures ps != [] && ValidPairs(ps) && PairsMeaning(ps) == ParsePairs(s, d).value
    ensures s == WritePairs(ps, ParsePairs(s, d).rest)
    ensures d + MembersDepth(PairsMeaning(ps)) <= NESTING_LIMIT
    decreases Length(s), 5
  {
    var p := PairSound(s, d);
    var rest := ParsePair(s, d).rest;
    var after := SkippedBlanks(rest);
    var next := SkipBlank(rest);
    var tail := [];
    if StartsWith(next, COMMA) {
      tail := PairsSound(next.rest, d);
    }
    p := p.(after := after);
    ps := [p] + tail;
    assert ps[1..] == tail;
    assert PairsMeaning(ps)[1..] == PairsMeaning(tail);
  }

  // ----- whole texts

  lemma {:induction false} WriteText(t: Syntax, k: Input)
    ensures Write(t, k) == Prepend(Text(t), k)
    decreases t, 1
  {
    match t
    case SString(body) =>
      WriteQuote(body, k);
    case SArray(lead, es) =>
      WriteElementsText(es, k);
      PrependConcat(lead, ElementsText(es) + [CLOSE_BRACKET], k);
      PrependByte(OPEN_BRACKET, lead + (ElementsText(es) + [CLOSE_BRACKET]), k);
    case SObject(lead, ps) =>
      WritePairsText(ps, k);
      PrependConcat(lead, PairsText(ps) + [CLOSE_BRACE], k);
      PrependByte(OPEN_BRACE, lead + (PairsText(ps) + [CLOSE_BRACE]), k);
    case _ =>
      WriteWord(t, k);
  }

  lemma WriteWord(t: Syntax, k: Input)
    requires t.SNull? || t.SFalse? || t.STrue? || t.SNumber?
    ensures Write(t, k) == Prepend(Text(t), k)
  {
    if !t.SNumber? {
      var u := Text(t);
      assert u[1..][1..] == u[2..] && u[2..][1..] == u[3..] && u[3..][1..] == u[4..];
      assert Prepend(u[4..], k) == if |u| == 4 then k else More(u[4], k);
      assert Prepend(u[3..], k) == More(u[3], Prepend(u[4..], k));
      assert Prepend(u[2..], k) == More(u[2], Prepend(u[3..], k));
    }
  }

  lemma PrependByte(b: Byte, u: Bytes, k: Input)
    ensures Prepend([b] + u, k) == More(b, Prepend(u, k))
  {
    assert ([b] + u)[1..] == u;
  }

  lemma PrependFour(w: Bytes, x: Bytes, y: Bytes, z: Bytes, k: Input)
    ensures Prepend(w + (x + (y + z)), k) == Prepend(w, Prepend(x, Prepend(y, Prepend(z, k))))
  {
    PrependConcat(w, x + (y + z), k);
    PrependConcat(x, y + z, k);
    PrependConcat(y, z, k);
  }

  lemma WriteQuote(body: Bytes, k: Input)
    ensures WriteQuoted(body, k) == Prepend(Quote(body), k)
  {
    assert Quote(body) == [QUOTE] + (body + [QUOTE]);
    PrependByte(QUOTE, body + [QUOTE], k);
    PrependConcat(body, [QUOTE], k);
    PrependByte(QUOTE, [], k);
  }

  lemma ElementsTextHead(es: seq<Element>, more: Bytes)
    requires es != []
    requires more == if |es| == 1 then [CLOSE_BRACKET] else [COMMA] + (ElementsText(es[1..]) + [CLOSE_BRACKET])
    ensures ElementsText(es) + [CLOSE_BRACKET] == es[0].before + (Text(es[0].value) + (es[0].after + more))
  {
    var before, u, after := es[0].before, Text(es[0].value), es[0].after;
    if |es| == 1 {
      RegroupLast(before, u, after, [CLOSE_BRACKET]);
    } else {
      RegroupNext(before, u, after, [COMMA], ElementsText(es[1..]), [CLOSE_BRACKET]);
    }
  }

  lemma {:induction false} WriteElementsText(es: seq<Element>, k: Input)
    ensures WriteElements(es, k) == Prepend(ElementsText(es) + [CLOSE_BRACKET], k)
    decreases es, 0
  {
    PrependByte(CLOSE_BRACKET, [], k);
    if es == [] {
      assert ElementsText(es) + [CLOSE_BRACKET] == [CLOSE_BRACKET];
    } else {
      var before, u, after := es[0].before, Text(es[0].value), es[0].after;
      var close: Bytes := [CLOSE_BRACKET];
      var more := if |es| == 1 then close else [COMMA] + (ElementsText(es[1..]) + close);
      var rest := Prepend(after, Prepend(more, k));
      assert Prepend(ElementsText(es) + close, k) == Prepend(before, Prepend(u, rest)) by {
        assert ElementsText(es) + close == before + (u + (after + more)) by { ElementsTextHead(es, more); }
        PrependFour(before, u, after, more, k);
      }
      assert Prepend(more, k) ==
             if |es| == 1 then More(CLOSE_BRACKET, k) else More(COMMA, WriteElements(es[1..], k)) by {
        if |es| > 1 {
          WriteElementsText(es[1..], k);
          PrependByte(COMMA, ElementsText(es[1..]) + close, k);
        }
      }
      WriteText(es[0].value, rest);
    }
  }

  lemma WriteHeadText(p: Pair, k: Input)
    ensures WriteHead(p, k) == Prepend(PairHead(p), k)
  {
    var gap := [COLON] + p.gap;
    PrependFour(p.before, Quote(p.key), p.colon, gap, k);
    PrependByte(COLON, p.gap, k);
    WriteQuote(p.key, Prepend(p.colon, Prepend(gap, k)));
  }

  lemma PairsTextHead(ps: seq<Pair>, more: Bytes)
    requires ps != []
    requires more == if |ps| == 1 then [CLOSE_BRACE] else [COMMA] + (PairsText(ps[1..]) + [CLOSE_BRACE])
    ensures PairsText(ps) + [CLOSE_BRACE] == PairHead(ps[0]) + (Text(ps[0].value) + (ps[0].after + more))
  {
    var head, u, after := PairHead(ps[0]), Text(ps[0].value), ps[0].after;
    if |ps| == 1 {
      RegroupLast(head, u, after, [CLOSE_BRACE]);
    } else {
      RegroupNext(head, u, after, [COMMA], PairsText(ps[1..]), [CLOSE_BRACE]);
    }
  }

  lemma RegroupLast(a: Bytes, b: Bytes, c: Bytes, d: Bytes)
    ensures a + (b + c) + d == a + (b + (c + d))
  {
  }

  lemma RegroupNext(a: Bytes, b: Bytes, c: Bytes, d: Bytes, e: Bytes, f: Bytes)
    ensures a + (b + c) + (d + e) + f == a + (b + (c + (d + (e + f))))
  {
  }

  lemma {:induction false} WritePairsText(ps: seq<Pair>, k: Input)
    ensures WritePairs(ps, k) == Prepend(PairsText(ps) + [CLOSE_BRACE], k)
    decreases ps, 0
  {
    PrependByte(CLOSE_BRACE, [], k);
    if ps == [] {
      assert PairsText(ps) + [CLOSE_BRACE] == [CLOSE_BRACE];
    } else {
      var head, u, after := PairHead(ps[0]), Text(ps[0].value), ps[0].after;
      var close: Bytes := [CLOSE_BRACE];
      var more := if |ps| == 1 then close else [COMMA] + (PairsText(ps[1..]) + close);
      var rest := Prepend(after, Prepend(more, k));
      assert Prepend(PairsText(ps) + close, k) == Prepend(head, Prepend(u, rest)) by {
        assert PairsText(ps) + close == head + (u + (after + more)) by { PairsTextHead(ps, more); }
        PrependFour(head, u, after, more, k);
      }
      assert Prepend(more, k) == if |ps| == 1 then More(CLOSE_BRACE, k) else More(COMMA, WritePairs(ps[1..], k)) by {
        if |ps| > 1 {
          WritePairsText(ps[1..], k);
          PrependByte(COMMA, PairsText(ps[1..]) + close, k);
        }
      }
      WriteText(ps[0].value, rest);
      WriteHeadText(ps[0], Prepend(u, rest));
    }
  }

  /** Reading a text back from what the parser is given. */
  lemma {:induction false} PrependInjective(a: Bytes, b: Bytes)
    ensures Prepend(a, End) == Prepend(b, End) ==> a == b
  {
    if a != [] && b != [] {
      PrependInjective(a[1..], b[1..]);
      assert a == [a[0]] + a[1..] && b == [b[0]] + b[1..];
    }
  }

  /** The text of a document in front of `k`. */
  function WriteDocument(d: Document, k: Input): Input {
    var body := Prepend(d.lead, Write(d.root, Prepend(d.trail, k)));
    if d.mark then More(0xEF, More(0xBB, More(0xBF, body))) else body
  }

  lemma WriteDocumentText(d: Document, k: Input)
    ensures WriteDocument(d, k) == Prepend(DocumentText(d), k)
  {
    var body := d.lead + (Text(d.root) + d.trail);
    var mark := if d.mark then BYTE_ORDER_MARK else [];
    PrependConcat(mark, body, k);
    PrependConcat(d.lead, Text(d.root) + d.trail, k);
    PrependConcat(Text(d.root), d.trail, k);
    WriteText(d.root, Prepend(d.trail, k));
    if d.mark {
      var rest := Prepend(body, k);
      assert mark == [0xEF] + ([0xBB] + ([0xBF] + []));
      PrependByte(0xEF, [0xBB] + ([0xBF] + []), rest);
      PrependByte(0xBB, [0xBF] + [], rest);
      PrependByte(0xBF, [], rest);
    }
  }

  /** What is left to read behind the mark and the blanks in front of the value. */
  lemma SkipLead(d: Document, k: Input)
    requires ValidDocument(d)
    ensures SkipBlank(SkipMark(WriteDocument(d, k))) == Write(d.root, Prepend(d.trail, k))
  {
    var value := Write(d.root, Prepend(d.trail, k));
    WriteStart(d.root, Prepend(d.trail, k));
    assert SkipMark(WriteDocument(d, k)) == Prepend(d.lead, value);
    SkipBlanks(d.lead, value);
  }

  lemma DocumentComplete(d: Document)
    requires ValidDocument(d) && Depth(Meaning(d.root)) <= NESTING_LIMIT
    ensures ParseText(DocumentText(d), true) == Ok(Meaning(d.root), End)
  {
    var trail := Prepend(d.trail, End);
    WriteDocumentText(d, End);
    SkipLead(d, End);
    SkipBlanks(d.trail, End);
    assert ParseValue(Write(d.root, trail), 0) == Ok(Meaning(d.root), trail) by {
      BlankThenEnd(d.trail, End);
      EndsBounded(d.root, trail);
      ValueComplete(d.root, trail, 0);
    }
  }

  /** The syntax of what the parser reads of a text. */
  lemma PrefixSound(text: Bytes) returns (d: Document)
    requires ParseText(text, false).Ok?
    ensures ValidDocument(d) && d.trail == [] && WriteDocument(d, ParseText(text, false).rest) == Prepend(text, End)
    ensures Meaning(d.root) == ParseText(text, false).value && Depth(Meaning(d.root)) <= NESTING_LIMIT
    ensures Bounded(d.root, ParseText(text, false).rest)
  {
    var s := Prepend(text, End);
    var marked := SkipMark(s);
    var lead := SkippedBlanks(marked);
    var root := ValueSound(SkipBlank(marked), 0);
    d := Document(marked != s, lead, root, []);
  }

  lemma DocumentSound(text: Bytes) returns (d: Document)
    requires ParseText(text, true).Ok?
    ensures ValidDocument(d) && DocumentText(d) == text && Meaning(d.root) == ParseText(text, true).value
    ensures Depth(Meaning(d.root)) <= NESTING_LIMIT
  {
    var start := PrefixSound(text);
    var trail := SkippedBlanks(ParseText(text, false).rest);
    d := start.(trail := trail);
    assert WriteDocument(d, End) == Prepend(text, End);
    WriteDocumentText(d, End);
    PrependInjective(DocumentText(d), text);
  }

  /** The texts `cJSON_ParseWithOpts` accepts to their end, and the values it returns for them, are
      exactly those of the grammar nested at most `NESTING_LIMIT` deep. */
  lemma Accepts(text: Bytes, v: Json)
    ensures ParseText(text, true) == Ok(v, End) <==>
            exists d :: && ValidDocument(d) && DocumentText(d) == text
                        && Meaning(d.root) == v && Depth(v) <= NESTING_LIMIT
  {
    if ParseText(text, true) == Ok(v, End) {
      var d := DocumentSound(text);
    }
    if d :| ValidDocument(d) && DocumentText(d) == text && Meaning(d.root) == v && Depth(v) <= NESTING_LIMIT {
      DocumentComplete(d);
    }
  }

  /** When the end of the text is not asked for, the parser reads a start of the text that belongs to the
      grammar, up to the last byte of its value, and leaves `rest`. Only a number can end in more than one
      place, and then the longest one is read. */
  lemma AcceptsPrefix(text: Bytes, v: Json, rest: Bytes)
    ensures ParseText(text, false) == Ok(v, Prepend(rest, End)) <==>
            exists d :: && ValidDocument(d) && d.trail == [] && DocumentText(d) + rest == text
                        && Meaning(d.root) == v && Depth(v) <= NESTING_LIMIT && Bounded(d.root, Prepend(rest, End))
  {
    var k := Prepend(rest, End);
    if ParseText(text, false) == Ok(v, k) {
      var d := PrefixSound(text);
      WriteDocumentText(d, k);
      PrependConcat(DocumentText(d), rest, End);
      PrependInjective(DocumentText(d) + rest, text);
    }
    if d :| && ValidDocument(d) && d.trail == [] && DocumentText(d) + rest == text
            && Meaning(d.root) == v && Depth(v) <= NESTING_LIMIT && Bounded(d.root, k) {
      PrependConcat(DocumentText(d), rest, End);
      WriteDocumentText(d, k);
      SkipLead(d, k);
      ValueComplete(d.root, k, 0);
    }
  }
}
