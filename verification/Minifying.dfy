/** `cJSON_Minify`: what it computes, and that it keeps the meaning of every text the parser accepts. */
module Minifying {
  import opened Octets
  import opened Json
  import opened Grammar
  import opened Acceptance
  import opened Characters
  import Numbers
  import NumberSyntax
  import Strings
  import StringSyntax
  import Parsing
  import Rendering

  predicate IsDropped(b: Byte) {
    b == SPACE || b == TAB || b == RETURN || b == NEWLINE
  }

  /** The rest behind a `//` comment: its line end stays. */
  function SkipLine(s: Input): (r: Input)
    ensures Length(r) <= Length(s)
  {
    if s.More? && s.byte != NEWLINE then SkipLine(s.rest) else s
  }

  /** The rest behind a block comment; `None` when nothing closes it. The search starts at the
      opening slash, so the star of the opening can belong to the closing. */
  function SkipComment(s: Input): (r: Option<Input>)
    ensures r.Some? ==> Length(r.value) < Length(s)
  {
    if s.End? then None
    else if s.byte == STAR && Parsing.StartsWith(s.rest, SLASH) then Some(s.rest.rest)
    else SkipComment(s.rest)
  }

  /** What is written for the rest `s`; `None` when the loop does not end at the terminator. */
  function Minify(s: Input): (r: Option<Input>)
    ensures r.Some? ==> Length(r.value) <= Length(s)
    decreases Length(s)
  {
    if s.End? then Some(End)
    else if IsDropped(s.byte) then Minify(s.rest)
    else if s.byte == SLASH && Parsing.StartsWith(s.rest, SLASH) then
      assert Length(SkipLine(s)) < Length(s);
      Minify(SkipLine(s))
    else if s.byte == SLASH && Parsing.StartsWith(s.rest, STAR) then
      match SkipComment(s)
      case None => None
      case Some(rest) => Minify(rest)
    else if s.byte == QUOTE then
      match Strings.Scan(s.rest)
      case Unclosed => None
      case Scanned(body, rest) => Keep(Quote(body), Minify(rest))
    else Keep([s.byte], Minify(s.rest))
  }

  function Keep(u: Bytes, r: Option<Input>): (k: Option<Input>)
    ensures k.Some? <==> r.Some?
    ensures k.Some? ==> Length(k.value) == |u| + Length(r.value)
  {
    match r
    case None => None
    case Some(x) => PrependLength(u, x); Some(Prepend(u, x))
  }

  // ----- what is dropped

  predicate IsSpace(b: Byte) {
    b == Ascii(' ') || b == Ascii('\t') || b == Ascii('\n') || b == Ascii('\r')
  }

  /** There is no whitespace of RFC 8259 outside of the string literals. */
  predicate SpaceFree(s: Input)
    decreases Length(s)
  {
    if s.End? then true
    else if s.byte == Ascii('"') then
      match Strings.Scan(s.rest)
      case Unclosed => true
      case Scanned(_, rest) => SpaceFree(rest)
    else !IsSpace(s.byte) && SpaceFree(s.rest)
  }

  /** What is kept has no whitespace but inside of string literals. */
  lemma {:induction false} MinifySpaceFree(s: Input, x: Input)
    requires Minify(s) == Some(x)
    ensures SpaceFree(x)
    decreases Length(s)
  {
    if s.End? {
    } else if IsDropped(s.byte) {
      MinifySpaceFree(s.rest, x);
    } else if s.byte == SLASH && Parsing.StartsWith(s.rest, SLASH) {
      MinifySpaceFree(SkipLine(s), x);
    } else if s.byte == SLASH && Parsing.StartsWith(s.rest, STAR) {
      MinifySpaceFree(SkipComment(s).value, x);
    } else if s.byte == QUOTE {
      var literal := Strings.Scan(s.rest);
      var rest := Minify(literal.rest).value;
      MinifySpaceFree(literal.rest, rest);
      Strings.ScanSound(s.rest);
      WriteQuote(literal.body, rest);
      Strings.ScanComplete(literal.body, rest);
    } else {
      var rest := Minify(s.rest).value;
      MinifySpaceFree(s.rest, rest);
      PrependByte(s.byte, [], rest);
      assert [s.byte] + [] == [s.byte];
    }
  }

  /** No whitespace, no quote and no slash. */
  predicate OnlyKept(u: Bytes) {
    forall k :: 0 <= k < |u| ==> !IsSpace(u[k]) && u[k] != Ascii('"') && u[k] != Ascii('/')
  }

  /** Everything else is kept. */
  lemma {:induction false} MinifyKeeps(u: Bytes, s: Input)
    requires OnlyKept(u)
    ensures Minify(Prepend(u, s)) == Keep(u, Minify(s))
  {
    if u != [] {
      MinifyKeeps(u[1..], s);
      var r := Minify(s);
      if r.Some? {
        PrependByte(u[0], [], Prepend(u[1..], r.value));
        assert [u[0]] + [] == [u[0]];
      }
    }
  }

  /** A line comment is dropped with its line end. */
  lemma MinifyLineComment(line: Bytes, s: Input)
    requires forall k :: 0 <= k < |line| ==> line[k] != Ascii('\n')
    ensures Minify(More(Ascii('/'), More(Ascii('/'), Prepend(line, More(Ascii('\n'), s))))) == Minify(s)
  {
    var end := More(Ascii('\n'), s);
    var text := Prepend(line, end);
    LineSkipped(line, end);
    assert SkipLine(More(Ascii('/'), text)) == SkipLine(text);
    assert SkipLine(More(Ascii('/'), More(Ascii('/'), text))) == end;
    assert Minify(end) == Minify(s);
  }

  lemma {:induction false} LineSkipped(line: Bytes, s: Input)
    requires Parsing.StartsWith(s, NEWLINE) && forall k :: 0 <= k < |line| ==> line[k] != NEWLINE
    ensures SkipLine(Prepend(line, s)) == s
  {
    if line != [] {
      LineSkipped(line[1..], s);
    }
  }

  /** No star stands in front of a slash. */
  predicate NeverCloses(u: Bytes) {
    forall k :: 0 <= k < |u| - 1 ==> !(u[k] == Ascii('*') && u[k + 1] == Ascii('/'))
  }

  /** A block comment is dropped. It ends at the first star in front of a slash, the star that opens it included. */
  lemma MinifyBlockComment(inside: Bytes, s: Input)
    requires NeverCloses([Ascii('*')] + inside)
    ensures var text := [Ascii('*')] + inside;
            Minify(More(Ascii('/'), Prepend(text, More(Ascii('*'), More(Ascii('/'), s))))) == Minify(s)
  {
    var text := [Ascii('*')] + inside;
    assert text[0] == Ascii('*');
    BlockSkipped(text, s);
  }

  lemma {:induction false} BlockSkipped(u: Bytes, s: Input)
    requires NeverCloses(u)
    ensures SkipComment(Prepend(u, More(Ascii('*'), More(Ascii('/'), s)))) == Some(s)
  {
    if u != [] {
      NeverClosesLater(u);
      BlockSkipped(u[1..], s);
    }
  }

  lemma NeverClosesLater(u: Bytes)
    requires u != [] && NeverCloses(u)
    ensures NeverCloses(u[1..])
  {
    var v := u[1..];
    forall k | 0 <= k < |v| - 1
      ensures !(v[k] == Ascii('*') && v[k + 1] == Ascii('/'))
    {
      assert v[k] == u[k + 1] && v[k + 1] == u[k + 1 + 1];
    }
  }

  // ----- when minifying stays inside the text

  /** Where in a text a byte stands. */
  datatype Place = Outside | Literal | Line | Block

  /** Every string literal and every block comment is closed: a scan from left to right, from the place
      `p` on. A block comment is entered at its star. */
  predicate ClosedFrom(s: Input, p: Place) {
    if s.End? then p.Outside? || p.Line?
    else
      match p
      case Outside =>
        if s.byte == QUOTE then ClosedFrom(s.rest, Literal)
        else if s.byte == SLASH && Parsing.StartsWith(s.rest, SLASH) then ClosedFrom(s.rest, Line)
        else if s.byte == SLASH && Parsing.StartsWith(s.rest, STAR) then ClosedFrom(s.rest, Block)
        else ClosedFrom(s.rest, Outside)
      case Literal =>
        if s.byte == QUOTE then ClosedFrom(s.rest, Outside)
        else if s.byte == BACKSLASH then s.rest.More? && ClosedFrom(s.rest.rest, Literal)
        else ClosedFrom(s.rest, Literal)
      case Line => ClosedFrom(s.rest, if s.byte == NEWLINE then Outside else Line)
      case Block =>
        if s.byte == STAR && Parsing.StartsWith(s.rest, SLASH) then ClosedFrom(s.rest.rest, Outside)
        else ClosedFrom(s.rest, Block)
  }

  predicate Closed(text: Bytes) {
    ClosedFrom(Prepend(text, End), Outside)
  }

  lemma {:induction false} ClosedLiteral(s: Input)
    ensures ClosedFrom(s, Literal) <==> Strings.Scan(s).Scanned? && ClosedFrom(Strings.Scan(s).rest, Outside)
  {
    if s.More? && s.byte != QUOTE {
      if s.byte != BACKSLASH {
        ClosedLiteral(s.rest);
      } else if s.rest.More? {
        ClosedLiteral(s.rest.rest);
      }
    }
  }

  lemma {:induction false} ClosedLine(s: Input)
    ensures ClosedFrom(s, Line) <==> ClosedFrom(SkipLine(s), Outside)
  {
    if s.More? && s.byte != NEWLINE {
      ClosedLine(s.rest);
    }
  }

  lemma {:induction false} ClosedBlock(s: Input)
    ensures ClosedFrom(s, Block) <==> SkipComment(s).Some? && ClosedFrom(SkipComment(s).value, Outside)
  {
    if s.More? && !(s.byte == STAR && Parsing.StartsWith(s.rest, SLASH)) {
      ClosedBlock(s.rest);
    }
  }

  /** The loop ends at the terminator exactly when everything is closed. */
  lemma {:induction false} ClosedIff(s: Input)
    ensures Minify(s).Some? <==> ClosedFrom(s, Outside)
    decreases Length(s)
  {
    if s.More? {
      if s.byte == SLASH && Parsing.StartsWith(s.rest, SLASH) {
        assert SkipLine(s) == SkipLine(s.rest) && Length(SkipLine(s)) < Length(s);
        ClosedLine(s.rest);
        ClosedIff(SkipLine(s));
      } else if s.byte == SLASH && Parsing.StartsWith(s.rest, STAR) {
        assert SkipComment(s) == SkipComment(s.rest);
        ClosedBlock(s.rest);
        if SkipComment(s).Some? {
          ClosedIff(SkipComment(s).value);
        }
      } else if s.byte == QUOTE {
        ClosedLiteral(s.rest);
        if Strings.Scan(s.rest).Scanned? {
          ClosedIff(Strings.Scan(s.rest).rest);
        }
      } else {
        ClosedIff(s.rest);
      }
    }
  }

  /** A quote without its partner, and a comment that is only opened. */
  lemma NeverClosed()
    ensures !Closed([QUOTE]) && !Closed([SLASH, STAR])
    ensures Minify(More(QUOTE, End)).None? && Minify(More(SLASH, More(STAR, End))).None?
  {
    assert Prepend([QUOTE], End) == More(QUOTE, End);
    assert [SLASH, STAR][1..] == [STAR];
    assert Prepend([STAR], End) == More(STAR, End);
    assert Prepend([SLASH, STAR], End) == More(SLASH, More(STAR, End));
    assert !ClosedFrom(More(STAR, End), Block);
    ClosedIff(More(QUOTE, End));
    ClosedIff(More(SLASH, More(STAR, End)));
  }

  // ----- when minifying is idempotent

  /** The rest from the next byte on that is kept. */
  function Gap(s: Input): Input
    decreases Length(s)
  {
    if s.End? then s
    else if IsDropped(s.byte) then Gap(s.rest)
    else if s.byte == SLASH && Parsing.StartsWith(s.rest, SLASH) then
      assert Length(SkipLine(s)) < Length(s);
      Gap(SkipLine(s))
    else if s.byte == SLASH && Parsing.StartsWith(s.rest, STAR) then
      match SkipComment(s)
      case None => End
      case Some(rest) => Gap(rest)
    else s
  }

  /** A slash that is kept would open a comment together with the next byte that is kept. */
  predicate OpensComment(b: Byte, s: Input) {
    b == SLASH && (Parsing.StartsWith(Gap(s), SLASH) || Parsing.StartsWith(Gap(s), STAR))
  }

  /** No kept slash outside of the string literals comes to stand in front of a slash or a star. */
  predicate Safe(s: Input)
    decreases Length(s)
  {
    if s.End? then true
    else if IsDropped(s.byte) then Safe(s.rest)
    else if s.byte == SLASH && Parsing.StartsWith(s.rest, SLASH) then
      assert Length(SkipLine(s)) < Length(s);
      Safe(SkipLine(s))
    else if s.byte == SLASH && Parsing.StartsWith(s.rest, STAR) then
      match SkipComment(s)
      case None => true
      case Some(rest) => Safe(rest)
    else if s.byte == QUOTE then
      match Strings.Scan(s.rest)
      case Unclosed => true
      case Scanned(_, rest) => Safe(rest)
    else !OpensComment(s.byte, s.rest) && Safe(s.rest)
  }

  /** What is written starts with the next byte that is kept. */
  lemma {:induction false} FirstKept(s: Input, x: Input)
    requires Minify(s) == Some(x)
    ensures x.End? <==> Gap(s).End?
    ensures x.More? ==> x.byte == Gap(s).byte
    decreases Length(s)
  {
    if s.End? {
    } else if IsDropped(s.byte) {
      FirstKept(s.rest, x);
    } else if s.byte == SLASH && Parsing.StartsWith(s.rest, SLASH) {
      FirstKept(SkipLine(s), x);
    } else if s.byte == SLASH && Parsing.StartsWith(s.rest, STAR) {
      FirstKept(SkipComment(s).value, x);
    }
  }

  lemma {:induction false} PrependSame(u: Bytes, a: Input, b: Input)
    ensures Prepend(u, a) == Prepend(u, b) <==> a == b
  {
    if u != [] {
      PrependSame(u[1..], a, b);
    }
  }

  /** Minifying a second time changes nothing exactly when no comment comes into being. */
  lemma {:induction false} IdempotentIff(s: Input, x: Input)
    requires Minify(s) == Some(x)
    ensures Minify(x) == Some(x) <==> Safe(s)
    decreases Length(s)
  {
    if s.End? {
    } else if IsDropped(s.byte) {
      IdempotentIff(s.rest, x);
    } else if s.byte == SLASH && Parsing.StartsWith(s.rest, SLASH) {
      IdempotentIff(SkipLine(s), x);
    } else if s.byte == SLASH && Parsing.StartsWith(s.rest, STAR) {
      IdempotentIff(SkipComment(s).value, x);
    } else if s.byte == QUOTE {
      var r := Strings.Scan(s.rest);
      var y := Minify(r.rest).value;
      IdempotentIff(r.rest, y);
      Strings.ScanSound(s.rest);
      KeptLiteral(r.body, y);
    } else {
      var y := Minify(s.rest).value;
      IdempotentIff(s.rest, y);
      FirstKept(s.rest, y);
      KeptByte(s.byte, y);
    }
  }

  lemma KeptLiteral(body: Bytes, y: Input)
    requires Strings.RawBody(body)
    ensures var x := Prepend(Quote(body), y);
            Minify(x) == Some(x) <==> Minify(y) == Some(y)
  {
    var x := Prepend(Quote(body), y);
    WriteQuote(body, y);
    Strings.ScanComplete(body, y);
    assert Minify(x) == Keep(Quote(body), Minify(y));
    if Minify(y).Some? {
      PrependSame(Quote(body), Minify(y).value, y);
    }
  }

  lemma KeptByte(b: Byte, y: Input)
    requires !IsDropped(b) && b != QUOTE
    ensures var x := Prepend([b], y);
            Minify(x) == Some(x) <==>
            Minify(y) == Some(y) && !(b == SLASH && (Parsing.StartsWith(y, SLASH) || Parsing.StartsWith(y, STAR)))
  {
    var x := Prepend([b], y);
    PrependByte(b, [], y);
    assert [b] + [] == [b];
    assert x == More(b, y);
    if b == SLASH && Parsing.StartsWith(y, SLASH) {
      assert Length(SkipLine(x)) < Length(x);
    } else if b == SLASH && Parsing.StartsWith(y, STAR) {
    } else if Minify(y).Some? {
      PrependSame([b], Minify(y).value, y);
    }
  }

  // ----- minifying a syntax tree

  function Trim(ws: Bytes): Bytes {
    if ws == [] then [] else (if IsDropped(ws[0]) then [] else [ws[0]]) + Trim(ws[1..])
  }

  function Trimmed(t: Syntax): Syntax
    decreases t, 1
  {
    match t
    case SArray(lead, es) => SArray(Trim(lead), TrimmedElements(es))
    case SObject(lead, ps) => SObject(Trim(lead), TrimmedPairs(ps))
    case _ => t
  }

  function TrimmedElements(es: seq<Element>): (r: seq<Element>)
    ensures |r| == |es|
    decreases es, 0
  {
    if es == [] then []
    else [Element(Trim(es[0].before), Trimmed(es[0].value), Trim(es[0].after))] + TrimmedElements(es[1..])
  }

  function TrimmedPairs(ps: seq<Pair>): (r: seq<Pair>)
    ensures |r| == |ps|
    decreases ps, 0
  {
    if ps == [] then []
    else
      [Pair(Trim(ps[0].before), ps[0].key, Trim(ps[0].colon), Trim(ps[0].gap), Trimmed(ps[0].value), Trim(ps[0].after))]
      + TrimmedPairs(ps[1..])
  }

  lemma {:induction false} TrimBlank(ws: Bytes)
    requires AllBlank(ws)
    ensures AllBlank(Trim(ws))
  {
    if ws != [] {
      TrimBlank(ws[1..]);
      if IsDropped(ws[0]) {
        assert Trim(ws) == Trim(ws[1..]);
      } else {
        assert Trim(ws)[1..] == Trim(ws[1..]);
      }
    }
  }

  /** Trimming keeps a tree in the language and keeps its meaning. */
  lemma {:induction false} TrimmedMeaning(t: Syntax)
    requires Valid(t)
    ensures Valid(Trimmed(t)) && Meaning(Trimmed(t)) == Meaning(t)
    decreases t, 1
  {
    match t
    case SArray(lead, es) =>
      TrimBlank(lead);
      TrimmedElementsMeaning(es);
    case SObject(lead, ps) =>
      TrimBlank(lead);
      TrimmedPairsMeaning(ps);
    case _ =>
  }

  lemma {:induction false} TrimmedElementsMeaning(es: seq<Element>)
    requires ValidElements(es)
    ensures ValidElements(TrimmedElements(es)) && ElementsMeaning(TrimmedElements(es)) == ElementsMeaning(es)
    decreases es, 0
  {
    if es != [] {
      TrimBlank(es[0].before);
      TrimBlank(es[0].after);
      TrimmedMeaning(es[0].value);
      TrimmedElementsMeaning(es[1..]);
      assert TrimmedElements(es)[1..] == TrimmedElements(es[1..]);
    }
  }

  lemma {:induction false} TrimmedPairsMeaning(ps: seq<Pair>)
    requires ValidPairs(ps)
    ensures ValidPairs(TrimmedPairs(ps)) && PairsMeaning(TrimmedPairs(ps)) == PairsMeaning(ps)
    decreases ps, 0
  {
    if ps != [] {
      var p := ps[0];
      TrimBlank(p.before);
      TrimBlank(p.colon);
      TrimBlank(p.gap);
      TrimBlank(p.after);
      TrimmedMeaning(p.value);
      TrimmedPairsMeaning(ps[1..]);
      assert TrimmedPairs(ps)[1..] == TrimmedPairs(ps[1..]);
    }
  }

  // ----- `Minify` trims

  /** `x` is what is written for `s`, and no comment comes into being. */
  ghost predicate Minifies(s: Input, x: Input) {
    Minify(s) == Some(x) && Safe(s)
  }

  lemma {:induction false} MinifyBlank(ws: Bytes, k: Input, x: Input)
    requires AllBlank(ws) && Minifies(k, x)
    ensures Minifies(Prepend(ws, k), Prepend(Trim(ws), x))
  {
    if ws != [] {
      MinifyBlank(ws[1..], k, x);
      if !IsDropped(ws[0]) {
        MinifyByte(ws[0], Prepend(ws[1..], k), Prepend(Trim(ws[1..]), x));
        PrependByte(ws[0], Trim(ws[1..]), x);
      } else {
        assert Trim(ws) == Trim(ws[1..]);
      }
    }
  }

  lemma MinifyByte(b: Byte, k: Input, x: Input)
    requires !IsDropped(b) && b != SLASH && b != QUOTE && Minifies(k, x)
    ensures Minifies(More(b, k), More(b, x))
  {
    PrependByte(b, [], x);
    assert [b] + [] == [b];
  }

  lemma {:induction false} MinifyToken(token: Bytes, k: Input, x: Input)
    requires Numbers.AllNumberChars(token) && Minifies(k, x)
    ensures Minifies(Prepend(token, k), Prepend(token, x))
  {
    if token != [] {
      MinifyToken(token[1..], k, x);
      assert Numbers.IsNumberChar(token[0]);
      MinifyByte(token[0], Prepend(token[1..], k), Prepend(token[1..], x));
    }
  }

  lemma MinifyQuoted(body: Bytes, k: Input, x: Input)
    requires StringSyntax.ValidBody(body) && Minifies(k, x)
    ensures Minifies(WriteQuoted(body, k), WriteQuoted(body, x))
  {
    StringSyntax.BodyIff(body);
    Strings.ScanComplete(body, k);
    WriteQuote(body, x);
  }

  lemma MinifyWord(t: Syntax, k: Input, x: Input)
    requires (t.SNull? || t.SFalse? || t.STrue?) && Minifies(k, x)
    ensures Minifies(Write(t, k), Write(t, x))
  {
    match t
    case SNull =>
      MinifyByte(108, k, x);
      MinifyByte(108, More(108, k), More(108, x));
      MinifyByte(117, More(108, More(108, k)), More(108, More(108, x)));
      MinifyByte(110, Write(t, k).rest, Write(t, x).rest);
    case SFalse =>
      MinifyByte(101, k, x);
      MinifyByte(115, More(101, k), More(101, x));
      MinifyByte(108, More(115, More(101, k)), More(115, More(101, x)));
      MinifyByte(97, Write(t, k).rest.rest, Write(t, x).rest.rest);
      MinifyByte(102, Write(t, k).rest, Write(t, x).rest);
    case STrue =>
      MinifyByte(101, k, x);
      MinifyByte(117, More(101, k), More(101, x));
      MinifyByte(114, More(117, More(101, k)), More(117, More(101, x)));
      MinifyByte(116, Write(t, k).rest, Write(t, x).rest);
  }

  lemma {:induction false} MinifyValue(t: Syntax, k: Input, x: Input)
    requires Valid(t) && Minifies(k, x)
    ensures Minifies(Write(t, k), Write(Trimmed(t), x))
    decreases t, 1
  {
    match t
    case SNumber(token) =>
      NumberSyntax.NumeralIff(token);
      MinifyToken(token, k, x);
    case SString(body) => MinifyQuoted(body, k, x);
    case SArray(lead, es) =>
      MinifyElements(es, k, x);
      MinifyBlank(lead, WriteElements(es, k), WriteElements(TrimmedElements(es), x));
      MinifyByte(OPEN_BRACKET, Write(t, k).rest, Write(Trimmed(t), x).rest);
    case SObject(lead, ps) =>
      MinifyPairs(ps, k, x);
      MinifyBlank(lead, WritePairs(ps, k), WritePairs(TrimmedPairs(ps), x));
      MinifyByte(OPEN_BRACE, Write(t, k).rest, Write(Trimmed(t), x).rest);
    case _ => MinifyWord(t, k, x);
  }

  lemma {:induction false} MinifyElements(es: seq<Element>, k: Input, x: Input)
    requires ValidElements(es) && Minifies(k, x)
    ensures Minifies(WriteElements(es, k), WriteElements(TrimmedElements(es), x))
    decreases es, 0
  {
    MinifyByte(CLOSE_BRACKET, k, x);
    if es != [] {
      var tail, ts := es[1..], TrimmedElements(es);
      assert ts[1..] == TrimmedElements(tail);
      var next, next' := More(CLOSE_BRACKET, k), More(CLOSE_BRACKET, x);
      if |es| > 1 {
        MinifyElements(tail, k, x);
        MinifyByte(COMMA, WriteElements(tail, k), WriteElements(ts[1..], x));
        next, next' := More(COMMA, WriteElements(tail, k)), More(COMMA, WriteElements(ts[1..], x));
      }
      MinifyBlank(es[0].after, next, next');
      var after, after' := Prepend(es[0].after, next), Prepend(ts[0].after, next');
      MinifyValue(es[0].value, after, after');
      MinifyBlank(es[0].before, Write(es[0].value, after), Write(ts[0].value, after'));
    }
  }

  lemma MinifyHead(p: Pair, p': Pair, k: Input, x: Input)
    requires ValidPairHead(p) && Minifies(k, x)
    requires p'.before == Trim(p.before) && p'.key == p.key && p'.colon == Trim(p.colon) && p'.gap == Trim(p.gap)
    ensures Minifies(WriteHead(p, k), WriteHead(p', x))
  {
    MinifyBlank(p.gap, k, x);
    var gap, gap' := Prepend(p.gap, k), Prepend(p'.gap, x);
    MinifyByte(COLON, gap, gap');
    MinifyBlank(p.colon, More(COLON, gap), More(COLON, gap'));
    var colon, colon' := Prepend(p.colon, More(COLON, gap)), Prepend(p'.colon, More(COLON, gap'));
    MinifyQuoted(p.key, colon, colon');
    MinifyBlank(p.before, WriteQuoted(p.key, colon), WriteQuoted(p.key, colon'));
  }

  lemma {:induction false} MinifyPairs(ps: seq<Pair>, k: Input, x: Input)
    requires ValidPairs(ps) && Minifies(k, x)
    ensures Minifies(WritePairs(ps, k), WritePairs(TrimmedPairs(ps), x))
    decreases ps, 0
  {
    MinifyByte(CLOSE_BRACE, k, x);
    if ps != [] {
      var tail, ts := ps[1..], TrimmedPairs(ps);
      assert ts[1..] == TrimmedPairs(tail);
      var next, next' := More(CLOSE_BRACE, k), More(CLOSE_BRACE, x);
      if |ps| > 1 {
        MinifyPairs(tail, k, x);
        MinifyByte(COMMA, WritePairs(tail, k), WritePairs(ts[1..], x));
        next, next' := More(COMMA, WritePairs(tail, k)), More(COMMA, WritePairs(ts[1..], x));
      }
      MinifyBlank(ps[0].after, next, next');
      var after, after' := Prepend(ps[0].after, next), Prepend(ts[0].after, next');
      MinifyValue(ps[0].value, after, after');
      MinifyHead(ps[0], ts[0], Write(ps[0].value, after), Write(ts[0].value, after'));
    }
  }

  function TrimmedDocument(d: Document): Document {
    Document(d.mark, Trim(d.lead), Trimmed(d.root), Trim(d.trail))
  }

  lemma MinifyDocument(d: Document)
    requires ValidDocument(d)
    ensures Minifies(Prepend(DocumentText(d), End), Prepend(DocumentText(TrimmedDocument(d)), End))
    ensures ValidDocument(TrimmedDocument(d)) && Meaning(TrimmedDocument(d).root) == Meaning(d.root)
  {
    var d' := TrimmedDocument(d);
    TrimBlank(d.lead);
    TrimBlank(d.trail);
    TrimmedMeaning(d.root);
    WriteDocumentText(d, End);
    WriteDocumentText(d', End);
    var trail, trail' := Prepend(d.trail, End), Prepend(d'.trail, End);
    MinifyBlank(d.trail, End, End);
    MinifyValue(d.root, trail, trail');
    var root, root' := Write(d.root, trail), Write(d'.root, trail');
    MinifyBlank(d.lead, root, root');
    if d.mark {
      var body, body' := Prepend(d.lead, root), Prepend(d'.lead, root');
      MinifyByte(0xBF, body, body');
      MinifyByte(0xBB, More(0xBF, body), More(0xBF, body'));
      MinifyByte(0xEF, More(0xBB, More(0xBF, body)), More(0xBB, More(0xBF, body')));
    }
  }

  /** Minifying a text the parser accepts stays inside the text, leaves a text that parses to the
      same value, and minifying that text again changes nothing. */
  lemma MinifyKeepsMeaning(text: Bytes) returns (out: Bytes)
    requires Parsing.ParseText(text, true).Ok?
    ensures Minify(Prepend(text, End)) == Some(Prepend(out, End)) && Safe(Prepend(text, End))
    ensures Parsing.ParseText(out, true) == Parsing.ParseText(text, true)
    ensures Minify(Prepend(out, End)) == Some(Prepend(out, End))
  {
    var d := DocumentSound(text);
    MinifyDocument(d);
    out := DocumentText(TrimmedDocument(d));
    IdempotentIff(Prepend(text, End), Prepend(out, End));
    Accepts(text, Meaning(d.root));
    DocumentComplete(TrimmedDocument(d));
  }

  // ----- minifying printed text

  lemma {:induction false} TrimTabs(n: nat)
    ensures Trim(Rendering.Tabs(n)) == [] && Trim([NEWLINE] + Rendering.Tabs(n)) == []
  {
    TrimDropped(Rendering.Tabs(n));
    TrimDropped([NEWLINE] + Rendering.Tabs(n));
  }

  lemma {:induction false} TrimDropped(ws: Bytes)
    requires forall k :: 0 <= k < |ws| ==> IsDropped(ws[k])
    ensures Trim(ws) == []
  {
    if ws != [] {
      TrimDropped(ws[1..]);
    }
  }

  lemma {:induction false} TrimmedSyntax(j: Json, depth: nat)
    requires NoRaw(j)
    ensures Trimmed(Rendering.SyntaxOf(j, true, depth)) == Rendering.SyntaxOf(j, false, depth)
    decreases j, 1
  {
    match j
    case Array(items) => TrimmedElementsOf(items, depth + 1, [], []);
    case Object(members) =>
      TrimTabs(depth);
      TrimmedPairsOf(members, depth + 1);
    case _ =>
  }

  lemma {:induction false} TrimmedElementsOf(items: seq<Json>, depth: nat, before: Bytes, before': Bytes)
    requires Trim(before) == before' && forall k :: 0 <= k < |items| ==> NoRaw(items[k])
    ensures TrimmedElements(Rendering.ElementsOf(items, true, depth, before)) ==
            Rendering.ElementsOf(items, false, depth, before')
    decreases items, 0
  {
    if items != [] {
      TrimmedSyntax(items[0], depth);
      TrimDropped([SPACE]);
      TrimmedElementsOf(items[1..], depth, [SPACE], []);
      assert Rendering.ElementsOf(items, true, depth, before)[1..] ==
             Rendering.ElementsOf(items[1..], true, depth, [SPACE]);
    }
  }

  lemma {:induction false} TrimmedPairsOf(members: seq<Member>, depth: nat)
    requires depth > 0 && forall k :: 0 <= k < |members| ==> NoRaw(members[k].value)
    ensures TrimmedPairs(Rendering.PairsOf(members, true, depth)) == Rendering.PairsOf(members, false, depth)
    decreases members, 0
  {
    if members != [] {
      TrimmedSyntax(members[0].value, depth);
      TrimTabs(depth);
      TrimTabs(depth - 1);
      TrimDropped([TAB]);
      TrimmedPairsOf(members[1..], depth);
      assert Rendering.PairsOf(members, true, depth)[1..] == Rendering.PairsOf(members[1..], true, depth);
    }
  }

  /** Minifying the formatted text of a tree gives its unformatted text, which minifying leaves as it is. */
  lemma MinifyFormatted(j: Json)
    requires NoRaw(j) && Printable(j)
    ensures Minify(Prepend(Rendering.Render(j, true, 0), End)) == Some(Prepend(Rendering.Render(j, false, 0), End))
    ensures Minify(Prepend(Rendering.Render(j, false, 0), End)) == Some(Prepend(Rendering.Render(j, false, 0), End))
  {
    var formatted, plain := Prepend(Rendering.Render(j, true, 0), End), Prepend(Rendering.Render(j, false, 0), End);
    assert Minifies(formatted, plain) by {
      var t := Rendering.SyntaxOf(j, true, 0);
      assert Valid(t) && Text(t) == Rendering.Render(j, true, 0) by {
        Rendering.SyntaxMeaning(j, true, 0);
        Rendering.SyntaxText(j, true, 0);
      }
      assert Text(Trimmed(t)) == Rendering.Render(j, false, 0) by {
        TrimmedSyntax(j, 0);
        Rendering.SyntaxText(j, false, 0);
      }
      MinifyValue(t, End, End);
      WriteText(t, End);
      WriteText(Trimmed(t), End);
    }
    IdempotentIff(formatted, plain);
  }

  /** A text that is not safe: dropping the blank in `/ /` makes a comment of it. */
  lemma MinifyTwice()
    ensures var s := More(SLASH, More(SPACE, More(SLASH, End)));
            var once := More(SLASH, More(SLASH, End));
            !Safe(s) && Minify(s) == Some(once) && Minify(once) == Some(End)
  {
    var s := More(SLASH, More(SPACE, More(SLASH, End)));
    var once := More(SLASH, More(SLASH, End));
    assert Minify(More(SLASH, End)) == Keep([SLASH], Some(End)) == Some(More(SLASH, End)) by {
      PrependByte(SLASH, [], End);
    }
    assert Minify(s.rest) == Minify(s.rest.rest);
    PrependByte(SLASH, [], More(SLASH, End));
    assert Minify(s) == Keep([SLASH], Minify(s.rest));
    assert SkipLine(once.rest) == End && SkipLine(once) == End;
    IdempotentIff(s, once);
  }
}
