/** The text cJSON prints for a tree, and the round trip through the parser. */
module Rendering {
  import opened Octets
  import opened Json
  import opened Grammar
  import Numbers
  import NumberSyntax
  import Strings
  import StringSyntax
  import Parsing
  import Acceptance

  function Tabs(n: nat): (r: Bytes)
    ensures |r| == n && forall k :: 0 <= k < n ==> r[k] == TAB
  {
    if n == 0 then [] else Tabs(n - 1) + [TAB]
  }

  function Indent(format: bool, depth: nat): Bytes {
    if format then Tabs(depth) else []
  }

  function NewLine(format: bool): Bytes {
    if format then [NEWLINE] else []
  }

  function ItemGap(format: bool): Bytes {
    if format then [SPACE] else []
  }

  function ValueGap(format: bool): Bytes {
    if format then [TAB] else []
  }

  /** `print_value` at nesting depth `depth`. */
  function Render(j: Json, format: bool, depth: nat): Bytes
    decreases j, 1
  {
    match j
    case Null => NULL_TEXT
    case False => FALSE_TEXT
    case True => TRUE_TEXT
    case Number(v) => Numbers.DecimalText(v.Floor)
    case String(text) => Strings.Quoted(text)
    case Raw(text) => text
    case Array(items) => [OPEN_BRACKET] + (RenderItems(items, format, depth + 1) + [CLOSE_BRACKET])
    case Object(members) =>
      [OPEN_BRACE] + NewLine(format)
      + (RenderMembers(members, format, depth + 1) + (Indent(format, depth) + [CLOSE_BRACE]))
  }

  function RenderItems(items: seq<Json>, format: bool, depth: nat): Bytes
    decreases items, 0
  {
    if items == [] then []
    else if |items| == 1 then Render(items[0], format, depth)
    else Render(items[0], format, depth) + ([COMMA] + ItemGap(format) + RenderItems(items[1..], format, depth))
  }

  /** A member up to its value. */
  function RenderKey(key: Bytes, format: bool, depth: nat): Bytes {
    Indent(format, depth) + (Strings.Quoted(key) + ([COLON] + ValueGap(format)))
  }

  function MemberEnd(more: bool, format: bool): Bytes {
    (if more then [COMMA] else []) + NewLine(format)
  }

  function RenderMembers(members: seq<Member>, format: bool, depth: nat): Bytes
    decreases members, 0
  {
    if members == [] then []
    else
      RenderKey(members[0].key, format, depth)
      + (Render(members[0].value, format, depth)
         + (MemberEnd(|members| > 1, format) + RenderMembers(members[1..], format, depth)))
  }

  // ----- the syntax tree of a printed text

  function SyntaxOf(j: Json, format: bool, depth: nat): Syntax
    requires NoRaw(j)
    decreases j, 1
  {
    match j
    case Null => SNull
    case False => SFalse
    case True => STrue
    case Number(v) => SNumber(Numbers.DecimalText(v.Floor))
    case String(text) => SString(Strings.Escape(text))
    case Array(items) => SArray([], ElementsOf(items, format, depth + 1, []))
    case Object(members) =>
      if members == [] then SObject(NewLine(format) + Indent(format, depth), [])
      else SObject([], PairsOf(members, format, depth + 1))
  }

  function ElementsOf(items: seq<Json>, format: bool, depth: nat, before: Bytes): (r: seq<Element>)
    requires forall k :: 0 <= k < |items| ==> NoRaw(items[k])
    ensures |r| == |items|
    decreases items, 0
  {
    if items == [] then []
    else
      [Element(before, SyntaxOf(items[0], format, depth), [])]
      + ElementsOf(items[1..], format, depth, ItemGap(format))
  }

  function PairsOf(members: seq<Member>, format: bool, depth: nat): (r: seq<Pair>)
    requires depth > 0 && forall k :: 0 <= k < |members| ==> NoRaw(members[k].value)
    ensures |r| == |members|
    decreases members, 0
  {
    if members == [] then []
    else
      [Pair(NewLine(format) + Indent(format, depth), Strings.Escape(members[0].key), [], ValueGap(format),
            SyntaxOf(members[0].value, format, depth),
            if |members| == 1 then NewLine(format) + Indent(format, depth - 1) else [])]
      + PairsOf(members[1..], format, depth)
  }

  lemma {:induction false} SyntaxText(j: Json, format: bool, depth: nat)
    requires NoRaw(j)
    ensures Text(SyntaxOf(j, format, depth)) == Render(j, format, depth)
    decreases j, 1
  {
    match j
    case Array(items) =>
      ElementsTextOf(items, format, depth + 1, []);
      ArrayText(ElementsText(ElementsOf(items, format, depth + 1, [])), RenderItems(items, format, depth + 1));
    case Object(members) =>
      MembersTextOf(members, format, depth);
    case _ =>
  }

  lemma ArrayText(elements: Bytes, items: Bytes)
    requires elements == [] + items
    ensures [OPEN_BRACKET] + ([] + (elements + [CLOSE_BRACKET])) == [OPEN_BRACKET] + (items + [CLOSE_BRACKET])
  {
    assert [] + items == items;
    assert [] + (elements + [CLOSE_BRACKET]) == elements + [CLOSE_BRACKET];
  }

  lemma {:induction false} MembersTextOf(members: seq<Member>, format: bool, depth: nat)
    requires NoRaw(Object(members))
    ensures Text(SyntaxOf(Object(members), format, depth)) == Render(Object(members), format, depth)
    decreases members, 1
  {
    if members != [] {
      PairsTextOf(members, format, depth + 1);
      ObjectText(NewLine(format), RenderMembers(members, format, depth + 1), Indent(format, depth));
    } else {
      EmptyObjectText(NewLine(format), Indent(format, depth));
    }
  }

  lemma ObjectText(newline: Bytes, members: Bytes, indent: Bytes)
    ensures [OPEN_BRACE] + ([] + ((newline + members + indent) + [CLOSE_BRACE]))
         == [OPEN_BRACE] + newline + (members + (indent + [CLOSE_BRACE]))
  {
  }

  lemma EmptyObjectText(newline: Bytes, indent: Bytes)
    ensures [OPEN_BRACE] + ((newline + indent) + ([] + [CLOSE_BRACE]))
         == [OPEN_BRACE] + newline + ([] + (indent + [CLOSE_BRACE]))
  {
  }

  lemma {:induction false} ElementsTextOf(items: seq<Json>, format: bool, depth: nat, before: Bytes)
    requires forall k :: 0 <= k < |items| ==> NoRaw(items[k])
    ensures items == [] ==> ElementsText(ElementsOf(items, format, depth, before)) == []
    ensures items != [] ==>
              ElementsText(ElementsOf(items, format, depth, before)) == before + RenderItems(items, format, depth)
    decreases items, 0
  {
    if items != [] {
      var es := ElementsOf(items, format, depth, before);
      var tail := items[1..];
      assert es[1..] == ElementsOf(tail, format, depth, ItemGap(format));
      SyntaxText(items[0], format, depth);
      var u := Render(items[0], format, depth);
      if tail == [] {
        LastItemText(before, u);
      } else {
        ElementsTextOf(tail, format, depth, ItemGap(format));
        NextItemText(before, u, ItemGap(format), RenderItems(tail, format, depth));
      }
    }
  }

  lemma LastItemText(before: Bytes, u: Bytes)
    ensures before + (u + []) == before + u
  {
    assert u + [] == u;
  }

  lemma NextItemText(before: Bytes, u: Bytes, gap: Bytes, rest: Bytes)
    ensures before + (u + []) + ([COMMA] + (gap + rest)) == before + (u + ([COMMA] + gap + rest))
  {
    assert u + [] == u;
  }

  lemma {:induction false} PairsTextOf(members: seq<Member>, format: bool, depth: nat)
    requires depth > 0 && members != [] && forall k :: 0 <= k < |members| ==> NoRaw(members[k].value)
    ensures PairsText(PairsOf(members, format, depth))
         == NewLine(format) + RenderMembers(members, format, depth) + Indent(format, depth - 1)
    decreases members, 0
  {
    var ps := PairsOf(members, format, depth);
    var tail := members[1..];
    var u := Render(members[0].value, format, depth);
    assert ps[1..] == PairsOf(tail, format, depth);
    SyntaxText(members[0].value, format, depth);
    PairHeadText(members[0].key, format, depth, ps[0]);
    if |members| == 1 {
      assert RenderMembers(tail, format, depth) == [];
      LastMemberText(NewLine(format), RenderKey(members[0].key, format, depth), u, Indent(format, depth - 1));
    } else {
      PairsTextOf(tail, format, depth);
      NextMemberText(NewLine(format), RenderKey(members[0].key, format, depth), u,
                     RenderMembers(tail, format, depth), Indent(format, depth - 1));
    }
  }

  lemma PairHeadText(key: Bytes, format: bool, depth: nat, p: Pair)
    requires p.before == NewLine(format) + Indent(format, depth) && p.key == Strings.Escape(key)
    requires p.colon == [] && p.gap == ValueGap(format)
    ensures PairHead(p) == NewLine(format) + RenderKey(key, format, depth)
  {
    KeyText(NewLine(format), Indent(format, depth), Strings.Escape(key), ValueGap(format));
  }

  lemma KeyText(newline: Bytes, indent: Bytes, body: Bytes, gap: Bytes)
    ensures (newline + indent) + (Quote(body) + ([] + ([COLON] + gap)))
         == newline + (indent + (([QUOTE] + body + [QUOTE]) + ([COLON] + gap)))
  {
    assert [] + ([COLON] + gap) == [COLON] + gap;
  }

  lemma LastMemberText(newline: Bytes, head: Bytes, u: Bytes, indent: Bytes)
    ensures newline + head + (u + (newline + indent)) == newline + (head + (u + (([] + newline) + []))) + indent
  {
  }

  lemma NextMemberText(newline: Bytes, head: Bytes, u: Bytes, rest: Bytes, indent: Bytes)
    ensures newline + head + (u + []) + ([COMMA] + (newline + rest + indent))
         == newline + (head + (u + (([COMMA] + newline) + rest))) + indent
  {
  }

  // ----- the printed text belongs to the grammar and means the tree

  lemma BlankGaps(format: bool, depth: nat)
    ensures AllBlank(Indent(format, depth)) && AllBlank(NewLine(format) + Indent(format, depth))
    ensures AllBlank(ItemGap(format)) && AllBlank(ValueGap(format))
  {
  }

  lemma BodyRoundTrip(text: Bytes)
    requires NoNul(text)
    ensures StringSyntax.ValidBody(Strings.Escape(text)) && StringSyntax.BodyMeaning(Strings.Escape(text)) == text
  {
    Strings.EscapeIsRaw(text);
    Strings.DecodeEscape(text);
    StringSyntax.BodyIff(Strings.Escape(text));
  }

  lemma NumberRoundTrip(v: real)
    requires Numbers.Printable(v)
    ensures var t := Numbers.DecimalText(v.Floor);
            ValidToken(t) && NumberSyntax.NumberMeaning(t) == v
  {
    Numbers.DecimalRoundTrip(v.Floor);
    NumberSyntax.NumeralIff(Numbers.DecimalText(v.Floor));
  }

  lemma {:induction false} SyntaxMeaning(j: Json, format: bool, depth: nat)
    requires NoRaw(j) && Printable(j)
    ensures Valid(SyntaxOf(j, format, depth)) && Meaning(SyntaxOf(j, format, depth)) == j
    decreases j, 1
  {
    match j
    case Number(v) => NumberRoundTrip(v);
    case String(text) => BodyRoundTrip(text);
    case Array(items) => ElementsMeaningOf(items, format, depth + 1, []);
    case Object(members) =>
      BlankGaps(format, depth);
      PairsMeaningOf(members, format, depth + 1);
    case _ =>
  }

  lemma {:induction false} ElementsMeaningOf(items: seq<Json>, format: bool, depth: nat, before: Bytes)
    requires AllBlank(before) && forall k :: 0 <= k < |items| ==> NoRaw(items[k]) && Printable(items[k])
    ensures ValidElements(ElementsOf(items, format, depth, before))
    ensures ElementsMeaning(ElementsOf(items, format, depth, before)) == items
    decreases items, 0
  {
    if items != [] {
      var es := ElementsOf(items, format, depth, before);
      SyntaxMeaning(items[0], format, depth);
      BlankGaps(format, depth);
      ElementsMeaningOf(items[1..], format, depth, ItemGap(format));
      assert es[1..] == ElementsOf(items[1..], format, depth, ItemGap(format));
      assert [items[0]] + items[1..] == items;
    }
  }

  lemma {:induction false} PairsMeaningOf(members: seq<Member>, format: bool, depth: nat)
    requires depth > 0
    requires forall k :: 0 <= k < |members| ==>
               NoRaw(members[k].value) && Printable(members[k].value) && NoNul(members[k].key)
    ensures ValidPairs(PairsOf(members, format, depth))
    ensures PairsMeaning(PairsOf(members, format, depth)) == members
    decreases members, 0
  {
    if members != [] {
      var ps := PairsOf(members, format, depth);
      assert ps[1..] == PairsOf(members[1..], format, depth);
      PairMeaningOf(members[0].key, format, depth, ps[0]);
      SyntaxMeaning(members[0].value, format, depth);
      PairsMeaningOf(members[1..], format, depth);
      assert [members[0]] + members[1..] == members;
    }
  }

  /** A member but for its value. */
  lemma PairMeaningOf(key: Bytes, format: bool, depth: nat, p: Pair)
    requires depth > 0 && NoNul(key) && p.before == NewLine(format) + Indent(format, depth)
    requires p.key == Strings.Escape(key) && p.colon == [] && p.gap == ValueGap(format)
    requires p.after == [] || p.after == NewLine(format) + Indent(format, depth - 1)
    ensures ValidPairHead(p) && AllBlank(p.after) && StringSyntax.BodyMeaning(p.key) == key
  {
    BlankGaps(format, depth);
    BlankGaps(format, depth - 1);
    BodyRoundTrip(key);
  }

  /** Printing a tree and parsing the text to its end gives the tree back, with the order of its
      members, exactly when the tree is nested no deeper than the parser allows. */
  lemma RoundTrip(j: Json, format: bool)
    requires NoRaw(j) && Printable(j)
    ensures Parsing.ParseText(Render(j, format, 0), true) == Parsing.Ok(j, End) <==> Depth(j) <= NESTING_LIMIT
  {
    var text := Render(j, format, 0);
    var d := Document(false, [], SyntaxOf(j, format, 0), []);
    SyntaxMeaning(j, format, 0);
    SyntaxText(j, format, 0);
    assert DocumentText(d) == text;
    Acceptance.Accepts(text, j);
  }
}
