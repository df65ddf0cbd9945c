/** An example of the printer's layout. */
module Layouts {
  import opened Octets
  import opened Characters
  import opened Json
  import opened Rendering
  import Numbers
  import Strings

  function Chars(s: string): (r: Bytes)
    requires forall k :: 0 <= k < |s| ==> s[k] < '\U{80}'
    ensures |r| == |s| && forall k :: 0 <= k < |s| ==> r[k] == s[k] as int
  {
    seq(|s|, k requires 0 <= k < |s| => Ascii(s[k]))
  }

  lemma ListLayout(depth: nat)
    ensures Render(Array([Number(1.0), Number(2.0)]), true, depth) == Chars("[1, 2]")
  {
    var items := [Number(1.0), Number(2.0)];
    assert items[1..] == [Number(2.0)];
    assert Render(items[0], true, depth + 1) == [49] && Render(items[1], true, depth + 1) == [50];
    assert RenderItems(items[1..], true, depth + 1) == [50];
  }

  lemma EmptyLayout()
    ensures Render(Object([]), true, 1) == Chars("{\n\t}")
  {
    assert Tabs(1) == [TAB];
  }

  lemma KeyLayout(b: Byte, c: char)
    requires 'a' <= c <= 'z' && b == c as int
    ensures RenderKey([b], true, 1) == Chars(['\t', '"', c, '"', ':', '\t'])
  {
    assert [b][1..] == [];
    assert Strings.Escape([b]) == Strings.EscapeMore([b]) == [b];
    assert Tabs(1) == [TAB];
  }

  lemma LastLine(members: seq<Member>, depth: nat)
    requires members == [Member([98], Object([]))] && depth == 1
    ensures RenderMembers(members, true, depth) == Chars("\t\"b\":\t{\n\t}\n")
  {
    EmptyLayout();
    KeyLayout(98, 'b');
    assert members[1..] == [];
    assert MemberEnd(false, true) == [NEWLINE];
    assert RenderMembers(members, true, depth) ==
           Chars(['\t', '"', 'b', '"', ':', '\t']) + (Chars("{\n\t}") + ([NEWLINE] + []));
  }

  lemma FirstLine(members: seq<Member>, depth: nat)
    requires |members| == 2 && members[0] == Member([97], Array([Number(1.0), Number(2.0)])) && depth == 1
    ensures RenderMembers(members, true, depth) ==
            Chars("\t\"a\":\t[1, 2],\n") + RenderMembers(members[1..], true, depth)
  {
    ListLayout(depth);
    KeyLayout(97, 'a');
    var rest := RenderMembers(members[1..], true, depth);
    assert MemberEnd(true, true) == [COMMA, NEWLINE];
    assert RenderMembers(members, true, depth) ==
           Chars(['\t', '"', 'a', '"', ':', '\t']) + (Chars("[1, 2]") + ([COMMA, NEWLINE] + rest));
    FirstPieces(rest);
  }

  lemma FirstPieces(rest: Bytes)
    ensures Chars(['\t', '"', 'a', '"', ':', '\t']) + (Chars("[1, 2]") + ([COMMA, NEWLINE] + rest)) ==
            Chars("\t\"a\":\t[1, 2],\n") + rest
  {
  }

  /** How a formatted tree is laid out, line by line: members on lines of their own, indented by tabs, elements in
      a row. */
  lemma Layout(depth: nat)
    requires depth == 0
    ensures var list := Array([Number(1.0), Number(2.0)]);
            var tree := Object([Member([97], list), Member([98], Object([]))]);
            Render(tree, true, depth) ==
            Chars("{\n") + (Chars("\t\"a\":\t[1, 2],\n") + Chars("\t\"b\":\t{\n\t}\n") + Chars("}"))
  {
    var members := [Member([97], Array([Number(1.0), Number(2.0)])), Member([98], Object([]))];
    assert members[1..] == [Member([98], Object([]))];
    FirstLine(members, depth + 1);
    LastLine(members[1..], depth + 1);
    assert [OPEN_BRACE] + NewLine(true) == Chars("{\n") && Indent(true, depth) + [CLOSE_BRACE] == Chars("}");
  }
}
