/** The nested namespaces the D-Bus code generator writes around its aliases. */
module Namespaces {

  /** An interface: its dotted name and the class that was generated for it. */
  datatype Interface = Interface(name: string, className: string)

  /** `name.split(u'.')` */
  function Split(s: string): (r: seq<string>)
    ensures r != []
  {
    if s == "" then [""]
    else
      var rest := Split(s[1..]);
      if s[0] == '.' then [""] + rest else [[s[0]] + rest[0]] + rest[1..]
  }

  /** All parts of the name but the last one. */
  function Path(x: Interface): seq<string> {
    var parts := Split(x.name);
    parts[..|parts| - 1]
  }

  function Last(x: Interface): string {
    var parts := Split(x.name);
    parts[|parts| - 1]
  }

  function Dotted(parts: seq<string>): string
    requires parts != []
  {
    if |parts| == 1 then parts[0] else parts[0] + "." + Dotted(parts[1..])
  }

  /** The parts of a name are the name, and none of them has a dot. */
  lemma {:induction false} SplitParts(s: string)
    ensures Dotted(Split(s)) == s && forall k :: 0 <= k < |Split(s)| ==> '.' !in Split(s)[k]
  {
    if s != "" {
      var rest := Split(s[1..]);
      SplitParts(s[1..]);
      assert s == [s[0]] + s[1..];
      if s[0] == '.' {
        assert Split(s)[1..] == rest;
        assert "" + "." + Dotted(rest) == s;
      } else {
        assert Split(s)[1..] == rest[1..];
        if |rest| > 1 {
          assert [s[0]] + rest[0] + "." + Dotted(rest[1..]) == [s[0]] + (rest[0] + "." + Dotted(rest[1..]));
        }
      }
    }
  }

  /** The path of an interface and its last part make up its name. */
  lemma PathAndLast(x: Interface)
    ensures Dotted(Path(x) + [Last(x)]) == x.name
  {
    SplitParts(x.name);
    assert Path(x) + [Last(x)] == Split(x.name);
  }

  /** A line of the generated header. */
  datatype Line =
    | Open(indent: nat, namespace: string)
    | Close(indent: nat)
    | Using(indent: nat, alias: string, className: string)

  // ----- what the lines mean

  /** A namespace that is open, and where its line starts. */
  datatype Scope = Scope(namespace: string, indent: nat)

  /** An alias, the path of namespaces around it, and where its line starts. */
  datatype Alias = Alias(path: seq<string>, indent: nat, name: string, className: string)

  datatype Reading = Unbalanced | Reading(scopes: seq<Scope>, aliases: seq<Alias>)

  function PathOf(scopes: seq<Scope>): (r: seq<string>)
    ensures |r| == |scopes| && forall k :: 0 <= k < |r| ==> r[k] == scopes[k].namespace
  {
    seq(|scopes|, k requires 0 <= k < |scopes| => scopes[k].namespace)
  }

  /** One line: a closing brace must have a namespace to close, and the indentation of its opening line. */
  function ReadLine(r: Reading, line: Line): Reading {
    if r.Unbalanced? then r
    else
      match line
      case Open(indent, ns) => Reading(r.scopes + [Scope(ns, indent)], r.aliases)
      case Close(indent) =>
        var n := |r.scopes|;
        if n > 0 && r.scopes[n - 1].indent == indent then Reading(r.scopes[..n - 1], r.aliases) else Unbalanced
      case Using(indent, name, className) =>
        Reading(r.scopes, r.aliases + [Alias(PathOf(r.scopes), indent, name, className)])
  }

  function Read(r: Reading, lines: seq<Line>): Reading {
    if lines == [] then r else ReadLine(Read(r, lines[..|lines| - 1]), lines[|lines| - 1])
  }

  lemma ReadMore(r: Reading, lines: seq<Line>, line: Line)
    ensures Read(r, lines + [line]) == ReadLine(Read(r, lines), line)
  {
    assert (lines + [line])[..|lines|] == lines;
  }

  /** The scopes of a path that was written with two blanks for each level. */
  function Scopes(path: seq<string>): (r: seq<Scope>)
    ensures |r| == |path| && forall k :: 0 <= k < |r| ==> r[k] == Scope(path[k], 2 * k)
  {
    seq(|path|, k requires 0 <= k < |path| => Scope(path[k], 2 * k))
  }

  /** What has been written so far leaves exactly the namespaces of `path` open. */
  ghost predicate Stands(lines: seq<Line>, path: seq<string>, aliases: seq<Alias>) {
    Read(Reading([], []), lines) == Reading(Scopes(path), aliases)
  }

  /** The aliases of the first `n` interfaces; one without a last part gets none. */
  function Aliases(interfaces: seq<Interface>, n: nat): seq<Alias>
    requires n <= |interfaces|
  {
    if n == 0 then []
    else
      var x := interfaces[n - 1];
      Aliases(interfaces, n - 1) + (if Last(x) == "" then [] else [Alias(Path(x), 2 * |Path(x)|, Last(x), x.className)])
  }

  // ----- as it runs

  /** How many parts two paths have in common. */
  method CommonParts(current: seq<string>, last: seq<string>) returns (i: nat)
    ensures i <= |current| && i <= |last| && current[..i] == last[..i]
    ensures i < |current| && i < |last| ==> current[i] != last[i]
  {
    i := 0;
    while i < |current| && i < |last| && current[i] == last[i]
      invariant i <= |current| && i <= |last| && current[..i] == last[..i]
    {
      i := i + 1;
    }
  }

  method CloseScopes(last: seq<string>, i: nat, before: seq<Line>, ghost aliases: seq<Alias>) returns (lines: seq<Line>)
    requires i <= |last| && Stands(before, last, aliases)
    ensures Stands(lines, last[..i], aliases) && |lines| == |before| + |last| - i
  {
    lines := before;
    assert last[..|last|] == last;
    for j := i to |last|
      invariant |lines| == |before| + j - i && Stands(lines, last[..|last| - j + i], aliases)
    {
      var line := Close(2 * (|last| - j - 1 + i));
      CloseOne(lines, last[..|last| - j + i], aliases);
      assert last[..|last| - j + i][..|last| - j + i - 1] == last[..|last| - j - 1 + i];
      lines := lines + [line];
    }
  }

  lemma CloseOne(lines: seq<Line>, path: seq<string>, aliases: seq<Alias>)
    requires path != [] && Stands(lines, path, aliases)
    ensures Stands(lines + [Close(2 * (|path| - 1))], path[..|path| - 1], aliases)
  {
    ReadMore(Reading([], []), lines, Close(2 * (|path| - 1)));
    assert Scopes(path)[..|path| - 1] == Scopes(path[..|path| - 1]);
  }

  lemma OpenOne(lines: seq<Line>, path: seq<string>, aliases: seq<Alias>, ns: string)
    requires Stands(lines, path, aliases)
    ensures Stands(lines + [Open(2 * |path|, ns)], path + [ns], aliases)
  {
    ReadMore(Reading([], []), lines, Open(2 * |path|, ns));
    assert Scopes(path) + [Scope(ns, 2 * |path|)] == Scopes(path + [ns]);
  }

  lemma UseOne(lines: seq<Line>, path: seq<string>, aliases: seq<Alias>, name: string, className: string, indent: nat)
    requires Stands(lines, path, aliases)
    ensures Stands(lines + [Using(indent, name, className)], path, aliases + [Alias(path, indent, name, className)])
  {
    ReadMore(Reading([], []), lines, Using(indent, name, className));
    assert PathOf(Scopes(path)) == path;
  }

  method OpenScopes(current: seq<string>, i: nat, before: seq<Line>, ghost aliases: seq<Alias>)
      returns (lines: seq<Line>)
    requires i <= |current| && Stands(before, current[..i], aliases)
    ensures Stands(lines, current, aliases) && |lines| == |before| + |current| - i
  {
    lines := before;
    for j := i to |current|
      invariant |lines| == |before| + j - i && Stands(lines, current[..j], aliases)
    {
      OpenOne(lines, current[..j], aliases, current[j]);
      assert current[..j] + [current[j]] == current[..j + 1];
      lines := lines + [Open(2 * j, current[j])];
    }
    assert current[..|current|] == current;
  }

  /** From the path of one interface to that of the next: no more is closed and opened than has to be. */
  method MoveTo(current: seq<string>, last: seq<string>, before: seq<Line>, ghost aliases: seq<Alias>)
      returns (lines: seq<Line>, i: nat)
    requires Stands(before, last, aliases)
    ensures Stands(lines, current, aliases)
    ensures i <= |current| && i <= |last| && current[..i] == last[..i]
    ensures i < |current| && i < |last| ==> current[i] != last[i]
    ensures |lines| == |before| + (|last| - i) + (|current| - i)
  {
    i := CommonParts(current, last);
    lines := CloseScopes(last, i, before, aliases);
    lines := OpenScopes(current, i, lines, aliases);
  }

  /** The namespace loop of `writeProxy`: the lines are balanced, each closing brace stands under its opening
      line, every alias is inside exactly its own namespaces, and nothing stays open. */
  method WriteNamespaces(interfaces: seq<Interface>) returns (lines: seq<Line>)
    ensures Read(Reading([], []), lines) == Reading([], Aliases(interfaces, |interfaces|))
  {
    lines := [];
    var last: seq<string> := [];
    var it := 0;
    var i: nat;
    while it < |interfaces|
      invariant 0 <= it <= |interfaces| && Stands(lines, last, Aliases(interfaces, it))
      decreases |interfaces| - it
    {
      var x := interfaces[it];
      var current, name := Path(x), Last(x);
      lines, i := MoveTo(current, last, lines, Aliases(interfaces, it));
      if name != "" {
        UseOne(lines, current, Aliases(interfaces, it), name, x.className, 2 * |current|);
        lines := lines + [Using(2 * |current|, name, x.className)];
      } else {
        assert Aliases(interfaces, it) + [] == Aliases(interfaces, it);
      }
      it, last := it + 1, current;
    }
    lines, i := MoveTo([], last, lines, Aliases(interfaces, it));
  }
}
