/** The argument names the D-Bus code generator invents, and the two places that use them by position. */
module ArgNames {

  /** An argument of a D-Bus method: its name, which may be empty, and the C++ type it gets. */
  datatype Argument = Argument(name: string, cppType: string)

  function Digits(n: nat): string {
    if n < 10 then ["0123456789"[n]] else Digits(n / 10) + ["0123456789"[n % 10]]
  }

  /** The number a decimal text stands for. */
  function NumberOf(s: string): int {
    if s == "" then 0 else 10 * NumberOf(s[..|s| - 1]) + (s[|s| - 1] as int - '0' as int)
  }

  /** A number in a name is written in decimal, without leading zeros. */
  lemma {:induction false} DigitsDecimal(n: nat)
    ensures NumberOf(Digits(n)) == n && Digits(n) != "" && (n > 0 ==> Digits(n)[0] != '0')
    ensures forall k :: 0 <= k < |Digits(n)| ==> '0' <= Digits(n)[k] <= '9'
  {
    assert forall d :: 0 <= d < 10 ==> "0123456789"[d] as int == '0' as int + d;
    if n >= 10 {
      DigitsDecimal(n / 10);
      var s := Digits(n);
      assert s[..|s| - 1] == Digits(n / 10);
    } else {
      assert Digits(n)[..0] == "";
    }
  }

  /** `name.replace(u'-', u'_')` */
  function Dashless(s: string): (r: string)
    ensures |r| == |s| && forall k :: 0 <= k < |s| ==> r[k] == if s[k] == '-' then '_' else s[k]
  {
    seq(|s|, k requires 0 <= k < |s| => if s[k] == '-' then '_' else s[k])
  }

  /** The name an argument would have if no other had it. */
  function Base(arg: Argument, prefix: string, i: nat): string {
    if arg.name == "" then prefix + Digits(i) else Dashless(arg.name)
  }

  function Bases(args: seq<Argument>, prefix: string): (r: seq<string>)
    ensures |r| == |args| && forall i :: 0 <= i < |args| ==> r[i] == Base(args[i], prefix, i)
  {
    seq(|args|, i requires 0 <= i < |args| => Base(args[i], prefix, i))
  }

  function Underscores(n: nat): (r: string)
    ensures |r| == n
  {
    if n == 0 then "" else Underscores(n - 1) + "_"
  }

  /** `name` is `base` with the fewest underscores behind it that make it a new one. */
  ghost predicate Fresh(used: seq<string>, base: string, name: string) {
    exists k: nat :: IsFresh(used, base, name, k)
  }

  ghost predicate IsFresh(used: seq<string>, base: string, name: string, k: nat) {
    && name == base + Underscores(k) && name !in used
    && forall j: nat :: j < k ==> base + Underscores(j) in used
  }

  /** Each name is a fresh one behind those before it. */
  ghost predicate Named(names: seq<string>, bases: seq<string>) {
    |names| == |bases| && forall i :: 0 <= i < |names| ==> Fresh(names[..i], bases[i], names[i])
  }

  lemma NamedDistinct(names: seq<string>, bases: seq<string>)
    requires Named(names, bases)
    ensures forall i, k :: 0 <= i < k < |names| ==> names[i] != names[k]
  {
    forall i, k | 0 <= i < k < |names|
      ensures names[i] != names[k]
    {
      assert Fresh(names[..k], bases[k], names[k]);
      assert names[..k][i] == names[i];
    }
  }

  lemma FreshOnce(used: seq<string>, base: string, x: string, y: string)
    requires Fresh(used, base, x) && Fresh(used, base, y)
    ensures x == y
  {
    var k: nat :| IsFresh(used, base, x, k);
    var m: nat :| IsFresh(used, base, y, m);
    assert !(k < m) && !(m < k);
  }

  /** There is only one way to name the arguments. */
  lemma {:induction false} NamedOnce(a: seq<string>, b: seq<string>, bases: seq<string>, n: nat)
    requires Named(a, bases) && Named(b, bases) && n <= |bases|
    ensures a[..n] == b[..n]
  {
    if n > 0 {
      var i := n - 1;
      NamedOnce(a, b, bases, i);
      assert Fresh(a[..i], bases[i], a[i]) && Fresh(b[..i], bases[i], b[i]);
      assert a[i] == b[i] by { FreshOnce(a[..i], bases[i], a[i], b[i]); }
      TakeMore(a, b, i);
    }
  }

  lemma TakeMore(a: seq<string>, b: seq<string>, i: nat)
    requires i < |a| && i < |b| && a[..i] == b[..i] && a[i] == b[i]
    ensures a[..i + 1] == b[..i + 1]
  {
    assert a[..i + 1] == a[..i] + [a[i]] && b[..i + 1] == b[..i] + [b[i]];
  }

  function MaxLength(names: seq<string>): (r: nat)
    ensures forall n :: n in names ==> |n| <= r
  {
    if names == [] then 0
    else
      var rest := MaxLength(names[1..]);
      if |names[0]| > rest then |names[0]| else rest
  }

  /** `while (retval.contains(name)) name += "_"`: a name that is longer than all the others is a new one. */
  method MakeFresh(used: seq<string>, base: string) returns (name: string)
    ensures Fresh(used, base, name)
  {
    name := base;
    ghost var k: nat := 0;
    while name in used
      invariant name == base + Underscores(k)
      invariant forall j: nat :: j < k ==> base + Underscores(j) in used
      decreases MaxLength(used) + 1 - |name|
    {
      assert base + Underscores(k) + "_" == base + (Underscores(k) + "_");
      name := name + "_";
      k := k + 1;
    }
    assert IsFresh(used, base, name, k);
  }

  /** One of the two loops of `makeArgNames`, behind the names there are already. */
  method NameAll(args: seq<Argument>, prefix: string, done: seq<string>, ghost bases: seq<string>)
      returns (names: seq<string>)
    requires Named(done, bases)
    ensures Named(names, bases + Bases(args, prefix))
  {
    names := done;
    ghost var all := bases + Bases(args, prefix);
    for i := 0 to |args|
      invariant |names| == |done| + i
      invariant Named(names, all[..|done| + i])
    {
      var name := if args[i].name == "" then prefix + Digits(i) else Dashless(args[i].name);
      name := MakeFresh(names, name);
      NamedMore(names, all[..|done| + i], Bases(args, prefix)[i], name);
      assert all[..|done| + i + 1] == all[..|done| + i] + [Bases(args, prefix)[i]];
      names := names + [name];
    }
    assert all[..|all|] == all;
  }

  lemma NamedMore(names: seq<string>, bases: seq<string>, base: string, name: string)
    requires Named(names, bases) && Fresh(names, base, name)
    ensures Named(names + [name], bases + [base])
  {
    var names', bases' := names + [name], bases + [base];
    forall i | 0 <= i < |names'|
      ensures Fresh(names'[..i], bases'[i], names'[i])
    {
      if i < |names| {
        assert names'[..i] == names[..i];
      } else {
        assert names'[..i] == names;
      }
    }
  }

  /** `makeArgNames` */
  method MakeArgNames(ins: seq<Argument>, outs: seq<Argument>) returns (names: seq<string>)
    ensures Named(names, Bases(ins, "in") + Bases(outs, "out"))
    ensures |names| == |ins| + |outs| && forall i, k :: 0 <= i < k < |names| ==> names[i] != names[k]
  {
    names := NameAll(ins, "in", [], []);
    assert [] + Bases(ins, "in") == Bases(ins, "in");
    names := NameAll(outs, "out", names, Bases(ins, "in"));
    NamedDistinct(names, Bases(ins, "in") + Bases(outs, "out"));
  }

  // ----- the generated method

  /** A declared parameter: its C++ type and its name. */
  datatype Param = Param(declared: string, name: string)

  /** `constRefArg` */
  function ConstRef(t: string): string {
    if t == "" || t[0] != 'Q' then t + " " else "const " + t + " &"
  }

  /** `nonConstRefArg` */
  function NonConstRef(t: string): string {
    t + " &"
  }

  /** The parameter that is declared at place `k`. */
  function ParamAt(ins: seq<Argument>, outs: seq<Argument>, names: seq<string>, k: nat): Param
    requires |names| == |ins| + |outs| && (k < |ins| || k + 1 < |names|)
  {
    if k < |ins| then Param(ConstRef(ins[k].cppType), names[k])
    else Param(NonConstRef(outs[k - |ins| + 1].cppType), names[k + 1])
  }

  /** The first `n` parameters: all inputs, and the outputs but the first, which is the returned value. */
  function Params(ins: seq<Argument>, outs: seq<Argument>, names: seq<string>, n: nat): (r: seq<Param>)
    requires |names| == |ins| + |outs| && (n <= |ins| || n < |names|)
    ensures |r| == n && forall k :: 0 <= k < n ==> r[k] == ParamAt(ins, outs, names, k)
  {
    if n == 0 then [] else Params(ins, outs, names, n - 1) + [ParamAt(ins, outs, names, n - 1)]
  }

  function ParamCount(ins: seq<Argument>, outs: seq<Argument>): nat {
    |ins| + (if |outs| == 0 then 0 else |outs| - 1)
  }

  lemma ParamsDistinct(ins: seq<Argument>, outs: seq<Argument>, names: seq<string>)
    requires |names| == |ins| + |outs| && forall i, k :: 0 <= i < k < |names| ==> names[i] != names[k]
    ensures var params := Params(ins, outs, names, ParamCount(ins, outs));
            forall i, k :: 0 <= i < k < |params| ==> params[i].name != params[k].name
  {
    var params := Params(ins, outs, names, ParamCount(ins, outs));
    forall i, k | 0 <= i < k < |params|
      ensures params[i].name != params[k].name
    {
      assert params[i].name == names[if i < |ins| then i else i + 1];
      assert params[k].name == names[if k < |ins| then k else k + 1];
    }
  }

  function Piece(p: Param, first: bool): string {
    (if first then "" else ", ") + p.declared + p.name
  }

  /** The text of a parameter list. */
  function Text(params: seq<Param>): string {
    if params == [] then ""
    else Text(params[..|params| - 1]) + Piece(params[|params| - 1], |params| == 1)
  }

  /** The text of the first `n` parameters. */
  function TextTo(ins: seq<Argument>, outs: seq<Argument>, names: seq<string>, n: nat): string
    requires |names| == |ins| + |outs| && (n <= |ins| || n < |names|)
    decreases n, 0
  {
    if n == 0 then "" else TextWith(ins, outs, names, n - 1)
  }

  /** The same with the next parameter. */
  function TextWith(ins: seq<Argument>, outs: seq<Argument>, names: seq<string>, n: nat): string
    requires |names| == |ins| + |outs| && (n < |ins| || n + 1 < |names|)
    decreases n, 1
  {
    TextTo(ins, outs, names, n) + Piece(ParamAt(ins, outs, names, n), n == 0)
  }

  lemma TextMore(params: seq<Param>, p: Param)
    ensures Text(params + [p]) == Text(params) + Piece(p, params == [])
  {
    assert (params + [p])[..|params|] == params;
  }

  lemma {:induction false} TextOfParams(ins: seq<Argument>, outs: seq<Argument>, names: seq<string>, n: nat)
    requires |names| == |ins| + |outs| && (n <= |ins| || n < |names|)
    ensures Text(Params(ins, outs, names, n)) == TextTo(ins, outs, names, n)
  {
    if n > 0 {
      TextOfParams(ins, outs, names, n - 1);
      TextMore(Params(ins, outs, names, n - 1), ParamAt(ins, outs, names, n - 1));
    }
  }

  lemma TextOfOutput(ins: seq<Argument>, outs: seq<Argument>, names: seq<string>, i: nat)
    requires |names| == |ins| + |outs| && 1 <= i < |outs|
    ensures TextTo(ins, outs, names, |ins| + i) ==
            TextTo(ins, outs, names, |ins| + i - 1)
            + Piece(Param(NonConstRef(outs[i].cppType), names[|ins| + i]), |ins| + i == 1)
  {
    assert TextTo(ins, outs, names, |ins| + i) == TextWith(ins, outs, names, |ins| + i - 1);
    assert ParamAt(ins, outs, names, |ins| + i - 1) == Param(NonConstRef(outs[i].cppType), names[|ins| + i]);
  }

  // ----- reading a parameter list

  /** How a compiler reads the declaration of an input: types of Qt by constant reference, others by value. */
  function InputText(t: string, name: string): string {
    if StartsWithQ(t) then "const " + t + " &" + name else t + " " + name
  }

  predicate StartsWithQ(t: string) {
    t != "" && t[0] == 'Q'
  }

  function OutputText(t: string, name: string): string {
    t + " &" + name
  }

  /** The declarations a generated method should have. */
  function Declarations(ins: seq<Argument>, outs: seq<Argument>, names: seq<string>): (r: seq<string>)
    requires |names| == |ins| + |outs|
    ensures |r| == ParamCount(ins, outs)
  {
    seq(ParamCount(ins, outs), k requires 0 <= k < ParamCount(ins, outs) =>
      if k < |ins| then InputText(ins[k].cppType, names[k])
      else OutputText(outs[k - |ins| + 1].cppType, names[k + 1]))
  }

  function Joined(parts: seq<string>): string {
    if parts == [] then "" else if |parts| == 1 then parts[0] else parts[0] + ", " + Joined(parts[1..])
  }

  predicate NoComma(s: string) {
    forall k :: 0 <= k < |s| ==> s[k] != ','
  }

  /** The place of the last `", "` that starts before `n`. */
  function LastSeparator(text: string, n: nat): (r: int)
    requires n <= |text|
    ensures -1 <= r < n && (r >= 0 ==> text[r..] != [] && r + 2 <= |text|)
  {
    if n == 0 then -1
    else if n < |text| && text[n - 1..n + 1] == ", " then n - 1
    else LastSeparator(text, n - 1)
  }

  /** What stands between the separators of a text. */
  function Parts(text: string): seq<string>
    decreases |text|
  {
    var k := LastSeparator(text, |text|);
    if k < 0 then [text] else Parts(text[..k]) + [text[k + 2..]]
  }

  lemma {:induction false} NoSeparator(text: string, start: nat, n: nat)
    requires start <= n <= |text| && forall k :: start <= k < n ==> text[k] != ','
    ensures LastSeparator(text, n) == LastSeparator(text, start)
    decreases n
  {
    if start < n {
      assert n < |text| ==> text[n - 1..n + 1][0] == text[n - 1];
      NoSeparator(text, start, n - 1);
    }
  }

  lemma PartsMore(before: string, piece: string)
    requires NoComma(piece)
    ensures Parts(before + ", " + piece) == Parts(before) + [piece]
  {
    var text, k := before + ", " + piece, |before|;
    assert text[k + 1] == ' ' && text[k + 2..] == piece && text[..k] == before && text[k..k + 2] == ", ";
    forall i | k + 1 <= i < |text|
      ensures text[i] != ','
    {
      assert i > k + 1 ==> text[i] == piece[i - k - 2];
    }
    NoSeparator(text, k + 1, |text|);
  }

  lemma PartsOne(piece: string)
    requires NoComma(piece)
    ensures Parts(piece) == [piece]
  {
    NoSeparator(piece, 0, |piece|);
  }

  lemma {:induction false} JoinedMore(parts: seq<string>, piece: string)
    requires parts != []
    ensures Joined(parts + [piece]) == Joined(parts) + ", " + piece
    decreases |parts|
  {
    var all := parts + [piece];
    assert all[1..] == parts[1..] + [piece];
    if |parts| == 1 {
      assert parts[1..] == [];
    } else {
      JoinedMore(parts[1..], piece);
      JoinedBehind(parts[0], Joined(parts[1..]), piece);
    }
  }

  lemma JoinedBehind(a: string, b: string, piece: string)
    ensures a + ", " + (b + ", " + piece) == a + ", " + b + ", " + piece
  {
  }

  /** Pieces with a separator in front of each but the first make up a joined text, and splitting the text gives
      the parts back when there is no comma in them. */
  lemma {:induction false} TextJoined(params: seq<Param>, parts: seq<string>)
    requires |parts| == |params| && forall k :: 0 <= k < |params| ==> parts[k] == params[k].declared + params[k].name
    ensures Text(params) == Joined(parts)
    ensures parts != [] && (forall k :: 0 <= k < |parts| ==> NoComma(parts[k])) ==> Parts(Text(params)) == parts
    decreases |params|
  {
    if params != [] {
      var n := |params| - 1;
      var p := params[n].declared + params[n].name;
      TextJoined(params[..n], parts[..n]);
      assert parts == parts[..n] + [p];
      if n == 0 {
        assert parts == [p] && Text(params[..0]) == "" && "" + Piece(params[0], true) == p;
        if NoComma(p) {
          PartsOne(p);
        }
      } else {
        assert Text(params) == Text(params[..n]) + ", " + p by { PieceBehind(Text(params[..n]), params[n]); }
        JoinedMore(parts[..n], p);
        if NoComma(p) {
          PartsMore(Text(params[..n]), p);
        }
      }
    }
  }

  lemma PieceBehind(before: string, p: Param)
    ensures before + Piece(p, false) == before + ", " + (p.declared + p.name)
  {
  }

  function Texts(params: seq<Param>): (r: seq<string>)
    ensures |r| == |params| && forall k :: 0 <= k < |params| ==> r[k] == params[k].declared + params[k].name
  {
    seq(|params|, k requires 0 <= k < |params| => params[k].declared + params[k].name)
  }

  /** The parameters are declared as a compiler should read them. */
  lemma Declared(ins: seq<Argument>, outs: seq<Argument>, names: seq<string>, params: seq<Param>)
    requires |names| == |ins| + |outs| && params == Params(ins, outs, names, ParamCount(ins, outs))
    ensures var parts := Declarations(ins, outs, names);
            && Texts(params) == parts && Text(params) == Joined(parts)
            && (parts != [] && (forall k :: 0 <= k < |parts| ==> NoComma(parts[k])) ==> Parts(Text(params)) == parts)
  {
    var parts := Declarations(ins, outs, names);
    forall k | 0 <= k < |params|
      ensures parts[k] == params[k].declared + params[k].name
    {
      DeclaredAt(ins, outs, names, k);
    }
    TextJoined(params, parts);
  }

  lemma DeclaredAt(ins: seq<Argument>, outs: seq<Argument>, names: seq<string>, k: nat)
    requires |names| == |ins| + |outs| && k < ParamCount(ins, outs)
    ensures var p := ParamAt(ins, outs, names, k);
            Declarations(ins, outs, names)[k] == p.declared + p.name
  {
  }

  // ----- writing it

  /** `writeArgList`: the text of the parameter list. */
  method WriteArgList(ins: seq<Argument>, outs: seq<Argument>, names: seq<string>) returns (text: string)
    requires |names| == |ins| + |outs|
    ensures text == Text(Params(ins, outs, names, ParamCount(ins, outs)))
    ensures text == Joined(Declarations(ins, outs, names))
  {
    Declared(ins, outs, names, Params(ins, outs, names, ParamCount(ins, outs)));
    text := "";
    var first, argPos := true, 0;
    for i := 0 to |ins|
      invariant argPos == i && first == (i == 0) && text == TextTo(ins, outs, names, i)
    {
      text := text + Piece(Param(ConstRef(ins[i].cppType), names[argPos]), first);
      argPos, first := argPos + 1, false;
    }
    argPos := argPos + 1;
    text := WriteOutputs(ins, outs, names, argPos, first, text);
    TextOfParams(ins, outs, names, ParamCount(ins, outs));
  }

  /** One round of the second loop of `writeArgList`. */
  method WriteOutput(ghost ins: seq<Argument>, outs: seq<Argument>, names: seq<string>, i: nat, argPos: nat,
                     first: bool, before: string)
      returns (text: string)
    requires |names| == |ins| + |outs| && 1 <= i < |outs| && argPos == |ins| + i && first == (argPos == 1)
    requires before == TextTo(ins, outs, names, argPos - 1)
    ensures text == TextTo(ins, outs, names, argPos)
  {
    TextOfOutput(ins, outs, names, i);
    text := before + Piece(Param(NonConstRef(outs[i].cppType), names[argPos]), first);
  }

  /** The second loop of `writeArgList`, which starts from 1. */
  method WriteOutputs(ghost ins: seq<Argument>, outs: seq<Argument>, names: seq<string>, start: nat, empty: bool,
                      before: string)
      returns (text: string)
    requires |names| == |ins| + |outs| && start == |ins| + 1 && empty == (|ins| == 0)
    requires before == TextTo(ins, outs, names, |ins|)
    ensures text == TextTo(ins, outs, names, ParamCount(ins, outs))
  {
    text := before;
    var first, argPos := empty, start;
    var i := 1;
    while i < |outs|
      invariant 1 <= i && argPos == |ins| + i <= ParamCount(ins, outs) + 1
      invariant first == (argPos == 1) && text == TextTo(ins, outs, names, argPos - 1)
    {
      text := WriteOutput(ins, outs, names, i, argPos, first, text);
      argPos, first, i := argPos + 1, false, i + 1;
    }
    assert argPos - 1 == ParamCount(ins, outs);
  }

  /** A statement of the generated body: the parameter `name` is set from the reply's argument `index`. */
  datatype Assignment = Assignment(name: string, index: nat)

  /** The loops of `writeProxy` over the generated body: the arguments that are sent, and what is assigned from
      the reply. */
  method WriteBody(ins: seq<Argument>, outs: seq<Argument>, names: seq<string>)
      returns (sent: seq<string>, received: seq<Assignment>)
    requires |outs| > 1 && |names| == |ins| + |outs|
    ensures sent == names[..|ins|]
    ensures |received| == |outs| - 1
    ensures forall i :: 0 <= i < |received| ==> received[i] == Assignment(names[|ins| + 1 + i], 1 + i)
  {
    sent, received := [], [];
    var argPos := 0;
    if ins != [] {
      while argPos < |ins|
        invariant 0 <= argPos <= |ins| && sent == names[..argPos]
      {
        sent := sent + [names[argPos]];
        argPos := argPos + 1;
      }
    }
    argPos := argPos + 1;
    for i := 1 to |outs|
      invariant argPos == |ins| + i && |received| == i - 1
      invariant forall k :: 0 <= k < |received| ==> received[k] == Assignment(names[|ins| + 1 + k], 1 + k)
    {
      received := received + [Assignment(names[argPos], i)];
      argPos := argPos + 1;
    }
  }

  /** Input `i` is sent as the parameter that is declared for it. */
  predicate SendsInputs(ins: seq<Argument>, params: seq<Param>, sent: seq<string>) {
    && |sent| == |ins| <= |params|
    && forall i :: 0 <= i < |ins| ==>
      sent[i] == params[i].name && Texts(params)[i] == InputText(ins[i].cppType, sent[i])
  }

  /** Output `i` is assigned to the parameter that is declared for it, from its part of the reply. */
  predicate AssignsOutputs(ins: seq<Argument>, outs: seq<Argument>, params: seq<Param>, received: seq<Assignment>) {
    && |received| == |outs| - 1 && |params| == |ins| + |outs| - 1
    && forall i :: 1 <= i < |outs| ==>
      && received[i - 1] == Assignment(params[|ins| + i - 1].name, i)
      && Texts(params)[|ins| + i - 1] == OutputText(outs[i].cppType, received[i - 1].name)
  }

  lemma Sends(ins: seq<Argument>, outs: seq<Argument>, names: seq<string>, sent: seq<string>)
    requires |outs| > 1 && |names| == |ins| + |outs| && sent == names[..|ins|]
    ensures SendsInputs(ins, Params(ins, outs, names, ParamCount(ins, outs)), sent)
  {
    forall i | 0 <= i < |ins|
      ensures Texts(Params(ins, outs, names, ParamCount(ins, outs)))[i] == InputText(ins[i].cppType, sent[i])
    {
      DeclaredAt(ins, outs, names, i);
    }
  }

  lemma Assigns(ins: seq<Argument>, outs: seq<Argument>, names: seq<string>, received: seq<Assignment>)
    requires |outs| > 1 && |names| == |ins| + |outs| && |received| == |outs| - 1
    requires forall i :: 0 <= i < |received| ==> received[i] == Assignment(names[|ins| + 1 + i], 1 + i)
    ensures AssignsOutputs(ins, outs, Params(ins, outs, names, ParamCount(ins, outs)), received)
  {
    forall i | 1 <= i < |outs|
      ensures Texts(Params(ins, outs, names, ParamCount(ins, outs)))[|ins| + i - 1]
           == OutputText(outs[i].cppType, received[i - 1].name)
    {
      DeclaredAt(ins, outs, names, |ins| + i - 1);
    }
  }

  /** The old-form method with several results: the arguments are sent in their order, and the parameter
      declared for an output is the only one with its name and the one that gets that part of the reply. */
  method WriteMethod(ins: seq<Argument>, outs: seq<Argument>)
      returns (text: string, params: seq<Param>, sent: seq<string>, received: seq<Assignment>)
    requires |outs| > 1
    ensures text == Joined(Texts(params))
    ensures forall i, k :: 0 <= i < k < |params| ==> params[i].name != params[k].name
    ensures SendsInputs(ins, params, sent) && AssignsOutputs(ins, outs, params, received)
  {
    var names := MakeArgNames(ins, outs);
    params := Params(ins, outs, names, ParamCount(ins, outs));
    text := WriteArgList(ins, outs, names);
    sent, received := WriteBody(ins, outs, names);
    ParamsDistinct(ins, outs, names);
    assert text == Joined(Texts(params)) by { Declared(ins, outs, names, params); }
    assert SendsInputs(ins, params, sent) by { Sends(ins, outs, names, sent); }
    assert AssignsOutputs(ins, outs, params, received) by { Assigns(ins, outs, names, received); }
  }
}
