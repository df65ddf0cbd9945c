/** `cJSON_Duplicate` on the heap. */
module Duplicating {
  import opened Octets
  import opened ChildChains
  import opened Json
  import Comparing

  /** An item, all items below it, and its children with those below them. */
  datatype Tree = Tree(root: Item, below: set<Item>, children: seq<Tree>)

  /** What a tree of items holds. */
  datatype Content = Content(data: Data, children: seq<Content>)

  ghost function Nodes(t: Tree): set<Item> {
    {t.root} + t.below
  }

  ghost function Roots(ts: seq<Tree>): (r: seq<Item>)
    ensures |r| == |ts| && forall k :: 0 <= k < |ts| ==> r[k] == ts[k].root
  {
    seq(|ts|, k requires 0 <= k < |ts| => ts[k].root)
  }

  /** The items of `t` are linked as `t` says and hold `c`. The same item may be reached on two ways, as
      through a reference. */
  ghost predicate Represents(t: Tree, c: Content)
    reads t.root`child, t.root`data, t.below`child, t.below`data, t.below`next, t.below`prev
    decreases t, 1
  {
    t.root.data == c.data && Hang(t.root, t.children, c.children, t.below)
  }

  /** The trees `ts`, all made of the items `below`, are the children of `parent`. */
  ghost predicate Hang(parent: Item, ts: seq<Tree>, cs: seq<Content>, below: set<Item>)
    reads parent`child, below`child, below`data, below`next, below`prev
    decreases ts, 0
  {
    && |ts| == |cs|
    && (forall k :: 0 <= k < |ts| ==>
          ts[k].root in below && ts[k].below <= below && Represents(ts[k], cs[k]))
    && Chain(parent, Roots(ts))
  }

  /** No item is reached twice. */
  ghost predicate Separate(t: Tree)
    decreases t, 1
  {
    t.root !in t.below && Apart(t.children)
  }

  ghost predicate Apart(ts: seq<Tree>)
    decreases ts, 0
  {
    && (forall k :: 0 <= k < |ts| ==> Separate(ts[k]))
    && (forall i, k :: 0 <= i < k < |ts| ==> Nodes(ts[i]) !! Nodes(ts[k]))
  }

  /** The same content without references. */
  function Owned(c: Content): (r: Content)
    ensures |r.children| == |c.children| && r.data == c.data.(isReference := false)
    ensures forall k :: 0 <= k < |c.children| ==> r.children[k] == Owned(c.children[k])
    decreases c
  {
    Content(c.data.(isReference := false),
            seq(|c.children|, k requires 0 <= k < |c.children| => Owned(c.children[k])))
  }

  /** Links and data are as before. */
  twostate predicate AsBefore(x: Item)
    reads x
  {
    x.child == old(x.child) && x.data == old(x.data) && x.prev == old(x.prev) && x.next == old(x.next)
  }

  twostate lemma Kept(t: Tree, new c: Content)
    requires old(Represents(t, c)) && t.root.child == old(t.root.child) && t.root.data == old(t.root.data)
    requires forall x :: x in t.below ==> AsBefore(x)
    ensures Represents(t, c)
  {
  }

  twostate lemma AllKept(t: Tree, new cs: seq<Content>)
    requires |t.children| == |cs| && forall x :: x in t.below ==> AsBefore(x)
    requires forall k :: 0 <= k < |cs| ==>
      && old(Represents(t.children[k], cs[k])) && t.children[k].below <= t.below
      && t.children[k].root.child == old(t.children[k].root.child)
      && t.children[k].root.data == old(t.children[k].root.data)
    ensures forall k :: 0 <= k < |cs| ==> Represents(t.children[k], cs[k])
  {
    forall k | 0 <= k < |cs|
      ensures Represents(t.children[k], cs[k])
    {
      Kept(t.children[k], cs[k]);
    }
  }

  /** The root of the last tree is in none of them. */
  lemma LastOutside(ts: seq<Tree>, below: set<Item>)
    requires Apart(ts) && forall k :: 0 <= k < |ts| ==> ts[k].below <= below
    ensures forall k :: 0 <= k < |ts| ==> ts[k].below <= below - {ts[|ts| - 1].root}
  {
    forall k, x | 0 <= k < |ts| && x in ts[k].below
      ensures x != ts[|ts| - 1].root
    {
      var n := |ts| - 1;
      assert ts[n].root in Nodes(ts[n]) && x in Nodes(ts[k]) && Separate(ts[k]);
    }
  }

  lemma TakeMore(cs: seq<Content>, i: nat)
    requires i < |cs|
    ensures cs[..i + 1] == cs[..i] + [cs[i]]
  {
  }

  lemma ApartMore(ts: seq<Tree>, t: Tree, below: set<Item>)
    requires Apart(ts) && (forall k :: 0 <= k < |ts| ==> ts[k].root in below && ts[k].below <= below)
    requires Separate(t) && Nodes(t) !! below
    ensures Apart(ts + [t])
  {
  }

  lemma RootsMore(ts: seq<Tree>, t: Tree, below: set<Item>)
    requires (forall k :: 0 <= k < |ts| ==> ts[k].root in below) && t.root !in below
    ensures var s, s' := Roots(ts), Roots(ts + [t]);
            && t.root !in s && s'[|s|] == t.root
            && (forall k :: 0 <= k < |s| ==> s'[k] == s[k] && s[k] in below)
  {
  }

  lemma {:induction false} HangMore(parent: Item, ts: seq<Tree>, cs: seq<Content>, below: set<Item>, t: Tree,
                                    c: Content)
    requires |ts| == |cs| && Represents(t, c)
    requires forall k :: 0 <= k < |ts| ==> ts[k].root in below && ts[k].below <= below && Represents(ts[k], cs[k])
    requires Chain(parent, Roots(ts + [t]))
    ensures Hang(parent, ts + [t], cs + [c], below + Nodes(t))
  {
    var ts', cs' := ts + [t], cs + [c];
    forall k | 0 <= k < |ts'|
      ensures Represents(ts'[k], cs'[k])
    {
      assert k < |ts| ==> ts'[k] == ts[k] && cs'[k] == cs[k];
    }
  }

  /** The copy of one more child is put behind those of its elder siblings. */
  method Attach(parent: Item, last: Item?, item: Item, ghost ts: seq<Tree>, ghost cs: seq<Content>,
                ghost below: set<Item>, ghost t: Tree, ghost c: Content)
    requires Hang(parent, ts, cs, below) && Apart(ts) && parent !in below && last == At(Roots(ts), |ts| - 1)
    requires item == t.root && Loose(item) && Represents(t, c) && Separate(t)
    requires parent !in Nodes(t) && Nodes(t) !! below
    modifies parent`child, below`next, item`prev
    ensures Hang(parent, ts + [t], cs + [c], below + Nodes(t)) && Apart(ts + [t])
  {
    RootsMore(ts, t, below);
    LastOutside(ts, below);
    ApartMore(ts, t, below);
    Append(parent, last, item, Roots(ts), Roots(ts + [t]));
    AllKept(Tree(parent, below - Owner(last), ts), cs);
    Kept(t, c);
    HangMore(parent, ts, cs, below, t, c);
  }

  /** `cJSON_strdup` of a string that may be missing. */
  method CopyString(s: Option<Bytes>) returns (ok: bool, r: Option<Bytes>)
    ensures ok ==> r == s
  {
    if s.None? {
      return true, None;
    }
    ok := *;
    r := s;
  }

  /** The part of `cJSON_Duplicate` that makes the new item. */
  method CopyItem(item: Item) returns (copy: Item?)
    ensures copy != null ==> fresh(copy) && Loose(copy) && copy.child == null
    ensures copy != null ==> copy.data == item.data.(isReference := false)
  {
    var failed: bool := *;
    if failed {
      return null;
    }
    copy := new Item();
    var ok, valuestring := CopyString(item.data.valuestring);
    if !ok {
      return null;
    }
    var name := item.data.name;
    if !item.data.stringIsConst {
      ok, name := CopyString(item.data.name);
      if !ok {
        return null;
      }
    }
    copy.data := item.data.(isReference := false, valuestring := valuestring, name := name);
  }

  /** `cJSON_Duplicate`: an independent copy of the item or of the whole tree. It fails only when an
      allocation fails. */
  method Duplicate(item: Item?, recurse: bool, ghost t: Tree, ghost c: Content)
      returns (copy: Item?, ghost ct: Tree, ghost exhausted: bool)
    requires item != null ==> item == t.root && Represents(t, c)
    ensures copy == null <==> item == null || exhausted
    ensures copy != null ==> ct.root == copy && Loose(copy) && Separate(ct) && fresh(Nodes(ct))
    ensures copy != null ==> Represents(ct, Owned(if recurse then c else Content(c.data, [])))
    decreases t, 1
  {
    ct := t;
    if item == null {
      return null, ct, false;
    }
    copy := CopyItem(item);
    if copy == null {
      return null, ct, true;
    }
    exhausted := false;
    if !recurse {
      ct := Tree(copy, {}, []);
      return;
    }
    var ok: bool;
    ok, ct := DuplicateChildren(item, copy, t, c);
    if !ok {
      return null, ct, true;
    }
  }

  lemma WholeTree(t: Tree, c: Content)
    requires t.root.data == c.data && Hang(t.root, t.children, c.children, t.below)
    requires Apart(t.children) && t.root !in t.below
    ensures Separate(t) && Represents(t, c)
  {
  }

  /** Where the loop over the children is after `i` of them. */
  lemma ChildAt(t: Tree, c: Content, i: nat)
    requires Represents(t, c) && i <= |t.children|
    ensures |t.children| == |c.children|
    ensures i == 0 ==> t.root.child == At(Roots(t.children), 0)
    ensures i > 0 ==> t.children[i - 1].root.next == At(Roots(t.children), i)
    ensures i > 0 ==> t.children[i - 1].root in t.below
  {
  }

  /** The loop of `cJSON_Duplicate`. */
  method DuplicateChildren(item: Item, copy: Item, ghost t: Tree, ghost c: Content) returns (ok: bool, ghost ct: Tree)
    requires item == t.root && Represents(t, c) && copy !in Nodes(t) && copy.child == null
    requires copy.data == c.data.(isReference := false)
    modifies copy`child
    ensures ok ==> ct.root == copy && Separate(ct) && fresh(ct.below) && Represents(ct, Owned(c))
    decreases t, 0, 1
  {
    ghost var ts: seq<Tree>, below: set<Item>, cs := [], {}, Owned(c).children;
    var child, last, i := item.child, null, 0;
    ChildAt(t, c, 0);
    assert |cs| == |t.children|;
    while child != null
      invariant 0 <= i == |ts| <= |t.children| && child == At(Roots(t.children), i)
      invariant last == At(Roots(ts), |ts| - 1) && fresh(below)
      invariant Hang(copy, ts, cs[..i], below) && Apart(ts) && copy !in below
      invariant Represents(t, c)
      decreases |t.children| - i
    {
      var newChild;
      newChild, child, ts, below := DuplicateChild(child, copy, last, t, c, i, ts, below);
      if newChild == null {
        return false, t;
      }
      last, i := newChild, i + 1;
    }
    assert cs[..i] == cs;
    ok, ct := true, Tree(copy, below, ts);
    WholeTree(ct, Owned(c));
  }

  /** One round of that loop, with the step to the next child. */
  method DuplicateChild(child: Item, copy: Item, last: Item?, ghost t: Tree, ghost c: Content, ghost i: nat,
                        ghost ts: seq<Tree>, ghost below: set<Item>)
      returns (newChild: Item?, next: Item?, ghost ts': seq<Tree>, ghost below': set<Item>)
    requires Represents(t, c) && i == |ts| < |t.children| == |c.children|
    requires child == t.children[i].root && copy !in Nodes(t)
    requires last == At(Roots(ts), |ts| - 1) && Nodes(t) !! below
    requires Hang(copy, ts, Owned(c).children[..i], below) && Apart(ts) && copy !in below
    modifies copy`child, below`next
    ensures next == At(Roots(t.children), i + 1)
    ensures newChild != null ==>
      && |ts'| == i + 1 && newChild == At(Roots(ts'), i) && below <= below' && fresh(below' - below)
      && Hang(copy, ts', Owned(c).children[..i + 1], below') && Apart(ts') && copy !in below'
    decreases t, 0, 0
  {
    ghost var nt, exhausted;
    ChildAt(t, c, i + 1);
    next := child.next;
    newChild, nt, exhausted := Duplicate(child, true, t.children[i], c.children[i]);
    if newChild == null {
      return null, next, ts, below;
    }
    ghost var cs := Owned(c).children;
    Attach(copy, last, newChild, ts, cs[..i], below, nt, cs[i]);
    TakeMore(cs, i);
    ts', below' := ts + [nt], below + Nodes(nt);
  }

  // ----- comparing a copy

  /** Every item has a type, and the strings that type and place call for. */
  predicate Complete(c: Content)
    decreases c
  {
    match c.data.kind
    case Invalid => false
    case IsString => c.data.valuestring.Some?
    case IsRaw => c.data.valuestring.Some?
    case IsArray => forall k :: 0 <= k < |c.children| ==> Complete(c.children[k])
    case IsObject => forall k :: 0 <= k < |c.children| ==> Complete(c.children[k]) && c.children[k].data.name.Some?
    case _ => true
  }

  /** The value a tree of items stands for. */
  function JsonOf(c: Content): Json
    requires Complete(c)
    decreases c
  {
    match c.data.kind
    case IsFalse => False
    case IsTrue => True
    case IsNull => Null
    case IsNumber => Number(c.data.valuedouble)
    case IsString => String(c.data.valuestring.value)
    case IsRaw => Raw(c.data.valuestring.value)
    case IsArray => Array(seq(|c.children|, k requires 0 <= k < |c.children| => JsonOf(c.children[k])))
    case IsObject =>
      Object(seq(|c.children|, k requires 0 <= k < |c.children| =>
               Member(c.children[k].data.name.value, JsonOf(c.children[k]))))
  }

  lemma {:induction false} OwnedValue(c: Content)
    ensures Complete(Owned(c)) <==> Complete(c)
    ensures Complete(c) ==> JsonOf(Owned(c)) == JsonOf(c)
    decreases c
  {
    forall k | 0 <= k < |c.children|
      ensures Complete(Owned(c).children[k]) <==> Complete(c.children[k])
      ensures Complete(c.children[k]) ==> JsonOf(Owned(c).children[k]) == JsonOf(c.children[k])
    {
      OwnedValue(c.children[k]);
    }
  }

  /** A copy compares equal to its source exactly when the source is proper. */
  lemma CopyComparesEqual(c: Content, caseSensitive: bool)
    requires Complete(c)
    ensures Complete(Owned(c))
    ensures Comparing.Equal(JsonOf(c), JsonOf(Owned(c)), caseSensitive) <==> Comparing.Proper(JsonOf(c), caseSensitive)
  {
    OwnedValue(c);
    Comparing.PartialEquivalence(JsonOf(c), JsonOf(c), JsonOf(c), caseSensitive);
  }

  /** The copy of an object with a null member does not compare equal to its source. */
  lemma NullMemberCopy(name: Bytes, caseSensitive: bool)
    ensures var c := Content(Data(IsObject, false, false, 0, 0.0, None, None),
                             [Content(Data(IsNull, false, false, 0, 0.0, None, Some(name)), [])]);
            && Complete(c) && Complete(Owned(c))
            && !Comparing.Equal(JsonOf(c), JsonOf(Owned(c)), caseSensitive)
  {
    var member := Content(Data(IsNull, false, false, 0, 0.0, None, Some(name)), []);
    var c := Content(Data(IsObject, false, false, 0, 0.0, None, None), [member]);
    assert Complete(c);
    assert JsonOf(c).members[0].value == Null;
    CopyComparesEqual(c, caseSensitive);
  }
}
