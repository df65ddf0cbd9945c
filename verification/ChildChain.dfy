/** The doubly linked list of an item's children, and the operations that edit it. */
module ChildChains {
  import opened Octets

  datatype Kind = Invalid | IsFalse | IsTrue | IsNull | IsNumber | IsString | IsRaw | IsArray | IsObject

  /** The fields of an item that are not links: its type with the two flags, its value and its name. */
  datatype Data = Data(kind: Kind, isReference: bool, stringIsConst: bool, valueint: int, valuedouble: real,
                       valuestring: Option<Bytes>, name: Option<Bytes>)

  /** `cJSON` */
  class Item {
    var next: Item?
    var prev: Item?
    var child: Item?
    var data: Data

    /** `cJSON_New_Item` */
    constructor ()
      ensures Loose(this) && child == null && data == Data(Invalid, false, false, 0, 0.0, None, None)
    {
      next, prev, child, data := null, null, null, Data(Invalid, false, false, 0, 0.0, None, None);
    }
  }

  function At(s: seq<Item>, i: int): Item? {
    if 0 <= i < |s| then s[i] else null
  }

  /** The items `s`, in this order, are the children of `parent`. */
  ghost predicate Chain(parent: Item, s: seq<Item>)
    reads parent`child, s`next, s`prev
  {
    && parent.child == At(s, 0) && Linked(s)
  }

  /** The items are different, the ends point nowhere, and neighbours point to each other. */
  ghost predicate Linked(s: seq<Item>)
    reads s`next, s`prev
  {
    && (s != [] ==> s[0].prev == null && s[|s| - 1].next == null)
    && (forall i, k :: 0 <= i < k < |s| ==>
          s[i] != s[k] && (k == i + 1 ==> s[i].next == s[k] && s[k].prev == s[i]))
  }

  lemma Neighbours(s: seq<Item>, i: nat)
    requires Linked(s) && i < |s|
    ensures s[i].prev == At(s, i - 1) && s[i].next == At(s, i + 1)
  {
  }

  /** An item that is in no list. */
  ghost predicate Loose(item: Item)
    reads item`next, item`prev
  {
    item.next == null && item.prev == null
  }

  function Owner(item: Item?): set<Item> {
    if item == null then {} else {item}
  }

  // ----- the same operations on sequences

  function Inserted<T>(s: seq<T>, which: int, x: T): seq<T> {
    if which < 0 then s
    else if which >= |s| then s + [x]
    else s[..which] + [x] + s[which..]
  }

  function Removed<T>(s: seq<T>, which: int): seq<T> {
    if 0 <= which < |s| then s[..which] + s[which + 1..] else s
  }

  function Replaced<T>(s: seq<T>, which: int, x: T): seq<T> {
    if 0 <= which < |s| then s[which := x] else s
  }

  // ----- as they run

  /** `get_array_item` */
  method GetArrayItem(parent: Item?, index: nat, ghost s: seq<Item>) returns (r: Item?)
    requires parent != null ==> Chain(parent, s)
    ensures r == if parent == null then null else At(s, index)
  {
    if parent == null {
      return null;
    }
    r := parent.child;
    var left := index;
    while r != null && left > 0
      invariant 0 <= left <= index && r == At(s, index - left)
      decreases left
    {
      left := left - 1;
      r := r.next;
    }
  }

  /** `suffix_object`, or the start of a new list. */
  method Append(parent: Item, last: Item?, item: Item, ghost s: seq<Item>, ghost s': seq<Item>)
    requires Chain(parent, s) && Loose(item) && item !in s && last == At(s, |s| - 1)
    requires |s'| == |s| + 1 && s'[|s|] == item && forall k :: 0 <= k < |s| ==> s'[k] == s[k]
    modifies parent`child, Owner(last)`next, item`prev
    ensures Chain(parent, s')
  {
    if last != null {
      last.next := item;
      item.prev := last;
    } else {
      parent.child := item;
    }
  }

  /** `add_item_to_array` */
  method AddItem(parent: Item?, item: Item?, ghost s: seq<Item>) returns (ok: bool)
    requires parent != null ==> Chain(parent, s)
    requires item != null ==> Loose(item) && item !in s
    modifies Owner(parent)`child, s`next, s`prev, Owner(item)`next, Owner(item)`prev
    ensures ok <==> parent != null && item != null
    ensures ok ==> Chain(parent, s + [item])
    ensures !ok && parent != null ==> Chain(parent, s)
    ensures !ok && item != null ==> Loose(item)
  {
    if item == null || parent == null {
      return false;
    }
    var child := parent.child;
    if child != null {
      ghost var i := 0;
      while child.next != null
        invariant 0 <= i < |s| && child == s[i] && Chain(parent, s) && Loose(item)
        decreases |s| - i
      {
        Neighbours(s, i);
        child, i := child.next, i + 1;
      }
      Neighbours(s, i);
    }
    Append(parent, child, item, s, s + [item]);
    return true;
  }

  /** `cJSON_InsertItemInArray` */
  method InsertItem(parent: Item?, which: int, item: Item, ghost s: seq<Item>)
    requires parent != null ==> Chain(parent, s)
    requires Loose(item) && item !in s
    modifies Owner(parent)`child, s`next, s`prev, item`next, item`prev
    ensures parent != null ==> Chain(parent, Inserted(s, which, item))
    ensures parent == null || which < 0 ==> Loose(item)
  {
    if which < 0 {
      return;
    }
    var after := GetArrayItem(parent, which, s);
    if after == null {
      var _ := AddItem(parent, item, s);
      return;
    }
    InsertedAt(s, which, item);
    LinkBefore(parent, after, item, s, which, Inserted(s, which, item));
  }

  lemma InsertedAt<T>(s: seq<T>, which: nat, x: T)
    requires which < |s|
    ensures IsInserted(s, which, x, Inserted(s, which, x))
  {
  }

  ghost predicate IsInserted<T>(s: seq<T>, which: nat, x: T, t: seq<T>) {
    && which < |s| && |t| == |s| + 1 && t[which] == x
    && (forall i :: 0 <= i < which ==> t[i] == s[i])
    && (forall i :: which < i < |t| ==> t[i] == s[i - 1])
  }

  /** The linking part of `cJSON_InsertItemInArray`. */
  method LinkBefore(parent: Item, after: Item, item: Item, ghost s: seq<Item>, ghost which: nat, ghost t: seq<Item>)
    requires Chain(parent, s) && Loose(item) && item !in s && which < |s| && after == s[which]
    requires IsInserted(s, which, item, t)
    modifies parent`child, s`next, s`prev, item`next, item`prev
    ensures Chain(parent, t)
  {
    Neighbours(s, which);
    item.next := after;
    item.prev := after.prev;
    after.prev := item;
    if after == parent.child {
      parent.child := item;
    } else {
      item.prev.next := item;
    }
  }

  /** `cJSON_DetachItemViaPointer` */
  method DetachItem(parent: Item?, item: Item?, ghost s: seq<Item>, ghost which: nat) returns (r: Item?)
    requires parent != null ==> Chain(parent, s)
    requires parent != null && item != null ==> which < |s| && item == s[which]
    modifies Owner(parent)`child, s`next, s`prev
    ensures r == if parent == null then null else item
    ensures r != null ==> Chain(parent, Removed(s, which)) && Loose(r) && r !in Removed(s, which)
    ensures r == null && parent != null ==> Chain(parent, s)
  {
    if parent == null || item == null {
      return null;
    }
    RemovedAt(s, which);
    Unlink(parent, item, s, which, Removed(s, which));
    return item;
  }

  lemma RemovedAt<T>(s: seq<T>, which: nat)
    requires which < |s|
    ensures IsRemoved(s, which, Removed(s, which))
  {
  }

  ghost predicate IsRemoved<T>(s: seq<T>, which: nat, t: seq<T>) {
    && which < |s| && |t| + 1 == |s|
    && (forall i :: 0 <= i < which ==> t[i] == s[i])
    && (forall i :: which <= i < |t| ==> t[i] == s[i + 1])
  }

  /** The unlinking part of `cJSON_DetachItemViaPointer`. */
  method Unlink(parent: Item, item: Item, ghost s: seq<Item>, ghost which: nat, ghost t: seq<Item>)
    requires Chain(parent, s) && which < |s| && item == s[which] && IsRemoved(s, which, t)
    modifies parent`child, s`next, s`prev
    ensures Chain(parent, t) && Loose(item) && item !in t
  {
    Neighbours(s, which);
    if item.prev != null {
      item.prev.next := item.next;
    }
    if item.next != null {
      item.next.prev := item.prev;
    }
    if item == parent.child {
      parent.child := item.next;
    }
    item.prev := null;
    item.next := null;
  }

  /** `cJSON_DetachItemFromArray` */
  method DetachItemAt(parent: Item?, which: int, ghost s: seq<Item>) returns (r: Item?)
    requires parent != null ==> Chain(parent, s)
    modifies Owner(parent)`child, s`next, s`prev
    ensures r == if parent == null then null else At(s, which)
    ensures parent != null ==> Chain(parent, Removed(s, which))
    ensures r != null ==> Loose(r) && r !in Removed(s, which)
  {
    if which < 0 {
      return null;
    }
    var item := GetArrayItem(parent, which, s);
    r := DetachItem(parent, item, s, which);
  }

  /** `cJSON_ReplaceItemViaPointer`. The old item is cut off from its siblings, so that deleting it
      leaves them alone. */
  method ReplaceItem(parent: Item?, item: Item?, replacement: Item?, ghost s: seq<Item>, ghost which: nat)
      returns (ok: bool)
    requires parent != null ==> Chain(parent, s)
    requires parent != null && item != null ==> which < |s| && item == s[which]
    requires replacement != null && replacement != item ==> Loose(replacement) && replacement !in s
    modifies Owner(parent)`child, s`next, s`prev, Owner(replacement)`next, Owner(replacement)`prev
    ensures ok <==> parent != null && item != null && replacement != null
    ensures ok ==> Chain(parent, Replaced(s, which, replacement)) && (item == replacement || Loose(item))
    ensures !ok && parent != null ==> Chain(parent, s)
    ensures !ok && replacement != null && replacement != item ==> Loose(replacement)
  {
    if parent == null || replacement == null || item == null {
      return false;
    }
    if replacement == item {
      return true;
    }
    Relink(parent, item, replacement, s, which, Replaced(s, which, replacement));
    return true;
  }

  /** The linking part of `cJSON_ReplaceItemViaPointer`. */
  method Relink(parent: Item, item: Item, replacement: Item, ghost s: seq<Item>, ghost which: nat, ghost t: seq<Item>)
    requires Chain(parent, s) && which < |s| && item == s[which]
    requires Loose(replacement) && replacement !in s
    requires |t| == |s| && t[which] == replacement && forall i :: 0 <= i < |t| && i != which ==> t[i] == s[i]
    modifies parent`child, s`next, s`prev, replacement`next, replacement`prev
    ensures Chain(parent, t) && Loose(item)
  {
    Neighbours(s, which);
    replacement.next := item.next;
    replacement.prev := item.prev;
    if replacement.next != null {
      replacement.next.prev := replacement;
    }
    if replacement.prev != null {
      replacement.prev.next := replacement;
    }
    if parent.child == item {
      parent.child := replacement;
    }
    item.next := null;
    item.prev := null;
  }

  /** `cJSON_ReplaceItemInArray` */
  method ReplaceItemAt(parent: Item?, which: int, item: Item?, ghost s: seq<Item>) returns (ghost old': Item?)
    requires parent != null ==> Chain(parent, s)
    requires item != null ==> Loose(item) && item !in s
    modifies Owner(parent)`child, s`next, s`prev, Owner(item)`next, Owner(item)`prev
    ensures old' == if parent == null then null else At(s, which)
    ensures parent != null ==> Chain(parent, if item == null then s else Replaced(s, which, item))
    ensures item != null ==> Loose(if old' == null then item else old')
  {
    if which < 0 {
      return null;
    }
    var found := GetArrayItem(parent, which, s);
    var _ := ReplaceItem(parent, found, item, s, which);
    old' := found;
  }

  // ----- whole runs

  datatype Edit =
    | Add(item: Item)
    | Insert(which: int, item: Item)
    | Detach(which: int)
    | Replace(which: int, item: Item)

  /** The children of one parent, and the items that are in no list. */
  datatype State = State(children: seq<Item>, loose: set<Item>)

  ghost function Members(st: State): set<Item> {
    (set x | x in st.children) + st.loose
  }

  /** A new item has to be one that is in no list. */
  ghost predicate Allowed(st: State, e: Edit) {
    e.Detach? || e.item in st.loose
  }

  /** What an edit does to the sequence of children; a replaced item is deleted. */
  ghost function After(st: State, e: Edit): State {
    match e
    case Add(x) => State(st.children + [x], st.loose - {x})
    case Insert(which, x) =>
      State(Inserted(st.children, which, x), if which < 0 then st.loose else st.loose - {x})
    case Detach(which) =>
      State(Removed(st.children, which), st.loose + Owner(At(st.children, which)))
    case Replace(which, x) =>
      State(Replaced(st.children, which, x), if 0 <= which < |st.children| then st.loose - {x} else st.loose)
  }

  ghost predicate AllAllowed(st: State, edits: seq<Edit>)
    decreases |edits|
  {
    edits == [] || (Allowed(st, edits[0]) && AllAllowed(After(st, edits[0]), edits[1..]))
  }

  ghost function AfterAll(st: State, edits: seq<Edit>): State
    decreases |edits|
  {
    if edits == [] then st else AfterAll(After(st, edits[0]), edits[1..])
  }

  ghost predicate Good(parent: Item, st: State)
    reads parent`child, Members(st)`next, Members(st)`prev
  {
    && Chain(parent, st.children)
    && forall x :: x in st.loose ==> Loose(x) && x !in st.children
  }

  lemma InsertedElements(s: seq<Item>, which: int, x: Item)
    ensures forall y :: y in Inserted(s, which, x) ==> y in s || (y == x && which >= 0)
  {
  }

  lemma RemovedElements(s: seq<Item>, which: int)
    requires forall i, k :: 0 <= i < k < |s| ==> s[i] != s[k]
    ensures forall y :: y in Removed(s, which) ==> y in s && y != At(s, which)
  {
  }

  lemma ReplacedElements(s: seq<Item>, which: int, x: Item)
    ensures forall y :: y in Replaced(s, which, x) ==> y in s || (y == x && 0 <= which < |s|)
  {
  }

  /** No edit makes an item appear from nowhere or leaves one both in the list and out of it. */
  lemma AfterMembers(st: State, e: Edit)
    requires Allowed(st, e) && forall i, k :: 0 <= i < k < |st.children| ==> st.children[i] != st.children[k]
    requires forall x :: x in st.loose ==> x !in st.children
    ensures Members(After(st, e)) <= Members(st)
    ensures forall x :: x in After(st, e).loose ==> x !in After(st, e).children
  {
    match e
    case Add(x) =>
    case Insert(which, x) => InsertedElements(st.children, which, x);
    case Detach(which) => RemovedElements(st.children, which);
    case Replace(which, x) => ReplacedElements(st.children, which, x);
  }

  method Apply(parent: Item, e: Edit, ghost st: State)
    requires Good(parent, st) && Allowed(st, e)
    modifies parent`child, Members(st)`next, Members(st)`prev
    ensures Good(parent, After(st, e)) && Members(After(st, e)) <= Members(st)
  {
    AfterMembers(st, e);
    if e.Add? {
      ApplyAdd(parent, e, st);
    } else if e.Insert? {
      ApplyInsert(parent, e, st);
    } else if e.Detach? {
      ApplyDetach(parent, e, st);
    } else {
      ApplyReplace(parent, e, st);
    }
  }

  method ApplyAdd(parent: Item, e: Edit, ghost st: State)
    requires e.Add? && Good(parent, st) && Allowed(st, e)
    requires forall x :: x in After(st, e).loose ==> x !in After(st, e).children
    modifies parent`child, Members(st)`next, Members(st)`prev
    ensures Good(parent, After(st, e))
  {
    var _ := AddItem(parent, e.item, st.children);
  }

  method ApplyInsert(parent: Item, e: Edit, ghost st: State)
    requires e.Insert? && Good(parent, st) && Allowed(st, e)
    requires forall x :: x in After(st, e).loose ==> x !in After(st, e).children
    modifies parent`child, Members(st)`next, Members(st)`prev
    ensures Good(parent, After(st, e))
  {
    InsertItem(parent, e.which, e.item, st.children);
  }

  method ApplyDetach(parent: Item, e: Edit, ghost st: State)
    requires e.Detach? && Good(parent, st)
    requires forall x :: x in After(st, e).loose ==> x !in After(st, e).children
    modifies parent`child, Members(st)`next, Members(st)`prev
    ensures Good(parent, After(st, e))
  {
    ghost var loose := After(st, e).loose;
    var _ := DetachItemAt(parent, e.which, st.children);
    assert forall y :: y in loose ==> Loose(y);
  }

  method ApplyReplace(parent: Item, e: Edit, ghost st: State)
    requires e.Replace? && Good(parent, st) && Allowed(st, e)
    requires forall x :: x in After(st, e).loose ==> x !in After(st, e).children
    modifies parent`child, Members(st)`next, Members(st)`prev
    ensures Good(parent, After(st, e))
  {
    ghost var loose := After(st, e).loose;
    ghost var _ := ReplaceItemAt(parent, e.which, e.item, st.children);
    assert forall y :: y in loose ==> Loose(y);
  }

  /** Every run of edits leaves a well-formed list of what the same edits make of the sequence. */
  method Run(parent: Item, edits: seq<Edit>, ghost start: State)
    requires Good(parent, start) && AllAllowed(start, edits)
    modifies parent`child, Members(start)`next, Members(start)`prev
    ensures Good(parent, AfterAll(start, edits))
  {
    ghost var st := start;
    for i := 0 to |edits|
      invariant Good(parent, st) && Members(st) <= Members(start)
      invariant AllAllowed(st, edits[i..]) && AfterAll(st, edits[i..]) == AfterAll(start, edits)
    {
      assert edits[i..][1..] == edits[i + 1..];
      Apply(parent, edits[i], st);
      st := After(st, edits[i]);
    }
  }
}
