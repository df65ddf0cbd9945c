/** `cJSON_Compare` on items, some of which both trees may reach: an item is equal to itself, whatever it
    holds. */
module ItemComparing {
  import opened Octets
  import opened Json
  import opened ChildChains
  import opened Duplicating
  import Comparing

  /** An item with what it holds and what hangs below it. */
  datatype Node = Node(item: Item, data: Data, children: seq<Node>)

  ghost function Height(n: Node): nat
    decreases n, 1
  {
    1 + Heights(n.children)
  }

  ghost function Heights(ns: seq<Node>): nat
    decreases ns, 0
  {
    if ns == [] then 0 else Max(Height(ns[0]), Heights(ns[1..]))
  }

  lemma {:induction false} ChildHeight(ns: seq<Node>, k: nat)
    requires k < |ns|
    ensures Height(ns[k]) <= Heights(ns)
  {
    if k > 0 {
      ChildHeight(ns[1..], k - 1);
    }
  }

  /** The folded key of a member; a missing name has none. */
  ghost function KeyOf(n: Node, caseSensitive: bool): Option<Bytes> {
    if n.data.name.Some? then Some(Comparing.Fold(n.data.name.value, caseSensitive)) else None
  }

  /** The first member with the folded key `k`, or the number of members. */
  ghost function FirstAt(ns: seq<Node>, k: Option<Bytes>, caseSensitive: bool): (i: nat)
    ensures i <= |ns| && (i < |ns| ==> KeyOf(ns[i], caseSensitive) == k)
    ensures forall n :: 0 <= n < i ==> KeyOf(ns[n], caseSensitive) != k
  {
    if ns == [] then 0
    else if KeyOf(ns[0], caseSensitive) == k then 0
    else 1 + FirstAt(ns[1..], k, caseSensitive)
  }

  /** `cJSON_Compare` on two items of the same heap. */
  ghost predicate Same(a: Node, b: Node, caseSensitive: bool)
    decreases Height(a) + Height(b), 1
  {
    && a.data.kind == b.data.kind && !a.data.kind.Invalid?
    && (a.item == b.item || SameContent(a, b, caseSensitive))
  }

  ghost predicate SameContent(a: Node, b: Node, caseSensitive: bool)
    decreases Height(a) + Height(b), 0
  {
    match a.data.kind
    case IsNumber => a.data.valuedouble == b.data.valuedouble
    case IsString => a.data.valuestring.Some? && a.data.valuestring == b.data.valuestring
    case IsRaw => a.data.valuestring.Some? && a.data.valuestring == b.data.valuestring
    case IsArray =>
      |a.children| == |b.children| && forall k :: 0 <= k < |a.children| ==>
        (ChildHeight(a.children, k); ChildHeight(b.children, k); Same(a.children[k], b.children[k], caseSensitive))
    case IsObject => AllFound(a.children, b.children, caseSensitive) && AllFound(b.children, a.children, caseSensitive)
    case _ => true
  }

  ghost predicate AllFound(ms: seq<Node>, ns: seq<Node>, caseSensitive: bool)
    decreases Heights(ms) + Heights(ns), 3
  {
    forall k :: 0 <= k < |ms| ==> (ChildHeight(ms, k); Found(ms[k], ns, caseSensitive))
  }

  /** `get_object_item` hides a null member, unless its type carries a flag. */
  predicate Hidden(d: Data) {
    d.kind.IsNull? && !d.isReference && !d.stringIsConst
  }

  /** `get_object_item` finds a partner that is not hidden, and it is the same. */
  ghost predicate Found(m: Node, ns: seq<Node>, caseSensitive: bool)
    decreases Height(m) + Heights(ns), 2
  {
    var i := FirstAt(ns, KeyOf(m, caseSensitive), caseSensitive);
    && m.data.name.Some? && i < |ns| && !Hidden(ns[i].data)
    && (ChildHeight(ns, i); Same(m, ns[i], caseSensitive))
  }

  // ----- an equivalence

  lemma {:induction false} SameSymmetric(a: Node, b: Node, caseSensitive: bool)
    ensures Same(a, b, caseSensitive) <==> Same(b, a, caseSensitive)
    decreases Height(a) + Height(b)
  {
    if a.data.kind == b.data.kind && a.data.kind.IsArray? && |a.children| == |b.children| {
      forall k | 0 <= k < |a.children|
        ensures Same(a.children[k], b.children[k], caseSensitive) <==> Same(b.children[k], a.children[k], caseSensitive)
      {
        ChildHeight(a.children, k);
        ChildHeight(b.children, k);
        SameSymmetric(a.children[k], b.children[k], caseSensitive);
      }
    }
  }

  predicate IsContainer(n: Node) {
    n.data.kind.IsArray? || n.data.kind.IsObject?
  }

  /** All nodes of a tree. */
  ghost function Below(n: Node): set<Node>
    decreases n, 1
  {
    {n} + (if IsContainer(n) then AllBelow(n.children) else {})
  }

  ghost function AllBelow(ns: seq<Node>): set<Node>
    decreases ns, 0
  {
    if ns == [] then {} else Below(ns[0]) + AllBelow(ns[1..])
  }

  lemma {:induction false} BelowChild(ns: seq<Node>, k: nat)
    requires k < |ns|
    ensures Below(ns[k]) <= AllBelow(ns)
  {
    if k > 0 {
      BelowChild(ns[1..], k - 1);
    }
  }

  /** An item that both trees reach is the same node in both. */
  ghost predicate Agree(a: Node, b: Node) {
    forall x, y :: x in Below(a) && y in Below(b) && x.item == y.item ==> x == y
  }

  lemma AgreeBelow(a: Node, b: Node, i: nat, k: nat)
    requires Agree(a, b) && IsContainer(a) && IsContainer(b) && i < |a.children| && k < |b.children|
    ensures Agree(a.children[i], b.children[k])
  {
    BelowChild(a.children, i);
    BelowChild(b.children, k);
  }

  lemma {:induction false} SameTransitive(a: Node, b: Node, c: Node, caseSensitive: bool)
    requires Agree(a, b) && Agree(b, c)
    requires Same(a, b, caseSensitive) && Same(b, c, caseSensitive)
    ensures Same(a, c, caseSensitive)
    decreases Height(a) + Height(b) + Height(c)
  {
    if a.item != b.item && b.item != c.item {
      match a.data.kind
      case IsArray =>
        forall k | 0 <= k < |a.children|
          ensures Same(a.children[k], c.children[k], caseSensitive)
        {
          TransitiveBelow(a, b, c, k, k, k, caseSensitive);
        }
      case IsObject =>
        AllFoundTransitive(a, b, c, caseSensitive);
        SameSymmetric(a, b, caseSensitive);
        AllFoundTransitive(c, b, a, caseSensitive);
      case _ =>
    } else {
      assert a.item == b.item ==> a == b;
      assert b.item == c.item ==> b == c;
    }
  }

  lemma TransitiveBelow(a: Node, b: Node, c: Node, i: nat, j: nat, k: nat, caseSensitive: bool)
    requires Agree(a, b) && Agree(b, c) && IsContainer(a) && IsContainer(b) && IsContainer(c)
    requires i < |a.children| && j < |b.children| && k < |c.children|
    requires Same(a.children[i], b.children[j], caseSensitive) && Same(b.children[j], c.children[k], caseSensitive)
    ensures Same(a.children[i], c.children[k], caseSensitive)
    decreases Height(a) + Height(b) + Height(c), 0
  {
    AgreeBelow(a, b, i, j);
    AgreeBelow(b, c, j, k);
    ChildHeight(a.children, i);
    ChildHeight(b.children, j);
    ChildHeight(c.children, k);
    SameTransitive(a.children[i], b.children[j], c.children[k], caseSensitive);
  }

  lemma AllFoundTransitive(a: Node, b: Node, c: Node, caseSensitive: bool)
    requires Agree(a, b) && Agree(b, c) && IsContainer(a) && IsContainer(b) && IsContainer(c)
    requires AllFound(a.children, b.children, caseSensitive) && AllFound(b.children, c.children, caseSensitive)
    ensures AllFound(a.children, c.children, caseSensitive)
    decreases Height(a) + Height(b) + Height(c), 1
  {
    forall k | 0 <= k < |a.children|
      ensures Found(a.children[k], c.children, caseSensitive)
    {
      assert Found(a.children[k], b.children, caseSensitive);
      var j := FirstAt(b.children, KeyOf(a.children[k], caseSensitive), caseSensitive);
      assert Found(b.children[j], c.children, caseSensitive);
      var i := FirstAt(c.children, KeyOf(b.children[j], caseSensitive), caseSensitive);
      TransitiveBelow(a, b, c, k, j, i, caseSensitive);
    }
  }

  // ----- what sharing changes

  ghost function ContentOf(n: Node): (c: Content)
    ensures c.data == n.data && |c.children| == |n.children|
    ensures forall k :: 0 <= k < |n.children| ==> c.children[k] == ContentOf(n.children[k])
  {
    Content(n.data, seq(|n.children|, k requires 0 <= k < |n.children| => ContentOf(n.children[k])))
  }

  /** Every item has a type, and the strings that type and place call for. */
  ghost predicate Whole(n: Node) {
    Complete(ContentOf(n))
  }

  /** The value a node stands for. */
  ghost function ValueAt(n: Node): Json
    requires Whole(n)
  {
    JsonOf(ContentOf(n))
  }

  ghost predicate AllWhole(ns: seq<Node>) {
    forall k :: 0 <= k < |ns| ==> Whole(ns[k]) && ns[k].data.name.Some?
  }

  ghost function MembersAt(ns: seq<Node>): (r: seq<Member>)
    requires AllWhole(ns)
    ensures |r| == |ns| && forall k :: 0 <= k < |ns| ==> r[k] == Member(ns[k].data.name.value, ValueAt(ns[k]))
  {
    seq(|ns|, k requires 0 <= k < |ns| => Member(ns[k].data.name.value, ValueAt(ns[k])))
  }

  lemma ObjectValue(n: Node)
    requires Whole(n) && n.data.kind.IsObject?
    ensures AllWhole(n.children) && ValueAt(n) == Object(MembersAt(n.children))
  {
  }

  lemma ArrayValue(n: Node)
    requires Whole(n) && n.data.kind.IsArray?
    ensures ValueAt(n).Array? && |ValueAt(n).items| == |n.children|
    ensures forall k :: 0 <= k < |n.children| ==> Whole(n.children[k]) && ValueAt(n).items[k] == ValueAt(n.children[k])
  {
  }

  /** Looking a key up among members gives the place it gives among nodes. */
  lemma FirstMember(ns: seq<Node>, key: Bytes, caseSensitive: bool)
    requires AllWhole(ns)
    ensures Comparing.FirstAt(MembersAt(ns), key, caseSensitive) == FirstAt(ns, Some(key), caseSensitive)
  {
    var i, j := Comparing.FirstAt(MembersAt(ns), key, caseSensitive), FirstAt(ns, Some(key), caseSensitive);
    assert i < |ns| ==> KeyOf(ns[i], caseSensitive) == Some(key);
    assert j < |ns| ==> Comparing.Fold(MembersAt(ns)[j].key, caseSensitive) == key;
  }

  /** The place of a key in the table of an object. */
  lemma TableEntry(ns: seq<Node>, key: Bytes, caseSensitive: bool)
    requires AllWhole(ns)
    ensures var t, i := Comparing.TableOf(MembersAt(ns), caseSensitive), FirstAt(ns, Some(key), caseSensitive);
            (key in t <==> i < |ns|) && (key in t ==> t[key] == Meant(ns[i], caseSensitive))
  {
    FirstMember(ns, key, caseSensitive);
    Comparing.TableAt(MembersAt(ns), key, caseSensitive);
  }

  /** The value of a node without the order and the spelling of its keys. */
  ghost function Meant(n: Node, caseSensitive: bool): Comparing.Value
    requires Whole(n)
  {
    Comparing.ValueOf(ValueAt(n), caseSensitive)
  }

  /** Every member of an object can be looked up: the first member with its key is not hidden and has the
      same value. */
  ghost predicate Sound(c: Content, caseSensitive: bool)
    requires Complete(c)
    decreases c
  {
    match c.data.kind
    case IsArray => forall k :: 0 <= k < |c.children| ==> Sound(c.children[k], caseSensitive)
    case IsObject =>
      var ms := JsonOf(c).members;
      forall k :: 0 <= k < |c.children| ==>
        && Sound(c.children[k], caseSensitive)
        && var i := Comparing.FirstAt(ms, Comparing.Fold(ms[k].key, caseSensitive), caseSensitive);
           && i < |ms| && !Hidden(c.children[i].data)
           && Comparing.ValueOf(ms[i].value, caseSensitive) == Comparing.ValueOf(ms[k].value, caseSensitive)
    case _ => true
  }

  ghost predicate SoundAt(n: Node, caseSensitive: bool) {
    Whole(n) && Sound(ContentOf(n), caseSensitive)
  }

  /** The first member with the key of member `k` is not hidden and has its value. */
  ghost predicate Reachable(ns: seq<Node>, k: nat, caseSensitive: bool)
    requires AllWhole(ns) && k < |ns|
  {
    var i := FirstAt(ns, KeyOf(ns[k], caseSensitive), caseSensitive);
    i < |ns| && !Hidden(ns[i].data) && Meant(ns[i], caseSensitive) == Meant(ns[k], caseSensitive)
  }

  lemma SoundObject(n: Node, caseSensitive: bool)
    requires n.data.kind.IsObject?
    ensures SoundAt(n, caseSensitive) <==>
            && AllWhole(n.children)
            && forall k :: 0 <= k < |n.children| ==>
                 SoundAt(n.children[k], caseSensitive) && Reachable(n.children, k, caseSensitive)
  {
    if AllWhole(n.children) {
      assert Whole(n);
      ObjectValue(n);
      var ns, ms := n.children, MembersAt(n.children);
      forall k | 0 <= k < |ns|
        ensures Comparing.FirstAt(ms, Comparing.Fold(ms[k].key, caseSensitive), caseSensitive) ==
                FirstAt(ns, KeyOf(ns[k], caseSensitive), caseSensitive)
      {
        FirstMember(ns, Comparing.Fold(ms[k].key, caseSensitive), caseSensitive);
      }
    }
  }

  lemma SoundArray(n: Node, caseSensitive: bool)
    requires n.data.kind.IsArray?
    ensures SoundAt(n, caseSensitive) <==>
            forall k :: 0 <= k < |n.children| ==> SoundAt(n.children[k], caseSensitive)
  {
  }

  /** Both trees are sound and mean the same. */
  ghost predicate Alike(a: Node, b: Node, caseSensitive: bool) {
    SoundAt(a, caseSensitive) && SoundAt(b, caseSensitive) && Meant(a, caseSensitive) == Meant(b, caseSensitive)
  }

  lemma ArrayMeant(a: Node, b: Node, caseSensitive: bool)
    requires Whole(a) && Whole(b) && a.data.kind.IsArray? && b.data.kind.IsArray?
    ensures forall k :: 0 <= k < |a.children| ==> Whole(a.children[k])
    ensures forall k :: 0 <= k < |b.children| ==> Whole(b.children[k])
    ensures Meant(a, caseSensitive) == Meant(b, caseSensitive) <==>
            && |a.children| == |b.children|
            && forall k :: 0 <= k < |a.children| ==>
                 Meant(a.children[k], caseSensitive) == Meant(b.children[k], caseSensitive)
  {
    ArrayValue(a);
    ArrayValue(b);
    var xs, ys := ValueAt(a).items, ValueAt(b).items;
    var us, vs := Comparing.ListOf(xs, caseSensitive), Comparing.ListOf(ys, caseSensitive);
    if |xs| == |ys| {
      forall k | 0 <= k < |xs|
        ensures us[k] == Meant(a.children[k], caseSensitive) && vs[k] == Meant(b.children[k], caseSensitive)
      {
        Comparing.ListAt(xs, k, caseSensitive);
        Comparing.ListAt(ys, k, caseSensitive);
      }
    }
  }

  lemma ObjectMeant(n: Node, caseSensitive: bool)
    requires Whole(n) && n.data.kind.IsObject?
    ensures AllWhole(n.children)
    ensures Meant(n, caseSensitive) == Comparing.Table(Comparing.TableOf(MembersAt(n.children), caseSensitive))
  {
    ObjectValue(n);
  }

  lemma SameKind(a: Node, b: Node, caseSensitive: bool)
    requires Whole(a) && Whole(b) && Meant(a, caseSensitive) == Meant(b, caseSensitive)
    ensures a.data.kind == b.data.kind
  {
  }

  lemma {:induction false} AlikeIsSame(a: Node, b: Node, caseSensitive: bool)
    requires Alike(a, b, caseSensitive)
    ensures Same(a, b, caseSensitive)
    decreases Height(a) + Height(b), 1
  {
    SameKind(a, b, caseSensitive);
    match a.data.kind
    case IsArray =>
      SoundArray(a, caseSensitive);
      SoundArray(b, caseSensitive);
      ArrayMeant(a, b, caseSensitive);
      forall k | 0 <= k < |a.children|
        ensures Same(a.children[k], b.children[k], caseSensitive)
      {
        ChildHeight(a.children, k);
        ChildHeight(b.children, k);
        AlikeIsSame(a.children[k], b.children[k], caseSensitive);
      }
    case IsObject =>
      AlikeIsFound(a, b, caseSensitive);
      AlikeIsFound(b, a, caseSensitive);
    case _ =>
  }

  lemma {:induction false} AlikeIsFound(a: Node, b: Node, caseSensitive: bool)
    requires Alike(a, b, caseSensitive) && a.data.kind.IsObject? && b.data.kind.IsObject?
    ensures AllFound(a.children, b.children, caseSensitive)
    decreases Height(a) + Height(b), 0
  {
    SoundObject(a, caseSensitive);
    SoundObject(b, caseSensitive);
    forall k | 0 <= k < |a.children|
      ensures Found(a.children[k], b.children, caseSensitive)
    {
      var i := AlikePartner(a, b, k, caseSensitive);
      ChildHeight(a.children, k);
      ChildHeight(b.children, i);
      AlikeIsSame(a.children[k], b.children[i], caseSensitive);
    }
  }

  /** The member of `b` that is looked up for member `k` of `a`. */
  lemma AlikePartner(a: Node, b: Node, k: nat, caseSensitive: bool) returns (i: nat)
    requires Alike(a, b, caseSensitive) && a.data.kind.IsObject? && b.data.kind.IsObject? && k < |a.children|
    ensures i == FirstAt(b.children, KeyOf(a.children[k], caseSensitive), caseSensitive) < |b.children|
    ensures a.children[k].data.name.Some? && !Hidden(b.children[i].data)
    ensures Alike(a.children[k], b.children[i], caseSensitive)
  {
    SoundObject(a, caseSensitive);
    SoundObject(b, caseSensitive);
    ObjectMeant(a, caseSensitive);
    ObjectMeant(b, caseSensitive);
    var key := Comparing.Fold(a.children[k].data.name.value, caseSensitive);
    TableEntry(a.children, key, caseSensitive);
    TableEntry(b.children, key, caseSensitive);
    assert Reachable(a.children, k, caseSensitive);
    i := FirstAt(b.children, Some(key), caseSensitive);
    assert Reachable(b.children, i, caseSensitive);
  }

  /** Every item that both trees reach is sound. */
  ghost predicate SoundlyShared(a: Node, b: Node, caseSensitive: bool) {
    forall x :: x in Below(a) && x in Below(b) ==> SoundAt(x, caseSensitive)
  }

  lemma SharedBelow(a: Node, b: Node, i: nat, k: nat, caseSensitive: bool)
    requires SoundlyShared(a, b, caseSensitive) && IsContainer(a) && IsContainer(b)
    requires i < |a.children| && k < |b.children|
    ensures SoundlyShared(a.children[i], b.children[k], caseSensitive)
  {
    BelowChild(a.children, i);
    BelowChild(b.children, k);
  }

  lemma {:induction false} SameIsAlike(a: Node, b: Node, caseSensitive: bool)
    requires Agree(a, b) && SoundlyShared(a, b, caseSensitive) && Same(a, b, caseSensitive)
    ensures Alike(a, b, caseSensitive)
    decreases Height(a) + Height(b), 2
  {
    if a.item == b.item {
      assert a == b;
    } else {
      match a.data.kind
      case IsArray =>
        forall k | 0 <= k < |a.children|
          ensures Alike(a.children[k], b.children[k], caseSensitive)
        {
          AlikeBelow(a, b, k, k, caseSensitive);
        }
        SoundArray(a, caseSensitive);
        SoundArray(b, caseSensitive);
        ArrayMeant(a, b, caseSensitive);
      case IsObject =>
        FoundIsAlike(a, b, caseSensitive);
        FoundIsAlike(b, a, caseSensitive);
        PartnersAlike(a, b, caseSensitive);
      case _ =>
    }
  }

  lemma {:induction false} AlikeBelow(a: Node, b: Node, i: nat, k: nat, caseSensitive: bool)
    requires Agree(a, b) && SoundlyShared(a, b, caseSensitive) && IsContainer(a) && IsContainer(b)
    requires i < |a.children| && k < |b.children| && Same(a.children[i], b.children[k], caseSensitive)
    ensures Alike(a.children[i], b.children[k], caseSensitive)
    decreases Height(a) + Height(b), 0
  {
    AgreeBelow(a, b, i, k);
    SharedBelow(a, b, i, k, caseSensitive);
    ChildHeight(a.children, i);
    ChildHeight(b.children, k);
    SameIsAlike(a.children[i], b.children[k], caseSensitive);
  }

  /** Every member of `ms` has a partner in `ns` that is not hidden and like it. */
  ghost predicate Partnered(ms: seq<Node>, ns: seq<Node>, caseSensitive: bool) {
    forall k :: 0 <= k < |ms| ==>
      && ms[k].data.name.Some?
      && var i := FirstAt(ns, KeyOf(ms[k], caseSensitive), caseSensitive);
         i < |ns| && !Hidden(ns[i].data) && Alike(ms[k], ns[i], caseSensitive)
  }

  lemma {:induction false} FoundIsAlike(a: Node, b: Node, caseSensitive: bool)
    requires Agree(a, b) && SoundlyShared(a, b, caseSensitive) && IsContainer(a) && IsContainer(b)
    requires AllFound(a.children, b.children, caseSensitive)
    ensures Partnered(a.children, b.children, caseSensitive)
    decreases Height(a) + Height(b), 1
  {
    var ms, ns := a.children, b.children;
    forall k | 0 <= k < |ms|
      ensures ms[k].data.name.Some?
      ensures var i := FirstAt(ns, KeyOf(ms[k], caseSensitive), caseSensitive);
              i < |ns| && !Hidden(ns[i].data) && Alike(ms[k], ns[i], caseSensitive)
    {
      assert Found(ms[k], ns, caseSensitive);
      AlikeBelow(a, b, k, FirstAt(ns, KeyOf(ms[k], caseSensitive), caseSensitive), caseSensitive);
    }
  }

  lemma PartnersAlike(a: Node, b: Node, caseSensitive: bool)
    requires a.data.kind.IsObject? && b.data.kind.IsObject?
    requires Partnered(a.children, b.children, caseSensitive) && Partnered(b.children, a.children, caseSensitive)
    ensures Alike(a, b, caseSensitive)
  {
    PartnersSound(a, b.children, caseSensitive);
    PartnersSound(b, a.children, caseSensitive);
    PartnersMeant(a, b, caseSensitive);
  }

  lemma PartnersSound(a: Node, ns: seq<Node>, caseSensitive: bool)
    requires a.data.kind.IsObject?
    requires Partnered(a.children, ns, caseSensitive) && Partnered(ns, a.children, caseSensitive)
    ensures SoundAt(a, caseSensitive)
  {
    AllReachable(a.children, ns, caseSensitive);
    SoundObject(a, caseSensitive);
  }

  lemma PartnersMeant(a: Node, b: Node, caseSensitive: bool)
    requires Whole(a) && Whole(b) && a.data.kind.IsObject? && b.data.kind.IsObject?
    requires Partnered(a.children, b.children, caseSensitive) && Partnered(b.children, a.children, caseSensitive)
    ensures Meant(a, caseSensitive) == Meant(b, caseSensitive)
  {
    ObjectMeant(a, caseSensitive);
    ObjectMeant(b, caseSensitive);
    TableWithin(a.children, b.children, caseSensitive);
    TableWithin(b.children, a.children, caseSensitive);
    assert Comparing.TableOf(MembersAt(a.children), caseSensitive)
        == Comparing.TableOf(MembersAt(b.children), caseSensitive);
  }

  lemma AllReachable(ms: seq<Node>, ns: seq<Node>, caseSensitive: bool)
    requires Partnered(ms, ns, caseSensitive) && Partnered(ns, ms, caseSensitive)
    ensures AllWhole(ms) && AllWhole(ns)
    ensures forall k :: 0 <= k < |ms| ==> SoundAt(ms[k], caseSensitive) && Reachable(ms, k, caseSensitive)
  {
    forall k | 0 <= k < |ms|
      ensures Reachable(ms, k, caseSensitive)
    {
      var key := KeyOf(ms[k], caseSensitive);
      var i, f := FirstAt(ms, key, caseSensitive), FirstAt(ns, key, caseSensitive);
      assert Alike(ms[k], ns[f], caseSensitive) && Alike(ms[i], ns[f], caseSensitive);
      assert FirstAt(ms, KeyOf(ns[f], caseSensitive), caseSensitive) == i;
    }
  }

  lemma TableWithin(ms: seq<Node>, ns: seq<Node>, caseSensitive: bool)
    requires AllWhole(ms) && AllWhole(ns) && Partnered(ms, ns, caseSensitive)
    ensures var t := Comparing.TableOf(MembersAt(ms), caseSensitive);
            var u := Comparing.TableOf(MembersAt(ns), caseSensitive);
            forall key :: key in t ==> key in u && t[key] == u[key]
  {
    var t, u := Comparing.TableOf(MembersAt(ms), caseSensitive), Comparing.TableOf(MembersAt(ns), caseSensitive);
    forall key | key in t
      ensures key in u && t[key] == u[key]
    {
      TableEntry(ms, key, caseSensitive);
      TableEntry(ns, key, caseSensitive);
      var i := FirstAt(ms, Some(key), caseSensitive);
      assert KeyOf(ms[i], caseSensitive) == Some(key);
    }
  }

  lemma {:induction false} SoundBelow(n: Node, x: Node, caseSensitive: bool)
    requires SoundAt(n, caseSensitive) && x in Below(n)
    ensures SoundAt(x, caseSensitive)
    decreases n
  {
    if x != n {
      var k := ChildWith(n.children, x);
      if n.data.kind.IsArray? {
        SoundArray(n, caseSensitive);
      } else {
        SoundObject(n, caseSensitive);
      }
      SoundBelow(n.children[k], x, caseSensitive);
    }
  }

  lemma {:induction false} ChildWith(ns: seq<Node>, x: Node) returns (k: nat)
    requires x in AllBelow(ns)
    ensures k < |ns| && x in Below(ns[k])
  {
    if x in Below(ns[0]) {
      k := 0;
    } else {
      k := ChildWith(ns[1..], x);
      k := k + 1;
    }
  }

  /** The exact law, for all trees: they are sound and mean the same if and only if they compare equal and
      one of them is sound. So sharing can matter only where a common item is not sound. */
  lemma ComparesExactly(a: Node, b: Node, caseSensitive: bool)
    requires Agree(a, b)
    ensures Alike(a, b, caseSensitive) <==> Same(a, b, caseSensitive) && SoundAt(a, caseSensitive)
    ensures SoundlyShared(a, b, caseSensitive) ==> (Same(a, b, caseSensitive) <==> Alike(a, b, caseSensitive))
  {
    if Alike(a, b, caseSensitive) {
      AlikeIsSame(a, b, caseSensitive);
    }
    if Same(a, b, caseSensitive) && SoundAt(a, caseSensitive) {
      forall x | x in Below(a)
        ensures SoundAt(x, caseSensitive)
      {
        SoundBelow(a, x, caseSensitive);
      }
      SameIsAlike(a, b, caseSensitive);
    }
    if Same(a, b, caseSensitive) && SoundlyShared(a, b, caseSensitive) {
      SameIsAlike(a, b, caseSensitive);
    }
  }

  /** No item is reached from both trees. */
  ghost predicate NoCommonItem(a: Node, b: Node) {
    forall x, y :: x in Below(a) && y in Below(b) ==> x.item != y.item
  }

  /** Two trees without a common item compare equal if and only if both are sound and mean the same. */
  lemma ApartCompare(a: Node, b: Node, caseSensitive: bool)
    requires NoCommonItem(a, b)
    ensures Same(a, b, caseSensitive) <==> Alike(a, b, caseSensitive)
  {
    ComparesExactly(a, b, caseSensitive);
  }

  // ----- values

  /** No null member of an object has a flag, as the parser makes them. */
  ghost predicate PlainMembers(c: Content)
    decreases c
  {
    forall k :: 0 <= k < |c.children| ==>
      && PlainMembers(c.children[k])
      && (c.data.kind.IsObject? && c.children[k].data.kind.IsNull? ==> Hidden(c.children[k].data))
  }

  /** What `Proper` says of a member is what `Sound` says of it, but for the flags of a null. */
  lemma MemberProper(ms: seq<Member>, k: nat, caseSensitive: bool)
    requires k < |ms|
    ensures var key, t := Comparing.Fold(ms[k].key, caseSensitive), Comparing.TableOf(ms, caseSensitive);
            var i := Comparing.FirstAt(ms, key, caseSensitive);
            key in t && i <= k && t[key] == Comparing.ValueOf(ms[i].value, caseSensitive)
  {
    Comparing.TableAt(ms, Comparing.Fold(ms[k].key, caseSensitive), caseSensitive);
  }

  lemma ObjectParts(c: Content, k: nat)
    requires Complete(c) && c.data.kind.IsObject? && k < |c.children|
    ensures |JsonOf(c).members| == |c.children|
    ensures JsonOf(c).members[k] == Member(c.children[k].data.name.value, JsonOf(c.children[k]))
    ensures JsonOf(c).members[k].value.Null? <==> c.children[k].data.kind.IsNull?
  {
  }

  /** A proper value is sound, whatever the flags. */
  lemma {:induction false} ProperIsSound(c: Content, caseSensitive: bool)
    requires Complete(c) && Comparing.Proper(JsonOf(c), caseSensitive)
    ensures Sound(c, caseSensitive)
    decreases c
  {
    match c.data.kind
    case IsArray =>
      forall k | 0 <= k < |c.children|
        ensures Sound(c.children[k], caseSensitive)
      {
        assert JsonOf(c).items[k] == JsonOf(c.children[k]);
        ProperIsSound(c.children[k], caseSensitive);
      }
    case IsObject =>
      var ms := JsonOf(c).members;
      forall k | 0 <= k < |c.children|
        ensures Sound(c.children[k], caseSensitive)
        ensures var i := Comparing.FirstAt(ms, Comparing.Fold(ms[k].key, caseSensitive), caseSensitive);
                && i < |ms| && !Hidden(c.children[i].data)
                && Comparing.ValueOf(ms[i].value, caseSensitive) == Comparing.ValueOf(ms[k].value, caseSensitive)
      {
        ObjectParts(c, k);
        MemberProper(ms, k, caseSensitive);
        ObjectParts(c, Comparing.FirstAt(ms, Comparing.Fold(ms[k].key, caseSensitive), caseSensitive));
        ProperIsSound(c.children[k], caseSensitive);
      }
    case _ =>
  }

  /** Without flags on null members a sound tree is proper. */
  lemma {:induction false} SoundIsProper(c: Content, caseSensitive: bool)
    requires Complete(c) && PlainMembers(c) && Sound(c, caseSensitive)
    ensures Comparing.Proper(JsonOf(c), caseSensitive)
    decreases c
  {
    match c.data.kind
    case IsArray =>
      forall k | 0 <= k < |c.children|
        ensures Comparing.Proper(JsonOf(c).items[k], caseSensitive)
      {
        assert JsonOf(c).items[k] == JsonOf(c.children[k]);
        SoundIsProper(c.children[k], caseSensitive);
      }
    case IsObject =>
      var ms, t := JsonOf(c).members, Comparing.TableOf(JsonOf(c).members, caseSensitive);
      forall k | 0 <= k < |ms|
        ensures !ms[k].value.Null? && Comparing.Proper(ms[k].value, caseSensitive)
        ensures var key := Comparing.Fold(ms[k].key, caseSensitive);
                key in t && t[key] == Comparing.ValueOf(ms[k].value, caseSensitive)
      {
        ObjectParts(c, k);
        SoundMember(c, k, caseSensitive);
        SoundIsProper(c.children[k], caseSensitive);
      }
    case _ =>
  }

  lemma SoundMember(c: Content, k: nat, caseSensitive: bool)
    requires Complete(c) && PlainMembers(c) && Sound(c, caseSensitive) && c.data.kind.IsObject? && k < |c.children|
    ensures |JsonOf(c).members| == |c.children|
    ensures var ms := JsonOf(c).members;
            var key, t := Comparing.Fold(ms[k].key, caseSensitive), Comparing.TableOf(ms, caseSensitive);
            !ms[k].value.Null? && key in t && t[key] == Comparing.ValueOf(ms[k].value, caseSensitive)
  {
    var ms := JsonOf(c).members;
    var i := Comparing.FirstAt(ms, Comparing.Fold(ms[k].key, caseSensitive), caseSensitive);
    ObjectParts(c, k);
    MemberProper(ms, k, caseSensitive);
    ObjectParts(c, i);
    assert !c.children[i].data.kind.IsNull?;
  }

  /** Items compare as their values do when they have no common item and no null member has a flag. */
  lemma ValuesCompare(a: Node, b: Node, caseSensitive: bool)
    requires NoCommonItem(a, b) && Whole(a) && Whole(b)
    requires PlainMembers(ContentOf(a)) && PlainMembers(ContentOf(b))
    ensures Same(a, b, caseSensitive) <==> Comparing.Equal(ValueAt(a), ValueAt(b), caseSensitive)
  {
    ApartCompare(a, b, caseSensitive);
    Comparing.EqualIff(ValueAt(a), ValueAt(b), caseSensitive);
    if Same(a, b, caseSensitive) {
      SoundIsProper(ContentOf(a), caseSensitive);
      SoundIsProper(ContentOf(b), caseSensitive);
    } else if Comparing.Equal(ValueAt(a), ValueAt(b), caseSensitive) {
      ProperIsSound(ContentOf(a), caseSensitive);
      ProperIsSound(ContentOf(b), caseSensitive);
    }
  }

  // ----- items of one heap

  ghost function Items(ns: seq<Node>): (r: seq<Item>)
    ensures |r| == |ns| && forall k :: 0 <= k < |ns| ==> r[k] == ns[k].item
  {
    seq(|ns|, k requires 0 <= k < |ns| => ns[k].item)
  }

  /** The heap holds the node, with all items below it among `items`. */
  ghost predicate Holds(n: Node, items: set<Item>)
    reads n.item, items
    decreases n, 1
  {
    n.item.data == n.data && Children(n.item, n.children, items)
  }

  ghost predicate Children(parent: Item, ns: seq<Node>, items: set<Item>)
    reads parent, items
    decreases ns, 0
  {
    && (forall k :: 0 <= k < |ns| ==> ns[k].item in items && Holds(ns[k], items))
    && Chain(parent, Items(ns))
  }

  /** Where a loop over the children is after `k` of them. */
  lemma ChildNext(parent: Item, ns: seq<Node>, items: set<Item>, k: nat)
    requires Children(parent, ns, items) && k <= |ns|
    ensures k == 0 ==> parent.child == At(Items(ns), 0)
    ensures k > 0 ==> ns[k - 1].item.next == At(Items(ns), k)
    ensures k < |ns| ==> Holds(ns[k], items) && Height(ns[k]) <= Heights(ns)
  {
    if k > 0 {
      Neighbours(Items(ns), k - 1);
    }
    if k < |ns| {
      ChildHeight(ns, k);
    }
  }

  /** A list of children is determined by its parent. */
  lemma {:induction false} ChainUnique(parent: Item, s: seq<Item>, u: seq<Item>, n: nat)
    requires Chain(parent, s) && Chain(parent, u) && n <= |s|
    ensures n <= |u| && s[..n] == u[..n] && (n == |s| ==> s == u)
  {
    if n > 0 {
      ChainUnique(parent, s, u, n - 1);
      if n > 1 {
        Neighbours(s, n - 2);
        Neighbours(u, n - 2);
        assert s[n - 2] == s[..n - 1][n - 2] == u[..n - 1][n - 2] == u[n - 2];
      }
      assert n <= |u| && s[n - 1] == u[n - 1];
      assert s[..n] == s[..n - 1] + [s[n - 1]] && u[..n] == u[..n - 1] + [u[n - 1]];
      if n == |s| {
        Neighbours(s, n - 1);
        Neighbours(u, n - 1);
        assert |u| == n;
        assert s == s[..n] && u == u[..n];
      }
    }
  }

  /** An item is the same node wherever it is reached. */
  lemma {:induction false} SameItem(x: Node, y: Node, xs: set<Item>, ys: set<Item>)
    requires Holds(x, xs) && Holds(y, ys) && x.item == y.item
    ensures x == y
    decreases x
  {
    var s, s' := Items(x.children), Items(y.children);
    assert Chain(x.item, s) && Chain(y.item, s');
    ChainUnique(x.item, s, s', |s|);
    forall k | 0 <= k < |x.children|
      ensures x.children[k] == y.children[k]
    {
      assert s[k] == s'[k];
      SameItem(x.children[k], y.children[k], xs, ys);
    }
  }

  lemma {:induction false} HoldsBelow(n: Node, items: set<Item>, x: Node)
    requires Holds(n, items) && x in Below(n)
    ensures Holds(x, items)
    decreases n
  {
    if x != n {
      var k := ChildWith(n.children, x);
      assert Children(n.item, n.children, items);
      HoldsBelow(n.children[k], items, x);
    }
  }

  lemma HeapAgrees(a: Node, b: Node, xs: set<Item>, ys: set<Item>)
    requires Holds(a, xs) && Holds(b, ys)
    ensures Agree(a, b)
  {
    forall x, y | x in Below(a) && y in Below(b) && x.item == y.item
      ensures x == y
    {
      HoldsBelow(a, xs, x);
      HoldsBelow(b, ys, y);
      SameItem(x, y, xs, ys);
    }
  }

  /** On the items of one heap comparing is an equivalence: every item with a type is equal to itself,
      whatever it holds. */
  lemma ComparesAsEquivalence(a: Node, b: Node, c: Node, items: set<Item>, caseSensitive: bool)
    requires Holds(a, items) && Holds(b, items) && Holds(c, items)
    ensures Same(a, a, caseSensitive) <==> !a.data.kind.Invalid?
    ensures Same(a, b, caseSensitive) <==> Same(b, a, caseSensitive)
    ensures Same(a, b, caseSensitive) && Same(b, c, caseSensitive) ==> Same(a, c, caseSensitive)
  {
    SameSymmetric(a, b, caseSensitive);
    if Same(a, b, caseSensitive) && Same(b, c, caseSensitive) {
      HeapAgrees(a, b, items, items);
      HeapAgrees(b, c, items, items);
      SameTransitive(a, b, c, caseSensitive);
    }
  }

  /** An object with one null member that has no flag: the item is equal to itself, and to no separate item. */
  lemma SharedNullMember(n: Node, other: Node, name: Bytes, caseSensitive: bool)
    requires ContentOf(n) == NullObject(false, false, name)
    ensures Same(n, n, caseSensitive)
    ensures NoCommonItem(n, other) ==> !Same(n, other, caseSensitive)
  {
    FlaggedNull(false, false, name, caseSensitive);
    if NoCommonItem(n, other) {
      ApartCompare(n, other, caseSensitive);
    }
  }

  // ----- copies

  /** The node of a tree of items and what they hold. */
  ghost function NodeOf(t: Tree, c: Content): (n: Node)
    ensures n.item == t.root && n.data == c.data
    ensures |t.children| == |c.children| ==> |n.children| == |c.children| && forall k :: 0 <= k < |c.children| ==>
              n.children[k] == NodeOf(t.children[k], c.children[k])
    decreases c
  {
    var size := if |t.children| < |c.children| then |t.children| else |c.children|;
    Node(t.root, c.data, seq(size, k requires 0 <= k < size => NodeOf(t.children[k], c.children[k])))
  }

  lemma {:induction false} NodeContent(t: Tree, c: Content)
    requires Represents(t, c)
    ensures ContentOf(NodeOf(t, c)) == c
    decreases c
  {
    forall k | 0 <= k < |c.children|
      ensures ContentOf(NodeOf(t, c)).children[k] == c.children[k]
    {
      NodeContent(t.children[k], c.children[k]);
    }
  }

  lemma {:induction false} NodeHeld(t: Tree, c: Content, items: set<Item>)
    requires Represents(t, c) && t.below <= items
    ensures Holds(NodeOf(t, c), items)
    decreases c
  {
    var n := NodeOf(t, c);
    forall k | 0 <= k < |n.children|
      ensures n.children[k].item in items && Holds(n.children[k], items)
    {
      NodeHeld(t.children[k], c.children[k], items);
    }
    assert Items(n.children) == Roots(t.children);
  }

  lemma {:induction false} NodeItems(t: Tree, c: Content, x: Node)
    requires Represents(t, c) && x in Below(NodeOf(t, c))
    ensures x.item in Nodes(t)
    decreases c
  {
    if x != NodeOf(t, c) {
      var k := ChildWith(NodeOf(t, c).children, x);
      NodeItems(t.children[k], c.children[k], x);
    }
  }

  /** A copy drops reference flags, so it hides no less than its source. */
  lemma {:induction false} OwnedSound(c: Content, caseSensitive: bool)
    requires Complete(c) && Complete(Owned(c)) && Sound(Owned(c), caseSensitive)
    ensures Sound(c, caseSensitive)
    decreases c
  {
    OwnedValue(c);
    if c.data.kind.IsArray? || c.data.kind.IsObject? {
      forall k | 0 <= k < |c.children|
        ensures Sound(c.children[k], caseSensitive)
      {
        assert Complete(Owned(c).children[k]) && Sound(Owned(c).children[k], caseSensitive);
        OwnedSound(c.children[k], caseSensitive);
      }
    }
    if c.data.kind.IsObject? {
      OwnedMembers(c, caseSensitive);
    }
  }

  lemma OwnedMembers(c: Content, caseSensitive: bool)
    requires Complete(c) && Complete(Owned(c)) && c.data.kind.IsObject? && JsonOf(Owned(c)) == JsonOf(c)
    requires Sound(Owned(c), caseSensitive)
    requires forall k :: 0 <= k < |c.children| ==> Sound(c.children[k], caseSensitive)
    ensures Sound(c, caseSensitive)
  {
    var ms := JsonOf(c).members;
    forall k | 0 <= k < |c.children|
      ensures var i := Comparing.FirstAt(ms, Comparing.Fold(ms[k].key, caseSensitive), caseSensitive);
              && i < |ms| && !Hidden(c.children[i].data)
              && Comparing.ValueOf(ms[i].value, caseSensitive) == Comparing.ValueOf(ms[k].value, caseSensitive)
    {
      var i := Comparing.FirstAt(ms, Comparing.Fold(ms[k].key, caseSensitive), caseSensitive);
      assert Sound(Owned(c).children[k], caseSensitive);
      assert i < |ms| && Owned(c).children[i].data == c.children[i].data.(isReference := false);
    }
  }

  /** What `Duplicate` returns compares equal to its source exactly when the source without reference flags is
      sound. */
  lemma CopyCompares(t: Tree, c: Content, ct: Tree, caseSensitive: bool)
    requires Represents(t, c) && Represents(ct, Owned(c)) && Nodes(t) !! Nodes(ct)
    ensures Complete(Owned(c)) <==> Complete(c)
    ensures Same(NodeOf(t, c), NodeOf(ct, Owned(c)), caseSensitive) <==>
            Complete(c) && Sound(Owned(c), caseSensitive)
  {
    var a, b := NodeOf(t, c), NodeOf(ct, Owned(c));
    OwnedValue(c);
    NodeContent(t, c);
    NodeContent(ct, Owned(c));
    forall x, y | x in Below(a) && y in Below(b)
      ensures x.item != y.item
    {
      NodeItems(t, c, x);
      NodeItems(ct, Owned(c), y);
    }
    ApartCompare(a, b, caseSensitive);
    if Complete(c) && Sound(Owned(c), caseSensitive) {
      OwnedSound(c, caseSensitive);
    }
  }

  /** An object with one null member, which has the given flags. */
  function NullObject(isReference: bool, stringIsConst: bool, name: Bytes): Content {
    Content(Data(IsObject, false, false, 0, 0.0, None, None),
            [Content(Data(IsNull, isReference, stringIsConst, 0, 0.0, None, Some(name)), [])])
  }

  /** The null member makes the value improper; the object is sound if and only if the null has a flag. */
  lemma FlaggedNull(isReference: bool, stringIsConst: bool, name: Bytes, caseSensitive: bool)
    ensures var c := NullObject(isReference, stringIsConst, name);
            && Complete(c) && !Comparing.Proper(JsonOf(c), caseSensitive)
            && (Sound(c, caseSensitive) <==> isReference || stringIsConst)
            && Owned(c) == NullObject(false, stringIsConst, name)
  {
    var c := NullObject(isReference, stringIsConst, name);
    var ms := JsonOf(c).members;
    ObjectParts(c, 0);
    assert ms[0] == Member(name, Null);
    assert Comparing.FirstAt(ms, Comparing.Fold(name, caseSensitive), caseSensitive) == 0;
    assert Sound(c.children[0], caseSensitive);
    assert Owned(c).children[0].children == [];
  }

  // ----- as it runs

  /** The names of an object's members are C strings. Only a search that ignores case gets past a member
      without one. */
  ghost predicate Keyed(n: Node, caseSensitive: bool)
    decreases n, 1
  {
    AllKeyed(n.children, n.data.kind.IsObject?, caseSensitive)
  }

  ghost predicate AllKeyed(ns: seq<Node>, members: bool, caseSensitive: bool)
    decreases ns, 0
  {
    forall k :: 0 <= k < |ns| ==>
      && Keyed(ns[k], caseSensitive)
      && (members ==> if ns[k].data.name.Some? then NoNul(ns[k].data.name.value) else !caseSensitive)
  }

  /** The comparison of names in `get_object_item`. */
  method SameName(name: Bytes, other: Option<Bytes>, caseSensitive: bool) returns (same: bool)
    requires NoNul(name) && (if other.Some? then NoNul(other.value) else !caseSensitive)
    ensures same <==>
            other.Some? && Comparing.Fold(name, caseSensitive) == Comparing.Fold(other.value, caseSensitive)
  {
    if caseSensitive {
      same := name == other.value;
    } else if other.None? {
      same := false;
    } else {
      var order := Comparing.CaseInsensitiveStrcmp(name, other.value);
      same := order == 0;
    }
  }

  /** `get_object_item` on an object: the first member of that name, unless it is hidden. */
  method GetObjectItem(parent: Item?, name: Option<Bytes>, caseSensitive: bool, ghost ns: seq<Node>,
                       ghost items: set<Item>)
      returns (r: Item?)
    requires parent != null ==> Children(parent, ns, items) && AllKeyed(ns, true, caseSensitive)
    requires name.Some? ==> NoNul(name.value)
    ensures parent == null || name.None? ==> r == null
    ensures parent != null && name.Some? ==>
              var i := FirstAt(ns, Some(Comparing.Fold(name.value, caseSensitive)), caseSensitive);
              r == if i < |ns| && !Hidden(ns[i].data) then ns[i].item else null
  {
    if parent == null || name.None? {
      return null;
    }
    r := FindMember(parent, name.value, caseSensitive, ns, items);
    if r != null && Hidden(r.data) {
      r := null;
    }
  }

  /** The loop of `get_object_item`. */
  method FindMember(parent: Item, name: Bytes, caseSensitive: bool, ghost ns: seq<Node>, ghost items: set<Item>)
      returns (r: Item?)
    requires Children(parent, ns, items) && AllKeyed(ns, true, caseSensitive) && NoNul(name)
    ensures var i := FirstAt(ns, Some(Comparing.Fold(name, caseSensitive)), caseSensitive);
            r == At(Items(ns), i) && (i < |ns| ==> r.data == ns[i].data)
  {
    ghost var first := FirstAt(ns, Some(Comparing.Fold(name, caseSensitive)), caseSensitive);
    r := parent.child;
    ghost var i := 0;
    ChildNext(parent, ns, items, 0);
    while r != null
      invariant 0 <= i <= first && r == At(Items(ns), i) && Children(parent, ns, items)
      decreases |ns| - i
    {
      ChildNext(parent, ns, items, i);
      ChildNext(parent, ns, items, i + 1);
      var same := SameName(name, r.data.name, caseSensitive);
      if same {
        return;
      }
      r, i := r.next, i + 1;
    }
  }

  /** `cJSON_Compare` */
  method Compare(a: Item?, b: Item?, caseSensitive: bool, ghost x: Node, ghost y: Node, ghost items: set<Item>)
      returns (r: bool)
    requires a != null ==> a == x.item && Holds(x, items) && Keyed(x, caseSensitive)
    requires b != null ==> b == y.item && Holds(y, items) && Keyed(y, caseSensitive)
    ensures r <==> a != null && b != null && Same(x, y, caseSensitive)
    decreases Height(x) + Height(y), 1
  {
    if a == null || b == null || a.data.kind != b.data.kind || a.data.kind.Invalid? {
      return false;
    }
    if a == b {
      return true;
    }
    match a.data.kind
    case IsNumber => r := a.data.valuedouble == b.data.valuedouble;
    case IsString => r := SameText(a.data.valuestring, b.data.valuestring);
    case IsRaw => r := SameText(a.data.valuestring, b.data.valuestring);
    case IsArray => r := CompareElements(a, b, caseSensitive, x.children, y.children, items);
    case IsObject =>
      r := CompareMembers(a, b, caseSensitive, x.children, y.children, items);
      if r {
        r := CompareMembers(b, a, caseSensitive, y.children, x.children, items);
      }
    case _ => r := true;
  }

  /** `strcmp` of two strings that may be missing. */
  predicate SameText(s: Option<Bytes>, t: Option<Bytes>) {
    s.Some? && t.Some? && s.value == t.value
  }

  /** The loop over the elements of two arrays. */
  method CompareElements(a: Item, b: Item, caseSensitive: bool, ghost xs: seq<Node>, ghost ys: seq<Node>,
                         ghost items: set<Item>)
      returns (r: bool)
    requires Children(a, xs, items) && AllKeyed(xs, false, caseSensitive)
    requires Children(b, ys, items) && AllKeyed(ys, false, caseSensitive)
    ensures r <==> |xs| == |ys| && forall k :: 0 <= k < |xs| ==> Same(xs[k], ys[k], caseSensitive)
    decreases Heights(xs) + Heights(ys), 5
  {
    var x, y := a.child, b.child;
    ghost var k := 0;
    ChildNext(a, xs, items, 0);
    ChildNext(b, ys, items, 0);
    while x != null && y != null
      invariant 0 <= k <= |xs| && k <= |ys| && x == At(Items(xs), k) && y == At(Items(ys), k)
      invariant Children(a, xs, items) && Children(b, ys, items)
      invariant forall n :: 0 <= n < k ==> Same(xs[n], ys[n], caseSensitive)
      decreases |xs| - k
    {
      var same;
      same, x, y := CompareElement(x, y, caseSensitive, a, b, xs, ys, items, k);
      if !same {
        return false;
      }
      k := k + 1;
    }
    r := x == y;
  }

  /** One round of that loop, with the step to the next elements. */
  method CompareElement(x: Item, y: Item, caseSensitive: bool, ghost a: Item, ghost b: Item, ghost xs: seq<Node>,
                        ghost ys: seq<Node>, ghost items: set<Item>, ghost k: nat)
      returns (same: bool, x': Item?, y': Item?)
    requires Children(a, xs, items) && AllKeyed(xs, false, caseSensitive)
    requires Children(b, ys, items) && AllKeyed(ys, false, caseSensitive)
    requires k < |xs| && k < |ys| && x == xs[k].item && y == ys[k].item
    ensures same == Same(xs[k], ys[k], caseSensitive)
    ensures x' == At(Items(xs), k + 1) && y' == At(Items(ys), k + 1)
    decreases Heights(xs) + Heights(ys), 4
  {
    ChildNext(a, xs, items, k);
    ChildNext(b, ys, items, k);
    ChildNext(a, xs, items, k + 1);
    ChildNext(b, ys, items, k + 1);
    same := Compare(x, y, caseSensitive, xs[k], ys[k], items);
    x', y' := x.next, y.next;
  }

  /** One of the two loops over the members of an object. */
  method CompareMembers(a: Item, b: Item, caseSensitive: bool, ghost ms: seq<Node>, ghost ns: seq<Node>,
                        ghost items: set<Item>)
      returns (r: bool)
    requires Children(a, ms, items) && AllKeyed(ms, true, caseSensitive)
    requires Children(b, ns, items) && AllKeyed(ns, true, caseSensitive)
    ensures r == AllFound(ms, ns, caseSensitive)
    decreases Heights(ms) + Heights(ns), 5
  {
    var m := a.child;
    ghost var k := 0;
    ChildNext(a, ms, items, 0);
    while m != null
      invariant 0 <= k <= |ms| && m == At(Items(ms), k) && Children(a, ms, items) && Children(b, ns, items)
      invariant forall n :: 0 <= n < k ==> Found(ms[n], ns, caseSensitive)
      decreases |ms| - k
    {
      var found;
      found, m := CompareMember(m, b, caseSensitive, a, ms, ns, items, k);
      if !found {
        return false;
      }
      k := k + 1;
    }
    r := true;
  }

  /** One round of such a loop, with the step to the next member. */
  method CompareMember(m: Item, b: Item, caseSensitive: bool, ghost a: Item, ghost ms: seq<Node>, ghost ns: seq<Node>,
                       ghost items: set<Item>, ghost k: nat)
      returns (r: bool, m': Item?)
    requires Children(a, ms, items) && AllKeyed(ms, true, caseSensitive)
    requires Children(b, ns, items) && AllKeyed(ns, true, caseSensitive)
    requires k < |ms| && m == ms[k].item
    ensures r == Found(ms[k], ns, caseSensitive) && m' == At(Items(ms), k + 1)
    decreases Heights(ms) + Heights(ns), 4
  {
    ChildNext(a, ms, items, k);
    ChildNext(a, ms, items, k + 1);
    m' := m.next;
    var other := GetObjectItem(b, m.data.name, caseSensitive, ns, items);
    if other == null {
      r := false;
    } else {
      ghost var i := FirstAt(ns, KeyOf(ms[k], caseSensitive), caseSensitive);
      ChildNext(b, ns, items, i);
      r := Compare(m, other, caseSensitive, ms[k], ns[i], items);
    }
  }
}
