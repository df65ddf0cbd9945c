/** What `cJSON_Compare` decides about two trees without common items, and the equality it amounts to. */
module Comparing {
  import opened Octets
  import opened Json

  const CAPITALS: string := "ABCDEFGHIJKLMNOPQRSTUVWXYZ"
  const SMALLS: string := "abcdefghijklmnopqrstuvwxyz"

  /** `tolower` in the C locale. */
  function ToLower(b: Byte): Byte {
    if 65 <= b <= 90 then b + 32 else b
  }

  function Lower(s: Bytes): (r: Bytes)
    ensures |r| == |s| && forall k :: 0 <= k < |s| ==> r[k] == ToLower(s[k])
  {
    seq(|s|, k requires 0 <= k < |s| => ToLower(s[k]))
  }

  /** A capital and the small letter for it. */
  ghost predicate LetterPair(x: Byte, y: Byte) {
    exists i :: 0 <= i < 26 && CAPITALS[i] as int == x && SMALLS[i] as int == y
  }

  lemma LetterPairIff(x: Byte, y: Byte)
    ensures LetterPair(x, y) <==> 65 <= x <= 90 && y == x + 32
  {
    CapitalAt();
    SmallAt();
    if 65 <= x <= 90 && y == x + 32 {
      assert CAPITALS[x - 65] as int == x && SMALLS[x - 65] as int == y;
    }
  }

  lemma CapitalAt()
    ensures forall i :: 0 <= i < 26 ==> CAPITALS[i] as int == 65 + i
  {
  }

  lemma SmallAt()
    ensures forall i :: 0 <= i < 26 ==> SMALLS[i] as int == 97 + i
  {
  }

  /** Two keys differ in nothing but the case of their letters if and only if they are the same in lower case. */
  lemma FoldIff(a: Bytes, b: Bytes)
    ensures Lower(a) == Lower(b) <==>
            && |a| == |b|
            && forall k :: 0 <= k < |a| ==> a[k] == b[k] || LetterPair(a[k], b[k]) || LetterPair(b[k], a[k])
  {
    if |a| == |b| {
      forall k | 0 <= k < |a|
        ensures ToLower(a[k]) == ToLower(b[k]) <==>
                a[k] == b[k] || LetterPair(a[k], b[k]) || LetterPair(b[k], a[k])
      {
        LetterPairIff(a[k], b[k]);
        LetterPairIff(b[k], a[k]);
      }
      if Lower(a) == Lower(b) {
        forall k | 0 <= k < |a|
          ensures ToLower(a[k]) == ToLower(b[k])
        {
          assert Lower(a)[k] == Lower(b)[k];
        }
      }
    }
  }

  /** Two keys are the same when this is. */
  function Fold(key: Bytes, caseSensitive: bool): Bytes {
    if caseSensitive then key else Lower(key)
  }

  /** The first member with the folded key `k`, or the number of members. */
  function FirstAt(members: seq<Member>, k: Bytes, caseSensitive: bool): (i: nat)
    ensures i <= |members| && (i < |members| ==> Fold(members[i].key, caseSensitive) == k)
    ensures forall n :: 0 <= n < i ==> Fold(members[n].key, caseSensitive) != k
  {
    if members == [] then 0
    else if Fold(members[0].key, caseSensitive) == k then 0
    else 1 + FirstAt(members[1..], k, caseSensitive)
  }

  lemma {:induction false} ItemDepth(items: seq<Json>, k: nat)
    requires k < |items|
    ensures Depth(items[k]) <= ItemsDepth(items)
  {
    if k > 0 {
      ItemDepth(items[1..], k - 1);
    }
  }

  lemma {:induction false} MemberDepth(members: seq<Member>, k: nat)
    requires k < |members|
    ensures Depth(members[k].value) <= MembersDepth(members)
  {
    if k > 0 {
      MemberDepth(members[1..], k - 1);
    }
  }

  /** `cJSON_Compare` on two trees that share no item: an object must find all its members in the
      other one. */
  predicate Equal(a: Json, b: Json, caseSensitive: bool)
    decreases Depth(a) + Depth(b), 1
  {
    match (a, b)
    case (Array(xs), Array(ys)) =>
      |xs| == |ys| && forall k :: 0 <= k < |xs| ==>
        (ItemDepth(xs, k); ItemDepth(ys, k); Equal(xs[k], ys[k], caseSensitive))
    case (Object(ms), Object(ns)) =>
      AllFound(ms, ns, caseSensitive) && AllFound(ns, ms, caseSensitive)
    case _ => a == b
  }

  predicate AllFound(ms: seq<Member>, ns: seq<Member>, caseSensitive: bool)
    decreases MembersDepth(ms) + MembersDepth(ns), 3
  {
    forall k :: 0 <= k < |ms| ==> (MemberDepth(ms, k); Found(ms[k], ns, caseSensitive))
  }

  /** The member `m` has an equal partner in an object. */
  predicate Found(m: Member, members: seq<Member>, caseSensitive: bool)
    decreases Depth(m.value) + MembersDepth(members), 2
  {
    var i := FirstAt(members, Fold(m.key, caseSensitive), caseSensitive);
    && i < |members| && !members[i].value.Null?
    && (MemberDepth(members, i); Equal(m.value, members[i].value, caseSensitive))
  }

  // ----- what it amounts to

  /** A tree without the order and the spelling of its keys. */
  datatype Value = Scalar(j: Json) | List(items: seq<Value>) | Table(members: map<Bytes, Value>)

  function ValueOf(j: Json, caseSensitive: bool): Value
    decreases j, 1
  {
    match j
    case Array(items) => List(ListOf(items, caseSensitive))
    case Object(members) => Table(TableOf(members, caseSensitive))
    case _ => Scalar(j)
  }

  function ListOf(items: seq<Json>, caseSensitive: bool): (r: seq<Value>)
    ensures |r| == |items|
    decreases items, 0
  {
    if items == [] then [] else [ValueOf(items[0], caseSensitive)] + ListOf(items[1..], caseSensitive)
  }

  function TableOf(members: seq<Member>, caseSensitive: bool): map<Bytes, Value>
    decreases members, 0
  {
    if members == [] then map[]
    else
      TableOf(members[1..], caseSensitive)
        [Fold(members[0].key, caseSensitive) := ValueOf(members[0].value, caseSensitive)]
  }

  lemma {:induction false} ListAt(items: seq<Json>, k: nat, caseSensitive: bool)
    requires k < |items|
    ensures ListOf(items, caseSensitive)[k] == ValueOf(items[k], caseSensitive)
  {
    if k > 0 {
      ListAt(items[1..], k - 1, caseSensitive);
    }
  }

  lemma {:induction false} TableAt(members: seq<Member>, k: Bytes, caseSensitive: bool)
    ensures var i, t := FirstAt(members, k, caseSensitive), TableOf(members, caseSensitive);
            (k in t <==> i < |members|) && (k in t ==> t[k] == ValueOf(members[i].value, caseSensitive))
  {
    if members != [] {
      TableAt(members[1..], k, caseSensitive);
    }
  }

  /** No member is null, and members with the same key have the same value. */
  predicate Proper(j: Json, caseSensitive: bool)
    decreases j
  {
    match j
    case Array(items) => forall k :: 0 <= k < |items| ==> Proper(items[k], caseSensitive)
    case Object(members) =>
      var t := TableOf(members, caseSensitive);
      forall k :: 0 <= k < |members| ==>
        && !members[k].value.Null? && Proper(members[k].value, caseSensitive)
        && Fold(members[k].key, caseSensitive) in t
        && t[Fold(members[k].key, caseSensitive)] == ValueOf(members[k].value, caseSensitive)
    case _ => true
  }

  /** Every tree: comparing says yes exactly when both are proper and the same up to the order, the
      repetition and, for case-insensitive comparing, the case of their keys. */
  lemma {:induction false} EqualIff(a: Json, b: Json, caseSensitive: bool)
    ensures Equal(a, b, caseSensitive) <==>
            && Proper(a, caseSensitive) && Proper(b, caseSensitive)
            && ValueOf(a, caseSensitive) == ValueOf(b, caseSensitive)
    decreases Depth(a) + Depth(b), 1
  {
    match (a, b)
    case (Array(xs), Array(ys)) =>
      ItemsEqualIff(xs, ys, caseSensitive);
    case (Object(ms), Object(ns)) =>
      MembersEqualIff(ms, ns, caseSensitive);
    case _ =>
  }

  lemma {:induction false} MembersEqualIff(ms: seq<Member>, ns: seq<Member>, caseSensitive: bool)
    ensures Equal(Object(ms), Object(ns), caseSensitive) <==>
            && Proper(Object(ms), caseSensitive) && Proper(Object(ns), caseSensitive)
            && TableOf(ms, caseSensitive) == TableOf(ns, caseSensitive)
    decreases Depth(Object(ms)) + Depth(Object(ns)), 0
  {
    AllFoundIff(ms, ns, caseSensitive);
    AllFoundIff(ns, ms, caseSensitive);
    if AllPartners(ms, ns, caseSensitive) && AllPartners(ns, ms, caseSensitive) {
      PartnersEqual(ms, ns, caseSensitive);
    }
    if && Proper(Object(ms), caseSensitive) && Proper(Object(ns), caseSensitive)
       && TableOf(ms, caseSensitive) == TableOf(ns, caseSensitive) {
      ProperPartners(ms, ns, caseSensitive);
      ProperPartners(ns, ms, caseSensitive);
    }
  }

  ghost predicate AllPartners(ms: seq<Member>, ns: seq<Member>, caseSensitive: bool) {
    forall k :: 0 <= k < |ms| ==> Partner(ms[k], ns, caseSensitive)
  }

  lemma {:induction false} AllFoundIff(ms: seq<Member>, ns: seq<Member>, caseSensitive: bool)
    ensures AllFound(ms, ns, caseSensitive) <==> AllPartners(ms, ns, caseSensitive)
    decreases MembersDepth(ms) + MembersDepth(ns), 3
  {
    forall k | 0 <= k < |ms|
      ensures Found(ms[k], ns, caseSensitive) <==> Partner(ms[k], ns, caseSensitive)
    {
      MemberDepth(ms, k);
      FoundIff(ms[k], ns, caseSensitive);
    }
  }

  lemma {:induction false} ItemsEqualIff(xs: seq<Json>, ys: seq<Json>, caseSensitive: bool)
    ensures Equal(Array(xs), Array(ys), caseSensitive) <==>
            && Proper(Array(xs), caseSensitive) && Proper(Array(ys), caseSensitive)
            && ListOf(xs, caseSensitive) == ListOf(ys, caseSensitive)
    decreases Depth(Array(xs)) + Depth(Array(ys)), 0
  {
    if |xs| == |ys| {
      forall k | 0 <= k < |xs|
        ensures ListOf(xs, caseSensitive)[k] == ValueOf(xs[k], caseSensitive)
        ensures ListOf(ys, caseSensitive)[k] == ValueOf(ys[k], caseSensitive)
        ensures Equal(xs[k], ys[k], caseSensitive) <==>
                && Proper(xs[k], caseSensitive) && Proper(ys[k], caseSensitive)
                && ValueOf(xs[k], caseSensitive) == ValueOf(ys[k], caseSensitive)
      {
        ItemDepth(xs, k);
        ItemDepth(ys, k);
        ListAt(xs, k, caseSensitive);
        ListAt(ys, k, caseSensitive);
        EqualIff(xs[k], ys[k], caseSensitive);
      }
    } else {
      assert |ListOf(xs, caseSensitive)| != |ListOf(ys, caseSensitive)|;
    }
  }

  /** What `Found` amounts to. */
  ghost predicate Partner(m: Member, members: seq<Member>, caseSensitive: bool) {
    var k := Fold(m.key, caseSensitive);
    var i, t := FirstAt(members, k, caseSensitive), TableOf(members, caseSensitive);
    && k in t && t[k] == ValueOf(m.value, caseSensitive)
    && i < |members| && !members[i].value.Null?
    && Proper(m.value, caseSensitive) && Proper(members[i].value, caseSensitive)
  }

  lemma {:induction false} FoundIff(m: Member, members: seq<Member>, caseSensitive: bool)
    ensures Found(m, members, caseSensitive) <==> Partner(m, members, caseSensitive)
    decreases Depth(m.value) + MembersDepth(members), 2
  {
    var k := Fold(m.key, caseSensitive);
    var i := FirstAt(members, k, caseSensitive);
    TableAt(members, k, caseSensitive);
    if i < |members| {
      MemberDepth(members, i);
      EqualIff(m.value, members[i].value, caseSensitive);
    }
  }

  lemma PartnersEqual(ms: seq<Member>, ns: seq<Member>, caseSensitive: bool)
    requires AllPartners(ms, ns, caseSensitive) && AllPartners(ns, ms, caseSensitive)
    ensures Proper(Object(ms), caseSensitive) && Proper(Object(ns), caseSensitive)
    ensures TableOf(ms, caseSensitive) == TableOf(ns, caseSensitive)
  {
    PartnersAgree(ms, ns, caseSensitive);
    PartnersAgree(ns, ms, caseSensitive);
    assert TableOf(ms, caseSensitive) == TableOf(ns, caseSensitive);
    PartnersProper(ms, ns, caseSensitive);
    PartnersProper(ns, ms, caseSensitive);
  }

  lemma PartnersAgree(ms: seq<Member>, ns: seq<Member>, caseSensitive: bool)
    requires AllPartners(ms, ns, caseSensitive)
    ensures var t, u := TableOf(ms, caseSensitive), TableOf(ns, caseSensitive);
            forall x :: x in t ==> x in u && t[x] == u[x]
  {
    var t, u := TableOf(ms, caseSensitive), TableOf(ns, caseSensitive);
    forall x | x in t
      ensures x in u && t[x] == u[x]
    {
      TableAt(ms, x, caseSensitive);
      assert Partner(ms[FirstAt(ms, x, caseSensitive)], ns, caseSensitive);
    }
  }

  lemma PartnersProper(ms: seq<Member>, ns: seq<Member>, caseSensitive: bool)
    requires AllPartners(ms, ns, caseSensitive)
    requires TableOf(ms, caseSensitive) == TableOf(ns, caseSensitive)
    ensures Proper(Object(ms), caseSensitive)
  {
    forall k | 0 <= k < |ms|
      ensures !ms[k].value.Null?
    {
      assert Partner(ms[k], ns, caseSensitive);
      TableAt(ns, Fold(ms[k].key, caseSensitive), caseSensitive);
    }
  }

  lemma ProperPartners(ms: seq<Member>, ns: seq<Member>, caseSensitive: bool)
    requires Proper(Object(ms), caseSensitive) && Proper(Object(ns), caseSensitive)
    requires TableOf(ms, caseSensitive) == TableOf(ns, caseSensitive)
    ensures AllPartners(ms, ns, caseSensitive)
  {
    forall k | 0 <= k < |ms|
      ensures Partner(ms[k], ns, caseSensitive)
    {
      TableAt(ns, Fold(ms[k].key, caseSensitive), caseSensitive);
    }
  }

  /** Comparing trees without common items is symmetric and transitive, and a tree equals a separate copy of
      itself exactly when it is proper. */
  lemma PartialEquivalence(a: Json, b: Json, c: Json, caseSensitive: bool)
    ensures Equal(a, b, caseSensitive) <==> Equal(b, a, caseSensitive)
    ensures Equal(a, b, caseSensitive) && Equal(b, c, caseSensitive) ==> Equal(a, c, caseSensitive)
    ensures Equal(a, a, caseSensitive) <==> Proper(a, caseSensitive)
  {
    EqualIff(a, b, caseSensitive);
    EqualIff(b, a, caseSensitive);
    EqualIff(b, c, caseSensitive);
    EqualIff(a, c, caseSensitive);
    EqualIff(a, a, caseSensitive);
  }

  /** No member is null and no two members of an object have the same key. */
  predicate Plain(j: Json, caseSensitive: bool)
    decreases j
  {
    match j
    case Array(items) => forall k :: 0 <= k < |items| ==> Plain(items[k], caseSensitive)
    case Object(members) =>
      && (forall k :: 0 <= k < |members| ==> !members[k].value.Null? && Plain(members[k].value, caseSensitive))
      && (forall i, k :: 0 <= i < k < |members| ==>
            Fold(members[i].key, caseSensitive) != Fold(members[k].key, caseSensitive))
    case _ => true
  }

  lemma {:induction false} PlainIsProper(j: Json, caseSensitive: bool)
    requires Plain(j, caseSensitive)
    ensures Proper(j, caseSensitive)
    decreases j
  {
    match j
    case Array(items) =>
      forall k | 0 <= k < |items|
        ensures Proper(items[k], caseSensitive)
      {
        PlainIsProper(items[k], caseSensitive);
      }
    case Object(members) =>
      forall k | 0 <= k < |members|
        ensures Proper(members[k].value, caseSensitive)
        ensures var t, x := TableOf(members, caseSensitive), Fold(members[k].key, caseSensitive);
                x in t && t[x] == ValueOf(members[k].value, caseSensitive)
      {
        PlainIsProper(members[k].value, caseSensitive);
        var x := Fold(members[k].key, caseSensitive);
        TableAt(members, x, caseSensitive);
        var i := FirstAt(members, x, caseSensitive);
        assert i == k;
      }
    case _ =>
  }

  /** Trees without null members and without repeated keys are equal exactly when they have the same
      value. */
  lemma PlainEqual(a: Json, b: Json, caseSensitive: bool)
    requires Plain(a, caseSensitive) && Plain(b, caseSensitive)
    ensures Equal(a, b, caseSensitive) <==> ValueOf(a, caseSensitive) == ValueOf(b, caseSensitive)
  {
    PlainIsProper(a, caseSensitive);
    PlainIsProper(b, caseSensitive);
    EqualIff(a, b, caseSensitive);
  }

  // ----- names

  /** The byte of a C string at `i`, in lower case; its terminator at its end. */
  function LowerAt(s: Bytes, i: nat): Byte
    requires i <= |s|
  {
    if i < |s| then ToLower(s[i]) else NUL
  }

  /** `r` is the order of the first place where two C strings differ. */
  ghost predicate IsOrder(s: Bytes, t: Bytes, r: int, i: nat) {
    && i <= |s| && i <= |t| && Lower(s)[..i] == Lower(t)[..i] && r == LowerAt(s, i) - LowerAt(t, i)
    && (r == 0 ==> i == |s| == |t|)
  }

  /** `case_insensitive_strcmp` on two C strings. */
  method CaseInsensitiveStrcmp(s: Bytes, t: Bytes) returns (r: int)
    requires NoNul(s) && NoNul(t)
    ensures r == 0 <==> Lower(s) == Lower(t)
    ensures exists i :: IsOrder(s, t, r, i)
  {
    var s', t', i := s + [NUL], t + [NUL], 0;
    while ToLower(s'[i]) == ToLower(t'[i])
      invariant 0 <= i <= |s| && i <= |t|
      invariant Lower(s)[..i] == Lower(t)[..i]
      decreases |s| - i
    {
      if s'[i] == NUL {
        assert IsOrder(s, t, 0, i);
        return 0;
      }
      i := i + 1;
    }
    if i < |s| && i < |t| {
      assert Lower(s)[i] != Lower(t)[i];
    }
    r := ToLower(s'[i]) - ToLower(t'[i]);
    assert IsOrder(s, t, r, i);
  }
}
