/** cJSON trees as values. */
module Json {
  import opened Octets
  import Numbers

  datatype Json =
    | Null
    | False
    | True
    | Number(value: real)
    | String(text: Bytes)
    | Raw(text: Bytes)
    | Array(items: seq<Json>)
    | Object(members: seq<Member>)

  datatype Member = Member(key: Bytes, value: Json)

  /** `CJSON_NESTING_LIMIT` */
  const NESTING_LIMIT: nat := 1000

  function Max(a: nat, b: nat): nat {
    if a >= b then a else b
  }

  /** How many arrays and objects are nested in one another. */
  function Depth(j: Json): nat
    decreases j, 1
  {
    match j
    case Array(items) => 1 + ItemsDepth(items)
    case Object(members) => 1 + MembersDepth(members)
    case _ => 0
  }

  function ItemsDepth(items: seq<Json>): nat
    decreases items, 0
  {
    if items == [] then 0 else Max(Depth(items[0]), ItemsDepth(items[1..]))
  }

  function MembersDepth(members: seq<Member>): nat
    decreases members, 0
  {
    if members == [] then 0 else Max(Depth(members[0].value), MembersDepth(members[1..]))
  }

  /** Trees the printer is modelled for: integers of at most 15 digits, and C strings. */
  predicate Printable(j: Json)
    decreases j
  {
    match j
    case Number(v) => Numbers.Printable(v)
    case String(text) => NoNul(text)
    case Raw(text) => NoNul(text)
    case Array(items) => forall k :: 0 <= k < |items| ==> Printable(items[k])
    case Object(members) =>
      forall k :: 0 <= k < |members| ==> NoNul(members[k].key) && Printable(members[k].value)
    case _ => true
  }

  /** No raw text anywhere in the tree. */
  predicate NoRaw(j: Json)
    decreases j
  {
    match j
    case Raw(_) => false
    case Array(items) => forall k :: 0 <= k < |items| ==> NoRaw(items[k])
    case Object(members) => forall k :: 0 <= k < |members| ==> NoRaw(members[k].value)
    case _ => true
  }
}
