/** MMDB values, the pre-order list the library makes of them, and the document they are dumped to. */
module MmdbValues {
  import opened Wrappers
  import opened JsonModel
  import opened JsonPointer
  import opened MmdbDump

  datatype Entry = Entry(key: string, value: Value)

  datatype Value = Leaf(scalar: Scalar) | VMap(entries: seq<Entry>) | VArray(items: seq<Value>)

  function Flatten(v: Value): seq<Item> {
    match v
    case Leaf(scalar) => [Data(scalar)]
    case VMap(entries) => [MapItem(|entries|)] + FlattenEntries(entries)
    case VArray(items) => [ArrayItem(|items|)] + FlattenItems(items)
  }

  function FlattenEntries(es: seq<Entry>): seq<Item> {
    if es == [] then [] else [Data(Utf8(es[0].key))] + (Flatten(es[0].value) + FlattenEntries(es[1..]))
  }

  function FlattenItems(vs: seq<Value>): seq<Item> {
    if vs == [] then [] else Flatten(vs[0]) + FlattenItems(vs[1..])
  }

  // A repeated key keeps its first place and its last value.
  function JsonOf(v: Value): Json {
    match v
    case Leaf(scalar) => ScalarJson(scalar)
    case VMap(entries) => JObject(AddEntries([], entries))
    case VArray(items) => JArray(JsonItems(items))
  }

  function AddEntries(members: seq<Member>, es: seq<Entry>): seq<Member>
    decreases es
  {
    if es == [] then members else AddEntries(PutMember(members, es[0].key, JsonOf(es[0].value)), es[1..])
  }

  function JsonItems(vs: seq<Value>): seq<Json> {
    if vs == [] then [] else [JsonOf(vs[0])] + JsonItems(vs[1..])
  }

  // Keys that need no escape in a pointer, and arrays whose size is a 32-bit number.
  predicate Dumpable(v: Value) {
    match v
    case Leaf(_) => true
    case VMap(entries) => forall i :: 0 <= i < |entries| ==> PlainKey(entries[i].key) && Dumpable(entries[i].value)
    case VArray(items) => |items| < U32 && forall i :: 0 <= i < |items| ==> Dumpable(items[i])
  }

  lemma AppendOne<T>(a: seq<T>, x: T, b: seq<T>)
    ensures (a + [x]) + b == a + ([x] + b)
  {
  }

  lemma ConsSplit<T>(x: T, f: seq<T>, g: seq<T>, rest: seq<T>)
    ensures ([x] + (f + g) + rest)[0] == x
    ensures ([x] + (f + g) + rest)[1..] == f + (g + rest)
    ensures (f + g) + rest == f + (g + rest)
  {
  }

  lemma FirstEntry(es: seq<Entry>, rest: seq<Item>)
    requires es != []
    ensures var list := FlattenEntries(es) + rest;
            && list != [] && list[0] == Data(Utf8(es[0].key))
            && list[1..] == Flatten(es[0].value) + (FlattenEntries(es[1..]) + rest)
  {
    ConsSplit(Data(Utf8(es[0].key)), Flatten(es[0].value), FlattenEntries(es[1..]), rest);
  }

  lemma FirstItem(vs: seq<Value>, rest: seq<Item>)
    requires vs != []
    ensures var list := FlattenItems(vs) + rest;
            list != [] && list == Flatten(vs[0]) + (FlattenItems(vs[1..]) + rest)
  {
    NotEmpty(vs[0]);
    ConsSplit(Other, Flatten(vs[0]), FlattenItems(vs[1..]), rest);
  }

  lemma NotEmpty(v: Value)
    ensures Flatten(v) != []
  {
  }

  // Without repeated keys the members are the entries, in their order.
  lemma {:induction false} DistinctMembers(ms: seq<Member>, es: seq<Entry>)
    requires forall i, j :: 0 <= i < j < |es| ==> es[i].key != es[j].key
    requires forall i, k :: 0 <= i < |es| && 0 <= k < |ms| ==> es[i].key != ms[k].key
    ensures AddEntries(ms, es) == ms + seq(|es|, i requires 0 <= i < |es| => Member(es[i].key, JsonOf(es[i].value)))
    decreases es
  {
    if es != [] {
      FindFirst(ms, es[0].key, |ms|);
      DistinctMembers(ms + [Member(es[0].key, JsonOf(es[0].value))], es[1..]);
    }
  }
}
