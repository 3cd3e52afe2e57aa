/** What stands in the document after a dump, read back without the functions that wrote it. */
module MmdbReadBack {
  import opened Wrappers
  import opened JsonModel
  import opened JsonPointer
  import opened MmdbDump
  import opened MmdbValues
  import opened MmdbPlaces
  import opened MmdbRoundTrip

  // No later entry has the key.
  predicate Last(es: seq<Entry>, i: nat)
    requires i < |es|
  {
    forall k | i < k < |es| :: es[k].key != es[i].key
  }

  // The document j stands for the value: an object with one member for each key, holding the last value of the key; an
  // array with the items in their order; a scalar that is held.
  ghost predicate Stands(j: Json, v: Value)
    decreases v
  {
    match v
    case Leaf(scalar) => Holds(j, scalar)
    case VMap(es) =>
      && j.JObject? && KeysApart(j.members)
      && (forall m | 0 <= m < |j.members| :: exists i | 0 <= i < |es| :: es[i].key == j.members[m].key)
      && forall i | 0 <= i < |es| && Last(es, i) ::
           exists m | 0 <= m < |j.members| :: j.members[m].key == es[i].key && Stands(j.members[m].value, es[i].value)
    case VArray(vs) =>
      && j.JArray? && |j.items| == |vs| && forall i | 0 <= i < |vs| :: Stands(j.items[i], vs[i])
  }

  predicate KeysApart(ms: seq<Member>) {
    forall a, b | 0 <= a < b < |ms| :: ms[a].key != ms[b].key
  }

  predicate HasKey(ms: seq<Member>, key: string) {
    exists m | 0 <= m < |ms| :: ms[m].key == key
  }

  lemma PutKeys(ms: seq<Member>, key: string, x: Json)
    requires KeysApart(ms)
    ensures KeysApart(PutMember(ms, key, x))
    ensures Member(key, x) in PutMember(ms, key, x)
    ensures forall k :: HasKey(PutMember(ms, key, x), k) ==> k == key || HasKey(ms, k)
  {
    var i, put := FindMember(ms, key), PutMember(ms, key, x);
    assert put[i] == Member(key, x);
    forall k | HasKey(put, k) ensures k == key || HasKey(ms, k) {
      var m :| 0 <= m < |put| && put[m].key == k;
      if m != i { assert ms[m].key == k; }
    }
  }

  lemma PutKeeps(ms: seq<Member>, key: string, x: Json, e: Member)
    requires e in ms && e.key != key
    ensures e in PutMember(ms, key, x)
  {
    var m :| 0 <= m < |ms| && ms[m] == e;
    assert PutMember(ms, key, x)[m] == e;
  }

  lemma {:induction false} EntryKept(ms: seq<Member>, es: seq<Entry>, e: Member)
    requires e in ms && forall i | 0 <= i < |es| :: es[i].key != e.key
    ensures e in AddEntries(ms, es)
    decreases es
  {
    if es != [] {
      PutKeeps(ms, es[0].key, JsonOf(es[0].value), e);
      EntryKept(PutMember(ms, es[0].key, JsonOf(es[0].value)), es[1..], e);
    }
  }

  lemma {:induction false} LastPut(ms: seq<Member>, es: seq<Entry>, i: nat)
    requires KeysApart(ms) && i < |es| && Last(es, i)
    ensures Member(es[i].key, JsonOf(es[i].value)) in AddEntries(ms, es)
    decreases es
  {
    PutKeys(ms, es[0].key, JsonOf(es[0].value));
    var more := PutMember(ms, es[0].key, JsonOf(es[0].value));
    if i == 0 {
      EntryKept(more, es[1..], Member(es[0].key, JsonOf(es[0].value)));
    } else {
      LastPut(more, es[1..], i - 1);
    }
  }

  lemma {:induction false} KeysOfEntries(ms: seq<Member>, es: seq<Entry>)
    requires KeysApart(ms)
    ensures KeysApart(AddEntries(ms, es))
    ensures forall key :: HasKey(AddEntries(ms, es), key) ==>
              HasKey(ms, key) || exists i | 0 <= i < |es| :: es[i].key == key
    decreases es
  {
    if es != [] {
      PutKeys(ms, es[0].key, JsonOf(es[0].value));
      KeysOfEntries(PutMember(ms, es[0].key, JsonOf(es[0].value)), es[1..]);
      forall key | HasKey(AddEntries(ms, es), key) && !HasKey(ms, key)
        ensures exists i | 0 <= i < |es| :: es[i].key == key
      {
        if key != es[0].key {
          var i :| 0 <= i < |es[1..]| && es[1..][i].key == key;
          assert es[i + 1].key == key;
        }
      }
    }
  }

  lemma {:induction false} ItemsAt(vs: seq<Value>, i: nat)
    ensures |JsonItems(vs)| == |vs|
    ensures i < |vs| ==> JsonItems(vs)[i] == JsonOf(vs[i])
    decreases vs
  {
    if vs != [] { ItemsAt(vs[1..], if i == 0 then 0 else i - 1); }
  }

  lemma {:induction false} ValueStands(v: Value)
    ensures Stands(JsonOf(v), v)
    decreases v, 0
  {
    match v
    case Leaf(scalar) => ScalarHeld(scalar);
    case VMap(es) => MapStands(v, es);
    case VArray(vs) =>
      ItemsAt(vs, 0);
      forall i | 0 <= i < |vs| ensures Stands(JsonItems(vs)[i], vs[i]) {
        ItemsAt(vs, i);
        ValueStands(vs[i]);
      }
  }

  lemma MapStands(v: Value, es: seq<Entry>)
    requires v == VMap(es)
    ensures Stands(JsonOf(v), v)
    decreases v, -1
  {
    var ms := AddEntries([], es);
    KeysOfEntries([], es);
    forall m | 0 <= m < |ms| ensures exists i | 0 <= i < |es| :: es[i].key == ms[m].key {
      assert HasKey(ms, ms[m].key);
    }
    forall i | 0 <= i < |es| && Last(es, i)
      ensures exists m | 0 <= m < |ms| :: ms[m].key == es[i].key && Stands(ms[m].value, es[i].value)
    {
      LastPut([], es, i);
      ValueStands(es[i].value);
      var m :| 0 <= m < |ms| && ms[m] == Member(es[i].key, JsonOf(es[i].value));
    }
  }

  // What is found at the path after a dump stands for the value; the nodes of the value are consumed.
  lemma DumpReadsBack(v: Value, rest: seq<Item>, doc: Json, path: string, ts: seq<string>)
    requires Dumpable(v) && Place(doc, path, ts)
    ensures var r := Dump(Flatten(v) + rest, doc, path);
            && r.fault.None? && r.rest == rest
            && GetAt(r.doc, ts).Some? && Stands(GetAt(r.doc, ts).value, v)
  {
    DumpFlattened(v, rest, doc, path, ts);
    GetSet(doc, ts, JsonOf(v));
    ValueStands(v);
  }

  // One node of each of the ten kinds.
  lemma LeafReadsBack(scalar: Scalar, rest: seq<Item>, doc: Json, path: string, ts: seq<string>)
    requires Place(doc, path, ts)
    ensures var r := Dump([Data(scalar)] + rest, doc, path);
            && r.fault.None? && r.rest == rest
            && GetAt(r.doc, ts).Some? && Holds(GetAt(r.doc, ts).value, scalar)
  {
    DumpReadsBack(Leaf(scalar), rest, doc, path, ts);
  }

  // ----- lists that are no flattened value -----

  lemma FirstMember(list: seq<Item>, k: nat, n: nat, doc: Json, path: string, r: Outcome) returns (one: Outcome)
    requires k > 0 && n > 0 && list != [] && r == DumpMembers(list, k, doc, path) && r.fault.None?
    ensures r == DumpMembers(one.rest, k - 1, one.doc, path)
    ensures DumpMembers(list, n, doc, path) == DumpMembers(one.rest, n - 1, one.doc, path)
  {
    one := Dump(list[1..], doc, path + "/" + list[0].scalar.text);
    MembersStep(list, k, doc, path, one);
    MembersStep(list, n, doc, path, one);
  }

  lemma FirstElement(list: seq<Item>, k: nat, n: nat, index: nat, doc: Json, path: string, r: Outcome)
    returns (one: Outcome)
    requires k > 0 && n > 0 && list != [] && r == DumpElements(list, k, index, doc, path) && r.fault.None?
    ensures r == DumpElements(one.rest, k - 1, index + 1, one.doc, path)
    ensures DumpElements(list, n, index, doc, path) == DumpElements(one.rest, n - 1, index + 1, one.doc, path)
  {
    one := Dump(list, doc, ElementPath(path, index));
    ElementsStep(list, k, index, doc, path);
    ElementsStep(list, n, index, doc, path);
  }

  lemma NoMember(list: seq<Item>, k: nat, n: nat, left: nat, doc: Json, path: string)
    requires n == k + left && (k == 0 || list == [])
    ensures DumpMembers(list, k, doc, path) == Outcome(list, doc, None)
    ensures DumpMembers(list, n, doc, path) == DumpMembers(list, left, doc, path)
  {
  }

  // A dump of k members without a fault is how a dump of more begins.
  lemma {:induction false} MoreMembers(list: seq<Item>, k: nat, n: nat, left: nat, doc: Json, path: string, r: Outcome,
                                       all: Outcome)
    requires n == k + left && r == DumpMembers(list, k, doc, path) && r.fault.None?
    requires all == DumpMembers(r.rest, left, r.doc, path)
    ensures DumpMembers(list, n, doc, path) == all
    decreases k
  {
    if k > 0 && list != [] {
      var one := FirstMember(list, k, n, doc, path, r);
      MoreMembers(one.rest, k - 1, n - 1, left, one.doc, path, r, all);
    } else {
      NoMember(list, k, n, left, doc, path);
    }
  }

  lemma NoElement(list: seq<Item>, k: nat, n: nat, left: nat, index: nat, at: nat, doc: Json, path: string)
    requires n == k + left && at == index + k && (k == 0 || list == [])
    ensures DumpElements(list, k, index, doc, path) == Outcome(list, doc, None)
    ensures DumpElements(list, n, index, doc, path) == DumpElements(list, left, at, doc, path)
  {
  }

  lemma {:induction false} MoreElements(list: seq<Item>, k: nat, n: nat, left: nat, index: nat, at: nat, doc: Json,
                                        path: string, r: Outcome, all: Outcome)
    requires n == k + left && at == index + k && r == DumpElements(list, k, index, doc, path) && r.fault.None?
    requires all == DumpElements(r.rest, left, at, r.doc, path)
    ensures DumpElements(list, n, index, doc, path) == all
    decreases k
  {
    if k > 0 && list != [] {
      var one := FirstElement(list, k, n, index, doc, path, r);
      MoreElements(one.rest, k - 1, n - 1, left, index + 1, at, one.doc, path, r, all);
    } else {
      NoElement(list, k, n, left, index, at, doc, path);
    }
  }

  // A map is closed by the end of the list; a node that is no text where a key belongs ends the dump, and what was put
  // before stays.
  lemma MapLists(es: seq<Entry>, n: nat, rest: seq<Item>)
    requires |es| <= n && forall i :: 0 <= i < |es| ==> PlainKey(es[i].key) && Dumpable(es[i].value)
    requires |es| == n || rest == [] || !(rest[0].Data? && rest[0].scalar.Utf8?)
    ensures var r := Dump([MapItem(n)] + (FlattenEntries(es) + rest), JNull, "");
            && r.rest == rest && Stands(r.doc, VMap(es))
            && r.fault == if |es| == n || rest == [] then None else Some(InvalidData)
  {
    assert Parse("") == Some([]);
    var list := FlattenEntries(es) + rest;
    assert ([MapItem(n)] + list)[1..] == list;
    EntriesDumped(es, [], rest);
    MoreMembers(list, |es|, n, n - |es|, JObject([]), "",
                Outcome(rest, JsonOf(VMap(es)), None), DumpMembers(rest, n - |es|, JsonOf(VMap(es)), ""));
    ValueStands(VMap(es));
  }

  lemma StopsAtOther(list: seq<Item>, size: nat, index: nat, doc: Json)
    requires size > 0 && list != [] && list[0].Other?
    ensures DumpElements(list, size, index, doc, "") == Outcome(list, doc, Some(InvalidData))
  {
    ElementsStep(list, size, index, doc, "");
  }

  lemma ArrayEnds(vs: seq<Value>, n: nat, rest: seq<Item>, fault: Option<Fault>)
    requires |vs| <= n && |vs| < U32 && forall i :: 0 <= i < |vs| ==> Dumpable(vs[i])
    requires |vs| == n || rest == [] || rest[0].Other?
    requires fault == if |vs| == n || rest == [] then None else Some(InvalidData)
    ensures DumpElements(FlattenItems(vs) + rest, n, 0, JArray([]), "") == Outcome(rest, JsonOf(VArray(vs)), fault)
  {
    var list, doc := FlattenItems(vs) + rest, JsonOf(VArray(vs));
    ItemsDumped(vs, [], rest);
    assert [] + JsonItems(vs) == JsonItems(vs);
    if fault.None? {
      NoElement(rest, 0, n - |vs|, n - |vs|, |vs|, |vs|, doc, "");
    } else {
      StopsAtOther(rest, n - |vs|, |vs|, doc);
    }
    MoreElements(list, |vs|, n, n - |vs|, 0, |vs|, JArray([]), "", Outcome(rest, doc, None), Outcome(rest, doc, fault));
  }

  // An array is closed by the end of the list too; a node of another kind where an item belongs ends the dump.
  lemma ArrayLists(vs: seq<Value>, n: nat, rest: seq<Item>)
    requires |vs| <= n && |vs| < U32 && forall i :: 0 <= i < |vs| ==> Dumpable(vs[i])
    requires |vs| == n || rest == [] || rest[0].Other?
    ensures var r := Dump([ArrayItem(n)] + (FlattenItems(vs) + rest), JNull, "");
            && r.rest == rest && Stands(r.doc, VArray(vs))
            && r.fault == if |vs| == n || rest == [] then None else Some(InvalidData)
  {
    assert Parse("") == Some([]);
    var list := FlattenItems(vs) + rest;
    assert ([ArrayItem(n)] + list)[1..] == list;
    ArrayEnds(vs, n, rest, if |vs| == n || rest == [] then None else Some(InvalidData));
    ValueStands(VArray(vs));
  }
}
