/** What is dumped of a flattened value whose keys need no escape is the value. */
module MmdbRoundTrip {
  import opened Wrappers
  import opened JsonModel
  import opened JsonPointer
  import opened MmdbDump
  import opened MmdbValues
  import opened MmdbPlaces

  lemma NextMember(list: seq<Item>, size: nat, d: Json, path: string, later: seq<Item>, d': Json)
    requires size > 0 && list != [] && IsKey(list[0])
    requires Dump(list[1..], d, path + "/" + list[0].scalar.text) == Outcome(later, d', None)
    ensures DumpMembers(list, size, d, path) == DumpMembers(later, size - 1, d', path)
  {
  }

  lemma NextElement(list: seq<Item>, size: nat, index: nat, d: Json, path: string, later: seq<Item>, d': Json)
    requires size > 0 && list != []
    requires Dump(list, d, ElementPath(path, index)) == Outcome(later, d', None)
    ensures DumpElements(list, size, index, d, path) == DumpElements(later, size - 1, index + 1, d', path)
  {
    ElementsStep(list, size, index, d, path);
  }

  lemma KeyPlace(key: string)
    requires PlainKey(key)
    ensures '\0' !in "/" + key && Tokens("/" + key) == Some([key])
  {
    KeyTokens(key);
    PlainPath("/" + key);
  }

  // Setting one member, known or new.
  lemma SetMember(ms: seq<Member>, key: string, x: Json)
    ensures Steady(JObject(ms), [key]) && SetAt(JObject(ms), [key], x) == JObject(PutMember(ms, key, x))
  {
    assert [key][1..] == [];
  }

  lemma PlainDecimal(n: nat)
    ensures PlainKey(Decimal(n)) && Decimal(n) != "-"
  {
    DecimalDigits(n);
    forall c | c in Decimal(n) ensures IsDigit(c) { }
    assert IsDigit(Decimal(n)[0]);
  }

  lemma PushElement(js: seq<Json>, key: string, j: Json)
    requires Index(key) == Some(|js|) && key != "-"
    ensures Steady(JArray(js), [key]) && SetAt(JArray(js), [key], j) == JArray(js + [j])
  {
    assert [key][1..] == [];
    assert Pad(js, |js| + 1)[|js| := j] == js + [j];
  }

  // An entry puts one member.
  lemma EntryDumped(key: string, value: Value, later: seq<Item>, ms: seq<Member>)
    requires PlainKey(key) && Dumpable(value)
    ensures Dump(Flatten(value) + later, JObject(ms), "/" + key) ==
            Outcome(later, JObject(PutMember(ms, key, JsonOf(value))), None)
    decreases value, 1
  {
    KeyPlace(key);
    SetMember(ms, key, JsonOf(value));
    DumpPlaced(value, later, JObject(ms), "/" + key, [key]);
    RootDumped(value, later);
  }

  // The place behind the last element.
  lemma ElementPlace(js: seq<Json>, x: Json)
    requires |js| < U32 - 1
    ensures Place(JArray(js), ElementPath("", |js|), [Decimal(|js|)])
    ensures SetAt(JArray(js), [Decimal(|js|)], x) == JArray(js + [x])
  {
    var key := Decimal(|js|);
    IndexOfDecimal(|js|);
    PlainDecimal(|js|);
    KeyPlace(key);
    assert "" + "/" + key == "/" + key;
    PushElement(js, key, x);
  }

  // An item appends one element.
  lemma ItemDumped(value: Value, later: seq<Item>, js: seq<Json>)
    requires Dumpable(value) && |js| < U32 - 1
    ensures Dump(Flatten(value) + later, JArray(js), ElementPath("", |js|)) ==
            Outcome(later, JArray(js + [JsonOf(value)]), None)
    decreases value, 1
  {
    ElementPlace(js, JsonOf(value));
    DumpPlaced(value, later, JArray(js), ElementPath("", |js|), [Decimal(|js|)]);
    RootDumped(value, later);
  }

  // Into an empty document.
  lemma {:induction false} RootDumped(v: Value, rest: seq<Item>)
    requires Dumpable(v)
    ensures Dump(Flatten(v) + rest, JNull, "") == Outcome(rest, JsonOf(v), None)
    decreases v, 0
  {
    var list := Flatten(v) + rest;
    assert Parse("") == Some([]);
    match v
    case Leaf(_) =>
      assert list[1..] == rest;
    case VMap(es) =>
      assert list[1..] == FlattenEntries(es) + rest;
      EntriesDumped(es, [], rest);
    case VArray(vs) =>
      assert list[1..] == FlattenItems(vs) + rest;
      ItemsDumped(vs, [], rest);
      assert [] + JsonItems(vs) == JsonItems(vs);
  }

  lemma {:induction false} EntriesDumped(es: seq<Entry>, ms: seq<Member>, rest: seq<Item>)
    requires forall i :: 0 <= i < |es| ==> PlainKey(es[i].key) && Dumpable(es[i].value)
    ensures DumpMembers(FlattenEntries(es) + rest, |es|, JObject(ms), "") ==
            Outcome(rest, JObject(AddEntries(ms, es)), None)
    decreases es
  {
    if es == [] {
      assert FlattenEntries(es) + rest == rest;
    } else {
      var more, later := PutMember(ms, es[0].key, JsonOf(es[0].value)), FlattenEntries(es[1..]) + rest;
      FirstEntry(es, rest);
      assert "" + "/" + es[0].key == "/" + es[0].key;
      EntryDumped(es[0].key, es[0].value, later, ms);
      NextMember(FlattenEntries(es) + rest, |es|, JObject(ms), "", later, JObject(more));
      EntriesDumped(es[1..], more, rest);
    }
  }

  lemma {:induction false} ItemsDumped(vs: seq<Value>, js: seq<Json>, rest: seq<Item>)
    requires forall i :: 0 <= i < |vs| ==> Dumpable(vs[i])
    requires |js| + |vs| < U32
    ensures DumpElements(FlattenItems(vs) + rest, |vs|, |js|, JArray(js), "") ==
            Outcome(rest, JArray(js + JsonItems(vs)), None)
    decreases vs
  {
    if vs == [] {
      assert FlattenItems(vs) + rest == rest && js + JsonItems(vs) == js;
    } else {
      var more, later := js + [JsonOf(vs[0])], FlattenItems(vs[1..]) + rest;
      FirstItem(vs, rest);
      ItemDumped(vs[0], later, js);
      NextElement(FlattenItems(vs) + rest, |vs|, |js|, JArray(js), "", later, JArray(more));
      ItemsDumped(vs[1..], more, rest);
      AppendOne(js, JsonOf(vs[0]), JsonItems(vs[1..]));
    }
  }

  // Dumping a flattened value consumes exactly its nodes and sets the path, and only it, to the value.
  lemma DumpFlattened(v: Value, rest: seq<Item>, doc: Json, path: string, ts: seq<string>)
    requires Dumpable(v) && Place(doc, path, ts)
    ensures Dump(Flatten(v) + rest, doc, path) == Outcome(rest, SetAt(doc, ts, JsonOf(v)), None)
  {
    DumpPlaced(v, rest, doc, path, ts);
    RootDumped(v, rest);
  }
}
