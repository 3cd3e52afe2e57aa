/** A dump at a place of a document is a dump of its own, put there. */
module MmdbPlaces {
  import opened Wrappers
  import opened JsonModel
  import opened JsonPointer
  import opened MmdbDump
  import opened MmdbValues

  lemma PlainPath(path: string)
    requires '\0' !in path
    ensures Parse(path) == Tokens(path)
  {
    CStrOf(path);
  }

  // The path leads to one place of the document, however often it is resolved.
  predicate Place(doc: Json, path: string, ts: seq<string>) {
    '\0' !in path && Tokens(path) == Some(ts) && Steady(doc, ts)
  }

  function Placed(r: Outcome, put: Json -> Json): Outcome {
    Outcome(r.rest, put(r.doc), r.fault)
  }

  // ----- a dump below a place is a dump of its own -----

  // Setting at the path and on is setting further on, and putting the result at the place.
  ghost predicate Carries(put: Json -> Json, path: string) {
    forall a, sub, x :: sub == "" || sub[0] == '/' ==> Carried(put, path, a, sub, x)
  }

  ghost predicate Carried(put: Json -> Json, path: string, a: Json, sub: string, x: Json) {
    && (Parse(path + sub).Some? <==> Parse(sub).Some?)
    && (Parse(sub).Some? && Parse(path + sub).Some? ==>
          SetAt(put(a), Parse(path + sub).value, x) == put(SetAt(a, Parse(sub).value, x)))
  }

  lemma ParseBelow(path: string, sub: string)
    requires '\0' !in path && (sub == "" || sub[0] == '/')
    ensures Parse(path + sub) == Both(Tokens(path), Parse(sub))
  {
    CStrAppend(path, sub);
    TokensAppend(path, CStr(sub));
  }

  lemma PlaceCarries(doc: Json, path: string, ts: seq<string>)
    requires Place(doc, path, ts)
    ensures Carries(a => SetAt(doc, ts, a), path)
  {
    var put := a => SetAt(doc, ts, a);
    forall a, sub: string, x | sub == "" || sub[0] == '/' ensures Carried(put, path, a, sub, x) {
      ParseBelow(path, sub);
      if Parse(sub).Some? { SetBelow(doc, ts, a, Parse(sub).value, x); }
    }
  }

  lemma SubPath(path: string, sub: string, key: string)
    requires sub == "" || sub[0] == '/'
    ensures path + sub + "/" + key == path + (sub + "/" + key)
    ensures (sub + "/" + key)[0] == '/'
  {
  }

  // Whatever the list, and fault or not.
  lemma {:induction false} DumpBelow(list: seq<Item>, put: Json -> Json, path: string, a: Json, sub: string)
    requires Carries(put, path) && (sub == "" || sub[0] == '/')
    ensures Dump(list, put(a), path + sub) == Placed(Dump(list, a, sub), put)
    decreases |list|, 1
  {
    if list != [] && !list[0].Other? {
      var x := match list[0]
        case MapItem(_) => JObject([])
        case ArrayItem(_) => JArray([])
        case Data(s) => ScalarJson(s);
      assert Carried(put, path, a, sub, x);
      if Parse(sub).Some? {
        var b := SetAt(a, Parse(sub).value, x);
        match list[0]
        case MapItem(size) => MembersBelow(list[1..], size, put, path, b, sub);
        case ArrayItem(size) => ElementsBelow(list[1..], size, 0, put, path, b, sub);
        case Data(_) =>
      }
    }
  }

  lemma MembersBelowStep(list: seq<Item>, size: nat, put: Json -> Json, path: string, sub: string, a: Json,
                         b: Json, r: Outcome)
    requires size > 0 && list != [] && IsKey(list[0])
    requires Dump(list[1..], a, sub + "/" + list[0].scalar.text) == r
    requires Dump(list[1..], b, path + "/" + list[0].scalar.text) == Placed(r, put)
    requires r.fault.None? ==>
      DumpMembers(r.rest, size - 1, put(r.doc), path) == Placed(DumpMembers(r.rest, size - 1, r.doc, sub), put)
    ensures DumpMembers(list, size, b, path) == Placed(DumpMembers(list, size, a, sub), put)
  {
    MembersStep(list, size, b, path, Placed(r, put));
    MembersStep(list, size, a, sub, r);
  }

  lemma {:induction false} MembersBelow(list: seq<Item>, size: nat, put: Json -> Json, path: string, a: Json,
                                        sub: string)
    requires Carries(put, path) && (sub == "" || sub[0] == '/')
    ensures DumpMembers(list, size, put(a), path + sub) == Placed(DumpMembers(list, size, a, sub), put)
    decreases |list|, 0
  {
    if size > 0 && list != [] && IsKey(list[0]) { NextBelow(list, size, put, path, a, sub); }
  }

  lemma NextBelow(list: seq<Item>, size: nat, put: Json -> Json, path: string, a: Json, sub: string)
    requires Carries(put, path) && (sub == "" || sub[0] == '/')
    requires size > 0 && list != [] && IsKey(list[0])
    ensures DumpMembers(list, size, put(a), path + sub) == Placed(DumpMembers(list, size, a, sub), put)
    decreases |list| - 1, 2
  {
    var key := list[0].scalar.text;
    SubPath(path, sub, key);
    var r := Dump(list[1..], a, sub + "/" + key);
    DumpBelow(list[1..], put, path, a, sub + "/" + key);
    if r.fault.None? { MembersBelow(r.rest, size - 1, put, path, r.doc, sub); }
    MembersBelowStep(list, size, put, path + sub, sub, a, put(a), r);
  }

  lemma ElementsBelowStep(list: seq<Item>, size: nat, index: nat, put: Json -> Json, path: string, sub: string,
                          a: Json, b: Json, r: Outcome)
    requires size > 0 && list != []
    requires Dump(list, a, ElementPath(sub, index)) == r
    requires Dump(list, b, ElementPath(path, index)) == Placed(r, put)
    requires r.fault.None? ==>
      DumpElements(r.rest, size - 1, index + 1, put(r.doc), path) == Placed(DumpElements(r.rest, size - 1,
        index + 1, r.doc, sub), put)
    ensures DumpElements(list, size, index, b, path) == Placed(DumpElements(list, size, index, a, sub), put)
  {
    ElementsStep(list, size, index, b, path);
    ElementsStep(list, size, index, a, sub);
  }

  lemma {:induction false} ElementsBelow(list: seq<Item>, size: nat, index: nat, put: Json -> Json,
                                         path: string, a: Json, sub: string)
    requires Carries(put, path) && (sub == "" || sub[0] == '/')
    ensures DumpElements(list, size, index, put(a), path + sub) == Placed(DumpElements(list, size, index, a, sub), put)
    decreases |list|, 3
  {
    if size > 0 && list != [] { NextElementBelow(list, size, index, put, path, a, sub); }
  }

  lemma NextElementBelow(list: seq<Item>, size: nat, index: nat, put: Json -> Json, path: string, a: Json, sub: string)
    requires Carries(put, path) && (sub == "" || sub[0] == '/')
    requires size > 0 && list != []
    ensures DumpElements(list, size, index, put(a), path + sub) == Placed(DumpElements(list, size, index, a, sub), put)
    decreases |list|, 2
  {
    SubPath(path, sub, Decimal(index));
    var r := Dump(list, a, ElementPath(sub, index));
    DumpBelow(list, put, path, a, ElementPath(sub, index));
    if r.fault.None? { ElementsBelow(r.rest, size - 1, index + 1, put, path, r.doc, sub); }
    ElementsBelowStep(list, size, index, put, path + sub, sub, a, put(a), r);
  }

  // The dump of a value at a place is its dump into an empty document, put there.
  lemma DumpPlaced(v: Value, rest: seq<Item>, doc: Json, path: string, ts: seq<string>)
    requires Place(doc, path, ts)
    ensures Dump(Flatten(v) + rest, doc, path) == Placed(Dump(Flatten(v) + rest, JNull, ""), a => SetAt(doc, ts, a))
  {
    var put := a => SetAt(doc, ts, a);
    PlaceCarries(doc, path, ts);
    var list := Flatten(v) + rest;
    PlainPath(path);
    assert Parse("") == Some([]);
    assert path + "" == path;
    match v
    case Leaf(_) =>
    case VMap(es) => MembersBelow(list[1..], |es|, put, path, JObject([]), "");
    case VArray(vs) => ElementsBelow(list[1..], |vs|, 0, put, path, JArray([]), "");
  }
}
