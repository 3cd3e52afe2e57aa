/** Keys are dumped unescaped: for which values the dump is right all the same. */
module MmdbExact {
  import opened Wrappers
  import opened JsonModel
  import opened JsonPointer
  import opened MmdbDump
  import opened MmdbValues
  import opened MmdbPlaces
  import opened MmdbRoundTrip

  // No map repeats a key, and the size of every array is a 32-bit number.
  predicate WellFormed(v: Value) {
    match v
    case Leaf(_) => true
    case VMap(entries) => DistinctKeys(entries) && forall i :: 0 <= i < |entries| ==> WellFormed(entries[i].value)
    case VArray(items) => |items| < U32 && forall i :: 0 <= i < |items| ==> WellFormed(items[i])
  }

  predicate DistinctKeys(es: seq<Entry>) {
    forall i, j :: 0 <= i < j < |es| ==> es[i].key != es[j].key
  }

  // ----- what is consumed -----

  // Without a fault exactly the nodes of the value are consumed, whatever its keys.
  lemma {:induction false} RestKept(v: Value, rest: seq<Item>, doc: Json, path: string)
    ensures var r := Dump(Flatten(v) + rest, doc, path); r.fault.None? ==> r.rest == rest
    decreases v
  {
    var list := Flatten(v) + rest;
    if Parse(path).Some? {
      var ts := Parse(path).value;
      match v
      case Leaf(_) =>
        assert list[1..] == rest;
      case VMap(es) =>
        assert list[1..] == FlattenEntries(es) + rest;
        EntriesKept(es, rest, SetAt(doc, ts, JObject([])), path);
      case VArray(vs) =>
        assert list[1..] == FlattenItems(vs) + rest;
        ItemsKept(vs, 0, rest, SetAt(doc, ts, JArray([])), path);
    }
  }

  lemma {:induction false} EntriesKept(es: seq<Entry>, rest: seq<Item>, doc: Json, path: string)
    ensures var r := DumpMembers(FlattenEntries(es) + rest, |es|, doc, path); r.fault.None? ==> r.rest == rest
    decreases es
  {
    if es == [] {
      assert FlattenEntries(es) + rest == rest;
    } else {
      var later := FlattenEntries(es[1..]) + rest;
      FirstEntry(es, rest);
      var r := Dump(Flatten(es[0].value) + later, doc, path + "/" + es[0].key);
      RestKept(es[0].value, later, doc, path + "/" + es[0].key);
      EntriesKept(es[1..], rest, r.doc, path);
    }
  }

  lemma {:induction false} ItemsKept(vs: seq<Value>, index: nat, rest: seq<Item>, doc: Json, path: string)
    ensures var r := DumpElements(FlattenItems(vs) + rest, |vs|, index, doc, path); r.fault.None? ==> r.rest == rest
    decreases vs
  {
    if vs == [] {
      assert FlattenItems(vs) + rest == rest;
    } else {
      var later := FlattenItems(vs[1..]) + rest;
      FirstItem(vs, rest);
      ElementsStep(FlattenItems(vs) + rest, |vs|, index, doc, path);
      var r := Dump(Flatten(vs[0]) + later, doc, ElementPath(path, index));
      RestKept(vs[0], later, doc, ElementPath(path, index));
      ItemsKept(vs[1..], index + 1, rest, r.doc, path);
    }
  }

  // ----- which members a dump touches -----

  function Keys(ms: seq<Member>): set<string> {
    if ms == [] then {} else {ms[0].key} + Keys(ms[1..])
  }

  lemma {:induction false} KeyListed(ms: seq<Member>, i: nat)
    requires i < |ms|
    ensures ms[i].key in Keys(ms)
  {
    if i > 0 { KeyListed(ms[1..], i - 1); }
  }

  lemma PutTail(ms: seq<Member>, key: string, j: Json)
    requires ms != [] && ms[0].key != key
    ensures PutMember(ms, key, j) == [ms[0]] + PutMember(ms[1..], key, j)
  {
    var i := FindMember(ms[1..], key);
    assert ms == [ms[0]] + ms[1..];
    FindFirst(ms, key, i + 1);
  }

  lemma PutHead(ms: seq<Member>, key: string, j: Json)
    requires ms == [] || ms[0].key == key
    ensures PutMember(ms, key, j) == [Member(key, j)] + if ms == [] then [] else ms[1..]
  {
    FindFirst(ms, key, 0);
  }

  lemma KeysCons(m: Member, ms: seq<Member>)
    ensures Keys([m] + ms) == {m.key} + Keys(ms)
  {
    assert ([m] + ms)[1..] == ms;
  }

  lemma {:induction false} PutKeys(ms: seq<Member>, key: string, j: Json)
    ensures Keys(PutMember(ms, key, j)) == Keys(ms) + {key}
  {
    if ms == [] || ms[0].key == key {
      PutHead(ms, key, j);
      KeysCons(Member(key, j), if ms == [] then [] else ms[1..]);
    } else {
      PutTail(ms, key, j);
      KeysCons(ms[0], PutMember(ms[1..], key, j));
      PutKeys(ms[1..], key, j);
    }
  }

  lemma ParseLonger(path: string, more: string)
    requires Parse(path).Some? && more != "" && more[0] == '/'
    ensures Parse(path + more).Some? ==> Parse(path).value <= Parse(path + more).value
  {
    CStrOf(path);
    if '\0' in path { CStrStops(path, more); } else { ParseBelow(path, more); }
  }

  lemma {:induction false} CStrStops(p: string, s: string)
    requires '\0' in p
    ensures CStr(p + s) == CStr(p)
  {
    assert (p + s)[0] == p[0] && (p + s)[1..] == p[1..] + s;
    if p[0] != '\0' { CStrStops(p[1..], s); }
  }

  predicate LeadsTo(path: string, t: string) {
    Parse(path).Some? ==> Parse(path).value != [] && Parse(path).value[0] == t
  }

  lemma ParseMember(path: string, key: string, t: string)
    requires Parse(path).Some? && LeadsTo(path, t)
    ensures LeadsTo(path + "/" + key, t)
  {
    assert path + "/" + key == path + ("/" + key);
    ParseLonger(path, "/" + key);
  }

  ghost predicate HasKeys(r: Outcome, keys: set<string>) {
    r.fault.None? ==> r.doc.JObject? && Keys(r.doc.members) == keys
  }

  lemma {:induction false} DumpKeys(list: seq<Item>, ms: seq<Member>, path: string, t: string)
    requires LeadsTo(path, t)
    ensures HasKeys(Dump(list, JObject(ms), path), Keys(ms) + {t})
    decreases |list|, 0
  {
    if list != [] && !list[0].Other? && Parse(path).Some? {
      var ts := Parse(path).value;
      var x := match list[0]
        case MapItem(_) => JObject([])
        case ArrayItem(_) => JArray([])
        case Data(s) => ScalarJson(s);
      var j := SetAt(Child(JObject(ms), t), ts[1..], x);
      assert SetAt(JObject(ms), ts, x) == JObject(PutMember(ms, t, j));
      PutKeys(ms, t, j);
      match list[0]
      case MapItem(size) => MembersDumpKeys(list[1..], size, PutMember(ms, t, j), path, t);
      case ArrayItem(size) => ElementsDumpKeys(list[1..], size, 0, PutMember(ms, t, j), path, t);
      case Data(_) =>
    }
  }

  lemma MembersKeysStep(list: seq<Item>, size: nat, doc: Json, path: string, r: Outcome, keys: set<string>)
    requires size > 0 && list != [] && IsKey(list[0])
    requires Dump(list[1..], doc, path + "/" + list[0].scalar.text) == r
    requires r.fault.None? ==> HasKeys(DumpMembers(r.rest, size - 1, r.doc, path), keys)
    ensures HasKeys(DumpMembers(list, size, doc, path), keys)
  {
    MembersStep(list, size, doc, path, r);
  }

  lemma {:induction false} MembersDumpKeys(list: seq<Item>, size: nat, ms: seq<Member>, path: string, t: string)
    requires Parse(path).Some? && LeadsTo(path, t) && t in Keys(ms)
    ensures HasKeys(DumpMembers(list, size, JObject(ms), path), Keys(ms))
    decreases |list|, 0
  {
    if size > 0 && list != [] && IsKey(list[0]) { NextMemberDumpKeys(list, size, ms, path, t); }
  }

  lemma NextMemberDumpKeys(list: seq<Item>, size: nat, ms: seq<Member>, path: string, t: string)
    requires Parse(path).Some? && LeadsTo(path, t) && t in Keys(ms) && size > 0 && list != [] && IsKey(list[0])
    ensures HasKeys(DumpMembers(list, size, JObject(ms), path), Keys(ms))
    decreases |list| - 1, 4
  {
    var r := MemberDumpKeys(list, ms, path, t);
    if r.fault.None? { MembersDumpKeys(r.rest, size - 1, r.doc.members, path, t); }
    MembersKeysStep(list, size, JObject(ms), path, r, Keys(ms));
  }

  lemma MemberDumpKeys(list: seq<Item>, ms: seq<Member>, path: string, t: string) returns (r: Outcome)
    requires Parse(path).Some? && LeadsTo(path, t) && t in Keys(ms) && list != [] && IsKey(list[0])
    ensures r == Dump(list[1..], JObject(ms), path + "/" + list[0].scalar.text) && HasKeys(r, Keys(ms))
    ensures |r.rest| < |list|
    decreases |list| - 1, 3
  {
    var key := list[0].scalar.text;
    ParseMember(path, key, t);
    DumpKeys(list[1..], ms, path + "/" + key, t);
    assert Keys(ms) + {t} == Keys(ms);
    r := Dump(list[1..], JObject(ms), path + "/" + key);
  }

  lemma ElementsKeysStep(list: seq<Item>, size: nat, index: nat, doc: Json, path: string, r: Outcome, keys: set<string>)
    requires size > 0 && list != []
    requires Dump(list, doc, ElementPath(path, index)) == r
    requires r.fault.None? ==> HasKeys(DumpElements(r.rest, size - 1, index + 1, r.doc, path), keys)
    ensures HasKeys(DumpElements(list, size, index, doc, path), keys)
  {
    ElementsStep(list, size, index, doc, path);
  }

  lemma {:induction false} ElementsDumpKeys(list: seq<Item>, size: nat, index: nat, ms: seq<Member>,
                                            path: string, t: string)
    requires Parse(path).Some? && LeadsTo(path, t) && t in Keys(ms)
    ensures HasKeys(DumpElements(list, size, index, JObject(ms), path), Keys(ms))
    decreases |list|, 3
  {
    if size > 0 && list != [] { NextElementDumpKeys(list, size, index, ms, path, t); }
  }

  lemma NextElementDumpKeys(list: seq<Item>, size: nat, index: nat, ms: seq<Member>, path: string, t: string)
    requires Parse(path).Some? && LeadsTo(path, t) && t in Keys(ms) && size > 0 && list != []
    ensures HasKeys(DumpElements(list, size, index, JObject(ms), path), Keys(ms))
    decreases |list|, 2
  {
    var r := ElementDumpKeys(list, index, ms, path, t);
    if r.fault.None? { ElementsDumpKeys(r.rest, size - 1, index + 1, r.doc.members, path, t); }
    ElementsKeysStep(list, size, index, JObject(ms), path, r, Keys(ms));
  }

  lemma ElementDumpKeys(list: seq<Item>, index: nat, ms: seq<Member>, path: string, t: string) returns (r: Outcome)
    requires Parse(path).Some? && LeadsTo(path, t) && t in Keys(ms)
    ensures r == Dump(list, JObject(ms), ElementPath(path, index)) && HasKeys(r, Keys(ms))
    ensures r.fault.None? ==> |r.rest| < |list|
    decreases |list|, 1
  {
    ParseMember(path, Decimal(index), t);
    DumpKeys(list, ms, ElementPath(path, index), t);
    assert Keys(ms) + {t} == Keys(ms);
    r := Dump(list, JObject(ms), ElementPath(path, index));
  }

  // The member of the document that a key leads to.
  function First(key: string): string {
    match Parse("/" + key)
    case None => ""
    case Some(ts) => if ts == [] then "" else ts[0]
  }

  function Firsts(es: seq<Entry>): set<string> {
    set e | e in es :: First(e.key)
  }

  ghost predicate Touched(r: Outcome, es: seq<Entry>, ms: seq<Member>) {
    r.fault.None? ==>
      && HasKeys(r, Keys(ms) + Firsts(es))
      && forall i :: 0 <= i < |es| ==> Parse("/" + es[i].key).Some?
  }

  lemma {:induction false} MapKeys(es: seq<Entry>, ms: seq<Member>, rest: seq<Item>)
    ensures Touched(DumpMembers(FlattenEntries(es) + rest, |es|, JObject(ms), ""), es, ms)
    decreases es
  {
    if es != [] {
      var r := EntryTouches(es, ms, rest);
      if r.fault.None? {
        MapKeys(es[1..], r.doc.members, rest);
        TouchedStep(es, ms, r.doc.members, DumpMembers(FlattenEntries(es[1..]) + rest, |es| - 1, r.doc, ""));
      }
    }
  }

  lemma EntryTouches(es: seq<Entry>, ms: seq<Member>, rest: seq<Item>) returns (r: Outcome)
    requires es != []
    ensures HasKeys(r, Keys(ms) + {First(es[0].key)})
    ensures r.fault.None? ==> Parse("/" + es[0].key).Some?
    ensures DumpMembers(FlattenEntries(es) + rest, |es|, JObject(ms), "") ==
            if r.fault.Some? then r else DumpMembers(FlattenEntries(es[1..]) + rest, |es| - 1, r.doc, "")
  {
    var later, key := FlattenEntries(es[1..]) + rest, es[0].key;
    FirstEntry(es, rest);
    assert "" + "/" + key == "/" + key;
    KeyTokens(key);
    DumpKeys(Flatten(es[0].value) + later, ms, "/" + key, First(key));
    r := Dump(Flatten(es[0].value) + later, JObject(ms), "/" + key);
    RestKept(es[0].value, later, JObject(ms), "/" + key);
    NotEmpty(es[0].value);
    MembersStep(FlattenEntries(es) + rest, |es|, JObject(ms), "", r);
  }

  lemma TouchedStep(es: seq<Entry>, ms: seq<Member>, more: seq<Member>, r: Outcome)
    requires es != [] && Touched(r, es[1..], more)
    requires Keys(more) == Keys(ms) + {First(es[0].key)} && Parse("/" + es[0].key).Some?
    ensures Touched(r, es, ms)
  {
    FirstsStep(es);
    assert forall i :: 0 < i < |es| ==> es[i] == es[1..][i - 1];
  }

  lemma FirstsStep(es: seq<Entry>)
    requires es != []
    ensures Firsts(es) == {First(es[0].key)} + Firsts(es[1..])
  {
    assert forall e :: e in es <==> e == es[0] || e in es[1..];
  }

  // ----- the keys of a right dump are plain -----

  lemma {:induction false} DecodeShortens(s: string)
    ensures Decode(s).Some? && |Decode(s).value| == |s| ==> Decode(s).value == s
  {
    if s != "" && s[0] != '~' {
      DecodeShortens(s[1..]);
      assert s == [s[0]] + s[1..];
    }
  }

  lemma FirstShorter(key: string)
    requires Parse("/" + key).Some?
    ensures PlainKey(key) ==> First(key) == key
    ensures !PlainKey(key) ==> |First(key)| < |key|
  {
    KeyTokens(key);
    CStrOf(key);
    assert ("/" + key)[1..] == key;
    var s := CStr("/" + key);
    assert s[1..] == CStr(key);
    var raw := UpToSlash(CStr(key));
    assert First(key) == Decode(raw).value;
    if |First(key)| == |key| {
      DecodeShortens(raw);
      assert raw == key;
    }
  }

  // When every key is the first token of some key, no key can be shortened.
  lemma {:induction false} NoneShortened(es: seq<Entry>, i: nat, longest: nat)
    requires forall k :: 0 <= k < |es| ==> Parse("/" + es[k].key).Some? && |es[k].key| <= longest
    requires forall k :: 0 <= k < |es| ==> es[k].key in Firsts(es)
    requires i < |es|
    ensures PlainKey(es[i].key)
    decreases longest - |es[i].key|
  {
    if !PlainKey(es[i].key) {
      var e :| e in es && First(e.key) == es[i].key;
      var k :| 0 <= k < |es| && es[k] == e;
      FirstShorter(e.key);
      NoneShortened(es, k, longest);
    }
  }

  function Longest(es: seq<Entry>): (r: nat)
    ensures forall i :: 0 <= i < |es| ==> |es[i].key| <= r
  {
    if es == [] then 0
    else
      var n := Longest(es[1..]);
      if |es[0].key| > n then |es[0].key| else n
  }

  lemma RightMapIsPlain(es: seq<Entry>, rest: seq<Item>)
    requires DistinctKeys(es)
    requires DumpMembers(FlattenEntries(es) + rest, |es|, JObject([]), "") ==
             Outcome(rest, JObject(AddEntries([], es)), None)
    ensures forall i :: 0 <= i < |es| ==> PlainKey(es[i].key)
  {
    MapKeys(es, [], rest);
    assert Keys([]) + Firsts(es) == Firsts(es);
    forall i | 0 <= i < |es| ensures es[i].key in Firsts(es) { KeyExpected(es, i); }
    forall i | 0 <= i < |es| ensures PlainKey(es[i].key) { NoneShortened(es, i, Longest(es)); }
  }

  lemma KeyExpected(es: seq<Entry>, i: nat)
    requires DistinctKeys(es) && i < |es|
    ensures es[i].key in Keys(AddEntries([], es))
  {
    DistinctMembers([], es);
    var ms := AddEntries([], es);
    assert ms[i] == Member(es[i].key, JsonOf(es[i].value));
    KeyListed(ms, i);
  }

  // ----- the exact condition -----

  // A well-formed value is dumped right exactly when none of its keys needs an escape in a pointer.
  lemma DumpExactly(v: Value, rest: seq<Item>, doc: Json, path: string, ts: seq<string>)
    requires WellFormed(v) && Place(doc, path, ts)
    ensures Dump(Flatten(v) + rest, doc, path) == Outcome(rest, SetAt(doc, ts, JsonOf(v)), None) <==> Dumpable(v)
    decreases v, 1
  {
    if Dumpable(v) {
      DumpFlattened(v, rest, doc, path, ts);
    } else {
      DumpPlaced(v, rest, doc, path, ts);
      var r := Dump(Flatten(v) + rest, JNull, "");
      NotDumped(v, rest);
      GetSet(doc, ts, r.doc);
      GetSet(doc, ts, JsonOf(v));
    }
  }

  lemma {:induction false} NotDumped(v: Value, rest: seq<Item>)
    requires WellFormed(v) && !Dumpable(v)
    ensures Dump(Flatten(v) + rest, JNull, "") != Outcome(rest, JsonOf(v), None)
    decreases v, 0
  {
    var list := Flatten(v) + rest;
    assert Parse("") == Some([]);
    match v
    case Leaf(_) =>
    case VMap(es) =>
      assert list[1..] == FlattenEntries(es) + rest;
      var r := DumpMembers(FlattenEntries(es) + rest, |es|, JObject([]), "");
      if r == Outcome(rest, JsonOf(v), None) {
        RightMapIsPlain(es, rest);
        RightEntries(es, [], rest, r);
        assert false;
      }
    case VArray(vs) =>
      assert list[1..] == FlattenItems(vs) + rest;
      var r := DumpElements(FlattenItems(vs) + rest, |vs|, 0, JArray([]), "");
      if r == Outcome(rest, JsonOf(v), None) {
        assert [] + JsonItems(vs) == JsonItems(vs);
        RightItems(vs, [], rest, r);
        assert false;
      }
  }

  // Entries that become new members under their own keys.
  predicate Addable(es: seq<Entry>, ms: seq<Member>) {
    && DistinctKeys(es)
    && (forall i :: 0 <= i < |es| ==> PlainKey(es[i].key) && WellFormed(es[i].value))
    && (forall i, k :: 0 <= i < |es| && 0 <= k < |ms| ==> es[i].key != ms[k].key)
  }

  ghost predicate AllRight(j: Json, es: seq<Entry>, ms: seq<Member>) {
    && j.JObject? && ms <= j.members
    && (j == JObject(AddEntries(ms, es)) ==> forall i :: 0 <= i < |es| ==> Dumpable(es[i].value))
  }

  lemma AddableNext(es: seq<Entry>, ms: seq<Member>, x: Json)
    requires es != [] && Addable(es, ms)
    ensures Addable(es[1..], ms + [Member(es[0].key, x)])
  {
  }

  lemma AllRightStep(es: seq<Entry>, ms: seq<Member>, x: Json, j: Json)
    requires es != [] && Addable(es, ms)
    requires x == JsonOf(es[0].value) ==> Dumpable(es[0].value)
    requires AllRight(j, es[1..], ms + [Member(es[0].key, x)])
    ensures AllRight(j, es, ms)
  {
    if j == JObject(AddEntries(ms, es)) { FirstRight(es, ms, x, j.members); }
    assert forall i :: 0 < i < |es| ==> es[i] == es[1..][i - 1];
  }

  lemma FirstRight(es: seq<Entry>, ms: seq<Member>, x: Json, members: seq<Member>)
    requires es != [] && Addable(es, ms)
    requires ms + [Member(es[0].key, x)] <= members == AddEntries(ms, es)
    ensures x == JsonOf(es[0].value) && members == AddEntries(ms + [Member(es[0].key, x)], es[1..])
  {
    DistinctMembers(ms, es);
    assert members[|ms|] == Member(es[0].key, x);
    PutNew(ms, es[0].key, x);
  }

  // When the members come out right, so did every one of them.
  lemma {:induction false} RightEntries(es: seq<Entry>, ms: seq<Member>, rest: seq<Item>, r: Outcome)
    requires Addable(es, ms)
    requires r == DumpMembers(FlattenEntries(es) + rest, |es|, JObject(ms), "") && r.fault.None?
    ensures AllRight(r.doc, es, ms)
    decreases es
  {
    if es == [] {
      assert r.doc == JObject(ms);
    } else {
      var x := EntryGoes(es, ms, rest);
      AddableNext(es, ms, x);
      RightEntries(es[1..], ms + [Member(es[0].key, x)], rest, r);
      AllRightStep(es, ms, x, r.doc);
    }
  }

  lemma PutNew(ms: seq<Member>, key: string, x: Json)
    requires forall k :: 0 <= k < |ms| ==> ms[k].key != key
    ensures PutMember(ms, key, x) == ms + [Member(key, x)]
  {
    FindFirst(ms, key, |ms|);
  }

  // Without a fault the first entry becomes one more member.
  lemma EntryGoes(es: seq<Entry>, ms: seq<Member>, rest: seq<Item>) returns (x: Json)
    requires es != [] && PlainKey(es[0].key) && WellFormed(es[0].value)
    requires forall k :: 0 <= k < |ms| ==> es[0].key != ms[k].key
    requires DumpMembers(FlattenEntries(es) + rest, |es|, JObject(ms), "").fault.None?
    ensures DumpMembers(FlattenEntries(es) + rest, |es|, JObject(ms), "") ==
            DumpMembers(FlattenEntries(es[1..]) + rest, |es| - 1, JObject(ms + [Member(es[0].key, x)]), "")
    ensures x == JsonOf(es[0].value) ==> Dumpable(es[0].value)
    decreases es[0].value, 2
  {
    var key, later, all := es[0].key, FlattenEntries(es[1..]) + rest, FlattenEntries(es) + rest;
    FirstEntry(es, rest);
    assert "" + "/" + key == "/" + key;
    MembersStep(all, |es|, JObject(ms), "", Dump(Flatten(es[0].value) + later, JObject(ms), "/" + key));
    x := EntryPlaced(key, es[0].value, ms, later);
  }

  lemma EntryPlaced(key: string, v: Value, ms: seq<Member>, later: seq<Item>) returns (x: Json)
    requires PlainKey(key) && WellFormed(v) && forall k :: 0 <= k < |ms| ==> ms[k].key != key
    requires Dump(Flatten(v) + later, JObject(ms), "/" + key).fault.None?
    ensures Dump(Flatten(v) + later, JObject(ms), "/" + key) == Outcome(later, JObject(ms + [Member(key, x)]), None)
    ensures x == JsonOf(v) ==> Dumpable(v)
    decreases v, 1
  {
    x := Dump(Flatten(v) + later, JNull, "").doc;
    PutNew(ms, key, x);
    SetMember(ms, key, x);
    KeyPlace(key);
    DumpPlaced(v, later, JObject(ms), "/" + key, [key]);
    RestKept(v, later, JObject(ms), "/" + key);
    if !Dumpable(v) { NotDumped(v, later); }
  }

  ghost predicate AllItemsRight(j: Json, vs: seq<Value>, js: seq<Json>) {
    && j.JArray? && js <= j.items
    && (j == JArray(js + JsonItems(vs)) ==> forall i :: 0 <= i < |vs| ==> Dumpable(vs[i]))
  }

  lemma AllItemsStep(vs: seq<Value>, js: seq<Json>, x: Json, j: Json)
    requires vs != [] && (x == JsonOf(vs[0]) ==> Dumpable(vs[0]))
    requires AllItemsRight(j, vs[1..], js + [x])
    ensures AllItemsRight(j, vs, js)
  {
    if j == JArray(js + JsonItems(vs)) {
      assert j.items[|js|] == x && JsonItems(vs)[0] == JsonOf(vs[0]);
      AppendOne(js, x, JsonItems(vs[1..]));
    }
    assert forall i :: 0 < i < |vs| ==> vs[i] == vs[1..][i - 1];
  }

  lemma {:induction false} RightItems(vs: seq<Value>, js: seq<Json>, rest: seq<Item>, r: Outcome)
    requires |js| + |vs| < U32 && forall i :: 0 <= i < |vs| ==> WellFormed(vs[i])
    requires r == DumpElements(FlattenItems(vs) + rest, |vs|, |js|, JArray(js), "") && r.fault.None?
    ensures AllItemsRight(r.doc, vs, js)
    decreases vs
  {
    if vs == [] {
      assert r.doc == JArray(js);
    } else {
      var x := ItemGoes(vs, js, rest);
      RightItems(vs[1..], js + [x], rest, r);
      AllItemsStep(vs, js, x, r.doc);
    }
  }

  // Without a fault the first item becomes one more element.
  lemma ItemGoes(vs: seq<Value>, js: seq<Json>, rest: seq<Item>) returns (x: Json)
    requires vs != [] && WellFormed(vs[0]) && |js| < U32 - 1
    requires DumpElements(FlattenItems(vs) + rest, |vs|, |js|, JArray(js), "").fault.None?
    ensures DumpElements(FlattenItems(vs) + rest, |vs|, |js|, JArray(js), "") ==
            DumpElements(FlattenItems(vs[1..]) + rest, |vs| - 1, |js| + 1, JArray(js + [x]), "")
    ensures x == JsonOf(vs[0]) ==> Dumpable(vs[0])
    decreases vs[0], 2
  {
    FirstItem(vs, rest);
    ElementsStep(FlattenItems(vs) + rest, |vs|, |js|, JArray(js), "");
    x := ItemPlaced(vs[0], js, FlattenItems(vs[1..]) + rest);
  }

  lemma ItemPlaced(v: Value, js: seq<Json>, later: seq<Item>) returns (x: Json)
    requires WellFormed(v) && |js| < U32 - 1
    requires Dump(Flatten(v) + later, JArray(js), ElementPath("", |js|)).fault.None?
    ensures Dump(Flatten(v) + later, JArray(js), ElementPath("", |js|)) == Outcome(later, JArray(js + [x]), None)
    ensures x == JsonOf(v) ==> Dumpable(v)
    decreases v, 1
  {
    var path, key := ElementPath("", |js|), Decimal(|js|);
    x := Dump(Flatten(v) + later, JNull, "").doc;
    ElementPlace(js, x);
    DumpPlaced(v, later, JArray(js), path, [key]);
    RestKept(v, later, JArray(js), path);
    if !Dumpable(v) { NotDumped(v, later); }
  }
}
