/** The registry's documents as they lie in the document store, under "geo". */
module GeoStore {
  import opened Wrappers
  import opened Names
  import opened JsonModel
  import opened JsonPointer
  import opened StoreView
  import opened GeoRegistry

  const INTERNAL_NAME := "geo"

  function DocName(name: string): Path { [INTERNAL_NAME, name] }

  // setType at "/path", "/hash" and "/type", on a new document.
  function Encode(path: string, hash: string, kind: string): Json {
    SetAt(SetAt(SetAt(JNull, ["path"], JString(path)), ["hash"], JString(hash)), ["type"], JString(kind))
  }

  // Json::getString, which reads a C string.
  function TextAt(j: Json, key: string): Option<string> {
    match GetAt(j, [key])
    case Some(JString(s)) => Some(CStr(s))
    case _ => None
  }

  function Decode(j: Json): GeoRegistry.Doc {
    Doc(TextAt(j, "path"), TextAt(j, "hash"), TextAt(j, "type"))
  }

  // ----- one document -----

  function Fields(path: string, hash: string, kind: string): seq<Member> {
    [Member("path", JString(path)), Member("hash", JString(hash)), Member("type", JString(kind))]
  }

  lemma SetField(ms: seq<Member>, key: string, j: Json)
    requires FindMember(ms, key) == |ms| && Index(key).None?
    ensures SetAt(JObject(ms), [key], j) == JObject(ms + [Member(key, j)])
  {
    assert [key][1..] == [];
  }

  lemma FirstField(key: string, j: Json)
    requires Index(key).None?
    ensures SetAt(JNull, [key], j) == JObject([Member(key, j)])
  {
    assert [key][1..] == [];
    assert Coerce(JNull, key) == JObject([]);
  }

  lemma EncodedFields(path: string, hash: string, kind: string)
    ensures Encode(path, hash, kind) == JObject(Fields(path, hash, kind))
  {
    assert !IsDigit("path"[0]);
    FirstField("path", JString(path));
    TwoMore([Member("path", JString(path))], JString(hash), JString(kind));
  }

  lemma TwoMore(ms: seq<Member>, hash: Json, kind: Json)
    requires |ms| == 1 && ms[0].key == "path"
    ensures SetAt(SetAt(JObject(ms), ["hash"], hash), ["type"], kind) ==
            JObject(ms + [Member("hash", hash), Member("type", kind)])
  {
    assert !IsDigit("hash"[0]) && !IsDigit("type"[0]);
    var more := ms + [Member("hash", hash)];
    FindFirst(ms, "hash", 1);
    SetField(ms, "hash", hash);
    FindFirst(more, "type", 2);
    SetField(more, "type", kind);
    assert more + [Member("type", kind)] == ms + [Member("hash", hash), Member("type", kind)];
  }

  lemma ReadsText(ms: seq<Member>, key: string, i: nat, text: string)
    requires i < |ms| && ms[i] == Member(key, JString(text)) && forall k :: 0 <= k < i ==> ms[k].key != key
    ensures TextAt(JObject(ms), key) == Some(CStr(text))
  {
    FindFirst(ms, key, i);
    ReadsMember(ms, key);
  }

  lemma FieldsRead(path: string, hash: string, kind: string)
    ensures Decode(JObject(Fields(path, hash, kind))) == Doc(Some(CStr(path)), Some(CStr(hash)), Some(CStr(kind)))
  {
    var ms := Fields(path, hash, kind);
    ReadsText(ms, "path", 0, path);
    ReadsText(ms, "hash", 1, hash);
    ReadsText(ms, "type", 2, kind);
  }

  // What the registry writes is what it reads, unless a NUL ends a text early.
  lemma EncodeReads(path: string, hash: string, kind: string)
    ensures Decode(Encode(path, hash, kind)) == Doc(Some(path), Some(hash), Some(kind)) <==>
            '\0' !in path && '\0' !in hash && '\0' !in kind
  {
    EncodedFields(path, hash, kind);
    FieldsRead(path, hash, kind);
    CStrOf(path);
    CStrOf(hash);
    CStrOf(kind);
  }

  lemma ReadsMember(members: seq<Member>, key: string)
    requires FindMember(members, key) < |members|
    ensures GetAt(JObject(members), [key]) == Some(members[FindMember(members, key)].value)
  {
    assert [key][1..] == [];
  }

  // The store accepts the document.
  lemma EncodeDistinct(path: string, hash: string, kind: string)
    ensures !HasDuplicateKeys(Encode(path, hash, kind))
  {
    EncodedFields(path, hash, kind);
    FieldsDistinct(path, hash, kind);
  }

  lemma FieldsDistinct(path: string, hash: string, kind: string)
    ensures !HasDuplicateKeys(JObject(Fields(path, hash, kind)))
  {
    KeysDistinct();
    TextsDistinct("path", path, "hash", hash, "type", kind);
  }

  lemma TextsDistinct(a: string, x: string, b: string, y: string, c: string, z: string)
    requires CStr(a) != CStr(b) && CStr(a) != CStr(c) && CStr(b) != CStr(c)
    ensures !HasDuplicateKeys(JObject([Member(a, JString(x)), Member(b, JString(y)), Member(c, JString(z))]))
  {
    NoRepeats([Member(a, JString(x)), Member(b, JString(y)), Member(c, JString(z))]);
  }

  lemma KeysDistinct()
    ensures CStr("path") != CStr("hash") && CStr("path") != CStr("type") && CStr("hash") != CStr("type")
  {
    StartsApart("path", "hash");
    StartsApart("path", "type");
    StartsApart("hash", "type");
  }

  lemma StartsApart(a: string, b: string)
    requires a != "" && b != "" && a[0] != b[0] && a[0] != '\0'
    ensures CStr(a) != CStr(b)
  {
    assert CStr(a)[0] == a[0];
    if b[0] != '\0' { assert CStr(b)[0] == b[0]; }
  }

  lemma NoRepeats(ms: seq<Member>)
    requires |ms| == 3 && forall i :: 0 <= i < 3 ==> ms[i].value.JString?
    requires CStr(ms[0].key) != CStr(ms[1].key) && CStr(ms[0].key) != CStr(ms[2].key) &&
             CStr(ms[1].key) != CStr(ms[2].key)
    ensures !HasDuplicateKeys(JObject(ms))
  {
  }

  // ----- one call of the store -----

  // The store holds exactly these documents under "geo".
  ghost predicate Represents(view: View, docs: map<string, GeoRegistry.Doc>) {
    && (forall w :: w in view.internals ==> w != [] && (w[0] == INTERNAL_NAME ==> |w| == 2))
    && (forall name :: DocName(name) in view.internals <==> name in docs)
    && (forall name :: name in docs ==> Decode(view.internals[DocName(name)]) == docs[name])
  }

  lemma NameOfDoc(name: string, other: string)
    ensures DocName(name) == DocName(other) <==> name == other
  {
    assert DocName(name)[1] == name && DocName(other)[1] == other;
  }

  // A name is free to be created unless it has a document already.
  lemma NoConflict(view: View, docs: map<string, GeoRegistry.Doc>, name: string, doc: Json)
    requires Represents(view, docs) && name !in docs && !HasDuplicateKeys(doc)
    ensures CreateInternalFailure(view.internals, DocName(name), doc).None?
  {
    var p := DocName(name);
    assert p !in view.internals;
    forall w | w in view.internals ensures !Within(p, w) && !Below(w, p) {
      if w[0] == INTERNAL_NAME { assert |w| == 2 && w != p; }
    }
  }

  lemma PutRepresents(view: View, docs: map<string, GeoRegistry.Doc>, name: string, doc: Json)
    requires Represents(view, docs)
    ensures Represents(view.(internals := view.internals[DocName(name) := doc]), docs[name := Decode(doc)])
  {
    forall other { NameOfDoc(name, other); }
  }

  lemma ValidDocName(name: string)
    requires PlainPart(name)
    ensures ValidName(DocName(name)) && DocName(name)[0] != NAMESPACES
  {
    assert INTERNAL_NAME[0] != NAMESPACES[0];
    assert PlainPart(INTERNAL_NAME);
  }

  lemma UpsertAccepted(view: View, docs: map<string, GeoRegistry.Doc>, name: string, doc: Json)
    requires Represents(view, docs) && PlainPart(name) && !HasDuplicateKeys(doc)
    ensures var op := UpsertInternal(DocName(name), doc);
            ValidOp(op) && Refusal(view, op).None?
  {
    ValidDocName(name);
    if name !in docs { NoConflict(view, docs, name, doc); }
  }

  lemma UpsertApplied(view: View, p: Path, doc: Json)
    requires ValidOp(UpsertInternal(p, doc)) && Refusal(view, UpsertInternal(p, doc)).None?
    ensures Apply(view, UpsertInternal(p, doc)) == view.(internals := view.internals[p := doc])
  {
  }

  // The store never refuses what the registry writes, and holds it afterwards.
  lemma UpsertRepresents(view: View, docs: map<string, GeoRegistry.Doc>, name: string, path: string,
                         hash: string, kind: Type)
    requires Represents(view, docs) && PlainPart(name) && '\0' !in path && '\0' !in hash
    ensures var op := UpsertInternal(DocName(name), Encode(path, hash, TypeName(kind)));
            && ValidOp(op) && Refusal(view, op).None?
            && Represents(Apply(view, op), docs[name := Complete(path, hash, kind)])
  {
    var doc := Encode(path, hash, TypeName(kind));
    EncodeDistinct(path, hash, TypeName(kind));
    EncodeReads(path, hash, TypeName(kind));
    UpsertAccepted(view, docs, name, doc);
    UpsertApplied(view, DocName(name), doc);
    PutRepresents(view, docs, name, doc);
  }

  // The store refuses a removal exactly when it has no such document.
  lemma DeleteRepresents(view: View, docs: map<string, GeoRegistry.Doc>, name: string)
    requires Represents(view, docs) && PlainPart(name)
    ensures var op := DeleteInternal(DocName(name));
            ValidOp(op) && (Refusal(view, op).None? <==> name in docs) && Represents(Apply(view, op), docs - {name})
  {
    ValidDocName(name);
    if name in docs {
      assert Apply(view, DeleteInternal(DocName(name))).internals == view.internals - {DocName(name)};
    } else {
      assert docs - {name} == docs;
    }
    forall other { NameOfDoc(name, other); }
  }

  // ----- whole runs -----

  // upsertStoreEntry, as far as it reaches the store and the store's disk answers.
  function EntryCalls(g: Registry, path: string, kind: Type, world: World): seq<StoreView.Op> {
    if world.fileHash.None? || !world.stores then []
    else [UpsertInternal(DocName(Filename(path)), Encode(path, world.fileHash.value, TypeName(kind)))]
  }

  function RemovalCalls(g: Registry, path: string, world: World): seq<StoreView.Op> {
    if Filename(path) in g.dbs && world.stores then [DeleteInternal(DocName(Filename(path)))] else []
  }

  // The writes of one call of the manager to the store.
  function Calls(g: Registry, op: GeoRegistry.Op): seq<StoreView.Op> {
    match op
    case Add(path, kind, world) =>
      if AddError(g, path, kind, world).Some? then [] else EntryCalls(g, path, kind, world)
    case Remove(path, world) => RemovalCalls(g, path, world)
    case RemoteUpsert(path, kind, world) =>
      var name := Filename(path);
      if !Downloads(g, path, kind, world) then []
      else if InstallError(g, path, kind, world) == Some(OpenFailed) then RemovalCalls(g, path, world)
      else if InstallError(g, path, kind, world).Some? then []
      else EntryCalls(g, path, if name in g.dbs then g.dbs[name].kind else kind, world)
  }

  function AllCalls(g: Registry, ops: seq<GeoRegistry.Op>): seq<StoreView.Op>
    decreases |ops|
  {
    if ops == [] then [] else Calls(g, ops[0]) + AllCalls(GeoRegistry.Step(g, ops[0]), ops[1..])
  }

  // Texts without NUL, as every path and hash is.
  predicate PlainTexts(op: GeoRegistry.Op) {
    '\0' !in op.path && (op.world.fileHash.Some? ==> '\0' !in op.world.fileHash.value)
  }

  ghost predicate PlainNames(g: Registry) {
    forall name :: name in g.dbs ==> PlainPart(name)
  }

  lemma EntryRepresents(view: View, g: Registry, path: string, kind: Type, world: World)
    requires Represents(view, g.docs) && PlainPart(Filename(path)) && '\0' !in path
    requires world.fileHash.Some? ==> '\0' !in world.fileHash.value
    requires Filename(path) in g.dbs && g.dbs[Filename(path)].kind == kind
    ensures ValidRun(EntryCalls(g, path, kind, world))
    ensures Represents(StoreView.Run(view, EntryCalls(g, path, kind, world)), UpsertStoreEntry(g, path, world).docs)
  {
    if world.fileHash.Some? && world.stores {
      var op := UpsertInternal(DocName(Filename(path)), Encode(path, world.fileHash.value, TypeName(kind)));
      UpsertRepresents(view, g.docs, Filename(path), path, world.fileHash.value, kind);
      RunOne(view, op);
    }
  }

  lemma RunOne(view: View, op: StoreView.Op)
    requires ValidOp(op)
    ensures ValidRun([op]) && StoreView.Run(view, [op]) == Apply(view, op)
  {
    assert [op][1..] == [];
  }

  lemma RemovalRepresents(view: View, g: Registry, path: string, world: World)
    requires Represents(view, g.docs) && PlainNames(g)
    ensures ValidRun(RemovalCalls(g, path, world))
    ensures Represents(StoreView.Run(view, RemovalCalls(g, path, world)), RemoveDb(g, path, world).docs)
  {
    if Filename(path) in g.dbs && world.stores {
      DeleteRepresents(view, g.docs, Filename(path));
      RunOne(view, DeleteInternal(DocName(Filename(path))));
    }
  }

  lemma StepPlain(g: Registry, op: GeoRegistry.Op)
    requires PlainNames(g)
    ensures PlainNames(GeoRegistry.Step(g, op))
  {
  }

  lemma AddRepresents(view: View, g: Registry, path: string, kind: Type, world: World)
    requires Represents(view, g.docs) && PlainTexts(Add(path, kind, world)) && AddError(g, path, kind, world).None?
    ensures ValidRun(EntryCalls(g, path, kind, world))
    ensures Represents(StoreView.Run(view, EntryCalls(g, path, kind, world)),
                       UpsertStoreEntry(Register(g, path, kind), path, world).docs)
  {
    EntryRepresents(view, Register(g, path, kind), path, kind, world);
  }

  lemma RemoteUpsertRepresents(view: View, g: Registry, path: string, kind: Type, world: World)
    requires Represents(view, g.docs) && PlainNames(g) && PlainTexts(RemoteUpsert(path, kind, world))
    ensures var op := RemoteUpsert(path, kind, world);
            ValidRun(Calls(g, op)) && Represents(StoreView.Run(view, Calls(g, op)), RemoteUpsertDb(g, path, kind,
            world).docs)
  {
    if Downloads(g, path, kind, world) {
      if InstallError(g, path, kind, world) == Some(OpenFailed) {
        RemovalRepresents(view, g, path, world);
      } else if InstallError(g, path, kind, world).None? {
        if Filename(path) in g.dbs {
          EntryRepresents(view, g, path, g.dbs[Filename(path)].kind, world);
        } else {
          AddRepresents(view, g, path, kind, world);
        }
      }
    }
  }

  lemma StepRepresents(view: View, g: Registry, op: GeoRegistry.Op)
    requires Represents(view, g.docs) && PlainNames(g) && PlainTexts(op)
    ensures ValidRun(Calls(g, op)) && Represents(StoreView.Run(view, Calls(g, op)), GeoRegistry.Step(g, op).docs)
  {
    match op
    case Add(path, kind, world) =>
      if AddError(g, path, kind, world).None? { AddRepresents(view, g, path, kind, world); }
    case Remove(path, world) => RemovalRepresents(view, g, path, world);
    case RemoteUpsert(path, kind, world) => RemoteUpsertRepresents(view, g, path, kind, world);
  }

  // Along every run of the manager, its writes keep the store holding exactly the registry's documents.
  lemma {:induction false} RunRepresents(view: View, g: Registry, ops: seq<GeoRegistry.Op>)
    requires Represents(view, g.docs) && PlainNames(g) && forall i :: 0 <= i < |ops| ==> PlainTexts(ops[i])
    ensures ValidRun(AllCalls(g, ops))
    ensures Represents(StoreView.Run(view, AllCalls(g, ops)), GeoRegistry.Run(g, ops).docs)
    decreases |ops|
  {
    if ops != [] {
      var u := GeoRegistry.Step(g, ops[0]);
      StepRepresents(view, g, ops[0]);
      StepPlain(g, ops[0]);
      RunRepresents(StoreView.Run(view, Calls(g, ops[0])), u, ops[1..]);
      RunAppend(view, Calls(g, ops[0]), AllCalls(u, ops[1..]));
    }
  }

  // ----- a restart over the store -----

  function NameAt(w: Path): string {
    if |w| > 1 then w[1] else ""
  }

  // readInternalCol("geo"): every document once, in no particular order.
  ghost predicate ListsGeo(view: View, listing: seq<Path>) {
    && (forall i, j :: 0 <= i < j < |listing| ==> listing[i] != listing[j])
    && (forall w :: w in listing <==> w in view.internals && Within([INTERNAL_NAME], w))
  }

  lemma ListedNames(view: View, docs: map<string, GeoRegistry.Doc>, listing: seq<Path>)
    requires Represents(view, docs) && ListsGeo(view, listing)
    ensures GeoRegistry.Distinct(ListedAs(listing)) && forall name :: name in ListedAs(listing) <==> name in docs
  {
    var list := ListedAs(listing);
    forall i | 0 <= i < |listing| ensures listing[i] == DocName(list[i]) && list[i] in docs {
      assert listing[i] in listing && listing[i][0] == [INTERNAL_NAME][0];
    }
    forall name | name in docs ensures name in list {
      assert DocName(name) in view.internals && Within([INTERNAL_NAME], DocName(name));
      var i :| 0 <= i < |listing| && listing[i] == DocName(name);
      assert list[i] == name;
    }
  }

  // The store and the manager are in step.
  ghost predicate InStep(view: View, g: Registry) {
    Represents(view, g.docs) && Inverse(g) && Synced(g)
  }

  lemma InStepPlain(view: View, g: Registry)
    requires InStep(view, g)
    ensures PlainNames(g)
  {
    forall name | name in g.dbs ensures PlainPart(name) { assert Describes(g.docs[name], name, g.dbs[name].kind); }
  }

  // The names that a listing of the collection gives the constructor.
  function ListedAs(listing: seq<Path>): seq<string> {
    seq(|listing|, i requires 0 <= i < |listing| => NameAt(listing[i]))
  }

  // The removals of the constructor, in the order of the listing.
  function LoadCalls(g: Registry, list: seq<string>, worlds: Answers): seq<StoreView.Op>
    decreases |list|
  {
    if list == [] then []
    else if list[0] !in g.docs then LoadCalls(g, list[1..], worlds)
    else
      var doc, world := g.docs[list[0]], worlds(list[0]);
      if doc.path.None? || doc.kind.None? || TypeFromName(doc.kind.value).None? then []
      else
        var kind := TypeFromName(doc.kind.value).value;
        if AddError(g, doc.path.value, kind, world).None? then
          LoadCalls(Register(g, doc.path.value, kind), list[1..], worlds)
        else
          (if world.stores then [DeleteInternal(DocName(list[0]))] else []) +
          LoadCalls(Forget(g, list[0], world), list[1..], worlds)
  }

  lemma ForgetRepresents(view: View, g: Registry, name: string, world: World)
    requires Represents(view, g.docs) && PlainPart(name)
    ensures var calls := if world.stores then [DeleteInternal(DocName(name))] else [];
            ValidRun(calls) && Represents(StoreView.Run(view, calls), Forget(g, name, world).docs)
  {
    if world.stores {
      DeleteRepresents(view, g.docs, name);
      RunOne(view, DeleteInternal(DocName(name)));
    }
  }

  // The store follows the constructor.
  lemma {:induction false} LoadRepresents(view: View, g: Registry, list: seq<string>, worlds: Answers)
    requires Represents(view, g.docs) && forall name :: name in list ==> PlainPart(name)
    requires Recover(g, list, worlds).Some?
    ensures ValidRun(LoadCalls(g, list, worlds))
    ensures Represents(StoreView.Run(view, LoadCalls(g, list, worlds)), Recover(g, list, worlds).value.docs)
    decreases |list|
  {
    if list != [] {
      var name, rest := list[0], list[1..];
      if name !in g.docs {
        LoadRepresents(view, g, rest, worlds);
      } else {
        var path, kind := g.docs[name].path.value, TypeFromName(g.docs[name].kind.value).value;
        if AddError(g, path, kind, worlds(name)).None? {
          LoadRepresents(view, Register(g, path, kind), rest, worlds);
        } else {
          var calls := if worlds(name).stores then [DeleteInternal(DocName(name))] else [];
          var u := Forget(g, name, worlds(name));
          ForgetRepresents(view, g, name, worlds(name));
          LoadRepresents(StoreView.Run(view, calls), u, rest, worlds);
          RunAppend(view, calls, LoadCalls(u, rest, worlds));
        }
      }
    }
  }

  // A new manager over the store that the old one wrote, listing what it finds there, registers exactly the databases
  // that open, and the store follows. It is in step with the store again where every other document could be deleted,
  // so that the same holds of the next run and the next restart.
  lemma RestartFromStore(view: View, was: Registry, ops: seq<GeoRegistry.Op>, listing: seq<Path>, worlds: Answers)
    requires InStep(view, was)
    requires forall i :: 0 <= i < |ops| ==> PlainTexts(ops[i]) && Reliable(ops[i].world)
    requires ValidRun(AllCalls(was, ops)) && ListsGeo(StoreView.Run(view, AllCalls(was, ops)), listing)
    ensures var g := GeoRegistry.Run(was, ops);
            var empty := Registry(map[], map[], g.docs);
            var r, calls := Recover(empty, ListedAs(listing), worlds), LoadCalls(empty, ListedAs(listing), worlds);
            && r.Some? && RecoveredAs(g, r.value, worlds) && ValidRun(calls)
            && Represents(StoreView.Run(StoreView.Run(view, AllCalls(was, ops)), calls), r.value.docs)
            && ((forall name :: name in g.dbs ==> worlds(name).opens || worlds(name).stores) ==>
                  InStep(StoreView.Run(StoreView.Run(view, AllCalls(was, ops)), calls), r.value))
  {
    var g, stored := GeoRegistry.Run(was, ops), StoreView.Run(view, AllCalls(was, ops));
    var empty := Registry(map[], map[], g.docs);
    InStepPlain(view, was);
    RunRepresents(view, was, ops);
    RunStaysPlain(was, ops);
    ListedNames(stored, g.docs, listing);
    Restart(was, ops, ListedAs(listing), worlds);
    LoadRepresents(stored, empty, ListedAs(listing), worlds);
  }

  lemma RunStaysPlain(was: Registry, ops: seq<GeoRegistry.Op>)
    requires Inverse(was) && Synced(was) && forall i :: 0 <= i < |ops| ==> Reliable(ops[i].world)
    ensures forall name :: name in GeoRegistry.Run(was, ops).docs ==> PlainPart(name)
  {
    RunSyncs(was, ops);
    var g := GeoRegistry.Run(was, ops);
    forall name | name in g.docs ensures PlainPart(name) { assert Describes(g.docs[name], name, g.dbs[name].kind); }
  }
}
