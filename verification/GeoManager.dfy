/** geo/src/manager.cpp: the registry of MMDB databases and the internal documents it recovers from. */
module GeoRegistry {
  import opened Wrappers
  import opened Names

  datatype Type = City | Asn

  function TypeName(kind: Type): string {
    match kind case City => "city" case Asn => "asn"
  }

  // None: the name is not handled and an exception is thrown.
  function TypeFromName(name: string): (r: Option<Type>)
    ensures forall kind :: name == TypeName(kind) <==> r == Some(kind)
  {
    if name == TypeName(City) then Some(City) else if name == TypeName(Asn) then Some(Asn) else None
  }

  // The last component of a path.
  function Filename(path: string): (r: string)
    ensures '/' !in r
  {
    if path == "" then ""
    else if path[|path| - 1] == '/' then ""
    else Filename(path[..|path| - 1]) + [path[|path| - 1]]
  }

  // It is what stands behind the last '/'.
  lemma {:induction false} FilenameLaw(path: string)
    ensures |Filename(path)| <= |path| && path[|path| - |Filename(path)|..] == Filename(path)
    ensures '/' !in Filename(path)
    ensures |Filename(path)| < |path| ==> path[|path| - |Filename(path)| - 1] == '/'
  {
    if path != "" && path[|path| - 1] != '/' {
      var dir, last := path[..|path| - 1], path[|path| - 1];
      FilenameLaw(dir);
      assert path == dir + [last];
      SuffixGrows(dir, Filename(dir), last);
    }
  }

  lemma SuffixGrows(s: string, suffix: string, c: char)
    requires |suffix| <= |s| && s[|s| - |suffix|..] == suffix
    ensures (s + [c])[|s| - |suffix|..] == suffix + [c]
    ensures |suffix| < |s| ==> (s + [c])[|s| - |suffix| - 1] == s[|s| - |suffix| - 1]
  {
  }

  datatype DbEntry = DbEntry(path: string, kind: Type)

  // The texts of a document, as far as it has them; the registry itself writes all three.
  datatype Doc = Doc(path: Option<string>, hash: Option<string>, kind: Option<string>)

  function Complete(path: string, hash: string, kind: Type): Doc {
    Doc(Some(path), Some(hash), Some(TypeName(kind)))
  }

  // docs: the internal documents "geo/<name>", by name.
  datatype Registry = Registry(dbs: map<string, DbEntry>, dbTypes: map<Type, string>, docs: map<string, Doc>)

  datatype GeoError =
    | TypeTaken
    | NameTaken
    | NotFound
    | NameMismatch
    | OpenFailed
    | HashUnavailable
    | DownloadFailed
    | WriteFailed
    | StoreFailed
    | BadAccess // thrown: a response that is an error, or a text that is not there, is read

  // What the library, the file system and the store answer during one call.
  datatype World = World(
    opens: bool,                 // MMDB_open
    writes: bool,                // writeDb
    fileHash: Option<string>,    // reading the file and computing its MD5
    stores: bool,                // the internal write of the store
    remoteHash: Option<string>,  // downloadMD5
    attempts: seq<Attempt>)      // what each downloadHTTPS would bring

  datatype Attempt = NoDownload | Downloaded(content: string, computed: Option<string>)

  const MAX_RETRIES := 3

  // A path whose last component is no plain name is a directory, which is no database.
  predicate Opens(path: string, world: World) {
    world.opens && PlainPart(Filename(path))
  }

  function UpsertStoreEntry(g: Registry, path: string, world: World): Registry
    requires Filename(path) in g.dbs
  {
    if world.fileHash.None? || !world.stores then g
    else
      var name := Filename(path);
      g.(docs := g.docs[name := Complete(path, world.fileHash.value, g.dbs[name].kind)])
  }

  function AddError(g: Registry, path: string, kind: Type, world: World): Option<GeoError> {
    if kind in g.dbTypes then Some(TypeTaken)
    else if Filename(path) in g.dbs then Some(NameTaken)
    else if !Opens(path, world) then Some(OpenFailed)
    else None
  }

  function Register(g: Registry, path: string, kind: Type): Registry {
    g.(dbs := g.dbs[Filename(path) := DbEntry(path, kind)], dbTypes := g.dbTypes[kind := Filename(path)])
  }

  function AddDb(g: Registry, path: string, kind: Type, upsertStore: bool, world: World): Registry {
    if AddError(g, path, kind, world).Some? then g
    else if upsertStore then UpsertStoreEntry(Register(g, path, kind), path, world)
    else Register(g, path, kind)
  }

  // The first type, in their order, that has the name.
  function TypeOf(dbTypes: map<Type, string>, name: string): Option<Type> {
    if City in dbTypes && dbTypes[City] == name then Some(City)
    else if Asn in dbTypes && dbTypes[Asn] == name then Some(Asn)
    else None
  }

  function RemoveError(g: Registry, path: string, world: World): Option<GeoError> {
    var name := Filename(path);
    if name !in g.dbs then Some(NotFound)
    else if name !in g.docs || !world.stores then Some(StoreFailed)
    else None
  }

  // The registry forgets the database even when the store then fails.
  function RemoveDb(g: Registry, path: string, world: World): Registry {
    var name := Filename(path);
    if name !in g.dbs then g
    else
      Registry(g.dbs - {name},
               match TypeOf(g.dbTypes, name) case None => g.dbTypes case Some(kind) => g.dbTypes - {kind},
               if world.stores then g.docs - {name} else g.docs)
  }

  datatype Fetched = Thrown | Failed | Content(content: string)

  // The retry loop: an error is only forgotten when the hash matches.
  function Fetch(attempts: seq<Attempt>, hash: string, content: string, failed: bool): Fetched {
    if attempts == [] then if failed then Failed else Content(content)
    else
      match attempts[0]
      case NoDownload => Fetch(attempts[1..], hash, content, true)
      case Downloaded(c, None) => Thrown
      case Downloaded(c, Some(h)) => if h == hash then Content(c) else Fetch(attempts[1..], hash, c, failed)
  }

  function UpToDate(g: Registry, name: string, hash: string): bool {
    name in g.dbs && name in g.docs && g.docs[name].hash == Some(hash)
  }

  // The document of the database has no hash, which is read all the same.
  function HashMissing(g: Registry, name: string): bool {
    name in g.dbs && name in g.docs && g.docs[name].hash.None?
  }

  // What remains once a download was chosen: it is written over the database, or beside the others.
  function InstallError(g: Registry, path: string, kind: Type, world: World): Option<GeoError> {
    if !world.writes then Some(WriteFailed)
    else if Filename(path) in g.dbs then if Opens(path, world) then None else Some(OpenFailed)
    else AddError(g, path, kind, world)
  }

  function Install(g: Registry, path: string, kind: Type, world: World): Registry {
    if InstallError(g, path, kind, world).Some? then
      if InstallError(g, path, kind, world) == Some(OpenFailed) && Filename(path) in g.dbs then RemoveDb(g, path, world)
      else g
    else if Filename(path) in g.dbs then UpsertStoreEntry(g, path, world)
    else UpsertStoreEntry(Register(g, path, kind), path, world)
  }

  // Why the call ends before it downloads anything, if it does; None when the database is up to date, too.
  function AskError(g: Registry, path: string, kind: Type, world: World): Option<GeoError> {
    if kind in g.dbTypes && g.dbTypes[kind] != Filename(path) then Some(NameMismatch)
    else if world.remoteHash.None? then Some(HashUnavailable)
    else if HashMissing(g, Filename(path)) then Some(BadAccess)
    else None
  }

  predicate Asks(g: Registry, path: string, kind: Type, world: World) {
    AskError(g, path, kind, world).None? && !UpToDate(g, Filename(path), world.remoteHash.value)
  }

  // The call gets as far as writing a download.
  predicate Downloads(g: Registry, path: string, kind: Type, world: World) {
    Asks(g, path, kind, world) && Fetch(world.attempts, world.remoteHash.value, "", false).Content?
  }

  function UpsertError(g: Registry, path: string, kind: Type, world: World): Option<GeoError> {
    if !Asks(g, path, kind, world) then AskError(g, path, kind, world)
    else
      match Fetch(world.attempts, world.remoteHash.value, "", false)
      case Thrown => Some(BadAccess)
      case Failed => Some(DownloadFailed)
      case Content(_) => InstallError(g, path, kind, world)
  }

  function RemoteUpsertDb(g: Registry, path: string, kind: Type, world: World): Registry {
    if Downloads(g, path, kind, world) then Install(g, path, kind, world) else g
  }

  datatype Op =
    | Add(path: string, kind: Type, world: World)
    | Remove(path: string, world: World)
    | RemoteUpsert(path: string, kind: Type, world: World)

  function Step(g: Registry, op: Op): Registry {
    match op
    case Add(path, kind, world) => AddDb(g, path, kind, true, world)
    case Remove(path, world) => RemoveDb(g, path, world)
    case RemoteUpsert(path, kind, world) => RemoteUpsertDb(g, path, kind, world)
  }

  function Run(g: Registry, ops: seq<Op>): Registry
    decreases |ops|
  {
    if ops == [] then g else Run(Step(g, ops[0]), ops[1..])
  }

  // The names by type and the types by name are inverse maps.
  ghost predicate Inverse(g: Registry) {
    && (forall name :: name in g.dbs ==> g.dbs[name].kind in g.dbTypes && g.dbTypes[g.dbs[name].kind] == name)
    && (forall kind :: kind in g.dbTypes ==> g.dbTypes[kind] in g.dbs && g.dbs[g.dbTypes[kind]].kind == kind)
  }

  // The documents tell the registered names and their types, and where the files are.
  ghost predicate Synced(g: Registry) {
    && g.docs.Keys == g.dbs.Keys
    && forall name :: name in g.docs ==>
         Describes(g.docs[name], name, g.dbs[name].kind)
  }

  ghost predicate Describes(doc: Doc, name: string, kind: Type) {
    && doc.kind == Some(TypeName(kind))
    && doc.hash.Some?
    && doc.path.Some? && Filename(doc.path.value) == name && PlainPart(name)
  }

  lemma RegisterKeeps(g: Registry, path: string, kind: Type)
    requires Inverse(g) && kind !in g.dbTypes && Filename(path) !in g.dbs
    ensures Inverse(Register(g, path, kind))
  {
  }

  lemma RemoveKeeps(g: Registry, path: string, world: World)
    requires Inverse(g)
    ensures Inverse(RemoveDb(g, path, world))
    ensures RemoveDb(g, path, world).dbs.Keys == g.dbs.Keys - {Filename(path)}
  {
  }

  lemma InstallKeeps(g: Registry, path: string, kind: Type, world: World)
    requires Inverse(g)
    ensures Inverse(Install(g, path, kind, world))
  {
    RemoveKeeps(g, path, world);
    if InstallError(g, path, kind, world).None? && Filename(path) !in g.dbs { RegisterKeeps(g, path, kind); }
  }

  lemma StepKeeps(g: Registry, op: Op)
    requires Inverse(g)
    ensures Inverse(Step(g, op))
  {
    match op
    case Add(path, kind, world) =>
      if AddError(g, path, kind, world).None? { RegisterKeeps(g, path, kind); }
    case Remove(path, world) => RemoveKeeps(g, path, world);
    case RemoteUpsert(path, kind, world) => InstallKeeps(g, path, kind, world);
  }

  // On every exit of every call, whatever the world answers.
  lemma {:induction false} RunKeeps(g: Registry, ops: seq<Op>)
    requires Inverse(g)
    ensures Inverse(Run(g, ops))
    decreases |ops|
  {
    if ops != [] {
      StepKeeps(g, ops[0]);
      RunKeeps(Step(g, ops[0]), ops[1..]);
    }
  }

  predicate Reliable(world: World) { world.stores && world.fileHash.Some? }

  // A successful store entry completes the documents.
  lemma EntrySyncs(g: Registry, path: string, world: World)
    requires Reliable(world) && Filename(path) in g.dbs && PlainPart(Filename(path))
    requires g.docs.Keys + {Filename(path)} == g.dbs.Keys
    requires forall name :: name in g.docs && name != Filename(path) ==> Describes(g.docs[name], name, g.dbs[name].kind)
    ensures Synced(UpsertStoreEntry(g, path, world))
  {
  }

  lemma AddSyncs(g: Registry, path: string, kind: Type, world: World)
    requires Synced(g) && Reliable(world) && Filename(path) !in g.dbs && PlainPart(Filename(path))
    ensures Synced(UpsertStoreEntry(Register(g, path, kind), path, world))
  {
    EntrySyncs(Register(g, path, kind), path, world);
  }

  lemma RemoveSyncs(g: Registry, path: string, world: World)
    requires Synced(g) && Reliable(world)
    ensures Synced(RemoveDb(g, path, world))
  {
  }

  lemma StepSyncs(g: Registry, op: Op)
    requires Inverse(g) && Synced(g) && Reliable(op.world)
    ensures Synced(Step(g, op))
  {
    match op
    case Add(path, kind, world) =>
      if AddError(g, path, kind, world).None? { AddSyncs(g, path, kind, world); }
    case Remove(path, world) => RemoveSyncs(g, path, world);
    case RemoteUpsert(path, kind, world) => RemoteUpsertSyncs(g, path, kind, world);
  }

  lemma RemoteUpsertSyncs(g: Registry, path: string, kind: Type, world: World)
    requires Inverse(g) && Synced(g) && Reliable(world)
    ensures Synced(RemoteUpsertDb(g, path, kind, world))
  {
    if InstallError(g, path, kind, world).Some? {
      RemoveSyncs(g, path, world);
    } else if Filename(path) in g.dbs {
      EntrySyncs(g, path, world);
    } else {
      AddSyncs(g, path, kind, world);
    }
  }

  lemma {:induction false} RunSyncs(g: Registry, ops: seq<Op>)
    requires Inverse(g) && Synced(g) && forall i :: 0 <= i < |ops| ==> Reliable(ops[i].world)
    ensures Inverse(Run(g, ops)) && Synced(Run(g, ops))
    decreases |ops|
  {
    if ops != [] {
      StepKeeps(g, ops[0]);
      StepSyncs(g, ops[0]);
      RunSyncs(Step(g, ops[0]), ops[1..]);
    }
  }

  // ----- recovery -----

  // What the world answers while the document of each name is read.
  type Answers = string -> World

  // The constructor, over the documents in the order the store lists them: None when it throws.
  function Recover(g: Registry, list: seq<string>, worlds: Answers): Option<Registry>
    decreases |list|
  {
    if list == [] then Some(g)
    else if list[0] !in g.docs then Recover(g, list[1..], worlds)
    else
      var doc, world := g.docs[list[0]], worlds(list[0]);
      if doc.path.None? || doc.kind.None? then None
      else
        match TypeFromName(doc.kind.value)
        case None => None
        case Some(kind) =>
          if AddError(g, doc.path.value, kind, world).None? then
            Recover(Register(g, doc.path.value, kind), list[1..], worlds)
          else Recover(Forget(g, list[0], world), list[1..], worlds)
  }

  // The answer of the store to this removal is ignored.
  function Forget(g: Registry, name: string, world: World): Registry {
    if world.stores then g.(docs := g.docs - {name}) else g
  }

  function Kinds(dbs: map<string, DbEntry>): map<string, Type> {
    map name | name in dbs :: dbs[name].kind
  }

  ghost predicate Distinct(list: seq<string>) {
    forall i, j :: 0 <= i < j < |list| ==> list[i] != list[j]
  }

  lemma TailOf(list: seq<string>)
    requires list != [] && Distinct(list)
    ensures Distinct(list[1..]) && forall x :: x in list[1..] <==> x in list && x != list[0]
  {
    forall x ensures x in list[1..] <==> x in list && x != list[0] {
      if x in list[1..] {
        var i :| 0 <= i < |list| - 1 && list[1..][i] == x;
        assert list[i + 1] == x;
      }
      if x in list && x != list[0] {
        var i :| 0 <= i < |list| && list[i] == x;
        assert list[1..][i - 1] == x;
      }
    }
  }

  // The document of that name tells that path.
  predicate TellsPath(g: Registry, name: string, path: string) {
    name in g.docs && g.docs[name].path == Some(path)
  }

  // The document of a database survives unless the database does not open and the store deletes it.
  predicate Survives(name: string, worlds: Answers) {
    worlds(name).opens || !worlds(name).stores
  }

  // What has been recovered so far is the part of what was registered that opens and is not listed any more.
  ghost predicate Recovering(was: Registry, g: Registry, list: seq<string>, worlds: Answers) {
    Inverse(g) && RecoveringDbs(was, g, list, worlds) && RecoveringDocs(was, g, list, worlds)
  }

  ghost predicate RecoveringDbs(was: Registry, g: Registry, list: seq<string>, worlds: Answers) {
    && (forall name :: name in list ==> name in was.dbs)
    && (forall name :: name in g.dbs <==> name in was.dbs && name !in list && worlds(name).opens)
    && (forall name :: name in g.dbs ==>
          g.dbs[name].kind == was.dbs[name].kind && TellsPath(was, name, g.dbs[name].path))
  }

  ghost predicate RecoveringDocs(was: Registry, g: Registry, list: seq<string>, worlds: Answers) {
    && (forall name :: name in g.docs <==> name in was.docs && (name in list || Survives(name, worlds)))
    && (forall name :: name in g.docs ==> g.docs[name] == was.docs[name])
  }

  function Opened(dbs: map<string, DbEntry>, worlds: Answers): map<string, Type> {
    map name | name in dbs && worlds(name).opens :: dbs[name].kind
  }

  function Surviving(docs: map<string, Doc>, worlds: Answers): map<string, Doc> {
    map name | name in docs && Survives(name, worlds) :: docs[name]
  }

  // What the constructor makes of a registry: the names and types that open, at the paths their documents tell.
  ghost predicate RecoveredAs(was: Registry, r: Registry, worlds: Answers) {
    && Inverse(r)
    && Kinds(r.dbs) == Opened(was.dbs, worlds)
    && r.docs == Surviving(was.docs, worlds)
    && forall name :: name in r.dbs ==> TellsPath(was, name, r.dbs[name].path)
  }

  lemma {:induction false} RecoverAll(was: Registry, g: Registry, list: seq<string>, worlds: Answers)
    requires Inverse(was) && Synced(was) && Recovering(was, g, list, worlds) && Distinct(list)
    ensures var r := Recover(g, list, worlds); r.Some? && RecoveredAs(was, r.value, worlds)
    decreases |list|
  {
    if list == [] {
      AllRecovered(was, g, worlds);
    } else {
      var u := NextRecovers(was, g, list, worlds);
      RecoverAll(was, u, list[1..], worlds);
    }
  }

  lemma AllRecovered(was: Registry, g: Registry, worlds: Answers)
    requires Recovering(was, g, [], worlds)
    ensures RecoveredAs(was, g, worlds)
  {
    assert Kinds(g.dbs).Keys == Opened(was.dbs, worlds).Keys;
    assert g.docs.Keys == Surviving(was.docs, worlds).Keys;
  }

  lemma NextRecovers(was: Registry, g: Registry, list: seq<string>, worlds: Answers) returns (u: Registry)
    requires Inverse(was) && Synced(was) && Recovering(was, g, list, worlds) && Distinct(list) && list != []
    ensures Recover(g, list, worlds) == Recover(u, list[1..], worlds)
    ensures Recovering(was, u, list[1..], worlds) && Distinct(list[1..])
  {
    TailOf(list);
    NextListed(was, g, list, worlds);
    u := AfterFirst(was, g, list[0], worlds);
    if worlds(list[0]).opens {
      RegisterRecovers(was, g, list, was.docs[list[0]].path.value, worlds);
    } else {
      ForgetRecovers(was, g, list, worlds);
    }
    RecoverFirst(was, g, list, worlds);
  }

  // What the constructor does with one document.
  function AfterFirst(was: Registry, g: Registry, name: string, worlds: Answers): Registry
    requires name in was.docs && was.docs[name].path.Some? && name in was.dbs
  {
    if worlds(name).opens then Register(g, was.docs[name].path.value, was.dbs[name].kind)
    else Forget(g, name, worlds(name))
  }

  lemma RecoverFirst(was: Registry, g: Registry, list: seq<string>, worlds: Answers)
    requires list != [] && list[0] in g.docs && list[0] in was.docs && list[0] in was.dbs
    requires g.docs[list[0]] == was.docs[list[0]] && Describes(was.docs[list[0]], list[0], was.dbs[list[0]].kind)
    requires AddError(g, was.docs[list[0]].path.value, was.dbs[list[0]].kind, worlds(list[0])).None? <==>
             worlds(list[0]).opens
    ensures Recover(g, list, worlds) == Recover(AfterFirst(was, g, list[0], worlds), list[1..], worlds)
  {
    assert TypeFromName(was.docs[list[0]].kind.value) == Some(was.dbs[list[0]].kind);
  }

  lemma NextListed(was: Registry, g: Registry, list: seq<string>, worlds: Answers)
    requires Inverse(was) && Synced(was) && Recovering(was, g, list, worlds) && list != []
    ensures list[0] in was.dbs && list[0] in was.docs && list[0] in g.docs && g.docs[list[0]] == was.docs[list[0]]
    ensures list[0] !in g.dbs && was.dbs[list[0]].kind !in g.dbTypes
    ensures Describes(was.docs[list[0]], list[0], was.dbs[list[0]].kind)
    ensures TypeFromName(was.docs[list[0]].kind.value) == Some(was.dbs[list[0]].kind)
    ensures AddError(g, was.docs[list[0]].path.value, was.dbs[list[0]].kind, worlds(list[0])).None? <==>
            worlds(list[0]).opens
  {
    assert list[0] in list && list[0] in was.dbs && list[0] in was.docs;
    forall kind | kind in g.dbTypes ensures kind != was.dbs[list[0]].kind {
      assert was.dbs[g.dbTypes[kind]].kind == kind && g.dbTypes[kind] != list[0];
    }
  }

  lemma RegisterRecovers(was: Registry, g: Registry, list: seq<string>, path: string, worlds: Answers)
    requires Recovering(was, g, list, worlds) && list != [] && list[0] in was.dbs
    requires forall x :: x in list[1..] <==> x in list && x != list[0]
    requires list[0] !in g.dbs && Filename(path) == list[0] && TellsPath(was, list[0], path)
    requires was.dbs[list[0]].kind !in g.dbTypes && worlds(list[0]).opens
    ensures Recovering(was, Register(g, path, was.dbs[list[0]].kind), list[1..], worlds)
  {
    var u := Register(g, path, was.dbs[list[0]].kind);
    RegisterKeeps(g, path, was.dbs[list[0]].kind);
    RegisteredDbs(was, g, u, list, path, worlds);
    RegisteredDocs(was, g, u, list, worlds);
  }

  lemma RegisteredDbs(was: Registry, g: Registry, u: Registry, list: seq<string>, path: string, worlds: Answers)
    requires RecoveringDbs(was, g, list, worlds) && list != [] && list[0] in was.dbs
    requires forall x :: x in list[1..] <==> x in list && x != list[0]
    requires u.dbs == g.dbs[list[0] := DbEntry(path, was.dbs[list[0]].kind)]
    requires TellsPath(was, list[0], path) && worlds(list[0]).opens
    ensures RecoveringDbs(was, u, list[1..], worlds)
  {
  }

  lemma RegisteredDocs(was: Registry, g: Registry, u: Registry, list: seq<string>, worlds: Answers)
    requires RecoveringDocs(was, g, list, worlds) && list != [] && u.docs == g.docs && worlds(list[0]).opens
    requires forall x :: x in list[1..] <==> x in list && x != list[0]
    ensures RecoveringDocs(was, u, list[1..], worlds)
  {
  }

  lemma ForgetRecovers(was: Registry, g: Registry, list: seq<string>, worlds: Answers)
    requires Recovering(was, g, list, worlds) && list != []
    requires forall x :: x in list[1..] <==> x in list && x != list[0]
    requires list[0] !in g.dbs && !worlds(list[0]).opens
    ensures Recovering(was, Forget(g, list[0], worlds(list[0])), list[1..], worlds)
  {
  }

  // After any run without store or hash failures, from whatever manager in step with its store, a new manager over the
  // same store registers exactly the databases that open, deletes exactly the documents of the others that the store
  // lets it delete, and is in step with the store again exactly when it could delete them all.
  lemma Restart(was: Registry, ops: seq<Op>, list: seq<string>, worlds: Answers)
    requires Inverse(was) && Synced(was) && forall i :: 0 <= i < |ops| ==> Reliable(ops[i].world)
    requires forall name :: name in list <==> name in Run(was, ops).docs
    requires Distinct(list)
    ensures var g := Run(was, ops);
            var r := Recover(Registry(map[], map[], g.docs), list, worlds);
            && r.Some? && RecoveredAs(g, r.value, worlds) && PathsAgree(r.value)
            && (Synced(r.value) <==> forall name :: name in g.dbs ==> worlds(name).opens || worlds(name).stores)
  {
    var g := Run(was, ops);
    RunSyncs(was, ops);
    RecoverAll(g, Registry(map[], map[], g.docs), list, worlds);
    RecoveredSyncs(g, Recover(Registry(map[], map[], g.docs), list, worlds).value, worlds);
  }

  lemma RecoveredSyncs(g: Registry, r: Registry, worlds: Answers)
    requires Synced(g) && RecoveredAs(g, r, worlds)
    ensures PathsAgree(r)
    ensures Synced(r) <==> forall name :: name in g.dbs ==> worlds(name).opens || worlds(name).stores
  {
    RecoveredKeys(g, r, worlds);
    RecoveredDescribes(g, r, worlds);
    forall name | name in r.dbs ensures TellsPath(r, name, r.dbs[name].path) {
      assert TellsPath(g, name, r.dbs[name].path);
    }
  }

  lemma RecoveredKeys(g: Registry, r: Registry, worlds: Answers)
    requires g.docs.Keys == g.dbs.Keys && Kinds(r.dbs) == Opened(g.dbs, worlds) && r.docs == Surviving(g.docs, worlds)
    ensures forall name :: name in r.dbs <==> name in g.dbs && worlds(name).opens
    ensures forall name :: name in r.docs <==> name in g.dbs && Survives(name, worlds)
    ensures r.docs.Keys == r.dbs.Keys <==> forall name :: name in g.dbs ==> worlds(name).opens || worlds(name).stores
  {
    assert Kinds(r.dbs).Keys == r.dbs.Keys == Opened(g.dbs, worlds).Keys;
    forall name ensures name in r.docs <==> name in g.dbs && Survives(name, worlds) {
      assert name in g.docs <==> name in g.docs.Keys;
    }
    if r.docs.Keys == r.dbs.Keys {
      forall name | name in g.dbs ensures worlds(name).opens || worlds(name).stores {
        assert name in r.docs.Keys <==> name in r.dbs.Keys;
      }
    }
  }

  lemma RecoveredDescribes(g: Registry, r: Registry, worlds: Answers)
    requires Synced(g) && RecoveredAs(g, r, worlds)
    ensures forall name :: name in r.docs && name in r.dbs ==> Describes(r.docs[name], name, r.dbs[name].kind)
  {
    forall name | name in r.docs && name in r.dbs ensures Describes(r.docs[name], name, r.dbs[name].kind) {
      assert name in Kinds(r.dbs) && Kinds(r.dbs)[name] == g.dbs[name].kind;
      assert Describes(g.docs[name], name, g.dbs[name].kind);
    }
  }

  // Where every database opens, all of them are registered with their types, no document is deleted, and the registry
  // is the same, paths included, exactly when documents and registry agreed on them.
  lemma RestartAll(was: Registry, ops: seq<Op>, list: seq<string>, worlds: Answers)
    requires Inverse(was) && Synced(was) && forall i :: 0 <= i < |ops| ==> Reliable(ops[i].world)
    requires forall name :: name in list <==> name in Run(was, ops).docs
    requires Distinct(list) && forall name :: name in list ==> worlds(name).opens
    ensures var g := Run(was, ops);
            var r := Recover(Registry(map[], map[], g.docs), list, worlds);
            && r.Some? && Kinds(r.value.dbs) == Kinds(g.dbs) && r.value.dbTypes == g.dbTypes && r.value.docs == g.docs
            && (r.value.dbs == g.dbs <==> PathsAgree(g))
  {
    RunSyncs(was, ops);
    Restart(was, ops, list, worlds);
    AllOpen(Run(was, ops), Recover(Registry(map[], map[], Run(was, ops).docs), list, worlds).value, worlds);
  }

  lemma AllOpen(g: Registry, r: Registry, worlds: Answers)
    requires Inverse(g) && Synced(g) && RecoveredAs(g, r, worlds)
    requires forall name :: name in g.docs ==> worlds(name).opens
    ensures Kinds(r.dbs) == Kinds(g.dbs) && r.dbTypes == g.dbTypes && r.docs == g.docs
    ensures r.dbs == g.dbs <==> PathsAgree(g)
  {
    OpenedAll(g, worlds);
    SameTypes(g, r);
    SamePaths(g, r, worlds);
  }

  lemma OpenedAll(g: Registry, worlds: Answers)
    requires g.docs.Keys == g.dbs.Keys && forall name :: name in g.docs ==> worlds(name).opens
    ensures Opened(g.dbs, worlds) == Kinds(g.dbs) && Surviving(g.docs, worlds) == g.docs
  {
    forall name | name in g.dbs ensures worlds(name).opens { assert name in g.docs.Keys; }
  }

  // The documents tell the paths the databases were opened at.
  ghost predicate PathsAgree(g: Registry) {
    forall name :: name in g.dbs ==> TellsPath(g, name, g.dbs[name].path)
  }

  lemma SamePaths(g: Registry, r: Registry, worlds: Answers)
    requires Synced(g) && RecoveredAs(g, r, worlds) && Kinds(r.dbs) == Kinds(g.dbs)
    ensures r.dbs == g.dbs <==> PathsAgree(g)
  {
    assert Kinds(g.dbs).Keys == g.dbs.Keys && Kinds(r.dbs).Keys == r.dbs.Keys;
    if PathsAgree(g) {
      forall name | name in g.dbs ensures r.dbs[name] == g.dbs[name] {
        assert Kinds(r.dbs)[name] == Kinds(g.dbs)[name];
      }
    }
  }

  // The call renews a registered database at another path, which only its document takes over.
  ghost predicate Moves(g: Registry, op: Op) {
    && op.RemoteUpsert? && Filename(op.path) in g.dbs && op.path != g.dbs[Filename(op.path)].path
    && Downloads(g, op.path, op.kind, op.world) && InstallError(g, op.path, op.kind, op.world).None?
  }

  // The paths go apart exactly then.
  lemma PathsAgreeExactly(g: Registry, op: Op)
    requires Inverse(g) && Synced(g) && PathsAgree(g) && Reliable(op.world)
    ensures PathsAgree(Step(g, op)) <==> !Moves(g, op)
  {
    match op
    case Add(path, kind, world) =>
      if AddError(g, path, kind, world).None? { AddedAgrees(g, path, kind, world); }
    case Remove(path, world) => RemovedAgrees(g, path, world);
    case RemoteUpsert(path, kind, world) =>
      if InstallError(g, path, kind, world).Some? {
        RemovedAgrees(g, path, world);
      } else if Filename(path) in g.dbs {
        RenewedAgrees(g, path, world);
      } else {
        AddedAgrees(g, path, kind, world);
      }
  }

  lemma AddedAgrees(g: Registry, path: string, kind: Type, world: World)
    requires PathsAgree(g) && Reliable(world)
    ensures PathsAgree(UpsertStoreEntry(Register(g, path, kind), path, world))
  {
  }

  lemma RemovedAgrees(g: Registry, path: string, world: World)
    requires PathsAgree(g)
    ensures PathsAgree(RemoveDb(g, path, world))
  {
  }

  lemma RenewedAgrees(g: Registry, path: string, world: World)
    requires PathsAgree(g) && Reliable(world) && Filename(path) in g.dbs
    ensures PathsAgree(UpsertStoreEntry(g, path, world)) <==> path == g.dbs[Filename(path)].path
  {
    var name, u := Filename(path), UpsertStoreEntry(g, path, world);
    assert u.docs[name].path == Some(path);
    assert TellsPath(u, name, g.dbs[name].path) <==> path == g.dbs[name].path;
  }

  lemma SameTypes(g: Registry, r: Registry)
    requires Inverse(g) && Inverse(r) && Kinds(g.dbs) == Kinds(r.dbs)
    ensures g.dbTypes == r.dbTypes
  {
    assert Kinds(g.dbs).Keys == g.dbs.Keys && Kinds(r.dbs).Keys == r.dbs.Keys;
    forall kind ensures kind in g.dbTypes <==> kind in r.dbTypes {
      if kind in g.dbTypes { assert Kinds(g.dbs)[g.dbTypes[kind]] == kind; }
      if kind in r.dbTypes { assert Kinds(r.dbs)[r.dbTypes[kind]] == kind; }
    }
    forall kind | kind in g.dbTypes ensures g.dbTypes[kind] == r.dbTypes[kind] {
      assert Kinds(r.dbs)[g.dbTypes[kind]] == kind;
    }
  }

  // ----- the retry loop -----

  predicate Matches(a: Attempt, hash: string) { a.Downloaded? && a.computed == Some(hash) }

  // The content of an attempt that brought some.
  function ContentOf(a: Attempt): string {
    match a case NoDownload => "" case Downloaded(content, _) => content
  }

  predicate Differs(a: Attempt, hash: string) { a.Downloaded? && a.computed.Some? && a.computed.value != hash }

  // An attempt brought that content, and its hash matches.
  predicate Brought(attempts: seq<Attempt>, hash: string, content: string) {
    exists i | 0 <= i < |attempts| :: Matches(attempts[i], hash) && ContentOf(attempts[i]) == content
  }

  lemma BroughtLater(attempts: seq<Attempt>, hash: string, content: string)
    requires attempts != [] && Brought(attempts[1..], hash, content)
    ensures Brought(attempts, hash, content)
  {
    var rest := attempts[1..];
    var i :| 0 <= i < |rest| && Matches(rest[i], hash) && ContentOf(rest[i]) == content;
    assert Matches(attempts[i + 1], hash);
  }

  // What is installed matches the remote hash, or every attempt brought something else and the last is taken.
  lemma {:induction false} FetchOutcome(attempts: seq<Attempt>, hash: string, content: string, failed: bool)
    ensures var r := Fetch(attempts, hash, content, failed);
            r.Content? ==>
              || Brought(attempts, hash, r.content)
              || (!failed && (forall i :: 0 <= i < |attempts| ==> Differs(attempts[i], hash))
                  && r.content == if attempts == [] then content else ContentOf(attempts[|attempts| - 1]))
  {
    if attempts != [] && Differs(attempts[0], hash) {
      var c := attempts[0].content;
      FetchOutcome(attempts[1..], hash, c, failed);
      var r := Fetch(attempts[1..], hash, c, failed);
      if r.Content? && Brought(attempts[1..], hash, r.content) { BroughtLater(attempts, hash, r.content); }
      if forall i :: 0 <= i < |attempts| - 1 ==> Differs(attempts[1..][i], hash) {
        forall i | 0 <= i < |attempts| ensures Differs(attempts[i], hash) {
          if i > 0 { assert Differs(attempts[1..][i - 1], hash); }
        }
      }
    } else if attempts != [] && attempts[0].NoDownload? {
      FetchOutcome(attempts[1..], hash, content, true);
      var r := Fetch(attempts[1..], hash, content, true);
      if r.Content? { BroughtLater(attempts, hash, r.content); }
    } else if attempts != [] {
      assert Matches(attempts[0], hash) ==> Brought(attempts, hash, attempts[0].content);
    }
  }

  // Mismatching downloads only: the last one is installed all the same.
  lemma {:induction false} AllDiffer(attempts: seq<Attempt>, hash: string, content: string)
    requires forall i :: 0 <= i < |attempts| ==> Differs(attempts[i], hash)
    ensures Fetch(attempts, hash, content, false) ==
            Content(if attempts == [] then content else ContentOf(attempts[|attempts| - 1]))
  {
    if attempts != [] {
      assert Differs(attempts[0], hash);
      AllDiffer(attempts[1..], hash, attempts[0].content);
    }
  }

  // A download that no attempt matched is chosen exactly when every attempt brought a different one.
  lemma MismatchChosen(attempts: seq<Attempt>, hash: string)
    ensures var r := Fetch(attempts, hash, "", false);
            (r.Content? && forall i :: 0 <= i < |attempts| ==> !Matches(attempts[i], hash)) <==>
            (forall i :: 0 <= i < |attempts| ==> Differs(attempts[i], hash))
  {
    FetchOutcome(attempts, hash, "", false);
    if forall i :: 0 <= i < |attempts| ==> Differs(attempts[i], hash) {
      AllDiffer(attempts, hash, "");
      forall i | 0 <= i < |attempts| ensures !Matches(attempts[i], hash) { assert Differs(attempts[i], hash); }
    }
  }

  // The database is installed: written, opened and registered.
  predicate Installs(g: Registry, path: string, kind: Type, world: World) {
    Downloads(g, path, kind, world) && InstallError(g, path, kind, world).None?
  }

  // A call installs a database that no attempt matched exactly when it asks for downloads, each brings a different
  // database, and the last can be written and opened.
  lemma MismatchInstalled(g: Registry, path: string, kind: Type, world: World)
    requires world.remoteHash.Some?
    ensures (Installs(g, path, kind, world) &&
             forall i :: 0 <= i < |world.attempts| ==> !Matches(world.attempts[i], world.remoteHash.value)) <==>
            (Asks(g, path, kind, world) && InstallError(g, path, kind, world).None? &&
             forall i :: 0 <= i < |world.attempts| ==> Differs(world.attempts[i], world.remoteHash.value))
  {
    MismatchChosen(world.attempts, world.remoteHash.value);
  }
}
