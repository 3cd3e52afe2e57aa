/** The databases of the manager with what is stored in them, by column family. */
module KvdbContents {
  import opened Wrappers
  import opened KvdbManagers
  import opened CounterSums
  import opened HandlerCounts
  import opened KvdbPaging

  type Content = map<string, string>

  // store: what each column family of the main database holds.
  datatype Kvdb = Kvdb(manager: Manager, store: map<nat, Content>)

  // The calls, with what the library and the file system answer to them. file: the entries of the JSON object, if the
  // file holds one; stored: how many of them are stored before one fails, if one does.
  datatype Call =
    | GetHandlerOf(db: string, scope: string)
    | Destroy(handle: nat)
    | DeleteCall(name: string, dropOk: bool)
    | CreateCall(name: string, createOk: bool)
    | CreateFromCall(name: string, file: Option<seq<Pair>>, createOk: bool, stored: nat, dropOk: bool)
    | SetKey(handle: nat, key: string, value: string, ok: bool)
    | RemoveKey(handle: nat, key: string, ok: bool)

  function At(store: map<nat, Content>, cf: nat): Content {
    if cf in store then store[cf] else map[]
  }

  // One Put after the other.
  function Stored(c: Content, puts: seq<Pair>): Content
    decreases |puts|
  {
    if puts == [] then c else Stored(c[puts[0].key := puts[0].value], puts[1..])
  }

  // What a load stores before it ends.
  function Puts(content: seq<Pair>, stored: nat): seq<Pair> {
    if stored < |content| then content[..stored] else content
  }

  // The column family of a handler is still in the map: its weak pointer can be locked.
  predicate Reachable(m: Manager, h: nat) {
    h in m.live && exists db | db in m.cfs :: m.cfs[db] == m.live[h].cf
  }

  function CreateIn(k: Kvdb, name: string, createOk: bool): Kvdb {
    if name in k.manager.cfs || !createOk then k
    else Kvdb(CreateDB(k.manager, name, createOk), k.store[k.manager.nextCf := map[]])
  }

  function LoadInto(k: Kvdb, name: string, puts: seq<Pair>): Kvdb
    requires name in k.manager.cfs
  {
    var cf := k.manager.cfs[name];
    k.(store := k.store[cf := Stored(At(k.store, cf), puts)])
  }

  ghost function DeleteIn(k: Kvdb, name: string, dropOk: bool): Kvdb {
    if DeleteError(k.manager, name, dropOk).Some? then k
    else Kvdb(DeleteDB(k.manager, name, dropOk), k.store - {k.manager.cfs[name]})
  }

  ghost function CreateFromIn(k: Kvdb, name: string, file: Option<seq<Pair>>, createOk: bool, stored: nat,
                              dropOk: bool): Kvdb {
    if file.None? then k
    else
      var created := CreateIn(k, name, createOk);
      if name !in created.manager.cfs then created
      else
        var loaded := LoadInto(created, name, Puts(file.value, stored));
        if stored >= |file.value| then loaded else DeleteIn(loaded, name, dropOk)
  }

  function WriteIn(k: Kvdb, h: nat, content: Content): Kvdb
    requires h in k.manager.live
  {
    k.(store := k.store[k.manager.live[h].cf := content])
  }

  function SetIn(k: Kvdb, h: nat, key: string, value: string, ok: bool): Kvdb {
    if !Reachable(k.manager, h) || !ok then k else WriteIn(k, h, At(k.store, k.manager.live[h].cf)[key := value])
  }

  function RemoveIn(k: Kvdb, h: nat, key: string, ok: bool): Kvdb {
    if !Reachable(k.manager, h) || !ok then k else WriteIn(k, h, At(k.store, k.manager.live[h].cf) - {key})
  }

  ghost function Do(k: Kvdb, call: Call): Kvdb {
    match call
    case GetHandlerOf(db, scope) => k.(manager := GetHandler(k.manager, db, scope))
    case Destroy(h) => k.(manager := ReleaseHandler(k.manager, h))
    case DeleteCall(name, dropOk) => DeleteIn(k, name, dropOk)
    case CreateCall(name, createOk) => CreateIn(k, name, createOk)
    case CreateFromCall(name, file, createOk, stored, dropOk) => CreateFromIn(k, name, file, createOk, stored, dropOk)
    case SetKey(h, key, value, ok) => SetIn(k, h, key, value, ok)
    case RemoveKey(h, key, ok) => RemoveIn(k, h, key, ok)
  }

  ghost function DoAll(k: Kvdb, calls: seq<Call>): Kvdb
    decreases |calls|
  {
    if calls == [] then k else DoAll(Do(k, calls[0]), calls[1..])
  }

  // What the call is to the manager, which does not see the entries.
  function Managed(call: Call): seq<Op> {
    match call
    case GetHandlerOf(db, scope) => [Get(db, scope)]
    case Destroy(h) => [Release(h)]
    case DeleteCall(name, dropOk) => [Delete(name, dropOk)]
    case CreateCall(name, createOk) => [Create(name, createOk)]
    case CreateFromCall(name, file, createOk, stored, dropOk) =>
      [CreateFrom(name, file.Some?, createOk, file.Some? && stored >= |file.value|, dropOk)]
    case SetKey(_, _, _, _) => []
    case RemoveKey(_, _, _) => []
  }

  function AllManaged(calls: seq<Call>): seq<Op> {
    if calls == [] then [] else Managed(calls[0]) + AllManaged(calls[1..])
  }

  lemma DoManaged(k: Kvdb, call: Call)
    ensures Do(k, call).manager == Run(k.manager, Managed(call))
  {
    if Managed(call) != [] { RunOne(k.manager, Managed(call)[0]); }
  }

  lemma RunOne(m: Manager, op: Op)
    ensures Run(m, [op]) == Step(m, op)
  {
    assert [op][1..] == [];
    assert Run(Step(m, op), []) == Step(m, op);
  }

  // Whatever is proved of the manager's runs holds here.
  lemma {:induction false} DoAllManaged(k: Kvdb, calls: seq<Call>)
    ensures DoAll(k, calls).manager == Run(k.manager, AllManaged(calls))
    decreases |calls|
  {
    if calls != [] {
      DoManaged(k, calls[0]);
      DoAllManaged(Do(k, calls[0]), calls[1..]);
      RunAppend(k.manager, Managed(calls[0]), AllManaged(calls[1..]));
    }
  }

  // Column families are told apart, new ones are new, and one that a handler was built on can only be found under the
  // name the handler has.
  ghost predicate Apart(m: Manager) {
    && (forall d :: d in m.cfs ==> m.cfs[d] < m.nextCf)
    && (forall d, e :: d in m.cfs && e in m.cfs && m.cfs[d] == m.cfs[e] ==> d == e)
    && (forall h :: h in m.live ==> m.live[h].cf < m.nextCf)
    && (forall h, d :: h in m.live && d in m.cfs && m.cfs[d] == m.live[h].cf ==> d == m.live[h].db)
  }

  lemma CreateApart(m: Manager, name: string, createOk: bool)
    requires Apart(m)
    ensures Apart(CreateDB(m, name, createOk))
  {
  }

  lemma DeleteApart(m: Manager, name: string, dropOk: bool)
    requires Apart(m)
    ensures Apart(DeleteDB(m, name, dropOk))
  {
  }

  lemma GetApart(m: Manager, db: string, scope: string)
    requires Apart(m)
    ensures Apart(GetHandler(m, db, scope))
  {
  }

  lemma StepApart(m: Manager, op: Op)
    requires Apart(m)
    ensures Apart(Step(m, op))
  {
    match op
    case Get(db, scope) => GetApart(m, db, scope);
    case Release(_) =>
    case Delete(name, dropOk) => DeleteApart(m, name, dropOk);
    case Create(name, createOk) => CreateApart(m, name, createOk);
    case CreateFrom(name, _, createOk, _, dropOk) =>
      CreateApart(m, name, createOk);
      DeleteApart(CreateDB(m, name, createOk), name, dropOk);
  }

  // However often a scope was held, and whatever was dropped.
  lemma DoApart(k: Kvdb, call: Call)
    requires Apart(k.manager)
    ensures Apart(Do(k, call).manager)
  {
    DoManaged(k, call);
    if Managed(call) != [] {
      RunOne(k.manager, Managed(call)[0]);
      StepApart(k.manager, Managed(call)[0]);
    }
  }

  // What a user of the databases sees.
  function Databases(k: Kvdb): map<string, Content> {
    map name | name in k.manager.cfs :: At(k.store, k.manager.cfs[name])
  }

  // ----- what each call does to the databases -----

  lemma CreateSeen(k: Kvdb, name: string, createOk: bool)
    requires Apart(k.manager)
    ensures Databases(CreateIn(k, name, createOk)) ==
            if name in Databases(k) || !createOk then Databases(k) else Databases(k)[name := map[]]
  {
  }

  lemma LoadSeen(k: Kvdb, name: string, puts: seq<Pair>)
    requires Apart(k.manager) && name in k.manager.cfs
    ensures Databases(LoadInto(k, name, puts)) == Databases(k)[name := Stored(Databases(k)[name], puts)]
  {
  }

  lemma DeleteSeen(k: Kvdb, name: string, dropOk: bool)
    requires Apart(k.manager)
    ensures Databases(DeleteIn(k, name, dropOk)) ==
            if DeleteError(k.manager, name, dropOk).Some? then Databases(k) else Databases(k) - {name}
  {
  }

  // A handler reads and writes the database it has the name of, or none.
  lemma WriteSeen(k: Kvdb, h: nat, content: Content)
    requires Apart(k.manager) && Reachable(k.manager, h)
    ensures k.manager.live[h].db in Databases(k)
    ensures At(k.store, k.manager.live[h].cf) == Databases(k)[k.manager.live[h].db]
    ensures Databases(WriteIn(k, h, content)) == Databases(k)[k.manager.live[h].db := content]
  {
    var d :| d in k.manager.cfs && k.manager.cfs[d] == k.manager.live[h].cf;
    assert d == k.manager.live[h].db;
  }

  // While the handlers keep their databases, every one of them reaches its own.
  lemma ServedReach(k: Kvdb, h: nat)
    requires Served(k.manager) && h in k.manager.live
    ensures Reachable(k.manager, h)
    ensures k.manager.live[h].db in Databases(k)
    ensures At(k.store, k.manager.live[h].cf) == Databases(k)[k.manager.live[h].db]
  {
  }

  // The one database a call is about.
  function About(k: Kvdb, call: Call): Option<string> {
    match call
    case GetHandlerOf(_, _) => None
    case Destroy(_) => None
    case DeleteCall(name, _) => Some(name)
    case CreateCall(name, _) => Some(name)
    case CreateFromCall(name, _, _, _, _) => Some(name)
    case SetKey(h, _, _, _) => if h in k.manager.live then Some(k.manager.live[h].db) else None
    case RemoveKey(h, _, _) => if h in k.manager.live then Some(k.manager.live[h].db) else None
  }

  ghost predicate SameAt(k: Kvdb, u: Kvdb, name: string) {
    && (name in Databases(u) <==> name in Databases(k))
    && (name in Databases(k) ==> Databases(u)[name] == Databases(k)[name])
  }

  // The databases are as before, but for one.
  ghost predicate But(before: map<string, Content>, after: map<string, Content>, n: string) {
    after - {n} == before - {n}
  }

  lemma ButSame(k: Kvdb, u: Kvdb, n: string, name: string)
    requires But(Databases(k), Databases(u), n) && name != n
    ensures SameAt(k, u, name)
  {
    var before, after := Databases(k) - {n}, Databases(u) - {n};
    assert name in before <==> name in after;
    assert name in before ==> before[name] == after[name];
  }

  // The databases when the load ends, before a rollback.
  function Filled(dbs: map<string, Content>, name: string, createOk: bool, puts: seq<Pair>): map<string, Content> {
    if name in dbs then dbs[name := Stored(dbs[name], puts)]
    else if createOk then dbs[name := Stored(map[], puts)]
    else dbs
  }

  lemma FilledBut(dbs: map<string, Content>, name: string, createOk: bool, puts: seq<Pair>)
    ensures But(dbs, Filled(dbs, name, createOk, puts), name)
    ensures But(dbs, Filled(dbs, name, createOk, puts) - {name}, name)
  {
    PutBut(dbs, name, if name in dbs then Stored(dbs[name], puts) else Stored(map[], puts));
    assert dbs - {name} - {name} == dbs - {name};
    assert Filled(dbs, name, createOk, puts) - {name} - {name} == Filled(dbs, name, createOk, puts) - {name};
  }

  lemma PutBut(dbs: map<string, Content>, name: string, c: Content)
    ensures dbs[name := c] - {name} == dbs - {name}
  {
  }

  // The load and the rollback, on a database that is there.
  lemma RollbackSeen(k: Kvdb, name: string, puts: seq<Pair>, dropOk: bool)
    requires Apart(k.manager) && name in k.manager.cfs
    ensures var loaded := Databases(k)[name := Stored(Databases(k)[name], puts)];
            Databases(DeleteIn(LoadInto(k, name, puts), name, dropOk)) ==
            if DeleteError(k.manager, name, dropOk).None? then loaded - {name} else loaded
  {
    LoadSeen(k, name, puts);
    DeleteSeen(LoadInto(k, name, puts), name, dropOk);
  }

  lemma CreateFromSeen(k: Kvdb, name: string, content: seq<Pair>, createOk: bool, stored: nat, dropOk: bool)
    requires Apart(k.manager)
    ensures var filled := Filled(Databases(k), name, createOk, Puts(content, stored));
            var undone := stored < |content| && DeleteError(CreateDB(k.manager, name, createOk), name, dropOk).None?;
            Databases(CreateFromIn(k, name, Some(content), createOk, stored, dropOk)) ==
            if undone then filled - {name} else filled
  {
    var created := CreateIn(k, name, createOk);
    CreateApart(k.manager, name, createOk);
    CreateSeen(k, name, createOk);
    if name in created.manager.cfs {
      LoadedSeen(k, created, name, content, createOk, stored, dropOk);
    } else {
      assert name !in Databases(k);
    }
  }

  lemma LoadedSeen(k: Kvdb, created: Kvdb, name: string, content: seq<Pair>, createOk: bool, stored: nat, dropOk: bool)
    requires created == CreateIn(k, name, createOk) && name in created.manager.cfs && Apart(created.manager)
    requires Databases(created) ==
             if name in Databases(k) || !createOk then Databases(k) else Databases(k)[name := map[]]
    ensures var filled := Filled(Databases(k), name, createOk, Puts(content, stored));
            var undone := stored < |content| && DeleteError(created.manager, name, dropOk).None?;
            Databases(CreateFromIn(k, name, Some(content), createOk, stored, dropOk)) ==
            if undone then filled - {name} else filled
  {
    var puts := Puts(content, stored);
    assert Databases(created)[name := Stored(Databases(created)[name], puts)] ==
           Filled(Databases(k), name, createOk, puts);
    LoadSeen(created, name, puts);
    RollbackSeen(created, name, puts, dropOk);
  }

  lemma CreateFromKept(k: Kvdb, n: string, file: Option<seq<Pair>>, createOk: bool, stored: nat, dropOk: bool,
                       name: string)
    requires Apart(k.manager) && name != n
    ensures SameAt(k, CreateFromIn(k, n, file, createOk, stored, dropOk), name)
  {
    if file.Some? {
      CreateFromSeen(k, n, file.value, createOk, stored, dropOk);
      FilledBut(Databases(k), n, createOk, Puts(file.value, stored));
      ButSame(k, CreateFromIn(k, n, file, createOk, stored, dropOk), n, name);
    }
  }

  lemma WriteKept(k: Kvdb, h: nat, content: Content, name: string)
    requires Apart(k.manager) && Reachable(k.manager, h) && k.manager.live[h].db != name
    ensures SameAt(k, WriteIn(k, h, content), name)
  {
    WriteSeen(k, h, content);
  }

  lemma DeleteKept(k: Kvdb, n: string, dropOk: bool, name: string)
    requires Apart(k.manager) && name != n
    ensures SameAt(k, DeleteIn(k, n, dropOk), name)
  {
    DeleteSeen(k, n, dropOk);
  }

  lemma CreateKept(k: Kvdb, n: string, createOk: bool, name: string)
    requires Apart(k.manager) && name != n
    ensures SameAt(k, CreateIn(k, n, createOk), name)
  {
    CreateSeen(k, n, createOk);
  }

  lemma HandlerWriteKept(k: Kvdb, call: Call, name: string)
    requires Apart(k.manager) && (call.SetKey? || call.RemoveKey?) && About(k, call) != Some(name)
    ensures SameAt(k, Do(k, call), name)
  {
    var h := call.handle;
    if Reachable(k.manager, h) {
      var c := At(k.store, k.manager.live[h].cf);
      WriteKept(k, h, if call.SetKey? then c[call.key := call.value] else c - {call.key}, name);
    }
  }

  lemma SameFamilies(k: Kvdb, u: Kvdb, name: string)
    requires u.manager.cfs == k.manager.cfs && u.store == k.store
    ensures SameAt(k, u, name)
  {
  }

  // Every other database stays as it is, also where the handler's own was dropped under it.
  lemma OthersKept(k: Kvdb, call: Call, name: string)
    requires Apart(k.manager) && About(k, call) != Some(name)
    ensures SameAt(k, Do(k, call), name)
  {
    match call
    case GetHandlerOf(_, _) => SameFamilies(k, Do(k, call), name);
    case Destroy(_) => SameFamilies(k, Do(k, call), name);
    case DeleteCall(n, dropOk) => DeleteKept(k, n, dropOk, name);
    case CreateCall(n, createOk) => CreateKept(k, n, createOk, name);
    case CreateFromCall(n, file, createOk, stored, dropOk) =>
      CreateFromKept(k, n, file, createOk, stored, dropOk, name);
    case SetKey(_, _, _, _) => HandlerWriteKept(k, call, name);
    case RemoveKey(_, _, _) => HandlerWriteKept(k, call, name);
  }

  // ----- a call to createDB(name, path) that fails -----

  ghost predicate Fails(k: Kvdb, call: Call) {
    && call.CreateFromCall?
    && CreateFromError(k.manager, call.name, call.file.Some?, call.createOk,
                       call.file.Some? && call.stored >= |call.file.value|, call.dropOk).Some?
  }

  lemma RollbackDrops(m: Manager, name: string, createOk: bool, dropOk: bool)
    requires Inv(m) && (name in m.cfs || createOk)
    ensures DeleteError(CreateDB(m, name, createOk), name, dropOk).None? <==> dropOk && |On(m.live, name)| % U32 == 0
  {
    CreateServes(m, name, createOk);
    RefusedWhenTallied(CreateDB(m, name, createOk), name, dropOk);
  }

  // What a failed load leaves: the entries stored so far, in a database that is dropped unless the drop fails or the
  // 32-bit sum of its live handlers is not zero.
  lemma FailedLoad(k: Kvdb, name: string, content: seq<Pair>, createOk: bool, stored: nat, dropOk: bool)
    requires Inv(k.manager) && Apart(k.manager) && stored < |content|
    ensures var filled := Filled(Databases(k), name, createOk, content[..stored]);
            Databases(CreateFromIn(k, name, Some(content), createOk, stored, dropOk)) ==
            if dropOk && |On(k.manager.live, name)| % U32 == 0 then filled - {name} else filled
  {
    CreateFromSeen(k, name, content, createOk, stored, dropOk);
    if name in k.manager.cfs || createOk {
      RollbackDrops(k.manager, name, createOk, dropOk);
    } else {
      assert Databases(k) - {name} == Databases(k);
    }
  }

  // Every key has the last value it is given already.
  predicate AlreadyThere(c: Content, puts: seq<Pair>) {
    forall i | 0 <= i < |puts| :: GivenAgain(puts, i) || Holds(c, puts[i])
  }

  predicate GivenAgain(puts: seq<Pair>, i: nat)
    requires i < |puts|
  {
    exists j | i < j < |puts| :: puts[j].key == puts[i].key
  }

  predicate Holds(c: Content, e: Pair) { e.key in c && c[e.key] == e.value }

  predicate Given(puts: seq<Pair>, key: string) {
    exists j | 0 <= j < |puts| :: puts[j].key == key
  }

  // A key that is not given keeps its value; one that is has the last value it is given.
  lemma {:induction false} StoredAt(c: Content, puts: seq<Pair>, key: string)
    ensures !Given(puts, key) ==>
              (key in Stored(c, puts) <==> key in c) && (key in c ==> Stored(c, puts)[key] == c[key])
    ensures forall i :: 0 <= i < |puts| && puts[i].key == key && !GivenAgain(puts, i) ==>
              Holds(Stored(c, puts), puts[i])
    decreases |puts|
  {
    if puts != [] {
      var first, rest := c[puts[0].key := puts[0].value], puts[1..];
      StoredAt(first, rest, key);
      GivenRest(puts, key);
      forall i | 0 <= i < |puts| && puts[i].key == key && !GivenAgain(puts, i) ensures Holds(Stored(c, puts), puts[i]) {
        if i == 0 {
          assert !Given(rest, key);
        } else {
          AgainRest(puts, i);
          assert rest[i - 1] == puts[i];
        }
      }
    }
  }

  lemma GivenRest(puts: seq<Pair>, key: string)
    requires puts != []
    ensures Given(puts, key) <==> puts[0].key == key || Given(puts[1..], key)
    ensures GivenAgain(puts, 0) <==> Given(puts[1..], puts[0].key)
  {
    if j :| 0 <= j < |puts| && puts[j].key == key && j > 0 { assert puts[1..][j - 1].key == key; }
    if j :| 0 < j < |puts| && puts[j].key == puts[0].key { assert puts[1..][j - 1].key == puts[0].key; }
    if j :| 0 <= j < |puts| - 1 && puts[1..][j].key == key { assert puts[j + 1].key == key; }
    if j :| 0 <= j < |puts| - 1 && puts[1..][j].key == puts[0].key { assert puts[j + 1].key == puts[0].key; }
  }

  lemma AgainRest(puts: seq<Pair>, i: nat)
    requires 0 < i < |puts|
    ensures GivenAgain(puts, i) <==> GivenAgain(puts[1..], i - 1)
  {
    var rest := puts[1..];
    if j :| i < j < |puts| && puts[j].key == puts[i].key { assert rest[j - 1].key == rest[i - 1].key; }
    if j :| i - 1 < j < |rest| && rest[j].key == rest[i - 1].key { assert puts[j + 1].key == puts[i].key; }
  }

  lemma {:induction false} LastGiven(puts: seq<Pair>, key: string) returns (i: nat)
    requires Given(puts, key)
    ensures i < |puts| && puts[i].key == key && !GivenAgain(puts, i)
    decreases |puts|
  {
    GivenRest(puts, key);
    if Given(puts[1..], key) {
      var j := LastGiven(puts[1..], key);
      i := j + 1;
      AgainRest(puts, i);
    } else {
      i := 0;
    }
  }

  // Storing entries changes nothing exactly when they are already there.
  lemma StoredSame(c: Content, puts: seq<Pair>)
    ensures Stored(c, puts) == c <==> AlreadyThere(c, puts)
  {
    if Stored(c, puts) == c {
      forall i | 0 <= i < |puts| ensures GivenAgain(puts, i) || Holds(c, puts[i]) { StoredAt(c, puts, puts[i].key); }
    }
    if AlreadyThere(c, puts) {
      forall key ensures (key in Stored(c, puts) <==> key in c) && (key in c ==> Stored(c, puts)[key] == c[key]) {
        StoredAt(c, puts, key);
        if Given(puts, key) {
          var i := LastGiven(puts, key);
          assert Holds(Stored(c, puts), puts[i]) && Holds(c, puts[i]);
        }
      }
    }
  }

  // createDB(name, path) is not atomic. A call that fails leaves every database as it was exactly when the file could
  // not be read; or the database was there, is not dropped, and holds already what was stored before the load failed;
  // or it was not there, and was not created or is dropped again.
  lemma CreateFromAtomic(k: Kvdb, call: Call)
    requires Inv(k.manager) && Apart(k.manager) && Fails(k, call)
    ensures Databases(Do(k, call)) == Databases(k) <==>
            || call.file.None?
            || (if call.name in Databases(k) then
                  && (!call.dropOk || |On(k.manager.live, call.name)| % U32 != 0)
                  && AlreadyThere(Databases(k)[call.name], Puts(call.file.value, call.stored))
                else !call.createOk || call.dropOk)
  {
    if call.file.Some? {
      if call.name in Databases(k) || call.createOk {
        FailedLoad(k, call.name, call.file.value, call.createOk, call.stored, call.dropOk);
        SomeOn(k.manager.live, call.name);
        if call.name in Databases(k) {
          StoredSame(Databases(k)[call.name], Puts(call.file.value, call.stored));
          PutSame(Databases(k), call.name, Stored(Databases(k)[call.name], Puts(call.file.value, call.stored)));
        }
      }
    }
  }

  lemma PutSame(dbs: map<string, Content>, name: string, c: Content)
    requires name in dbs
    ensures dbs[name := c] == dbs <==> c == dbs[name]
    ensures dbs[name := c] - {name} != dbs
  {
    assert dbs[name := c][name] == c;
    assert name !in dbs[name := c] - {name};
  }

  // A database in use, two entries to load over it, and the second one fails: the rollback is refused, the databases
  // are the same by name, and the first entry is stored.
  lemma HalfLoads(k: Kvdb, name: string, first: Pair, second: Pair)
    requires Apart(k.manager) && name in Databases(k) && DeleteError(k.manager, name, true) == Some(InUse)
    ensures var call := CreateFromCall(name, Some([first, second]), true, 1, true);
            && Fails(k, call) && Do(k, call).manager == k.manager
            && Databases(Do(k, call)) == Databases(k)[name := Databases(k)[name][first.key := first.value]]
  {
    CreateFromSeen(k, name, [first, second], true, 1, true);
    assert Puts([first, second], 1) == [first];
    StoredOne(Databases(k)[name], first);
  }

  lemma OneHandler(db: string, scope: string)
    ensures var m := GetHandler(Start(map[db := 0], 1), db, scope);
            Inv(m) && Apart(m) && m.cfs == map[db := 0] && |On(m.live, db)| == 1
  {
    var m := GetHandler(Start(map[db := 0], 1), db, scope);
    StartInv(map[db := 0], 1);
    GetUsesAlone(Start(map[db := 0], 1), db, scope, 0);
    OneScope(Scopes(m.counts, db), scope);
    assert Sum(Scopes(m.counts, db)) == |On(m.live, db)|;
  }

  // Such an input.
  lemma HalfLoaded()
    ensures var m := GetHandler(Start(map["kv" := 0], 1), "kv", "scope");
            var k := Kvdb(m, map[0 := map["a" := "1"]]);
            var call := CreateFromCall("kv", Some([Pair("a", "2"), Pair("b", "3")]), true, 1, true);
            && Fails(k, call) && Do(k, call).manager.cfs == m.cfs
            && Databases(k) == map["kv" := map["a" := "1"]]
            && Databases(Do(k, call)) == map["kv" := map["a" := "1"]["a" := "2"]]
  {
    var m := GetHandler(Start(map["kv" := 0], 1), "kv", "scope");
    var k := Kvdb(m, map[0 := map["a" := "1"]]);
    OneHandler("kv", "scope");
    RefusedWhenTallied(m, "kv", true);
    OneDatabase(k, "kv");
    HalfLoads(k, "kv", Pair("a", "2"), Pair("b", "3"));
  }

  lemma OneDatabase(k: Kvdb, name: string)
    requires k.manager.cfs == map[name := 0] && 0 in k.store
    ensures Databases(k) == map[name := k.store[0]]
  {
  }

  lemma StoredOne(c: Content, e: Pair)
    ensures Stored(c, [e]) == c[e.key := e.value]
  {
    assert [e][1..] == [];
    assert Stored(c[e.key := e.value], []) == c[e.key := e.value];
  }

  // ----- whole runs -----

  lemma {:induction false} RunApart(k: Kvdb, calls: seq<Call>)
    requires Apart(k.manager)
    ensures Apart(DoAll(k, calls).manager)
    decreases |calls|
  {
    if calls != [] {
      DoApart(k, calls[0]);
      RunApart(Do(k, calls[0]), calls[1..]);
    }
  }

  // In every run with fewer than 2^32 live handlers, each of them reads the database it was asked for.
  lemma HandlersReadTheirOwn(start: Kvdb, calls: seq<Call>, h: nat)
    requires start.manager.counts == map[] && start.manager.live == map[] && start.manager.nextHandle == 0
    requires FewLive(start.manager, AllManaged(calls)) && h in DoAll(start, calls).manager.live
    ensures var k := DoAll(start, calls);
            var Handle(db, _, cf) := k.manager.live[h];
            Reachable(k.manager, h) && db in Databases(k) && At(k.store, cf) == Databases(k)[db]
  {
    var m := start.manager;
    assert m == Start(m.cfs, m.nextCf);
    DoAllManaged(start, calls);
    StartInv(m.cfs, m.nextCf);
    FewIsSmall(m, AllManaged(calls));
    RunKeeps(m, AllManaged(calls));
    ServedReach(DoAll(start, calls), h);
  }

  // The call may change what the database has under the key.
  predicate Touches(k: Kvdb, call: Call, db: string, key: string) {
    && About(k, call) == Some(db)
    && match call
       case SetKey(_, other, _, _) => other == key
       case RemoveKey(_, other, _) => other == key
       case CreateCall(_, _) => false
       case _ => true
  }

  ghost predicate HasEntry(k: Kvdb, db: string, key: string, value: string) {
    db in Databases(k) && key in Databases(k)[db] && Databases(k)[db][key] == value
  }

  lemma EntryStays(k: Kvdb, call: Call, db: string, key: string, value: string)
    requires Apart(k.manager) && HasEntry(k, db, key, value) && !Touches(k, call, db, key)
    ensures HasEntry(Do(k, call), db, key, value)
  {
    if About(k, call) != Some(db) {
      OthersKept(k, call, db);
    } else if call.CreateCall? {
      CreateSeen(k, call.name, call.createOk);
    } else {
      HandlerBeside(k, call, db, key, value);
    }
  }

  // A write at another key.
  lemma HandlerBeside(k: Kvdb, call: Call, db: string, key: string, value: string)
    requires Apart(k.manager) && HasEntry(k, db, key, value)
    requires About(k, call) == Some(db) && (call.SetKey? || call.RemoveKey?) && call.key != key
    ensures HasEntry(Do(k, call), db, key, value)
  {
    var h := call.handle;
    if Reachable(k.manager, h) {
      var c := At(k.store, k.manager.live[h].cf);
      WriteSeen(k, h, if call.SetKey? then c[call.key := call.value] else c - {call.key});
    }
  }

  ghost predicate Untouched(k: Kvdb, calls: seq<Call>, db: string, key: string)
    decreases |calls|
  {
    calls != [] ==> !Touches(k, calls[0], db, key) && Untouched(Do(k, calls[0]), calls[1..], db, key)
  }

  lemma {:induction false} EntryStaysAlong(k: Kvdb, calls: seq<Call>, db: string, key: string, value: string)
    requires Apart(k.manager) && HasEntry(k, db, key, value) && Untouched(k, calls, db, key)
    ensures HasEntry(DoAll(k, calls), db, key, value)
    decreases |calls|
  {
    if calls != [] {
      EntryStays(k, calls[0], db, key, value);
      DoApart(k, calls[0]);
      EntryStaysAlong(Do(k, calls[0]), calls[1..], db, key, value);
    }
  }

  // What a handler stored is in its database until a call that may change that entry, whatever other calls come.
  lemma ReadsLastSet(k: Kvdb, h: nat, key: string, value: string, after: seq<Call>)
    requires Apart(k.manager) && Reachable(k.manager, h)
    requires Untouched(Do(k, SetKey(h, key, value, true)), after, k.manager.live[h].db, key)
    ensures HasEntry(DoAll(Do(k, SetKey(h, key, value, true)), after), k.manager.live[h].db, key, value)
  {
    var set' := SetKey(h, key, value, true);
    WriteSeen(k, h, At(k.store, k.manager.live[h].cf)[key := value]);
    DoApart(k, set');
    EntryStaysAlong(Do(k, set'), after, k.manager.live[h].db, key, value);
  }

  lemma NoEntryStays(k: Kvdb, call: Call, db: string, key: string)
    requires Apart(k.manager) && db in Databases(k) && key !in Databases(k)[db] && !Touches(k, call, db, key)
    ensures db in Databases(Do(k, call)) && key !in Databases(Do(k, call))[db]
  {
    if About(k, call) != Some(db) {
      OthersKept(k, call, db);
    } else if call.CreateCall? {
      CreateSeen(k, call.name, call.createOk);
    } else {
      var h := call.handle;
      if Reachable(k.manager, h) {
        var c := At(k.store, k.manager.live[h].cf);
        WriteSeen(k, h, if call.SetKey? then c[call.key := call.value] else c - {call.key});
      }
    }
  }

  lemma {:induction false} NoEntryStaysAlong(k: Kvdb, calls: seq<Call>, db: string, key: string)
    requires Apart(k.manager) && db in Databases(k) && key !in Databases(k)[db] && Untouched(k, calls, db, key)
    ensures db in Databases(DoAll(k, calls)) && key !in Databases(DoAll(k, calls))[db]
    decreases |calls|
  {
    if calls != [] {
      NoEntryStays(k, calls[0], db, key);
      DoApart(k, calls[0]);
      NoEntryStaysAlong(Do(k, calls[0]), calls[1..], db, key);
    }
  }

  // What a handler removed is gone until a call that may change that entry.
  lemma GoneAfterRemove(k: Kvdb, h: nat, key: string, after: seq<Call>)
    requires Apart(k.manager) && Reachable(k.manager, h)
    requires Untouched(Do(k, RemoveKey(h, key, true)), after, k.manager.live[h].db, key)
    ensures var dbs, db := Databases(DoAll(Do(k, RemoveKey(h, key, true)), after)), k.manager.live[h].db;
            db in dbs && key !in dbs[db]
  {
    var remove := RemoveKey(h, key, true);
    WriteSeen(k, h, At(k.store, k.manager.live[h].cf) - {key});
    DoApart(k, remove);
    NoEntryStaysAlong(Do(k, remove), after, k.manager.live[h].db, key);
  }

  // ----- when each call succeeds and what it leaves, in terms of names and entries alone -----

  // What a load without error leaves: the last value given to every key, every other entry of the database as it was,
  // and every other database as it was.
  ghost predicate LoadedInto(before: map<string, Content>, after: map<string, Content>, name: string,
                             content: seq<Pair>) {
    && name in after
    && (forall i :: 0 <= i < |content| && (forall j :: i < j < |content| ==> content[j].key != content[i].key) ==>
          content[i].key in after[name] && after[name][content[i].key] == content[i].value)
    && (forall key :: (forall i :: 0 <= i < |content| ==> content[i].key != key) ==>
          && (key in after[name] <==> name in before && key in before[name])
          && (key in after[name] ==> after[name][key] == before[name][key]))
    && (forall other :: other != name ==>
          (other in after <==> other in before) && (other in before ==> after[other] == before[other]))
  }

  lemma LoadLaw(k: Kvdb, name: string, content: seq<Pair>, createOk: bool, stored: nat, dropOk: bool)
    requires Apart(k.manager) && stored >= |content| && (name in Databases(k) || createOk)
    ensures var after := Databases(CreateFromIn(k, name, Some(content), createOk, stored, dropOk));
            LoadedInto(Databases(k), after, name, content)
  {
    var dbs := Databases(k);
    var c := if name in dbs then dbs[name] else map[];
    CreateFromSeen(k, name, content, createOk, stored, dropOk);
    FilledLaw(dbs, name, createOk, content);
  }

  lemma LoadIntoLaw(k: Kvdb, name: string, content: seq<Pair>, stored: nat)
    requires Apart(k.manager) && stored >= |content| && name in k.manager.cfs
    ensures LoadedInto(Databases(k), Databases(LoadInto(k, name, Puts(content, stored))), name, content)
  {
    LoadSeen(k, name, Puts(content, stored));
    FilledLaw(Databases(k), name, true, content);
  }

  lemma FilledLaw(dbs: map<string, Content>, name: string, createOk: bool, content: seq<Pair>)
    requires name in dbs || createOk
    ensures LoadedInto(dbs, Filled(dbs, name, createOk, content), name, content)
  {
    var c: Content := if name in dbs then dbs[name] else map[];
    var after := Filled(dbs, name, createOk, content);
    assert after == dbs[name := Stored(c, content)];
    GivenStored(c, content);
    OthersStored(c, content);
  }

  lemma GivenStored(c: Content, content: seq<Pair>)
    ensures var after := Stored(c, content);
            forall i :: 0 <= i < |content| && (forall j :: i < j < |content| ==> content[j].key != content[i].key) ==>
              content[i].key in after && after[content[i].key] == content[i].value
  {
    var after := Stored(c, content);
    forall i | 0 <= i < |content| && (forall j :: i < j < |content| ==> content[j].key != content[i].key)
      ensures content[i].key in after && after[content[i].key] == content[i].value
    {
      StoredAt(c, content, content[i].key);
      assert Holds(after, content[i]);
    }
  }

  lemma OthersStored(c: Content, content: seq<Pair>)
    ensures var after := Stored(c, content);
            forall key :: (forall i :: 0 <= i < |content| ==> content[i].key != key) ==>
              (key in after <==> key in c) && (key in after ==> after[key] == c[key])
  {
    forall key | forall i :: 0 <= i < |content| ==> content[i].key != key
      ensures key in Stored(c, content) <==> key in c
      ensures key in Stored(c, content) ==> Stored(c, content)[key] == c[key]
    {
      StoredAt(c, content, key);
    }
  }

  // While the counts are right, which deletions are refused and why, and what the others leave.
  lemma DeleteLaw(k: Kvdb, name: string, dropOk: bool)
    requires Apart(k.manager) && Tallied(k.manager)
    ensures var error := DeleteError(k.manager, name, dropOk);
            var users := set h | h in k.manager.live && k.manager.live[h].db == name;
            && (error == Some(InUse) <==> |users| % 0x1_0000_0000 != 0)
            && (error == Some(NoSuchDb) <==> |users| % 0x1_0000_0000 == 0 && name !in Databases(k))
            && (error.None? <==> |users| % 0x1_0000_0000 == 0 && name in Databases(k) && dropOk)
            && Databases(DeleteIn(k, name, dropOk)) == if error.None? then Databases(k) - {name} else Databases(k)
  {
    DeleteSeen(k, name, dropOk);
    RefusedWhenTallied(k.manager, name, dropOk);
    assert On(k.manager.live, name) == set h | h in k.manager.live && k.manager.live[h].db == name;
  }
}
