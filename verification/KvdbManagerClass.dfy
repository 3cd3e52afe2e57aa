/** kvdb/src/kvdbManager.cpp as the object it is: every method takes the manager one step further. */
module KvdbManagerObjects {
  import opened Wrappers
  import opened HandlerCounts
  import opened CounterSums
  import opened KvdbManagers
  import opened KvdbContents
  import opened KvdbPaging

  function Only(m: Counter, keys: set<string>): Counter {
    map k | k in m && k in keys :: m[k]
  }

  lemma OnlyStep(m: Counter, keys: set<string>, k: string)
    requires k in keys && keys <= m.Keys
    ensures Sum(Only(m, keys)) == m[k] + Sum(Only(m, keys - {k}))
  {
    SumRemove(Only(m, keys), k);
    assert Only(m, keys) - {k} == Only(m, keys - {k});
  }

  lemma AddModulo(a: nat, b: nat, c: nat)
    ensures ((a + b) % U32 + c) % U32 == (a + (b + c)) % U32
  {
  }

  class KVDBManager {
    var mapCFHandles: map<string, nat>
    var nextCf: nat
    var store: map<nat, Content> // behind pRocksDB_
    const collection: HandlerCollection
    ghost var live: map<nat, Handle>
    ghost var nextHandle: nat

    ghost predicate Valid()
      reads this, collection
    {
      collection.Valid()
    }

    ghost function Abs(): Manager
      reads this, collection, collection.mapInstances.Values
    {
      Manager(mapCFHandles, collection.Counts(), live, nextCf, nextHandle)
    }

    ghost function Whole(): Kvdb
      reads this, collection, collection.mapInstances.Values
    {
      Kvdb(Abs(), store)
    }

    // initialize(), with the column families found in the main database.
    constructor (cfs: map<string, nat>, nextCf: nat, store: map<nat, Content>)
      ensures Valid() && Whole() == Kvdb(Start(cfs, nextCf), store)
      ensures fresh(collection) && collection.mapInstances == map[]
    {
      this.mapCFHandles := cfs;
      this.nextCf := nextCf;
      this.store := store;
      this.collection := new HandlerCollection();
      this.live := map[];
      this.nextHandle := 0;
    }

    method GetKVDBHandlersCount(dbName: string) returns (retValue: nat)
      requires Valid()
      ensures retValue == Usage(collection.Counts(), dbName)
    {
      retValue := 0;
      if dbName in collection.mapInstances {
        var scopes := collection.mapInstances[dbName].refMap;
        var rest := scopes.Keys;
        assert Only(scopes, rest) == scopes;
        while rest != {}
          invariant rest <= scopes.Keys && retValue < U32
          invariant (retValue + Sum(Only(scopes, rest))) % U32 == Sum(scopes) % U32
        {
          var key :| key in rest;
          OnlyStep(scopes, rest, key);
          AddModulo(retValue, scopes[key], Sum(Only(scopes, rest - {key})));
          retValue := (retValue + scopes[key]) % U32;
          rest := rest - {key};
        }
        assert Only(scopes, rest) == map[];
      }
    }

    method GetKVDBHandler(dbName: string, scopeName: string) returns (r: Result<Handle, KvdbError>)
      requires Valid()
      modifies this, collection, collection.mapInstances.Values
      ensures Valid() && fresh(collection.mapInstances.Values - old(collection.mapInstances.Values))
      ensures Whole() == Do(old(Whole()), GetHandlerOf(dbName, scopeName))
      ensures r == if dbName in old(mapCFHandles) then Success(Handle(dbName, scopeName, old(mapCFHandles)[dbName]))
                   else Failure(NoSuchDb)
      ensures mapCFHandles == old(mapCFHandles) && store == old(store)
      ensures r.Success? ==> live == old(live)[old(nextHandle) := r.value] && nextHandle == old(nextHandle) + 1
      ensures r.Failure? ==> live == old(live) && collection.Counts() == old(collection.Counts())
    {
      if dbName !in mapCFHandles {
        return Failure(NoSuchDb);
      }
      var cfHandle := mapCFHandles[dbName];
      collection.AddKVDBHandler(dbName, scopeName);
      live := live[nextHandle := Handle(dbName, scopeName, cfHandle)];
      nextHandle := nextHandle + 1;
      return Success(Handle(dbName, scopeName, cfHandle));
    }

    // ~KVDBHandler
    method DestroyHandler(handle: Handle, ghost h: nat)
      requires Valid() && h in live && live[h] == handle
      modifies this, collection, collection.mapInstances.Values
      ensures Valid() && collection.mapInstances.Values <= old(collection.mapInstances.Values)
      ensures Whole() == Do(old(Whole()), Destroy(h))
    {
      collection.RemoveKVDBHandler(handle.db, handle.scope);
      live := live - {h};
    }

    method DeleteDB(name: string, dropOk: bool) returns (error: Option<KvdbError>)
      requires Valid()
      modifies this
      ensures Valid() && collection.mapInstances == old(collection.mapInstances)
      ensures Whole() == Do(old(Whole()), DeleteCall(name, dropOk))
      ensures Apart(old(Abs())) && Tallied(old(Abs())) ==>
                var users := set h | h in old(live) && old(live)[h].db == name;
                && (error == Some(InUse) <==> |users| % 0x1_0000_0000 != 0)
                && (error.None? <==> |users| % 0x1_0000_0000 == 0 && name in old(mapCFHandles) && dropOk)
                && Databases(Whole()) ==
                   if error.None? then old(Databases(Whole())) - {name} else old(Databases(Whole()))
      ensures error == old(DeleteError(Abs(), name, dropOk))
    {
      if Apart(Abs()) && Tallied(Abs()) { DeleteLaw(Whole(), name, dropOk); }
      var refCount := GetKVDBHandlersCount(name);
      if refCount != 0 {
        return Some(InUse);
      }
      if name !in mapCFHandles {
        return Some(NoSuchDb);
      }
      if !dropOk {
        return Some(RocksError);
      }
      store := store - {mapCFHandles[name]};
      mapCFHandles := mapCFHandles - {name};
      return None;
    }

    method CreateDB(name: string, createOk: bool) returns (error: Option<KvdbError>)
      requires Valid()
      modifies this
      ensures Valid()
      ensures Whole() == Do(old(Whole()), CreateCall(name, createOk))
      ensures error == if name in old(mapCFHandles) || createOk then None else Some(RocksError)
      ensures Apart(old(Abs())) ==>
                Databases(Whole()) == if name in old(mapCFHandles) || !createOk then old(Databases(Whole()))
                                      else old(Databases(Whole()))[name := map[]]
    {
      if Apart(Abs()) { CreateSeen(Whole(), name, createOk); }
      if name in mapCFHandles {
        return None;
      }
      if !createOk {
        return Some(RocksError);
      }
      mapCFHandles, store := mapCFHandles[name := nextCf], store[nextCf := map[]];
      nextCf := nextCf + 1;
      return None;
    }

    // Stores one entry after the other; the one at place stored fails.
    method LoadDBFromJson(name: string, content: seq<Pair>, stored: nat) returns (error: Option<KvdbError>)
      requires Valid() && name in mapCFHandles
      modifies this`store
      ensures Valid() && Whole() == LoadInto(old(Whole()), name, Puts(content, stored))
      ensures error == if stored < |content| then Some(LoadFailed) else None
      ensures Apart(old(Abs())) && error.None? ==>
                LoadedInto(old(Databases(Whole())), Databases(Whole()), name, content)
    {
      if Apart(Abs()) && stored >= |content| { LoadIntoLaw(Whole(), name, content, stored); }
      error := PutEntries(name, content, stored);
    }

    // The loop over the entries.
    method PutEntries(name: string, content: seq<Pair>, stored: nat) returns (error: Option<KvdbError>)
      requires Valid() && name in mapCFHandles
      modifies this`store
      ensures Valid() && Whole() == LoadInto(old(Whole()), name, Puts(content, stored))
      ensures error == if stored < |content| then Some(LoadFailed) else None
    {
      var cf := mapCFHandles[name];
      var c := At(store, cf);
      ghost var all := Stored(c, Puts(content, stored));
      store := store[cf := c];
      for i := 0 to |content|
        invariant i <= |Puts(content, stored)|
        invariant cf in store && store == old(store)[cf := store[cf]]
        invariant Stored(store[cf], Puts(content, stored)[i..]) == all
      {
        if i == stored {
          return Some(LoadFailed);
        }
        assert Puts(content, stored)[i..][1..] == Puts(content, stored)[i + 1..];
        store := store[cf := store[cf][content[i].key := content[i].value]];
      }
      return None;
    }

    method CreateDBFromFile(name: string, file: Option<seq<Pair>>, createOk: bool, stored: nat, dropOk: bool)
      returns (error: Option<KvdbError>)
      requires Valid()
      modifies this
      ensures Valid()
      ensures Whole() == Do(old(Whole()), CreateFromCall(name, file, createOk, stored, dropOk))
      ensures error ==
              old(CreateFromError(Abs(), name, file.Some?, createOk, file.Some? && stored >= |file.value|, dropOk))
      ensures error.None? <==> file.Some? && (name in old(mapCFHandles) || createOk) && stored >= |file.value|
      ensures Apart(old(Abs())) && error.None? ==>
                LoadedInto(old(Databases(Whole())), Databases(Whole()), name, file.value)
    {
      if Apart(Abs()) && file.Some? && stored >= |file.value| && (name in mapCFHandles || createOk) {
        LoadLaw(Whole(), name, file.value, createOk, stored, dropOk);
      }
      if file.None? {
        return Some(BadFile);
      }
      error := CreateDB(name, createOk);
      if error.Some? {
        return error;
      }
      var errorLoad := LoadDBFromJson(name, file.value, stored);
      if errorLoad.Some? {
        error := DropLoaded(name, dropOk, errorLoad.value);
      }
    }

    // After a load that failed: the error of the deletion, if there is one, or that of the load.
    method DropLoaded(name: string, dropOk: bool, errorLoad: KvdbError) returns (error: Option<KvdbError>)
      requires Valid()
      modifies this
      ensures Valid() && Whole() == DeleteIn(old(Whole()), name, dropOk)
      ensures error == old(var e := DeleteError(Abs(), name, dropOk); if e.Some? then e else Some(errorLoad))
    {
      error := DeleteDB(name, dropOk);
      if error.None? {
        return Some(errorLoad);
      }
    }

    // KVDBHandler::set, through the weak pointer of the handler.
    method Set(handle: Handle, ghost h: nat, key: string, value: string, ok: bool) returns (done: bool)
      requires Valid() && h in live && live[h] == handle
      modifies this`store
      ensures Valid() && Whole() == Do(old(Whole()), SetKey(h, key, value, ok))
      ensures done <==> ok && exists db :: db in old(mapCFHandles) && old(mapCFHandles)[db] == handle.cf
      ensures Apart(old(Abs())) && done ==>
                && handle.db in old(Databases(Whole()))
                && Databases(Whole()) ==
                   old(Databases(Whole()))[handle.db := old(Databases(Whole()))[handle.db][key := value]]
      ensures !done ==> Whole() == old(Whole())
    {
      if Apart(Abs()) && Reachable(Abs(), h) {
        WriteSeen(Whole(), h, At(store, handle.cf)[key := value]);
      }
      if !(exists db | db in mapCFHandles :: mapCFHandles[db] == handle.cf) || !ok {
        return false;
      }
      store := store[handle.cf := At(store, handle.cf)[key := value]];
      return true;
    }

    // KVDBHandler::remove
    method Remove(handle: Handle, ghost h: nat, key: string, ok: bool) returns (done: bool)
      requires Valid() && h in live && live[h] == handle
      modifies this`store
      ensures Valid() && Whole() == Do(old(Whole()), RemoveKey(h, key, ok))
      ensures done <==> ok && exists db :: db in old(mapCFHandles) && old(mapCFHandles)[db] == handle.cf
      ensures Apart(old(Abs())) && done ==>
                && handle.db in old(Databases(Whole()))
                && Databases(Whole()) ==
                   old(Databases(Whole()))[handle.db := old(Databases(Whole()))[handle.db] - {key}]
      ensures !done ==> Whole() == old(Whole())
    {
      if Apart(Abs()) && Reachable(Abs(), h) {
        WriteSeen(Whole(), h, At(store, handle.cf) - {key});
      }
      if !(exists db | db in mapCFHandles :: mapCFHandles[db] == handle.cf) || !ok {
        return false;
      }
      store := store[handle.cf := At(store, handle.cf) - {key}];
      return true;
    }

    // KVDBHandler::get, where the library answers. None: an error.
    method Read(handle: Handle, ghost h: nat, key: string) returns (value: Option<string>)
      requires Valid() && h in live && live[h] == handle
      ensures Apart(Abs()) ==>
                var dbs := Databases(Whole());
                value == if Reachable(Abs(), h) && key in dbs[handle.db] then Some(dbs[handle.db][key]) else None
    {
      if !(exists db | db in mapCFHandles :: mapCFHandles[db] == handle.cf) {
        return None;
      }
      if Apart(Abs()) { WriteSeen(Whole(), h, map[]); }
      var content := At(store, handle.cf);
      return if key in content then Some(content[key]) else None;
    }
  }

  // Scopes by database against databases by scope, with the same counts.
  ghost predicate Transposed(byDb: map<string, Counter>, byScope: map<string, Counter>) {
    && (forall d, s :: d in byDb && s in byDb[d] ==> s in byScope && d in byScope[s] && byScope[s][d] == byDb[d][s])
    && (forall s, d :: s in byScope && d in byScope[s] ==> d in byDb && s in byDb[d])
    && (forall s :: s in byScope ==> byScope[s] != map[])
  }

  // Transposing twice gives back the same table exactly when no row of it was empty.
  lemma TransposedBack(byDb: map<string, Counter>, byScope: map<string, Counter>)
    requires Transposed(byDb, byScope)
    ensures Transposed(byScope, byDb) <==> forall d :: d in byDb ==> byDb[d] != map[]
  {
  }

  // A table has one transpose.
  lemma TransposedOnce(byDb: map<string, Counter>, t: map<string, Counter>, u: map<string, Counter>)
    requires Transposed(byDb, t) && Transposed(byDb, u)
    ensures t == u
  {
    forall s | s in t ensures s in u && t[s] == u[s] {
      SameRow(byDb, t, u, s);
    }
    forall s | s in u ensures s in t {
      SameRow(byDb, u, t, s);
    }
  }

  lemma SameRow(byDb: map<string, Counter>, t: map<string, Counter>, u: map<string, Counter>, s: string)
    requires Transposed(byDb, t) && Transposed(byDb, u) && s in t
    ensures s in u && t[s] == u[s]
  {
    var d :| d in t[s];
    assert d in byDb && s in byDb[d];
    forall e ensures e in t[s] <==> e in u[s] {
      if e in t[s] { assert e in byDb && s in byDb[e]; }
      if e in u[s] { assert e in byDb && s in byDb[e]; }
    }
    forall e | e in t[s] ensures t[s][e] == u[s][e] {
      assert e in byDb && s in byDb[e];
    }
  }

  method GetKVDBScopesInfo(handlersInfo: map<string, Counter>) returns (retValue: map<string, Counter>)
    requires forall d, s :: d in handlersInfo && s in handlersInfo[d] ==> handlersInfo[d][s] < U32
    ensures Transposed(handlersInfo, retValue)
  {
    retValue := map[];
    var dbs := handlersInfo.Keys;
    while dbs != {}
      invariant dbs <= handlersInfo.Keys
      invariant Transposed(handlersInfo - dbs, retValue)
    {
      var dbName :| dbName in dbs;
      retValue := AddRow(handlersInfo - dbs, dbName, handlersInfo[dbName], retValue);
      assert (handlersInfo - dbs)[dbName := handlersInfo[dbName]] == handlersInfo - (dbs - {dbName});
      dbs := dbs - {dbName};
    }
    assert handlersInfo - dbs == handlersInfo;
  }

  // The inner loop: the scopes of one database.
  method AddRow(ghost byDb: map<string, Counter>, dbName: string, scopes: Counter, table: map<string, Counter>)
    returns (r: map<string, Counter>)
    requires dbName !in byDb && Transposed(byDb, table)
    requires forall s :: s in scopes ==> scopes[s] < U32
    ensures Transposed(byDb[dbName := scopes], r)
  {
    r := table;
    var rest := scopes.Keys;
    assert scopes - rest == map[];
    while rest != {}
      invariant rest <= scopes.Keys
      invariant Transposed(byDb[dbName := scopes - rest], r)
    {
      var scopeName :| scopeName in rest;
      var counterMap := Scopes(r, scopeName);
      RowGrows(byDb, dbName, scopes - rest, r, scopeName, scopes[scopeName]);
      r := r[scopeName := AddRef(counterMap, dbName, scopes[scopeName])];
      assert (scopes - rest)[scopeName := scopes[scopeName]] == scopes - (rest - {scopeName});
      rest := rest - {scopeName};
    }
    assert scopes - rest == scopes;
  }

  // One more scope of the row goes into the table.
  lemma RowGrows(byDb: map<string, Counter>, dbName: string, row: Counter, table: map<string, Counter>,
                 scope: string, n: nat)
    requires scope !in row && Transposed(byDb[dbName := row], table) && n < U32
    ensures Transposed(byDb[dbName := row[scope := n]], table[scope := AddRef(Scopes(table, scope), dbName, n)])
  {
    var more, old' := byDb[dbName := row[scope := n]], byDb[dbName := row];
    assert old'[dbName] == row;
    assert scope in table ==> dbName !in table[scope];
    var column := Scopes(table, scope)[dbName := n];
    assert AddRef(Scopes(table, scope), dbName, n) == column;
    var table' := table[scope := column];
    forall d, s | d in more && s in more[d] ensures s in table' && d in table'[s] && table'[s][d] == more[d][s] {
      if d != dbName || s != scope { assert d in old' && s in old'[d]; }
    }
    forall s, d | s in table' && d in table'[s] ensures d in more && s in more[d] {
      if d != dbName || s != scope { assert s in table && d in table[s]; assert d in old' && s in old'[d]; }
    }
  }
}
