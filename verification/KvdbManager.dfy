/** kvdb/src/kvdbManager.cpp: the databases of the manager and the handlers given out for them. */
module KvdbManagers {
  import opened Wrappers
  import opened HandlerCounts
  import opened CounterSums

  // A handler remembers the column family it was built on.
  datatype Handle = Handle(db: string, scope: string, cf: nat)

  datatype KvdbError = InUse | NoSuchDb | RocksError | BadFile | LoadFailed

  // live: the handlers given out and not yet destroyed.
  datatype Manager = Manager(
    cfs: map<string, nat>, counts: map<string, Counter>, live: map<nat, Handle>, nextCf: nat, nextHandle: nat)

  // The calls, with what the library and the file system answer to them. What the databases hold is not seen here.
  datatype Op =
    | Get(db: string, scope: string)
    | Release(handle: nat)
    | Delete(name: string, dropOk: bool)
    | Create(name: string, createOk: bool)
    | CreateFrom(name: string, fileOk: bool, createOk: bool, loadOk: bool, dropOk: bool)

  // getKVDBHandlersCount, on uint32_t.
  ghost function Usage(counts: map<string, Counter>, name: string): nat {
    Sum(Scopes(counts, name)) % U32
  }

  ghost function DeleteError(m: Manager, name: string, dropOk: bool): Option<KvdbError> {
    if Usage(m.counts, name) != 0 then Some(InUse)
    else if name !in m.cfs then Some(NoSuchDb)
    else if !dropOk then Some(RocksError)
    else None
  }

  function GetHandler(m: Manager, db: string, scope: string): Manager {
    if db !in m.cfs then m
    else
      Manager(m.cfs, AddHandler(m.counts, db, scope), m.live[m.nextHandle := Handle(db, scope, m.cfs[db])],
              m.nextCf, m.nextHandle + 1)
  }

  function ReleaseHandler(m: Manager, h: nat): Manager {
    if h !in m.live then m
    else
      var Handle(db, scope, _) := m.live[h];
      Manager(m.cfs, RemoveHandler(m.counts, db, scope), m.live - {h}, m.nextCf, m.nextHandle)
  }

  ghost function DeleteDB(m: Manager, name: string, dropOk: bool): Manager {
    if DeleteError(m, name, dropOk).Some? then m else m.(cfs := m.cfs - {name})
  }

  function CreateDB(m: Manager, name: string, createOk: bool): Manager {
    if name in m.cfs || !createOk then m else m.(cfs := m.cfs[name := m.nextCf], nextCf := m.nextCf + 1)
  }

  ghost function CreateFromError(m: Manager, name: string, fileOk: bool, createOk: bool, loadOk: bool, dropOk: bool)
    : Option<KvdbError>
  {
    if !fileOk then Some(BadFile)
    else if name !in m.cfs && !createOk then Some(RocksError)
    else if loadOk then None
    else
      var failure := DeleteError(CreateDB(m, name, createOk), name, dropOk);
      if failure.Some? then failure else Some(LoadFailed)
  }

  ghost function CreateFromFile(m: Manager, name: string, fileOk: bool, createOk: bool, loadOk: bool,
                                dropOk: bool): Manager {
    if !fileOk then m
    else
      var created := CreateDB(m, name, createOk);
      if name !in created.cfs || loadOk then created else DeleteDB(created, name, dropOk)
  }

  ghost function Step(m: Manager, op: Op): Manager {
    match op
    case Get(db, scope) => GetHandler(m, db, scope)
    case Release(h) => ReleaseHandler(m, h)
    case Delete(name, dropOk) => DeleteDB(m, name, dropOk)
    case Create(name, createOk) => CreateDB(m, name, createOk)
    case CreateFrom(name, fileOk, createOk, loadOk, dropOk) => CreateFromFile(m, name, fileOk, createOk, loadOk, dropOk)
  }

  ghost function Run(m: Manager, ops: seq<Op>): Manager
    decreases |ops|
  {
    if ops == [] then m else Run(Step(m, ops[0]), ops[1..])
  }

  function Start(cfs: map<string, nat>, nextCf: nat): Manager {
    Manager(cfs, map[], map[], nextCf, 0)
  }

  function On(live: map<nat, Handle>, db: string): set<nat> {
    set h | h in live && live[h].db == db
  }

  function OnScope(live: map<nat, Handle>, db: string, scope: string): set<nat> {
    set h | h in live && live[h].db == db && live[h].scope == scope
  }

  // Every live handler's database is still there, on the column family it was built on.
  ghost predicate Served(m: Manager) {
    forall h :: h in m.live ==> m.live[h].db in m.cfs && m.cfs[m.live[h].db] == m.live[h].cf
  }

  // The counts are the numbers of live handlers.
  ghost predicate Tallied(m: Manager) {
    && Tidy(m.counts)
    && (forall h :: h in m.live ==> h < m.nextHandle)
    && (forall db, scope :: CountOf(Scopes(m.counts, db), scope) == |OnScope(m.live, db, scope)|)
    && (forall db :: Sum(Scopes(m.counts, db)) == |On(m.live, db)|)
  }

  ghost predicate Inv(m: Manager) {
    Served(m) && Tallied(m)
  }

  // No scope of a database is held 2^32 times at once.
  ghost predicate Small(m: Manager) {
    forall db, scope :: |OnScope(m.live, db, scope)| < U32
  }

  lemma OnBound(live: map<nat, Handle>, db: string, scope: string)
    ensures |OnScope(live, db, scope)| <= |On(live, db)| <= |live|
  {
    SubsetSize(OnScope(live, db, scope), On(live, db));
    SubsetSize(On(live, db), live.Keys);
    assert |live.Keys| == |live|;
  }

  // ----- the tally -----

  lemma GetTallies(m: Manager, db: string, scope: string)
    requires Tallied(m) && db in m.cfs && Small(GetHandler(m, db, scope))
    ensures Tallied(GetHandler(m, db, scope))
  {
    var u, handle := GetHandler(m, db, scope), Handle(db, scope, m.cfs[db]);
    var scopes := Scopes(m.counts, db);
    JoinsOn(m.live, m.nextHandle, handle);
    JoinsScope(m.live, m.nextHandle, handle);
    assert CountOf(scopes, scope) == |OnScope(m.live, db, scope)|;
    assert |OnScope(u.live, db, scope)| < U32;
    CountUp(scopes, scope);
    SumUp(scopes, scope);
    AddedScopes(m.counts, db, scope);
    CountsFollow(m, u, db, scope);
  }

  lemma AddedScopes(counts: map<string, Counter>, db: string, scope: string)
    requires Tidy(counts) && CountOf(Scopes(counts, db), scope) + 1 < U32
    ensures var after := AddHandler(counts, db, scope);
            && Tidy(after)
            && Scopes(after, db) == AddRef(Scopes(counts, db), scope, 1)
            && forall d :: d != db ==> Scopes(after, d) == Scopes(counts, d)
  {
  }

  lemma ReleaseTallies(m: Manager, h: nat)
    requires Tallied(m) && h in m.live
    ensures Tallied(ReleaseHandler(m, h))
  {
    var u := ReleaseHandler(m, h);
    var Handle(db, scope, cf) := m.live[h];
    var scopes := Scopes(m.counts, db);
    assert CountOf(scopes, scope) == |OnScope(m.live, db, scope)|;
    assert u.live[h := m.live[h]] == m.live;
    JoinsOn(u.live, h, m.live[h]);
    JoinsScope(u.live, h, m.live[h]);
    CountDown(scopes, scope);
    ReleasedScopes(m.counts, db, scope);
    CountsFollow(m, u, db, scope);
  }

  lemma ReleasedScopes(counts: map<string, Counter>, db: string, scope: string)
    requires Tidy(counts) && 0 < CountOf(Scopes(counts, db), scope)
    ensures var after := RemoveHandler(counts, db, scope);
            && Tidy(after)
            && Scopes(after, db) == RemoveRef(Scopes(counts, db), scope)
            && forall d :: d != db ==> Scopes(after, d) == Scopes(counts, d)
  {
  }

  // A handler that joins is counted once on its database.
  lemma JoinsOn(live: map<nat, Handle>, h: nat, handle: Handle)
    requires h !in live
    ensures forall d :: |On(live[h := handle], d)| == |On(live, d)| + if d == handle.db then 1 else 0
  {
    forall d ensures |On(live[h := handle], d)| == |On(live, d)| + if d == handle.db then 1 else 0 {
      JoinsOne(live, h, handle, d);
    }
  }

  lemma JoinsOne(live: map<nat, Handle>, h: nat, handle: Handle, d: string)
    requires h !in live
    ensures On(live[h := handle], d) == if d == handle.db then On(live, d) + {h} else On(live, d)
    ensures h !in On(live, d)
  {
  }

  // And once on its scope.
  lemma JoinsScope(live: map<nat, Handle>, h: nat, handle: Handle)
    requires h !in live
    ensures |OnScope(live[h := handle], handle.db, handle.scope)| == |OnScope(live, handle.db, handle.scope)| + 1
    ensures forall d, c :: d != handle.db || c != handle.scope ==>
              |OnScope(live[h := handle], d, c)| == |OnScope(live, d, c)|
  {
    var more := live[h := handle];
    assert OnScope(more, handle.db, handle.scope) == OnScope(live, handle.db, handle.scope) + {h};
    forall d, c | d != handle.db || c != handle.scope ensures |OnScope(more, d, c)| == |OnScope(live, d, c)| {
      assert OnScope(more, d, c) == OnScope(live, d, c);
    }
  }

  lemma SumUp(m: Counter, scope: string)
    requires CountOf(m, scope) + 1 < U32
    ensures Sum(AddRef(m, scope, 1)) == Sum(m) + 1
  {
    CountUp(m, scope);
    SumPut(m, scope, CountOf(m, scope) + 1);
  }

  lemma CountDown(m: Counter, scope: string)
    requires 0 < CountOf(m, scope) < U32
    ensures CountOf(RemoveRef(m, scope), scope) == CountOf(m, scope) - 1
    ensures forall c :: c != scope ==> CountOf(RemoveRef(m, scope), c) == CountOf(m, c)
    ensures Sum(RemoveRef(m, scope)) == Sum(m) - 1
  {
    var n := m[scope];
    if n == 1 {
      SumRemove(m, scope);
    } else {
      SumPut(m, scope, n - 1);
    }
  }

  // When only one count moved, and the handlers with it, the tally still holds.
  lemma CountsFollow(m: Manager, u: Manager, db: string, scope: string)
    requires Tallied(m) && Tidy(u.counts) && forall h :: h in u.live ==> h < u.nextHandle
    requires forall d :: d != db ==> Scopes(u.counts, d) == Scopes(m.counts, d) && |On(u.live, d)| == |On(m.live, d)|
    requires forall d, c :: d != db || c != scope ==> |OnScope(u.live, d, c)| == |OnScope(m.live, d, c)|
    requires forall c :: c != scope ==> CountOf(Scopes(u.counts, db), c) == CountOf(Scopes(m.counts, db), c)
    requires CountOf(Scopes(u.counts, db), scope) == |OnScope(u.live, db, scope)|
    requires Sum(Scopes(u.counts, db)) == |On(u.live, db)|
    ensures Tallied(u)
  {
    forall d, c ensures CountOf(Scopes(u.counts, d), c) == |OnScope(u.live, d, c)| {
      assert CountOf(Scopes(m.counts, d), c) == |OnScope(m.live, d, c)|;
    }
    forall d ensures Sum(Scopes(u.counts, d)) == |On(u.live, d)| {
      assert Sum(Scopes(m.counts, d)) == |On(m.live, d)|;
    }
  }

  lemma StepTallies(m: Manager, op: Op)
    requires Tallied(m) && Small(Step(m, op))
    ensures Tallied(Step(m, op))
  {
    match op
    case Get(db, scope) =>
      if db in m.cfs { GetTallies(m, db, scope); }
    case Release(h) =>
      if h in m.live { ReleaseTallies(m, h); }
    case _ =>
      SameLive(m, op);
      SameTallied(m, Step(m, op));
  }

  lemma SameTallied(m: Manager, u: Manager)
    requires Tallied(m) && u.live == m.live && u.counts == m.counts && u.nextHandle == m.nextHandle
    ensures Tallied(u)
  {
  }

  // In no state of the run is a scope held 2^32 times.
  ghost predicate SmallAlong(m: Manager, ops: seq<Op>)
    decreases |ops|
  {
    Small(m) && (ops != [] ==> SmallAlong(Step(m, ops[0]), ops[1..]))
  }

  lemma {:induction false} RunTallies(m: Manager, ops: seq<Op>)
    requires Tallied(m) && SmallAlong(m, ops)
    ensures Tallied(Run(m, ops))
    decreases |ops|
  {
    if ops != [] {
      StepTallies(m, ops[0]);
      RunTallies(Step(m, ops[0]), ops[1..]);
    }
  }

  // ----- when the counts are right -----

  ghost predicate Exact(m: Manager) {
    forall db, scope :: CountOf(Scopes(m.counts, db), scope) == |OnScope(m.live, db, scope)|
  }

  ghost predicate ExactAlong(m: Manager, ops: seq<Op>)
    decreases |ops|
  {
    Exact(m) && (ops != [] ==> ExactAlong(Step(m, ops[0]), ops[1..]))
  }

  // Every count is an unsigned 32-bit word.
  ghost predicate Words(counts: map<string, Counter>) {
    forall db, scope :: CountOf(Scopes(counts, db), scope) < U32
  }

  lemma StepWords(m: Manager, op: Op)
    requires Words(m.counts)
    ensures Words(Step(m, op).counts)
  {
    match op
    case Get(db, scope) => AddWords(m.counts, db, scope);
    case Release(h) =>
      if h in m.live { RemoveWords(m.counts, m.live[h].db, m.live[h].scope); }
    case Delete(_, _) =>
    case Create(_, _) =>
    case CreateFrom(_, _, _, _, _) =>
  }

  lemma AddWords(counts: map<string, Counter>, db: string, scope: string)
    requires Words(counts)
    ensures Words(AddHandler(counts, db, scope))
  {
    var after := AddHandler(counts, db, scope);
    forall d, c ensures CountOf(Scopes(after, d), c) < U32 { assert CountOf(Scopes(counts, d), c) < U32; }
  }

  lemma RemoveWords(counts: map<string, Counter>, db: string, scope: string)
    requires Words(counts)
    ensures Words(RemoveHandler(counts, db, scope))
  {
    var after := RemoveHandler(counts, db, scope);
    forall d, c ensures CountOf(Scopes(after, d), c) < U32 { assert CountOf(Scopes(counts, d), c) < U32; }
  }

  // In every run the counts are right all along exactly when no scope is ever held 2^32 times.
  lemma CountsExactly(cfs: map<string, nat>, nextCf: nat, ops: seq<Op>)
    ensures ExactAlong(Start(cfs, nextCf), ops) <==> SmallAlong(Start(cfs, nextCf), ops)
  {
    StartInv(cfs, nextCf);
    ExactFrom(Start(cfs, nextCf), ops);
  }

  lemma {:induction false} ExactFrom(m: Manager, ops: seq<Op>)
    requires Tallied(m) && Words(m.counts)
    ensures ExactAlong(m, ops) <==> SmallAlong(m, ops)
    decreases |ops|
  {
    forall db, scope ensures |OnScope(m.live, db, scope)| < U32 {
      assert CountOf(Scopes(m.counts, db), scope) == |OnScope(m.live, db, scope)|;
    }
    if ops != [] {
      var u := Step(m, ops[0]);
      StepWords(m, ops[0]);
      if Exact(u) { ExactIsSmall(u); }
      if Small(u) {
        StepTallies(m, ops[0]);
        ExactFrom(u, ops[1..]);
      }
    }
  }

  lemma ExactIsSmall(m: Manager)
    requires Exact(m) && Words(m.counts)
    ensures Small(m)
  {
    forall db, scope ensures |OnScope(m.live, db, scope)| < U32 {
      assert CountOf(Scopes(m.counts, db), scope) == |OnScope(m.live, db, scope)|;
    }
  }

  // ----- which calls take a database from under a handler -----

  lemma RefusedWhenTallied(m: Manager, name: string, dropOk: bool)
    requires Tallied(m)
    ensures DeleteError(m, name, dropOk) == Some(InUse) <==> |On(m.live, name)| % U32 != 0
  {
    assert Sum(Scopes(m.counts, name)) == |On(m.live, name)|;
  }

  // In every run in which no scope is held 2^32 times, the 32-bit sum refuses a deletion exactly when the number of
  // live handlers is no multiple of 2^32.
  lemma DeleteRefusedExactly(cfs: map<string, nat>, nextCf: nat, ops: seq<Op>, name: string, dropOk: bool)
    requires SmallAlong(Start(cfs, nextCf), ops)
    ensures var m := Run(Start(cfs, nextCf), ops);
            DeleteError(m, name, dropOk) == Some(InUse) <==> |On(m.live, name)| % U32 != 0
  {
    StartInv(cfs, nextCf);
    RunTallies(Start(cfs, nextCf), ops);
    RefusedWhenTallied(Run(Start(cfs, nextCf), ops), name, dropOk);
  }

  // With fewer live handlers, a database may be dropped exactly when no live handler uses it.
  lemma DeleteRefused(m: Manager, name: string, dropOk: bool)
    requires Tallied(m) && |m.live| < U32
    ensures DeleteError(m, name, dropOk) == Some(InUse) <==> exists h :: h in m.live && m.live[h].db == name
  {
    OnBound(m.live, name, "");
    RefusedWhenTallied(m, name, dropOk);
    SomeOn(m.live, name);
  }

  lemma SomeOn(live: map<nat, Handle>, name: string)
    ensures |On(live, name)| > 0 <==> exists h :: h in live && live[h].db == name
  {
    if h :| h in live && live[h].db == name { assert h in On(live, name); }
    if |On(live, name)| > 0 { var h :| h in On(live, name); }
  }

  // A positive multiple of 2^32 handlers are live on the database.
  ghost predicate Overlooked(m: Manager, name: string) {
    |On(m.live, name)| > 0 && |On(m.live, name)| % U32 == 0
  }

  // The call drops a database with live handlers: a deletion that succeeds, or the rollback of a failed load.
  ghost predicate TakenBy(m: Manager, op: Op) {
    match op
    case Delete(name, dropOk) => dropOk && name in m.cfs && Overlooked(m, name)
    case CreateFrom(name, fileOk, _, loadOk, dropOk) =>
      fileOk && !loadOk && dropOk && name in m.cfs && Overlooked(m, name)
    case _ => false
  }

  // A call takes a database from under a live handler exactly then.
  lemma ServedExactly(m: Manager, op: Op)
    requires Inv(m)
    ensures Served(Step(m, op)) <==> !TakenBy(m, op)
  {
    match op
    case Get(_, _) =>
    case Release(_) =>
    case Delete(name, dropOk) => DeleteServes(m, name, dropOk);
    case Create(name, createOk) => CreateServes(m, name, createOk);
    case CreateFrom(name, fileOk, createOk, loadOk, dropOk) =>
      CreateServes(m, name, createOk);
      DeleteServes(CreateDB(m, name, createOk), name, dropOk);
      SomeOn(m.live, name);
  }

  lemma CreateServes(m: Manager, name: string, createOk: bool)
    requires Inv(m)
    ensures Inv(CreateDB(m, name, createOk)) && CreateDB(m, name, createOk).live == m.live
  {
  }

  lemma DeleteServes(m: Manager, name: string, dropOk: bool)
    requires Inv(m)
    ensures Served(DeleteDB(m, name, dropOk)) <==> !(dropOk && name in m.cfs && Overlooked(m, name))
  {
    RefusedWhenTallied(m, name, dropOk);
    SomeOn(m.live, name);
  }

  ghost predicate ServedAlong(m: Manager, ops: seq<Op>)
    decreases |ops|
  {
    Served(m) && (ops != [] ==> ServedAlong(Step(m, ops[0]), ops[1..]))
  }

  ghost predicate NoneTaken(m: Manager, ops: seq<Op>)
    decreases |ops|
  {
    ops != [] ==> !TakenBy(m, ops[0]) && NoneTaken(Step(m, ops[0]), ops[1..])
  }

  // While no scope is held 2^32 times, the handlers keep their databases all along exactly when no call is such a one.
  lemma {:induction false} RunServesExactly(m: Manager, ops: seq<Op>)
    requires Inv(m) && SmallAlong(m, ops)
    ensures ServedAlong(m, ops) <==> NoneTaken(m, ops)
    decreases |ops|
  {
    if ops != [] {
      StepTallies(m, ops[0]);
      ServedExactly(m, ops[0]);
      if Served(Step(m, ops[0])) { RunServesExactly(Step(m, ops[0]), ops[1..]); }
    }
  }

  lemma {:induction false} RunKeeps(m: Manager, ops: seq<Op>)
    requires Inv(m) && SmallAlong(m, ops) && NoneTaken(m, ops)
    ensures Inv(Run(m, ops))
    decreases |ops|
  {
    if ops != [] {
      StepTallies(m, ops[0]);
      ServedExactly(m, ops[0]);
      RunKeeps(Step(m, ops[0]), ops[1..]);
    }
  }

  // ----- fewer than 2^32 live handlers -----

  ghost predicate FewLive(m: Manager, ops: seq<Op>)
    decreases |ops|
  {
    |m.live| < U32 && (ops != [] ==> FewLive(Step(m, ops[0]), ops[1..]))
  }

  // Few enough to be counted, and to be seen by every deletion.
  lemma {:induction false} FewIsSmall(m: Manager, ops: seq<Op>)
    requires FewLive(m, ops)
    ensures SmallAlong(m, ops) && NoneTaken(m, ops)
    decreases |ops|
  {
    forall db, scope ensures |OnScope(m.live, db, scope)| < U32 { OnBound(m.live, db, scope); }
    if ops != [] {
      forall name ensures !Overlooked(m, name) { OnBound(m.live, name, ""); }
      FewIsSmall(Step(m, ops[0]), ops[1..]);
    }
  }

  lemma LiveAfter(m: Manager, op: Op)
    ensures |Step(m, op).live| <= |m.live| + 1
  {
    match op
    case Get(db, scope) =>
      if db in m.cfs { OneMore(m.live, m.nextHandle, Handle(db, scope, m.cfs[db])); }
    case Release(h) =>
      if h in m.live { Fewer(m.live, h); }
    case _ => SameLive(m, op);
  }

  lemma SameLive(m: Manager, op: Op)
    requires !op.Get? && !op.Release?
    ensures Step(m, op).live == m.live && Step(m, op).counts == m.counts && Step(m, op).nextHandle == m.nextHandle
  {
  }

  lemma OneMore(live: map<nat, Handle>, h: nat, handle: Handle)
    ensures |live[h := handle]| <= |live| + 1
  {
    if h in live {
      assert live[h := handle].Keys == live.Keys;
      assert |live[h := handle].Keys| == |live[h := handle]| && |live.Keys| == |live|;
    } else {
      Fewer(live[h := handle], h);
      assert live[h := handle] - {h} == live;
    }
  }

  lemma Fewer(live: map<nat, Handle>, h: nat)
    requires h in live
    ensures |live - {h}| == |live| - 1
  {
    assert live == (live - {h})[h := live[h]];
  }

  // Fewer than 2^32 calls give out fewer than 2^32 handlers.
  lemma {:induction false} FewCalls(m: Manager, ops: seq<Op>)
    requires |m.live| + |ops| < U32
    ensures FewLive(m, ops)
    decreases |ops|
  {
    if ops != [] {
      LiveAfter(m, ops[0]);
      FewCalls(Step(m, ops[0]), ops[1..]);
    }
  }

  // No run of calls, deletions and failed loads included, takes a database from under a live handler.
  lemma LiveHandlersServed(cfs: map<string, nat>, nextCf: nat, ops: seq<Op>, h: nat)
    requires FewLive(Start(cfs, nextCf), ops)
    requires h in Run(Start(cfs, nextCf), ops).live
    ensures var m := Run(Start(cfs, nextCf), ops);
            m.live[h].db in m.cfs && m.cfs[m.live[h].db] == m.live[h].cf
  {
    StartInv(cfs, nextCf);
    FewIsSmall(Start(cfs, nextCf), ops);
    RunKeeps(Start(cfs, nextCf), ops);
  }

  lemma StartInv(cfs: map<string, nat>, nextCf: nat)
    ensures Inv(Start(cfs, nextCf))
  {
    var m := Start(cfs, nextCf);
    forall db, scope ensures OnScope(m.live, db, scope) == {} && On(m.live, db) == {} { }
  }

  // ----- once a scope was held 2^32 times -----

  // Two more handlers than a word holds but one, released again: the scope is forgotten, and its database may be
  // dropped from under all the others.
  lemma WrapForgets(m: Manager, db: string, scope: string)
    requires Inv(m) && db in m.cfs && Scopes(m.counts, db) == map[scope := U32 - 1]
    ensures var a, b := m.nextHandle, m.nextHandle + 1;
            var u := ReleaseHandler(ReleaseHandler(GetHandler(GetHandler(m, db, scope), db, scope), b), a);
            u.live == m.live && |On(u.live, db)| == U32 - 1 && DeleteError(u, db, true).None?
  {
    var h, a, b := Handle(db, scope, m.cfs[db]), m.nextHandle, m.nextHandle + 1;
    var u := ReleaseHandler(ReleaseHandler(GetHandler(GetHandler(m, db, scope), db, scope), b), a);
    assert a !in m.live && b !in m.live;
    BackAgain(m.live, a, b, h);
    assert u.live == m.live && u.cfs == m.cfs;
    assert u.counts ==
           RemoveHandler(RemoveHandler(AddHandler(AddHandler(m.counts, db, scope), db, scope), db, scope), db, scope);
    ForgottenScope(m.counts, db, scope);
    assert Scopes(u.counts, db) == map[] && Usage(u.counts, db) == 0;
    OneScope(Scopes(m.counts, db), scope);
    assert Sum(Scopes(m.counts, db)) == |On(m.live, db)|;
  }

  lemma OneScope(m: Counter, scope: string)
    requires scope in m && m == map[scope := m[scope]]
    ensures Sum(m) == m[scope]
  {
    SumRemove(m, scope);
    assert m - {scope} == map[];
  }

  lemma BackAgain(live: map<nat, Handle>, a: nat, b: nat, h: Handle)
    requires a != b && a !in live && b !in live
    ensures live[a := h][b := h] - {b} - {a} == live
  {
  }

  lemma ForgottenScope(counts: map<string, Counter>, db: string, scope: string)
    requires Scopes(counts, db) == map[scope := U32 - 1]
    ensures var twice := AddHandler(AddHandler(counts, db, scope), db, scope);
            db !in RemoveHandler(RemoveHandler(twice, db, scope), db, scope)
  {
    var twice := AddHandler(AddHandler(counts, db, scope), db, scope);
    assert Scopes(AddHandler(counts, db, scope), db) == map[scope := 0];
    assert Scopes(twice, db) == map[scope := 1];
    assert RemoveRef(map[scope := 1], scope) == map[];
  }

  function Gets(db: string, scope: string, n: nat): seq<Op> {
    if n == 0 then [] else [Get(db, scope)] + Gets(db, scope, n - 1)
  }

  lemma {:induction false} RunAppend(m: Manager, before: seq<Op>, after: seq<Op>)
    ensures Run(m, before + after) == Run(Run(m, before), after)
    decreases |before|
  {
    if before == [] {
      assert before + after == after;
    } else {
      assert (before + after)[1..] == before[1..] + after;
      RunAppend(Step(m, before[0]), before[1..], after);
    }
  }

  // The scope alone uses the database, k times.
  ghost predicate UsedAlone(m: Manager, db: string, scope: string, k: nat) {
    && Inv(m) && db in m.cfs
    && Scopes(m.counts, db) == if k == 0 then map[] else map[scope := k]
  }

  lemma GetUsesAlone(m: Manager, db: string, scope: string, k: nat)
    requires UsedAlone(m, db, scope, k) && k + 1 < U32
    ensures UsedAlone(GetHandler(m, db, scope), db, scope, k + 1)
  {
    var u := GetHandler(m, db, scope);
    assert CountOf(Scopes(m.counts, db), scope) == |OnScope(m.live, db, scope)| == k;
    JoinsScope(m.live, m.nextHandle, Handle(db, scope, m.cfs[db]));
    forall d, c ensures |OnScope(u.live, d, c)| < U32 {
      assert CountOf(Scopes(m.counts, d), c) == |OnScope(m.live, d, c)|;
    }
    GetTallies(m, db, scope);
    ServedExactly(m, Get(db, scope));
    CountUp(Scopes(m.counts, db), scope);
    AddedScopes(m.counts, db, scope);
  }

  // The manager after n gets.
  function AfterGets(m: Manager, db: string, scope: string, n: nat): Manager
    decreases n
  {
    if n == 0 then m else AfterGets(GetHandler(m, db, scope), db, scope, n - 1)
  }

  lemma {:induction false} RunGets(m: Manager, db: string, scope: string, n: nat)
    ensures Run(m, Gets(db, scope, n)) == AfterGets(m, db, scope, n)
    decreases n
  {
    if n > 0 {
      assert Gets(db, scope, n)[1..] == Gets(db, scope, n - 1);
      RunGets(GetHandler(m, db, scope), db, scope, n - 1);
    }
  }

  lemma {:induction false} GetsUseAlone(m: Manager, db: string, scope: string, k: nat, n: nat)
    requires k <= n < U32 && UsedAlone(m, db, scope, k)
    ensures var u := AfterGets(m, db, scope, n - k);
            UsedAlone(u, db, scope, n) && u.nextHandle == m.nextHandle + (n - k) && u.cfs == m.cfs
    decreases n - k
  {
    if k < n {
      GetUsesAlone(m, db, scope, k);
      GetsUseAlone(GetHandler(m, db, scope), db, scope, k + 1, n);
    }
  }

  // Two more handlers and both released again.
  function TwoMore(db: string, scope: string, n: nat): seq<Op> {
    [Get(db, scope), Get(db, scope), Release(n + 1), Release(n)]
  }

  // 2^32 + 1 handlers of one scope, and the last two of them released again.
  function WrappingRun(db: string, scope: string, n: nat): seq<Op> {
    Gets(db, scope, n) + TwoMore(db, scope, n)
  }

  lemma Unroll(m: Manager, a: Op, b: Op, c: Op, d: Op)
    ensures Run(m, [a, b, c, d]) == Step(Step(Step(Step(m, a), b), c), d)
  {
    assert [a, b, c, d][1..] == [b, c, d];
    assert [b, c, d][1..] == [c, d];
    assert [c, d][1..] == [d];
    assert [d][1..] == [];
    assert Run(m, [a, b, c, d]) == Run(Step(m, a), [b, c, d]);
    assert Run(Step(m, a), [b, c, d]) == Run(Step(Step(m, a), b), [c, d]);
    assert Run(Step(Step(m, a), b), [c, d]) == Run(Step(Step(Step(m, a), b), c), [d]);
    assert Run(Step(Step(Step(m, a), b), c), [d]) == Run(Step(Step(Step(Step(m, a), b), c), d), []);
  }

  lemma WrapRuns(m: Manager, db: string, scope: string)
    requires UsedAlone(m, db, scope, U32 - 1)
    ensures var u := Run(m, TwoMore(db, scope, m.nextHandle));
            |On(u.live, db)| == U32 - 1 && DeleteError(u, db, true).None?
  {
    var a, b := m.nextHandle, m.nextHandle + 1;
    Unroll(m, Get(db, scope), Get(db, scope), Release(b), Release(a));
    WrapForgets(m, db, scope);
  }

  // From the start of a manager on, it leaves 2^32 - 1 handlers live on a database that may be dropped, and no count.
  lemma WrapReached(cfs: map<string, nat>, nextCf: nat, db: string, scope: string, n: nat)
    requires db in cfs && n == U32 - 1
    ensures var u := Run(Start(cfs, nextCf), WrappingRun(db, scope, n));
            |On(u.live, db)| == n && DeleteError(u, db, true).None? && !Served(Step(u, Delete(db, true)))
  {
    var start := Start(cfs, nextCf);
    StartInv(cfs, nextCf);
    RunGets(start, db, scope, n);
    GetsUseAlone(start, db, scope, 0, n);
    WrapRuns(AfterGets(start, db, scope, n), db, scope);
    RunAppend(start, Gets(db, scope, n), TwoMore(db, scope, n));
    DroppedInUse(Run(start, WrappingRun(db, scope, n)), db);
  }

  // In that run the counts go wrong.
  lemma CountsGoWrong(cfs: map<string, nat>, nextCf: nat, db: string, scope: string, n: nat)
    requires db in cfs && n == U32 - 1
    ensures !ExactAlong(Start(cfs, nextCf), WrappingRun(db, scope, n))
  {
    CountsExactly(cfs, nextCf, WrappingRun(db, scope, n));
    WrapReached(cfs, nextCf, db, scope, n);
    if SmallAlong(Start(cfs, nextCf), WrappingRun(db, scope, n)) {
      DeleteRefusedExactly(cfs, nextCf, WrappingRun(db, scope, n), db, true);
    }
  }

  lemma DroppedInUse(m: Manager, db: string)
    requires DeleteError(m, db, true).None? && |On(m.live, db)| > 0
    ensures !Served(Step(m, Delete(db, true)))
  {
    SomeOn(m.live, db);
    var h :| h in m.live && m.live[h].db == db;
    assert Step(m, Delete(db, true)).live == m.live;
  }
}
