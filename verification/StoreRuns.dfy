/** Whole runs of a store, and what a store opened again finds. */
module StoreRuns {
  import opened Wrappers
  import opened JsonModel
  import opened FileTree
  import opened FileDrivers
  import opened StoreView
  import opened StoreLink
  import opened StoreLoad
  import opened Stores

  // Any one operation.
  method Perform(store: Store, op: Op) returns (error: Option<StoreError>)
    requires store.Valid() && ValidOp(op)
    modifies store.driver, store.cache
    ensures store.Valid()
    ensures error == Refusal(old(store.Seen()), op)
    ensures store.Seen() == Apply(old(store.Seen()), op)
  {
    match op {
      case Create(name, ns, doc) =>
        error := store.CreateDoc(name, ns, doc);
      case Update(name, doc) =>
        error := store.UpdateDoc(name, doc);
      case Upsert(name, ns, doc) =>
        error := store.UpsertDoc(name, ns, doc);
      case Delete(name) =>
        error := store.DeleteDoc(name);
      case DeleteCol(name, ns) =>
        error := store.DeleteCol(name, ns);
      case CreateInternal(name, doc) =>
        error := store.CreateInternalDoc(name, doc);
      case UpdateInternal(name, doc) =>
        error := store.UpdateInternalDoc(name, doc);
      case UpsertInternal(name, doc) =>
        error := store.UpsertInternalDoc(name, doc);
      case DeleteInternal(name) =>
        error := store.DeleteInternalDoc(name);
    }
  }

  // Any run, refused operations included.
  method Replay(store: Store, ops: seq<Op>)
    requires store.Valid() && ValidRun(ops)
    modifies store.driver, store.cache
    ensures store.Valid() && store.Seen() == Run(old(store.Seen()), ops)
  {
    assert ops[0..] == ops;
    for i := 0 to |ops|
      invariant store.Valid()
      invariant Run(store.Seen(), ops[i..]) == Run(old(store.Seen()), ops)
    {
      assert ops[i..][0] == ops[i] && ops[i..][1..] == ops[i + 1..];
      var _ := Perform(store, ops[i]);
    }
  }

  // After any run of a valid store, a store opened over the same tree is valid, has the same index and shows the same.
  method ReplayAndOpen(store: Store, ops: seq<Op>) returns (r: Result<Store, OpenError>)
    requires store.Valid() && ValidRun(ops)
    modifies store.driver, store.cache
    ensures store.Valid()
    ensures r.Success? && r.value.driver == store.driver && r.value.Valid()
    ensures r.value.cache.nameToNs == store.cache.nameToNs
    ensures r.value.Seen() == Run(old(store.Seen()), ops)
  {
    Replay(store, ops);
    LinkedLoads(store.cache.nameToNs, store.driver.nodes);
    r := Store.Open(store.driver);
  }

  // From an empty directory on.
  method StartAndReplay(ops: seq<Op>) returns (store: Store)
    requires ValidRun(ops)
    ensures fresh(store) && store.Valid() && store.Seen() == Run(View(map[], map[]), ops)
  {
    var driver := new FileDriver();
    LinkedEmpty();
    LinkedLoads(map[], driver.nodes);
    var result := Store.Open(driver);
    store := result.value;
    Replay(store, ops);
  }

  lemma LinkedEmpty()
    ensures Linked(map[], map[]) && ViewOf(map[], map[]) == View(map[], map[])
  {
  }
}
