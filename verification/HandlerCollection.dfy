/** kvdb/src/refCounter.cpp and kvdb/src/kvdbHandlerCollection.cpp: who uses which database. */
module HandlerCounts {
  import opened Wrappers

  type Counter = map<string, nat>

  function CountOf(m: Counter, name: string): nat {
    if name in m then m[name] else 0
  }

  // refMap_[name] += times, on uint32_t.
  function AddRef(m: Counter, name: string, times: nat): Counter {
    m[name := (CountOf(m, name) + times) % U32]
  }

  // val--, on uint32_t.
  function Decrement(val: nat): nat { (val + U32 - 1) % U32 }

  // And erase at zero.
  function RemoveRef(m: Counter, name: string): Counter {
    if name !in m then m
    else
      var val := Decrement(m[name]);
      if val == 0 then m - {name} else m[name := val]
  }

  function Scopes(counts: map<string, Counter>, db: string): Counter {
    if db in counts then counts[db] else map[]
  }

  // What a completed addKVDBHandler leaves behind.
  function AddHandler(counts: map<string, Counter>, db: string, scope: string): map<string, Counter> {
    counts[db := AddRef(Scopes(counts, db), scope, 1)]
  }

  // What a completed removeKVDBHandler leaves behind.
  function RemoveHandler(counts: map<string, Counter>, db: string, scope: string): map<string, Counter> {
    if db !in counts then counts
    else
      var scopes := RemoveRef(counts[db], scope);
      if scopes == map[] then counts - {db} else counts[db := scopes]
  }

  // No scope is kept with a zero count and no database without a scope.
  ghost predicate Tidy(counts: map<string, Counter>) {
    forall db :: db in counts ==>
      counts[db] != map[] && forall scope :: scope in counts[db] ==> 0 < counts[db][scope] < U32
  }

  // Removing undoes adding, even where the count wraps around.
  lemma AddThenRemove(counts: map<string, Counter>, db: string, scope: string)
    requires Tidy(counts)
    ensures RemoveHandler(AddHandler(counts, db, scope), db, scope) == counts
  {
    var scopes := Scopes(counts, db);
    var n := CountOf(scopes, scope);
    var added := AddRef(scopes, scope, 1);
    if n == 0 {
      assert added - {scope} == scopes;
    } else {
      assert added[scope := n] == scopes;
    }
    assert RemoveRef(added, scope) == scopes;
    if db in counts {
      assert counts[db := added][db := scopes] == counts;
    } else {
      assert counts[db := added] - {db} == counts;
    }
  }

  lemma CountUp(m: Counter, name: string)
    requires CountOf(m, name) + 1 < U32
    ensures AddRef(m, name, 1) == m[name := CountOf(m, name) + 1]
  {
  }

  // One more handler is counted as one more exactly below the largest count; there it leaves an entry that counts zero.
  lemma CountWraps(counts: map<string, Counter>, db: string, scope: string)
    requires CountOf(Scopes(counts, db), scope) < U32
    ensures var before, after := CountOf(Scopes(counts, db), scope), AddHandler(counts, db, scope);
            && (CountOf(Scopes(after, db), scope) == before + 1 <==> before < U32 - 1)
            && (Tidy(counts) ==> (Tidy(after) <==> before < U32 - 1))
            && (before == U32 - 1 ==> scope in Scopes(after, db) && Scopes(after, db)[scope] == 0)
  {
    var before, after := CountOf(Scopes(counts, db), scope), AddHandler(counts, db, scope);
    assert Scopes(after, db) == AddRef(Scopes(counts, db), scope, 1);
    if before == U32 - 1 { assert after[db][scope] == 0; }
  }

  lemma {:induction false} SubsetSize<T>(a: set<T>, b: set<T>)
    requires a <= b
    ensures |a| <= |b|
  {
    if a != {} {
      var x :| x in a;
      SubsetSize(a - {x}, b - {x});
    }
  }

  // One holder of the scope less, on 32 bits: the last one takes the scope along, and without it nothing changes.
  ghost predicate OneFewer(before: Counter, after: Counter, scope: string) {
    && (forall c :: c != scope ==> (c in after <==> c in before) && (c in before ==> after[c] == before[c]))
    && (scope in after <==> scope in before && before[scope] % 0x1_0000_0000 != 1)
    && (scope in after ==>
          after[scope] < 0x1_0000_0000 && (after[scope] + 1) % 0x1_0000_0000 == before[scope] % 0x1_0000_0000)
  }

  lemma RemoveRefLaw(m: Counter, name: string)
    ensures OneFewer(m, RemoveRef(m, name), name)
  {
    if name in m { DecrementLaw(m[name]); }
  }

  lemma DecrementLaw(val: nat)
    ensures Decrement(val) == 0 <==> val % 0x1_0000_0000 == 1
    ensures (Decrement(val) + 1) % 0x1_0000_0000 == val % 0x1_0000_0000
  {
  }

  // One holder of the scope more, on 32 bits.
  ghost predicate OneMore(before: Counter, after: Counter, scope: string) {
    && (forall c :: c != scope ==> (c in after <==> c in before) && (c in before ==> after[c] == before[c]))
    && scope in after && after[scope] == ((if scope in before then before[scope] else 0) + 1) % 0x1_0000_0000
  }

  // What an add leaves: one more for the scope, on 32 bits, and every other count as it was.
  lemma AddLaw(counts: map<string, Counter>, db: string, scope: string)
    ensures var after := AddHandler(counts, db, scope);
            && (forall d :: d != db ==> (d in after <==> d in counts) && (d in counts ==> after[d] == counts[d]))
            && db in after && OneMore(if db in counts then counts[db] else map[], after[db], scope)
  {
  }

  // What a removal leaves: the database goes with its last scope, and no other database changes.
  lemma RemoveLaw(counts: map<string, Counter>, db: string, scope: string)
    ensures var after := RemoveHandler(counts, db, scope);
            && (forall d :: d != db ==> (d in after <==> d in counts) && (d in counts ==> after[d] == counts[d]))
            && (db in after ==> db in counts && after[db] != map[] && OneFewer(counts[db], after[db], scope))
            && (db in counts && db !in after ==> OneFewer(counts[db], map[], scope))
  {
    if db in counts { RemoveRefLaw(counts[db], scope); }
  }

  class RefCounter {
    var refMap: Counter

    constructor ()
      ensures refMap == map[]
    {
      refMap := map[];
    }

    method Add(name: string, times: nat)
      modifies this
      ensures refMap == AddRef(old(refMap), name, times)
      ensures var before := if name in old(refMap) then old(refMap)[name] else 0;
              refMap == old(refMap)[name := (before + times) % 0x1_0000_0000]
    {
      if name !in refMap {
        refMap := refMap[name := 0];
      }
      refMap := refMap[name := (refMap[name] + times) % U32];
    }

    method Remove(name: string)
      modifies this
      ensures refMap == RemoveRef(old(refMap), name)
      ensures OneFewer(old(refMap), refMap, name)
    {
      RemoveRefLaw(refMap, name);
      if name in refMap {
        var val := Decrement(refMap[name]);
        if val == 0 {
          refMap := refMap - {name};
        } else {
          refMap := refMap[name := val];
        }
      }
    }

    predicate Empty()
      reads this
    {
      refMap == map[]
    }
  }

  // Each instance is the reference counter of one database.
  class HandlerCollection {
    var mapInstances: map<string, RefCounter>

    ghost predicate Valid()
      reads this
    {
      forall d, e :: d in mapInstances && e in mapInstances && d != e ==> mapInstances[d] != mapInstances[e]
    }

    ghost function Counts(): map<string, Counter>
      reads this, mapInstances.Values
    {
      map db | db in mapInstances :: mapInstances[db].refMap
    }

    constructor ()
      ensures Valid() && Counts() == map[] && mapInstances == map[]
    {
      mapInstances := map[];
    }

    method AddKVDBHandler(dbName: string, scopeName: string)
      requires Valid()
      modifies this, mapInstances.Values
      ensures Valid() && fresh(mapInstances.Values - old(mapInstances.Values))
      ensures Counts() == AddHandler(old(Counts()), dbName, scopeName)
      ensures forall d :: d != dbName ==>
                (d in Counts() <==> d in old(Counts())) && (d in Counts() ==> Counts()[d] == old(Counts())[d])
      ensures dbName in Counts() && OneMore(if dbName in old(Counts()) then old(Counts())[dbName] else map[],
                                            Counts()[dbName], scopeName)
    {
      AddLaw(Counts(), dbName, scopeName);
      if dbName in mapInstances {
        AddListed(dbName, scopeName);
        return;
      }
      AddNew(dbName, scopeName);
    }

    // The block under the shared lock.
    method AddListed(dbName: string, scopeName: string)
      requires Valid() && dbName in mapInstances
      modifies mapInstances[dbName]
      ensures Valid() && Counts() == AddHandler(old(Counts()), dbName, scopeName)
    {
      mapInstances[dbName].Add(scopeName, 1);
    }

    // The block under the exclusive lock.
    method AddNew(dbName: string, scopeName: string)
      requires Valid() && dbName !in mapInstances
      modifies this
      ensures Valid() && fresh(mapInstances.Values - old(mapInstances.Values))
      ensures Counts() == AddHandler(old(Counts()), dbName, scopeName)
    {
      var instance := new RefCounter();
      mapInstances := mapInstances[dbName := instance];
      instance.Add(scopeName, 1);
    }

    method RemoveKVDBHandler(dbName: string, scopeName: string)
      requires Valid()
      modifies this, mapInstances.Values
      ensures Valid() && mapInstances.Values <= old(mapInstances.Values)
      ensures Counts() == RemoveHandler(old(Counts()), dbName, scopeName)
      ensures forall d :: d != dbName ==>
                (d in Counts() <==> d in old(Counts())) && (d in Counts() ==> Counts()[d] == old(Counts())[d])
      ensures dbName in Counts() ==>
                dbName in old(Counts()) && Counts()[dbName] != map[] &&
                OneFewer(old(Counts())[dbName], Counts()[dbName], scopeName)
      ensures dbName in old(Counts()) && dbName !in Counts() ==> OneFewer(old(Counts())[dbName], map[], scopeName)
    {
      RemoveLaw(Counts(), dbName, scopeName);
      if dbName in mapInstances {
        var instance := mapInstances[dbName];
        instance.Remove(scopeName);
        if instance.Empty() {
          mapInstances := mapInstances - {dbName};
        }
      }
    }
  }
}
