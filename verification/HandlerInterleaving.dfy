/**
 * kvdbHandlerCollection.cpp under concurrent use: every handler adds itself once and removes itself once, one
 * atomic step at a time, under the readers-writer lock of the collection.
 */
module HandlerInterleaving {
  import opened Wrappers
  import opened HandlerCounts

  // Where a handler stands between its construction and its destruction.
  datatype Pc =
    | Idle
    | Reading           // holds the shared lock, before the lookup
    | Found(id: nat)    // holds the shared lock and an instance
    | AddedFast         // holds the shared lock, its scope is added
    | Missed            // the lookup failed and the shared lock is released
    | Writing           // holds the exclusive lock, before try_emplace
    | Placed(id: nat)   // holds the exclusive lock and an instance
    | AddedSlow         // holds the exclusive lock, its scope is added
    | Live              // the handler is in use
    | Removing          // holds the exclusive lock, before the lookup
    | Looked(id: nat)   // holds the exclusive lock and an instance
    | Dropped(id: nat)  // its scope is removed, emptyScopes not yet asked
    | Removed           // holds the exclusive lock, nothing left to do
    | Gone

  datatype Handler = Handler(db: string, scope: string, pc: Pc)

  // Instances are shared objects: mapInstances_ points to them by identity.
  datatype State = State(
    readers: set<nat>,
    writer: Option<nat>,
    instances: map<string, nat>,
    counters: map<nat, Counter>,
    handlers: map<nat, Handler>,
    next: nat)

  function Goto(s: State, h: nat, pc: Pc): State
    requires h in s.handlers
  {
    s.(handlers := s.handlers[h := s.handlers[h].(pc := pc)])
  }

  function CounterAt(s: State, id: nat): Counter {
    if id in s.counters then s.counters[id] else map[]
  }

  function Unlocked(s: State): bool {
    s.writer.None? && s.readers == {}
  }

  // One step of handler h; a handler that must wait for the lock stays where it is.
  function Step(s: State, h: nat): State {
    if h !in s.handlers then s
    else
      var Handler(db, scope, pc) := s.handlers[h];
      match pc
      case Idle => if s.writer.None? then Goto(s, h, Reading).(readers := s.readers + {h}) else s
      case Reading =>
        if db in s.instances then Goto(s, h, Found(s.instances[db]))
        else Goto(s, h, Missed).(readers := s.readers - {h})
      case Found(id) =>
        Goto(s, h, AddedFast).(counters := s.counters[id := AddRef(CounterAt(s, id), scope, 1)])
      case AddedFast => Goto(s, h, Live).(readers := s.readers - {h})
      case Missed => if Unlocked(s) then Goto(s, h, Writing).(writer := Some(h)) else s
      case Writing =>
        if db in s.instances then Goto(s, h, Placed(s.instances[db]))
        else
          Goto(s, h, Placed(s.next)).(
            instances := s.instances[db := s.next], counters := s.counters[s.next := map[]], next := s.next + 1)
      case Placed(id) =>
        Goto(s, h, AddedSlow).(counters := s.counters[id := AddRef(CounterAt(s, id), scope, 1)])
      case AddedSlow => Goto(s, h, Live).(writer := None)
      case Live => if Unlocked(s) then Goto(s, h, Removing).(writer := Some(h)) else s
      case Removing =>
        if db in s.instances then Goto(s, h, Looked(s.instances[db])) else Goto(s, h, Removed)
      case Looked(id) =>
        Goto(s, h, Dropped(id)).(counters := s.counters[id := RemoveRef(CounterAt(s, id), scope)])
      case Dropped(id) =>
        Goto(s, h, Removed).(instances := if CounterAt(s, id) == map[] then s.instances - {db} else s.instances)
      case Removed => Goto(s, h, Gone).(writer := None)
      case Gone => s
  }

  // Any schedule whatever: the handlers take their steps in this order.
  function Run(s: State, schedule: seq<nat>): State
    decreases |schedule|
  {
    if schedule == [] then s else Run(Step(s, schedule[0]), schedule[1..])
  }

  function Init(handlers: map<nat, Handler>): State {
    State({}, None, map[], map[], handlers, 0)
  }

  predicate HasReadLock(pc: Pc) { pc.Reading? || pc.Found? || pc.AddedFast? }

  predicate HasWriteLock(pc: Pc) {
    pc.Writing? || pc.Placed? || pc.AddedSlow? || pc.Removing? || pc.Looked? || pc.Dropped? || pc.Removed?
  }

  // The scope of the handler is counted: added and not yet removed.
  predicate Holds(pc: Pc) { pc.AddedFast? || pc.AddedSlow? || pc.Live? || pc.Removing? || pc.Looked? }

  predicate HasInstance(pc: Pc) { pc.Found? || pc.Placed? || pc.Looked? || pc.Dropped? }

  function Holders(handlers: map<nat, Handler>, db: string, scope: string): set<nat> {
    set h | h in handlers && Holds(handlers[h].pc) && handlers[h].db == db && handlers[h].scope == scope
  }

  function Counted(s: State, db: string): Counter {
    if db in s.instances then CounterAt(s, s.instances[db]) else map[]
  }

  ghost predicate Locked(s: State) {
    && (forall h :: h in s.readers <==> h in s.handlers && HasReadLock(s.handlers[h].pc))
    && (forall h :: s.writer == Some(h) <==> h in s.handlers && HasWriteLock(s.handlers[h].pc))
    && (s.writer.Some? ==> s.readers == {})
  }

  // No handler is about to work on an instance that the map no longer holds.
  ghost predicate OnTarget(s: State) {
    forall h :: h in s.handlers && HasInstance(s.handlers[h].pc) ==>
      s.handlers[h].db in s.instances && s.instances[s.handlers[h].db] == s.handlers[h].pc.id
  }

  ghost predicate Separate(s: State) {
    && (forall d :: d in s.instances ==> s.instances[d] < s.next)
    && (forall d, e :: d in s.instances && e in s.instances && s.instances[d] == s.instances[e] ==> d == e)
  }

  // The count of every scope is the number of handlers that hold it.
  ghost predicate Exact(s: State) {
    && (forall db, scope :: CountOf(Counted(s, db), scope) == |Holders(s.handlers, db, scope)|)
    && (forall db, scope :: scope in Counted(s, db) ==> Counted(s, db)[scope] > 0)
  }

  // An instance without scopes is still in the hands of the writer.
  ghost predicate Filled(s: State) {
    forall d :: d in s.instances && Counted(s, d) == map[] ==>
      s.writer.Some? && s.writer.value in s.handlers && s.handlers[s.writer.value].db == d
      && (s.handlers[s.writer.value].pc.Placed? || s.handlers[s.writer.value].pc.Dropped?)
  }

  // What holds however often a scope is held.
  ghost predicate Sound(s: State) {
    Locked(s) && OnTarget(s) && Separate(s)
  }

  ghost predicate Inv(s: State) {
    Sound(s) && Exact(s) && Filled(s)
  }

  // No scope is held 2^32 times at once.
  ghost predicate Small(s: State) {
    forall db, scope :: |Holders(s.handlers, db, scope)| < U32
  }

  lemma StartInv(handlers: map<nat, Handler>)
    requires forall h :: h in handlers ==> handlers[h].pc == Idle
    ensures Inv(Init(handlers))
  {
    forall db, scope ensures Holders(handlers, db, scope) == {} { }
  }

  // ----- the lock -----

  lemma LockSame(s: State, h: nat, pc: Pc, u: State)
    requires Locked(s) && h in s.handlers && u.handlers == Goto(s, h, pc).handlers
    requires u.readers == s.readers && u.writer == s.writer
    requires HasReadLock(pc) == HasReadLock(s.handlers[h].pc) && HasWriteLock(pc) == HasWriteLock(s.handlers[h].pc)
    ensures Locked(u)
  {
  }

  lemma LockRead(s: State, h: nat, pc: Pc, u: State)
    requires Locked(s) && h in s.handlers && u.handlers == Goto(s, h, pc).handlers
    requires !HasReadLock(s.handlers[h].pc) && !HasWriteLock(s.handlers[h].pc) && s.writer.None?
    requires u.readers == s.readers + {h} && u.writer == s.writer && HasReadLock(pc)
    ensures Locked(u)
  {
  }

  lemma UnlockRead(s: State, h: nat, pc: Pc, u: State)
    requires Locked(s) && h in s.handlers && u.handlers == Goto(s, h, pc).handlers
    requires HasReadLock(s.handlers[h].pc) && !HasReadLock(pc) && !HasWriteLock(pc)
    requires u.readers == s.readers - {h} && u.writer == s.writer
    ensures Locked(u)
  {
  }

  lemma LockWrite(s: State, h: nat, pc: Pc, u: State)
    requires Locked(s) && h in s.handlers && u.handlers == Goto(s, h, pc).handlers
    requires Unlocked(s) && u.readers == s.readers && u.writer == Some(h)
    requires !HasReadLock(s.handlers[h].pc) && HasWriteLock(pc)
    ensures Locked(u)
  {
    forall g | g in s.handlers ensures !HasWriteLock(s.handlers[g].pc) { assert s.writer != Some(g); }
  }

  lemma UnlockWrite(s: State, h: nat, pc: Pc, u: State)
    requires Locked(s) && h in s.handlers && u.handlers == Goto(s, h, pc).handlers
    requires HasWriteLock(s.handlers[h].pc) && !HasWriteLock(pc) && !HasReadLock(pc)
    requires u.readers == s.readers && u.writer == None
    ensures Locked(u)
  {
    assert s.writer == Some(h);
    forall g | g in s.handlers && g != h ensures !HasWriteLock(s.handlers[g].pc) { assert s.writer != Some(g); }
  }

  // ----- the five kinds of steps -----

  // Nothing but the lock and the place of the handler changes.
  ghost predicate Quiet(s: State, h: nat, pc: Pc, u: State) {
    && h in s.handlers
    && u == Goto(s, h, pc).(readers := u.readers, writer := u.writer)
    && Holds(pc) == Holds(s.handlers[h].pc)
    && (HasInstance(pc) ==> s.handlers[h].db in s.instances && s.instances[s.handlers[h].db] == pc.id)
    && (s.handlers[h].pc.Placed? || s.handlers[h].pc.Dropped? ==> Counted(s, s.handlers[h].db) != map[])
  }

  lemma QuietKeeps(s: State, h: nat, pc: Pc, u: State)
    requires Inv(s) && Quiet(s, h, pc, u) && Locked(u)
    requires u.writer == s.writer || s.writer.None? || s.writer == Some(h)
    ensures Inv(u)
  {
    QuietExact(s, h, pc, u);
    QuietFilled(s, h, pc, u);
  }

  lemma QuietExact(s: State, h: nat, pc: Pc, u: State)
    requires Inv(s) && Quiet(s, h, pc, u)
    ensures Exact(u) && OnTarget(u) && Separate(u)
  {
    forall db, scope ensures Holders(u.handlers, db, scope) == Holders(s.handlers, db, scope) { }
    forall db ensures Counted(u, db) == Counted(s, db) { }
  }

  lemma QuietFilled(s: State, h: nat, pc: Pc, u: State)
    requires Inv(s) && Quiet(s, h, pc, u)
    requires u.writer == s.writer || s.writer.None? || s.writer == Some(h)
    ensures Filled(u)
  {
    forall d | d in u.instances && Counted(u, d) == map[]
      ensures u.writer.Some? && u.writer.value in u.handlers && u.handlers[u.writer.value].db == d
      ensures u.handlers[u.writer.value].pc.Placed? || u.handlers[u.writer.value].pc.Dropped?
    {
      assert Counted(s, d) == map[];
      assert s.writer.value != h;
    }
  }

  lemma CreateKeeps(s: State, h: nat, u: State)
    requires Inv(s) && h in s.handlers && s.handlers[h].pc.Writing? && s.handlers[h].db !in s.instances
    requires u == Step(s, h)
    ensures Inv(u)
  {
    var db := s.handlers[h].db;
    LockSame(s, h, Placed(s.next), u);
    assert s.writer == Some(h);
    forall d, scope ensures Holders(u.handlers, d, scope) == Holders(s.handlers, d, scope) { }
    forall d ensures Counted(u, d) == Counted(s, d) { }
    assert forall d :: d in s.instances ==> Counted(s, d) != map[];
  }

  lemma AddKeeps(s: State, h: nat, u: State)
    requires Inv(s) && h in s.handlers && (s.handlers[h].pc.Found? || s.handlers[h].pc.Placed?)
    requires Small(u) && u == Step(s, h)
    ensures Inv(u)
  {
    var Handler(db, scope, pc) := s.handlers[h];
    LockSame(s, h, if pc.Found? then AddedFast else AddedSlow, u);
    OthersCounted(s, h, u);
    CountsOneMore(s, h, u);
    assert scope in Counted(u, db);
    assert forall d :: d in u.instances && d != db ==> Counted(u, d) == Counted(s, d) && Counted(s, d) != map[];
  }

  // Only the database of the handler is concerned.
  lemma OthersCounted(s: State, h: nat, u: State)
    requires Inv(s) && h in s.handlers && u == Step(s, h)
    requires s.handlers[h].pc.Found? || s.handlers[h].pc.Placed? || s.handlers[h].pc.Looked?
    ensures forall d :: d != s.handlers[h].db ==> Counted(u, d) == Counted(s, d)
    ensures s.handlers[h].db in s.instances
    ensures Counted(u, s.handlers[h].db) ==
            if s.handlers[h].pc.Looked? then RemoveRef(Counted(s, s.handlers[h].db), s.handlers[h].scope)
            else AddRef(Counted(s, s.handlers[h].db), s.handlers[h].scope, 1)
  {
  }

  lemma CountsOneMore(s: State, h: nat, u: State)
    requires Inv(s) && h in s.handlers && (s.handlers[h].pc.Found? || s.handlers[h].pc.Placed?)
    requires Small(u) && u == Step(s, h)
    ensures Exact(u)
  {
    var Handler(db, scope, pc) := s.handlers[h];
    OthersCounted(s, h, u);
    HolderJoins(s, h, if pc.Found? then AddedFast else AddedSlow, u);
    assert |Holders(u.handlers, db, scope)| < U32;
    assert CountOf(Counted(s, db), scope) == |Holders(s.handlers, db, scope)|;
    CountUp(Counted(s, db), scope);
    ExactStep(s, u, db, scope);
  }

  lemma HolderJoins(s: State, h: nat, pc: Pc, u: State)
    requires h in s.handlers && !Holds(s.handlers[h].pc) && Holds(pc) && u.handlers == Goto(s, h, pc).handlers
    ensures var Handler(db, scope, _) := s.handlers[h];
            && (forall d, c :: d != db || c != scope ==> Holders(u.handlers, d, c) == Holders(s.handlers, d, c))
            && |Holders(u.handlers, db, scope)| == |Holders(s.handlers, db, scope)| + 1
  {
    var Handler(db, scope, _) := s.handlers[h];
    OthersHold(s, h, u, db, scope);
    assert Holders(u.handlers, db, scope) == Holders(s.handlers, db, scope) + {h};
  }

  lemma OthersHold(s: State, h: nat, u: State, db: string, scope: string)
    requires h in s.handlers && s.handlers[h].db == db && s.handlers[h].scope == scope
    requires exists pc :: u.handlers == Goto(s, h, pc).handlers
    ensures forall d, c :: d != db || c != scope ==> Holders(u.handlers, d, c) == Holders(s.handlers, d, c)
  {
    forall d, c | d != db || c != scope ensures Holders(u.handlers, d, c) == Holders(s.handlers, d, c) { }
  }

  // Exactness moves over when nothing but one count changes.
  lemma ExactStep(s: State, u: State, db: string, scope: string)
    requires Exact(s)
    requires forall d, c :: d != db || c != scope ==>
               && CountOf(Counted(u, d), c) == CountOf(Counted(s, d), c)
               && (c in Counted(u, d) <==> c in Counted(s, d))
               && Holders(u.handlers, d, c) == Holders(s.handlers, d, c)
    requires CountOf(Counted(u, db), scope) == |Holders(u.handlers, db, scope)|
    requires scope in Counted(u, db) ==> Counted(u, db)[scope] > 0
    ensures Exact(u)
  {
    forall d, c ensures CountOf(Counted(u, d), c) == |Holders(u.handlers, d, c)| {
      assert CountOf(Counted(s, d), c) == |Holders(s.handlers, d, c)|;
    }
    forall d, c | c in Counted(u, d) ensures Counted(u, d)[c] > 0 {
      if d != db || c != scope { assert CountOf(Counted(u, d), c) == CountOf(Counted(s, d), c); }
    }
  }

  lemma RemoveKeeps(s: State, h: nat, u: State)
    requires Inv(s) && h in s.handlers && s.handlers[h].pc.Looked?
    requires Small(s) && u == Step(s, h)
    ensures Inv(u)
  {
    var Handler(db, scope, pc) := s.handlers[h];
    LockSame(s, h, Dropped(pc.id), u);
    OthersCounted(s, h, u);
    CountsOneLess(s, h, u);
    assert s.writer == Some(h);
  }

  lemma HolderLeaves(s: State, h: nat, pc: Pc, u: State)
    requires h in s.handlers && Holds(s.handlers[h].pc) && !Holds(pc) && u.handlers == Goto(s, h, pc).handlers
    ensures var Handler(db, scope, _) := s.handlers[h];
            && (forall d, c :: d != db || c != scope ==> Holders(u.handlers, d, c) == Holders(s.handlers, d, c))
            && |Holders(u.handlers, db, scope)| + 1 == |Holders(s.handlers, db, scope)|
  {
    var Handler(db, scope, _) := s.handlers[h];
    OthersHold(s, h, u, db, scope);
    assert Holders(u.handlers, db, scope) + {h} == Holders(s.handlers, db, scope);
  }

  lemma CountsOneLess(s: State, h: nat, u: State)
    requires Inv(s) && h in s.handlers && s.handlers[h].pc.Looked?
    requires Small(s) && u == Step(s, h)
    ensures Exact(u)
  {
    var Handler(db, scope, pc) := s.handlers[h];
    OthersCounted(s, h, u);
    HolderLeaves(s, h, Dropped(pc.id), u);
    assert CountOf(Counted(s, db), scope) == |Holders(s.handlers, db, scope)|;
    ExactStep(s, u, db, scope);
  }

  lemma EraseKeeps(s: State, h: nat, u: State)
    requires Inv(s) && h in s.handlers && s.handlers[h].pc.Dropped? && u == Step(s, h)
    requires CounterAt(s, s.handlers[h].pc.id) == map[]
    ensures Inv(u)
  {
    var db := s.handlers[h].db;
    LockSame(s, h, Removed, u);
    assert s.writer == Some(h);
    forall g | g in s.handlers && g != h ensures !HasInstance(s.handlers[g].pc) {
      assert g !in s.readers && s.writer != Some(g);
    }
    forall d, scope ensures Holders(u.handlers, d, scope) == Holders(s.handlers, d, scope) { }
    forall d ensures Counted(u, d) == Counted(s, d) { }
  }

  // ----- every step -----

  lemma StepKeeps(s: State, h: nat)
    requires Inv(s) && Small(s) && Small(Step(s, h))
    ensures Inv(Step(s, h))
  {
    if h in s.handlers {
      var pc := s.handlers[h].pc;
      if pc.Found? || pc.Placed? {
        AddKeeps(s, h, Step(s, h));
      } else if pc.Looked? {
        RemoveKeeps(s, h, Step(s, h));
      } else if pc.Writing? && s.handlers[h].db !in s.instances {
        CreateKeeps(s, h, Step(s, h));
      } else if pc.Dropped? && CounterAt(s, pc.id) == map[] {
        EraseKeeps(s, h, Step(s, h));
      } else if HasWriteLock(pc) {
        WriterKeeps(s, h);
      } else {
        ReaderKeeps(s, h);
      }
    }
  }

  // The database of a handler that is counted is in the map.
  lemma HolderListed(s: State, h: nat)
    requires Exact(s) && h in s.handlers && Holds(s.handlers[h].pc)
    ensures s.handlers[h].db in s.instances
    ensures s.handlers[h].scope in Counted(s, s.handlers[h].db)
  {
    var Handler(db, scope, _) := s.handlers[h];
    assert h in Holders(s.handlers, db, scope);
    assert CountOf(Counted(s, db), scope) == |Holders(s.handlers, db, scope)|;
  }

  lemma WriterKeeps(s: State, h: nat)
    requires Inv(s) && h in s.handlers
    requires var pc := s.handlers[h].pc;
             || (pc.Writing? && s.handlers[h].db in s.instances) || pc.AddedSlow? || pc.Removing? || pc.Removed?
             || (pc.Dropped? && CounterAt(s, pc.id) != map[])
    ensures Inv(Step(s, h))
  {
    if s.handlers[h].pc.Removing? { HolderListed(s, h); }
    var u := Step(s, h);
    var pc := u.handlers[h].pc;
    if pc.Live? || pc.Gone? { UnlockWrite(s, h, pc, u); } else { LockSame(s, h, pc, u); }
    assert s.writer == Some(h);
    QuietKeeps(s, h, pc, u);
  }

  lemma ReaderKeeps(s: State, h: nat)
    requires Inv(s) && h in s.handlers
    requires var pc := s.handlers[h].pc; !HasWriteLock(pc) && !pc.Found?
    ensures Inv(Step(s, h))
  {
    if HasReadLock(s.handlers[h].pc) { LookupKeeps(s, h); } else { AcquireKeeps(s, h); }
  }

  lemma LookupKeeps(s: State, h: nat)
    requires Inv(s) && h in s.handlers && (s.handlers[h].pc.Reading? || s.handlers[h].pc.AddedFast?)
    ensures Inv(Step(s, h))
  {
    var u := Step(s, h);
    var pc := u.handlers[h].pc;
    if pc.Found? { LockSame(s, h, pc, u); } else { UnlockRead(s, h, pc, u); }
    QuietKeeps(s, h, pc, u);
  }

  lemma AcquireKeeps(s: State, h: nat)
    requires Inv(s) && h in s.handlers && s.handlers[h].pc in {Idle, Missed, Live, Gone}
    ensures Inv(Step(s, h))
  {
    var u := Step(s, h);
    if u != s {
      var pc := u.handlers[h].pc;
      if pc.Reading? { LockRead(s, h, pc, u); } else { LockWrite(s, h, pc, u); }
      QuietKeeps(s, h, pc, u);
    }
  }

  // In no state on the way is a scope held 2^32 times.
  ghost predicate SmallAlong(s: State, schedule: seq<nat>)
    decreases |schedule|
  {
    Small(s) && (schedule != [] ==> SmallAlong(Step(s, schedule[0]), schedule[1..]))
  }

  // Whatever the schedule, the invariant holds all along.
  lemma {:induction false} RunKeeps(s: State, schedule: seq<nat>)
    requires Inv(s) && SmallAlong(s, schedule)
    ensures Inv(Run(s, schedule))
    decreases |schedule|
  {
    if schedule != [] {
      StepKeeps(s, schedule[0]);
      RunKeeps(Step(s, schedule[0]), schedule[1..]);
    }
  }

  ghost predicate ExactAlong(s: State, schedule: seq<nat>)
    decreases |schedule|
  {
    Exact(s) && (schedule != [] ==> ExactAlong(Step(s, schedule[0]), schedule[1..]))
  }

  // Every count is an unsigned 32-bit word.
  ghost predicate Words(s: State) {
    forall id, scope :: CountOf(CounterAt(s, id), scope) < U32
  }

  lemma StepWords(s: State, h: nat)
    requires Words(s)
    ensures Words(Step(s, h))
  {
    var u := Step(s, h);
    if u.counters == s.counters {
      SameWords(s, u);
    } else {
      var pc := s.handlers[h].pc;
      var id := if pc.Writing? then s.next else pc.id;
      PutWords(s, u, id, CounterAt(u, id));
    }
  }

  lemma SameWords(s: State, u: State)
    requires Words(s) && u.counters == s.counters
    ensures Words(u)
  {
    forall id, scope ensures CountOf(CounterAt(u, id), scope) < U32 { assert CountOf(CounterAt(s, id), scope) < U32; }
  }

  lemma PutWords(s: State, u: State, id: nat, counter: Counter)
    requires Words(s) && u.counters == s.counters[id := counter]
    requires || counter == map[]
             || (exists scope :: counter == AddRef(CounterAt(s, id), scope, 1))
             || (exists scope :: counter == RemoveRef(CounterAt(s, id), scope))
    ensures Words(u)
  {
    forall i, scope ensures CountOf(CounterAt(u, i), scope) < U32 {
      assert CountOf(CounterAt(s, i), scope) < U32;
      assert CountOf(CounterAt(s, id), scope) < U32;
    }
  }

  lemma ExactIsSmall(s: State)
    requires Exact(s) && Words(s)
    ensures Small(s)
  {
    forall db, scope ensures |Holders(s.handlers, db, scope)| < U32 {
      assert CountOf(Counted(s, db), scope) == |Holders(s.handlers, db, scope)|;
    }
  }

  lemma {:induction false} ExactFrom(s: State, schedule: seq<nat>)
    requires Inv(s) && Words(s)
    ensures ExactAlong(s, schedule) <==> SmallAlong(s, schedule)
    decreases |schedule|
  {
    ExactIsSmall(s);
    if schedule != [] {
      var u := Step(s, schedule[0]);
      StepWords(s, schedule[0]);
      if Exact(u) { ExactIsSmall(u); }
      if Small(u) {
        StepKeeps(s, schedule[0]);
        ExactFrom(u, schedule[1..]);
      }
    }
  }

  // In every interleaving the counts are right in every state exactly when no scope is ever held 2^32 times.
  lemma CountsExactly(handlers: map<nat, Handler>, schedule: seq<nat>)
    requires forall g :: g in handlers ==> handlers[g].pc == Idle
    ensures ExactAlong(Init(handlers), schedule) <==> SmallAlong(Init(handlers), schedule)
  {
    StartInv(handlers);
    ExactFrom(Init(handlers), schedule);
  }

  // Fewer than 2^32 handlers in all are few enough.
  lemma {:induction false} FewHandlers(s: State, schedule: seq<nat>)
    requires |s.handlers| < U32
    ensures SmallAlong(s, schedule)
    decreases |schedule|
  {
    assert |s.handlers.Keys| == |s.handlers|;
    forall db, scope ensures |Holders(s.handlers, db, scope)| < U32 {
      SubsetSize(Holders(s.handlers, db, scope), s.handlers.Keys);
    }
    if schedule != [] {
      SameHandlers(s, schedule[0]);
      FewHandlers(Step(s, schedule[0]), schedule[1..]);
    }
  }

  lemma SameHandlers(s: State, h: nat)
    ensures |Step(s, h).handlers| == |s.handlers|
  {
    SameKeys(s, h);
    SameSize(Step(s, h).handlers, s.handlers);
  }

  lemma GotoKeys(s: State, h: nat, pc: Pc)
    requires h in s.handlers
    ensures Goto(s, h, pc).handlers.Keys == s.handlers.Keys
  {
  }

  lemma SameKeys(s: State, h: nat)
    ensures Step(s, h).handlers.Keys == s.handlers.Keys
  {
    if h in s.handlers {
      StepGoes(s, h);
      GotoKeys(s, h, Step(s, h).handlers[h].pc);
    }
  }

  // A step moves its handler and no other.
  lemma StepGoes(s: State, h: nat)
    requires h in s.handlers
    ensures h in Step(s, h).handlers && Step(s, h).handlers == Goto(s, h, Step(s, h).handlers[h].pc).handlers
  {
    GotoGoes(s, h);
  }

  lemma GotoGoes(s: State, h: nat)
    requires h in s.handlers
    ensures forall pc :: Goto(s, h, pc).handlers[h].pc == pc
    ensures Goto(s, h, s.handlers[h].pc).handlers == s.handlers
  {
  }

  lemma SameSize(a: map<nat, Handler>, b: map<nat, Handler>)
    requires a.Keys == b.Keys
    ensures |a| == |b|
  {
    assert |a.Keys| == |a| && |b.Keys| == |b|;
  }

  // ----- without any bound -----

  // Only the lock and the handler's place change, or a counter.
  lemma SameSound(s: State, h: nat, u: State)
    requires Sound(s) && h in s.handlers && h in u.handlers && u.handlers == Goto(s, h, u.handlers[h].pc).handlers
    requires Locked(u) && u.instances == s.instances && u.next == s.next
    requires HasInstance(u.handlers[h].pc) ==>
               s.handlers[h].db in s.instances && s.instances[s.handlers[h].db] == u.handlers[h].pc.id
    ensures Sound(u)
  {
  }

  // The writer is alone: nobody else has an instance in hand.
  lemma WriterAlone(s: State, h: nat)
    requires Locked(s) && h in s.handlers && HasWriteLock(s.handlers[h].pc)
    ensures forall g :: g in s.handlers && g != h ==> !HasInstance(s.handlers[g].pc)
  {
    assert s.writer == Some(h);
    forall g | g in s.handlers && g != h ensures !HasInstance(s.handlers[g].pc) {
      assert g !in s.readers && s.writer != Some(g);
    }
  }

  lemma AcquireSound(s: State, h: nat)
    requires Sound(s) && h in s.handlers && s.handlers[h].pc in {Idle, Missed, Live, Gone}
    ensures Sound(Step(s, h))
  {
    var u := Step(s, h);
    if u != s {
      var pc := u.handlers[h].pc;
      if pc.Reading? { LockRead(s, h, pc, u); } else { LockWrite(s, h, pc, u); }
      SameSound(s, h, u);
    }
  }

  lemma ReaderSound(s: State, h: nat)
    requires Sound(s) && h in s.handlers && HasReadLock(s.handlers[h].pc)
    ensures Sound(Step(s, h))
  {
    var u := Step(s, h);
    var pc := u.handlers[h].pc;
    if HasReadLock(pc) { LockSame(s, h, pc, u); } else { UnlockRead(s, h, pc, u); }
    SameSound(s, h, u);
  }

  // With the same instances as before.
  lemma WriterSound(s: State, h: nat)
    requires Sound(s) && h in s.handlers && HasWriteLock(s.handlers[h].pc) && Step(s, h).instances == s.instances
    ensures Sound(Step(s, h))
  {
    var u := Step(s, h);
    var pc := u.handlers[h].pc;
    if HasWriteLock(pc) { LockSame(s, h, pc, u); } else { UnlockWrite(s, h, pc, u); }
    SameSound(s, h, u);
  }

  lemma CreateSound(s: State, h: nat)
    requires Sound(s) && h in s.handlers && s.handlers[h].pc.Writing? && s.handlers[h].db !in s.instances
    ensures Sound(Step(s, h))
  {
    var u := Step(s, h);
    LockSame(s, h, Placed(s.next), u);
    WriterAlone(s, h);
  }

  lemma EraseSound(s: State, h: nat)
    requires Sound(s) && h in s.handlers && s.handlers[h].pc.Dropped?
    ensures Sound(Step(s, h))
  {
    var u := Step(s, h);
    LockSame(s, h, Removed, u);
    WriterAlone(s, h);
  }

  lemma StepSound(s: State, h: nat)
    requires Sound(s)
    ensures Sound(Step(s, h))
  {
    if h in s.handlers {
      var pc := s.handlers[h].pc;
      if pc.Writing? && s.handlers[h].db !in s.instances {
        CreateSound(s, h);
      } else if pc.Dropped? {
        EraseSound(s, h);
      } else if HasWriteLock(pc) {
        WriterSound(s, h);
      } else if HasReadLock(pc) {
        ReaderSound(s, h);
      } else {
        AcquireSound(s, h);
      }
    }
  }

  lemma {:induction false} RunSound(s: State, schedule: seq<nat>)
    requires Sound(s)
    ensures Sound(Run(s, schedule))
    decreases |schedule|
  {
    if schedule != [] {
      StepSound(s, schedule[0]);
      RunSound(Step(s, schedule[0]), schedule[1..]);
    }
  }

  // In every interleaving, a scope is only ever added to the instance that the map holds for its database.
  lemma NoAddIsLost(handlers: map<nat, Handler>, schedule: seq<nat>, h: nat)
    requires forall g :: g in handlers ==> handlers[g].pc == Idle
    requires var s := Run(Init(handlers), schedule);
             h in s.handlers && (s.handlers[h].pc.Found? || s.handlers[h].pc.Placed?)
    ensures var s := Run(Init(handlers), schedule);
            var Handler(db, _, pc) := s.handlers[h];
            db in s.instances && s.instances[db] == pc.id
  {
    StartInv(handlers);
    RunSound(Init(handlers), schedule);
  }

  ghost predicate AtRest(s: State) {
    forall h :: h in s.handlers ==> s.handlers[h].pc in {Idle, Live, Gone}
  }

  function LiveOn(handlers: map<nat, Handler>, db: string, scope: string): set<nat> {
    set h | h in handlers && handlers[h].pc.Live? && handlers[h].db == db && handlers[h].scope == scope
  }

  // At rest, the collection lists exactly the live handlers: their databases, their scopes, their number.
  lemma CountsLiveHandlers(handlers: map<nat, Handler>, schedule: seq<nat>, db: string, scope: string)
    requires forall g :: g in handlers ==> handlers[g].pc == Idle
    requires SmallAlong(Init(handlers), schedule)
    requires AtRest(Run(Init(handlers), schedule))
    ensures var s := Run(Init(handlers), schedule);
            && CountOf(Counted(s, db), scope) == |LiveOn(s.handlers, db, scope)|
            && (scope in Counted(s, db) <==> LiveOn(s.handlers, db, scope) != {})
            && (db in s.instances <==> exists h :: h in s.handlers && s.handlers[h].pc.Live? && s.handlers[h].db == db)
  {
    StartInv(handlers);
    RunKeeps(Init(handlers), schedule);
    CountsAtRest(Run(Init(handlers), schedule), db, scope);
    ListedIsLive(Run(Init(handlers), schedule), db);
  }

  lemma CountsAtRest(s: State, db: string, scope: string)
    requires Inv(s) && AtRest(s)
    ensures CountOf(Counted(s, db), scope) == |LiveOn(s.handlers, db, scope)|
    ensures scope in Counted(s, db) <==> LiveOn(s.handlers, db, scope) != {}
  {
    assert LiveOn(s.handlers, db, scope) == Holders(s.handlers, db, scope);
    assert CountOf(Counted(s, db), scope) == |Holders(s.handlers, db, scope)|;
    if LiveOn(s.handlers, db, scope) != {} {
      var h :| h in LiveOn(s.handlers, db, scope);
      HolderListed(s, h);
    }
  }

  lemma ListedIsLive(s: State, db: string)
    requires Inv(s) && AtRest(s)
    ensures db in s.instances <==> exists h :: h in s.handlers && s.handlers[h].pc.Live? && s.handlers[h].db == db
  {
    if db in s.instances {
      assert Counted(s, db) != map[];
      var c :| c in Counted(s, db);
      assert CountOf(Counted(s, db), c) == |Holders(s.handlers, db, c)|;
      var h :| h in Holders(s.handlers, db, c);
    }
    if h :| h in s.handlers && s.handlers[h].pc.Live? && s.handlers[h].db == db {
      HolderListed(s, h);
    }
  }

  // The lock never leaves every handler waiting: as long as one is not gone, some handler can move.
  lemma NoDeadlock(s: State, h: nat)
    requires Sound(s) && h in s.handlers && s.handlers[h].pc != Gone
    ensures exists g :: g in s.handlers && Step(s, g) != s
  {
    var g := if s.writer.Some? then s.writer.value else if s.readers != {} then (var r :| r in s.readers; r) else h;
    assert g in s.handlers && Step(s, g).handlers[g].pc != s.handlers[g].pc;
  }

  // ----- a call that nobody interrupts -----

  // What the collection lists, as the sequential class keeps it.
  function Collected(s: State): map<string, Counter> {
    map db | db in s.instances :: CounterAt(s, s.instances[db])
  }

  // The whole of addKVDBHandler, taken in one go: four steps when the database is listed, six when it is not.
  function AddAlone(s: State, h: nat): State {
    var looked := Step(Step(s, h), h);
    if h in looked.handlers && looked.handlers[h].pc.Found? then Step(Step(looked, h), h)
    else Step(Step(Step(Step(looked, h), h), h), h)
  }

  function RemoveAlone(s: State, h: nat): State {
    Step(Step(Step(Step(Step(s, h), h), h), h), h)
  }

  lemma AddAloneCounts(s: State, h: nat)
    requires Sound(s) && Unlocked(s) && h in s.handlers && s.handlers[h].pc.Idle?
    ensures AddedAs(s, h, AddAlone(s, h))
  {
    if s.handlers[h].db in s.instances {
      AddFastIs(s, h);
      FastAdds(s, h, AddAlone(s, h));
    } else {
      AddSlowIs(s, h);
      SlowAdds(s, h, AddAlone(s, h));
    }
  }

  // The lookup under the shared lock.
  lemma LookAlone(s: State, h: nat)
    requires Unlocked(s) && h in s.handlers && s.handlers[h].pc.Idle?
    ensures var db := s.handlers[h].db;
            Step(Step(s, h), h) == if db in s.instances then Goto(s, h, Found(s.instances[db])).(readers := {h})
                                   else Goto(s, h, Missed)
  {
    assert Step(s, h) == Goto(s, h, Reading).(readers := {h});
  }

  lemma AddFastIs(s: State, h: nat)
    requires Unlocked(s) && h in s.handlers && s.handlers[h].pc.Idle? && s.handlers[h].db in s.instances
    ensures var Handler(db, scope, _) := s.handlers[h];
            var id := s.instances[db];
            AddAlone(s, h) == Goto(s, h, Live).(counters := s.counters[id := AddRef(CounterAt(s, id), scope, 1)])
  {
    LookAlone(s, h);
  }

  // The handler is live, nobody holds the lock, and the collection is as after the sequential call.
  ghost predicate AddedAs(s: State, h: nat, u: State)
    requires h in s.handlers
  {
    && u.handlers == Goto(s, h, Live).handlers && Unlocked(u)
    && Collected(u) == AddHandler(Collected(s), s.handlers[h].db, s.handlers[h].scope)
  }

  lemma FastAdds(s: State, h: nat, u: State)
    requires Separate(s) && Unlocked(s) && h in s.handlers && s.handlers[h].db in s.instances
    requires var id := s.instances[s.handlers[h].db];
             u == Goto(s, h, Live).(counters := s.counters[id := AddRef(CounterAt(s, id), s.handlers[h].scope, 1)])
    ensures AddedAs(s, h, u)
  {
    var db := s.handlers[h].db;
    OneCounter(s, db, AddRef(CounterAt(s, s.instances[db]), s.handlers[h].scope, 1));
    assert Collected(s)[db] == CounterAt(s, s.instances[db]);
  }

  // Instances are told apart, so a change to one is a change to one database.
  lemma OneCounter(s: State, db: string, counter: Counter)
    requires Separate(s) && db in s.instances
    ensures Collected(s.(counters := s.counters[s.instances[db] := counter])) == Collected(s)[db := counter]
  {
  }

  function Made(s: State, db: string): State {
    s.(instances := s.instances[db := s.next], counters := s.counters[s.next := map[]], next := s.next + 1)
  }

  // From the failed lookup to the end, under the exclusive lock.
  lemma MissedAlone(s: State, h: nat)
    requires Unlocked(s) && h in s.handlers && s.handlers[h].pc.Missed? && s.handlers[h].db !in s.instances
    ensures var Handler(db, scope, _) := s.handlers[h];
            Step(Step(Step(Step(s, h), h), h), h) ==
            Goto(Made(s, db), h, Live).(counters := s.counters[s.next := AddRef(map[], scope, 1)])
  {
    var Handler(db, scope, _) := s.handlers[h];
    var s2 := Step(Step(s, h), h);
    assert s2 == Goto(Made(s, db), h, Placed(s.next)).(writer := Some(h));
  }

  lemma AddSlowIs(s: State, h: nat)
    requires Unlocked(s) && h in s.handlers && s.handlers[h].pc.Idle? && s.handlers[h].db !in s.instances
    ensures var Handler(db, scope, _) := s.handlers[h];
            AddAlone(s, h) == Goto(Made(s, db), h, Live).(counters := s.counters[s.next := AddRef(map[], scope, 1)])
  {
    LookAlone(s, h);
    MissedAlone(Goto(s, h, Missed), h);
  }

  lemma SlowAdds(s: State, h: nat, u: State)
    requires Separate(s) && Unlocked(s) && h in s.handlers && s.handlers[h].db !in s.instances
    requires u == Goto(Made(s, s.handlers[h].db), h, Live).(
                    counters := s.counters[s.next := AddRef(map[], s.handlers[h].scope, 1)])
    ensures AddedAs(s, h, u)
  {
    NewCounter(s, s.handlers[h].db, AddRef(map[], s.handlers[h].scope, 1));
  }

  lemma NewCounter(s: State, db: string, counter: Counter)
    requires Separate(s) && db !in s.instances
    ensures Collected(Made(s, db).(counters := s.counters[s.next := counter])) == Collected(s)[db := counter]
  {
  }

  lemma DropAlone(s: State, h: nat)
    requires Unlocked(s) && h in s.handlers && s.handlers[h].pc.Live? && s.handlers[h].db in s.instances
    ensures var Handler(db, scope, _) := s.handlers[h];
            var id := s.instances[db];
            Step(Step(Step(s, h), h), h) ==
            Goto(s, h, Dropped(id)).(writer := Some(h), counters := s.counters[id := RemoveRef(CounterAt(s, id),
            scope)])
  {
    var id := s.instances[s.handlers[h].db];
    assert Step(Step(s, h), h) == Goto(s, h, Looked(id)).(writer := Some(h));
  }

  lemma EraseAlone(s: State, h: nat)
    requires s.writer == Some(h) && s.readers == {} && h in s.handlers && s.handlers[h].pc.Dropped?
    ensures Step(Step(s, h), h) ==
            Goto(s, h, Gone).(writer := None, instances := if CounterAt(s, s.handlers[h].pc.id) == map[]
                                                           then s.instances - {s.handlers[h].db} else s.instances)
  {
  }

  function Recounted(s: State, db: string, counter: Counter): State
    requires db in s.instances
  {
    s.(counters := s.counters[s.instances[db] := counter],
       instances := if counter == map[] then s.instances - {db} else s.instances)
  }

  lemma RemoveAloneIs(s: State, h: nat)
    requires Unlocked(s) && h in s.handlers && s.handlers[h].pc.Live? && s.handlers[h].db in s.instances
    ensures var Handler(db, scope, _) := s.handlers[h];
            RemoveAlone(s, h) == Goto(Recounted(s, db, RemoveRef(CounterAt(s, s.instances[db]), scope)), h, Gone)
  {
    var s3 := Step(Step(Step(s, h), h), h);
    DropAlone(s, h);
    EraseAlone(s3, h);
  }

  ghost predicate RemovedAs(s: State, h: nat, u: State)
    requires h in s.handlers
  {
    && u.handlers == Goto(s, h, Gone).handlers && Unlocked(u)
    && Collected(u) == RemoveHandler(Collected(s), s.handlers[h].db, s.handlers[h].scope)
  }

  lemma Removes(s: State, h: nat, u: State)
    requires Separate(s) && Unlocked(s) && h in s.handlers && s.handlers[h].db in s.instances
    requires var Handler(db, scope, _) := s.handlers[h];
             u == Goto(Recounted(s, db, RemoveRef(CounterAt(s, s.instances[db]), scope)), h, Gone)
    ensures RemovedAs(s, h, u)
  {
    RemovedCounter(s, s.handlers[h].db, s.handlers[h].scope);
  }

  // A database that is not listed any more: there is nothing to remove.
  lemma RemoveUnlisted(s: State, h: nat)
    requires Unlocked(s) && h in s.handlers && s.handlers[h].pc.Live? && s.handlers[h].db !in s.instances
    ensures RemoveAlone(s, h) == Goto(s, h, Gone)
  {
    assert Step(Step(s, h), h) == Goto(s, h, Removed).(writer := Some(h));
    assert Step(Step(Step(s, h), h), h) == Goto(s, h, Gone);
  }

  lemma UnlistedStays(s: State, h: nat, u: State)
    requires Unlocked(s) && h in s.handlers && s.handlers[h].db !in s.instances && u == Goto(s, h, Gone)
    ensures RemovedAs(s, h, u)
  {
    assert Collected(u) == Collected(s);
  }

  // The whole of removeKVDBHandler.
  lemma RemoveAloneCounts(s: State, h: nat)
    requires Sound(s) && Unlocked(s) && h in s.handlers && s.handlers[h].pc.Live?
    ensures RemovedAs(s, h, RemoveAlone(s, h))
  {
    if s.handlers[h].db in s.instances {
      RemoveAloneIs(s, h);
      Removes(s, h, RemoveAlone(s, h));
    } else {
      RemoveUnlisted(s, h);
      UnlistedStays(s, h, RemoveAlone(s, h));
    }
  }

  lemma RemovedCounter(s: State, db: string, scope: string)
    requires Separate(s) && db in s.instances
    ensures Collected(Recounted(s, db, RemoveRef(CounterAt(s, s.instances[db]), scope))) ==
            RemoveHandler(Collected(s), db, scope)
  {
    var counter := RemoveRef(CounterAt(s, s.instances[db]), scope);
    OneCounter(s, db, counter);
    assert Collected(s)[db] == CounterAt(s, s.instances[db]);
    if counter == map[] {
      assert Collected(Recounted(s, db, counter)) == Collected(s) - {db};
    }
  }
}
