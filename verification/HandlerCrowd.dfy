/** A run of the collection in which one scope is held 2^32 times: handlers that add themselves one after the other. */
module HandlerCrowd {
  import opened Wrappers
  import opened HandlerCounts
  import opened HandlerInterleaving

  function OneOf(db: string, scope: string, k: nat, h: nat): Handler {
    Handler(db, scope, if h < k then Live else Idle)
  }

  // n handlers of one scope, the first k of them live.
  function Crowd(db: string, scope: string, n: nat, k: nat): map<nat, Handler> {
    map h: nat | h < n :: OneOf(db, scope, k, h)
  }

  function Four(h: nat): seq<nat> { [h, h, h, h] }

  // The steps of one handler that nobody interrupts: the first one finds no instance.
  function Alone(h: nat): seq<nat> {
    if h == 0 then Four(h) + [h, h] else Four(h)
  }

  // One after the other.
  function InTurn(k: nat): seq<nat> {
    if k == 0 then [] else InTurn(k - 1) + Alone(k - 1)
  }

  lemma {:induction false} RunAppend(s: State, before: seq<nat>, after: seq<nat>)
    ensures Run(s, before + after) == Run(Run(s, before), after)
    decreases |before|
  {
    if before == [] {
      assert before + after == after;
    } else {
      assert (before + after)[1..] == before[1..] + after;
      RunAppend(Step(s, before[0]), before[1..], after);
    }
  }

  lemma RunTwo(s: State, h: nat)
    ensures Run(s, [h, h]) == Step(Step(s, h), h)
  {
    assert [h, h][1..] == [h] && [h][1..] == [];
    assert Run(Step(s, h), [h]) == Run(Step(Step(s, h), h), []);
  }

  lemma RunFour(s: State, h: nat)
    ensures Run(s, Four(h)) == Step(Step(Step(Step(s, h), h), h), h)
  {
    assert Four(h) == [h, h] + [h, h];
    RunAppend(s, [h, h], [h, h]);
    RunTwo(s, h);
    RunTwo(Run(s, [h, h]), h);
  }

  lemma RunSix(s: State, h: nat)
    ensures Run(s, Four(h) + [h, h]) == Step(Step(Step(Step(Step(Step(s, h), h), h), h), h), h)
  {
    RunAppend(s, Four(h), [h, h]);
    RunFour(s, h);
    RunTwo(Run(s, Four(h)), h);
  }

  // The first k handlers are live, the lock is free, and the database is listed once there is one.
  ghost predicate Joined(s: State, db: string, scope: string, n: nat, k: nat) {
    && k <= n && Sound(s) && Unlocked(s)
    && s.handlers == Crowd(db, scope, n, k)
    && (db in s.instances <==> k > 0)
  }

  lemma AloneIs(s: State, db: string, scope: string, n: nat, k: nat)
    requires Joined(s, db, scope, n, k) && k < n
    ensures Run(s, Alone(k)) == AddAlone(s, k)
  {
    LookAlone(s, k);
    if k == 0 { RunSix(s, k); } else { RunFour(s, k); }
  }

  lemma NextJoins(s: State, db: string, scope: string, n: nat, k: nat)
    requires Joined(s, db, scope, n, k) && k < n
    ensures Joined(Run(s, Alone(k)), db, scope, n, k + 1)
  {
    RunSound(s, Alone(k));
    AloneIs(s, db, scope, n, k);
    AddAloneCounts(s, k);
    JoinedNext(s, Run(s, Alone(k)), db, scope, n, k);
  }

  lemma JoinedNext(s: State, u: State, db: string, scope: string, n: nat, k: nat)
    requires Joined(s, db, scope, n, k) && k < n && Sound(u) && AddedAs(s, k, u)
    ensures Joined(u, db, scope, n, k + 1)
  {
    Listed(s, u, db, scope, k);
    CrowdNext(db, scope, n, k);
  }

  lemma CrowdNext(db: string, scope: string, n: nat, k: nat)
    requires k < n
    ensures Crowd(db, scope, n, k)[k := Handler(db, scope, Live)] == Crowd(db, scope, n, k + 1)
  {
  }

  lemma Listed(s: State, u: State, db: string, scope: string, h: nat)
    requires h in s.handlers && s.handlers[h].db == db && s.handlers[h].scope == scope && AddedAs(s, h, u)
    ensures db in u.instances
  {
    assert db in Collected(u);
  }

  lemma {:induction false} AllJoin(db: string, scope: string, n: nat, k: nat)
    requires k <= n
    ensures Joined(Run(Init(Crowd(db, scope, n, 0)), InTurn(k)), db, scope, n, k)
    decreases k
  {
    var start := Init(Crowd(db, scope, n, 0));
    if k == 0 {
      StartInv(Crowd(db, scope, n, 0));
    } else {
      AllJoin(db, scope, n, k - 1);
      RunAppend(start, InTurn(k - 1), Alone(k - 1));
      NextJoins(Run(start, InTurn(k - 1)), db, scope, n, k - 1);
    }
  }

  lemma {:induction false} CrowdSize(db: string, scope: string, n: nat, k: nat)
    requires k <= n
    ensures |Holders(Crowd(db, scope, n, k), db, scope)| == k
    decreases k
  {
    if k == 0 {
      assert Holders(Crowd(db, scope, n, 0), db, scope) == {};
    } else {
      CrowdSize(db, scope, n, k - 1);
      CrowdHolders(db, scope, n, k);
    }
  }

  lemma CrowdHolders(db: string, scope: string, n: nat, k: nat)
    requires 0 < k <= n
    ensures Holders(Crowd(db, scope, n, k), db, scope) == Holders(Crowd(db, scope, n, k - 1), db, scope) + {k - 1}
    ensures k - 1 !in Holders(Crowd(db, scope, n, k - 1), db, scope)
  {
  }

  lemma {:induction false} SmallAtEnd(s: State, schedule: seq<nat>)
    requires SmallAlong(s, schedule)
    ensures Small(Run(s, schedule))
    decreases |schedule|
  {
    if schedule != [] { SmallAtEnd(Step(s, schedule[0]), schedule[1..]); }
  }

  // 2^32 handlers of one scope, one after the other, are enough for the counts to go wrong.
  lemma CountsGoWrong(db: string, scope: string, n: nat)
    requires n == U32
    ensures !ExactAlong(Init(Crowd(db, scope, n, 0)), InTurn(n))
  {
    var handlers := Crowd(db, scope, n, 0);
    CountsExactly(handlers, InTurn(n));
    if SmallAlong(Init(handlers), InTurn(n)) {
      SmallAtEnd(Init(handlers), InTurn(n));
      AllJoin(db, scope, n, n);
      CrowdSize(db, scope, n, n);
      NotSmall(Run(Init(handlers), InTurn(n)), db, scope);
    }
  }

  lemma NotSmall(s: State, db: string, scope: string)
    requires |Holders(s.handlers, db, scope)| == U32
    ensures !Small(s)
  {
  }
}
