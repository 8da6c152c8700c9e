/** Deadlock freedom of the session manager: any number of threads, each running any operations in any
    order, over one nickname mutex and one mutex per shard. All are std::mutex, so a thread that locks
    one it already holds blocks itself. */
module LockOrder {
  import opened Utils

  datatype Mutex = NicknameMutex | ShardMutex(shard: nat)

  datatype Act = Acquire(m: Mutex) | Release(m: Mutex)

  /** The manager's operations, with the choices their lock pattern depends on: `closing` lists the
      shards of the sessions an operation closes, whose `close_session` won the exchange. */
  datatype Operation =
    | AddSession(shard: nat, closing: seq<nat>)
    | RemoveSession(shard: nat)
    | FindSession(shard: nat)
    | ForEachSession(closing: seq<nat>)     // the callbacks may close sessions
    | SessionCount
    | RegisterNickname(closing: seq<nat>)   // closes the previous owner while holding the mutex
    | FindByNickname
    | SweepNicknames
    | CleanupInactive(closing: seq<nat>)
    | UnregisterNickname

  function Guarded(m: Mutex): seq<Act> {
    [Acquire(m), Release(m)]
  }

  // Every close_session that wins its exchange removes the session under its shard's mutex.
  function CloseAll(closing: seq<nat>): seq<Act> {
    if closing == [] then [] else Guarded(ShardMutex(closing[0])) + CloseAll(closing[1..])
  }

  function Scan(shard: nat, shards: nat): seq<Act>
    decreases shards - shard
  {
    if shard >= shards then [] else Guarded(ShardMutex(shard)) + Scan(shard + 1, shards)
  }

  function Program(shards: nat, op: Operation): seq<Act> {
    match op
    case AddSession(shard, closing) => Guarded(ShardMutex(shard)) + CloseAll(closing)
    case RemoveSession(shard) => Guarded(ShardMutex(shard))
    case FindSession(shard) => Guarded(ShardMutex(shard))
    case ForEachSession(closing) => Scan(0, shards) + CloseAll(closing)
    case SessionCount => Scan(0, shards)
    case RegisterNickname(closing) => [Acquire(NicknameMutex)] + CloseAll(closing) + [Release(NicknameMutex)]
    case FindByNickname => Guarded(NicknameMutex)
    case SweepNicknames => Guarded(NicknameMutex)
    case CleanupInactive(closing) => Scan(0, shards) + CloseAll(closing)
    case UnregisterNickname => [Acquire(NicknameMutex)] + Guarded(NicknameMutex) + [Release(NicknameMutex)]
  }

  function Programs(shards: nat, ops: seq<Operation>): seq<Act> {
    if ops == [] then [] else Program(shards, ops[0]) + Programs(shards, ops[1..])
  }

  // --- What the operations lock -----------------------------------------------------------

  predicate UsesIndex(op: Operation) {
    op.RegisterNickname? || op.FindByNickname? || op.SweepNicknames? || op.UnregisterNickname?
  }

  predicate UsesShard(shards: nat, op: Operation, shard: nat) {
    match op
    case AddSession(k, closing) => shard == k || shard in closing
    case RemoveSession(k) => shard == k
    case FindSession(k) => shard == k
    case ForEachSession(closing) => shard < shards || shard in closing
    case SessionCount => shard < shards
    case CleanupInactive(closing) => shard < shards || shard in closing
    case RegisterNickname(closing) => shard in closing
    case _ => false
  }

  lemma {:induction false} CloseAllLocks(closing: seq<nat>)
    ensures forall m :: Acquire(m) in CloseAll(closing) <==> m.ShardMutex? && m.shard in closing
    ensures Release(NicknameMutex) !in CloseAll(closing)
  {
    if closing != [] {
      CloseAllLocks(closing[1..]);
      assert closing == [closing[0]] + closing[1..];
    }
  }

  lemma {:induction false} ScanLocks(shard: nat, shards: nat)
    ensures forall m :: Acquire(m) in Scan(shard, shards) <==> m.ShardMutex? && shard <= m.shard < shards
    decreases shards - shard
  {
    if shard < shards {
      ScanLocks(shard + 1, shards);
    }
  }

  /** An operation locks exactly the mutexes of the structures it touches: the index, its own shard, every
      shard of a traversal, and the shards of the sessions it closes. */
  lemma LocksExactly(shards: nat, op: Operation, m: Mutex)
    ensures Acquire(m) in Program(shards, op) <==>
            match m
            case NicknameMutex => UsesIndex(op)
            case ShardMutex(shard) => UsesShard(shards, op, shard)
  {
    ScanLocks(0, shards);
    if op.AddSession? || op.ForEachSession? || op.RegisterNickname? || op.CleanupInactive? {
      CloseAllLocks(op.closing);
    }
  }

  /** The index is used under the nickname mutex from the first act to the last, also while a takeover
      closes the previous owner. */
  lemma IndexIsGuarded(shards: nat, op: Operation)
    requires UsesIndex(op) && !op.UnregisterNickname?
    ensures var acts := Program(shards, op);
            && |acts| >= 2 && acts[0] == Acquire(NicknameMutex) && acts[|acts| - 1] == Release(NicknameMutex)
            && Release(NicknameMutex) !in acts[..|acts| - 1]
  {
    if op.RegisterNickname? {
      var acts := Program(shards, op);
      CloseAllLocks(op.closing);
      assert acts[..|acts| - 1] == [Acquire(NicknameMutex)] + CloseAll(op.closing);
    }
  }

  // --- Threads ----------------------------------------------------------------------------

  type Tid = nat

  datatype Thread = Thread(held: set<Mutex>, todo: seq<Act>)

  type System = map<Tid, Thread>

  ghost predicate Free(sys: System, m: Mutex) {
    forall t :: t in sys ==> m !in sys[t].held
  }

  ghost predicate Enabled(sys: System, t: Tid) {
    && t in sys && sys[t].todo != []
    && match sys[t].todo[0]
       case Acquire(m) => Free(sys, m)
       case Release(m) => m in sys[t].held
  }

  function Advance(th: Thread): Thread
    requires th.todo != []
  {
    match th.todo[0]
    case Acquire(m) => Thread(th.held + {m}, th.todo[1..])
    case Release(m) => Thread(th.held - {m}, th.todo[1..])
  }

  ghost function Step(sys: System, t: Tid): System {
    if Enabled(sys, t) then sys[t := Advance(sys[t])] else sys
  }

  ghost function Run(sys: System, schedule: seq<Tid>): System {
    if schedule == [] then sys else Step(Run(sys, Before(schedule)), Last(schedule))
  }

  function Start(shards: nat, work: map<Tid, seq<Operation>>): System {
    map t | t in work :: Thread({}, Programs(shards, work[t]))
  }

  // --- The lock order ---------------------------------------------------------------------

  // The nickname mutex is only taken with nothing held, a shard mutex with no other shard held.
  predicate MayAcquire(held: set<Mutex>, m: Mutex) {
    match m
    case NicknameMutex => held == {}
    case ShardMutex(_) => held <= {NicknameMutex}
  }

  predicate Ordered(held: set<Mutex>, todo: seq<Act>)
    decreases |todo|
  {
    if todo == [] then held == {}
    else match todo[0]
      case Acquire(m) => MayAcquire(held, m) && Ordered(held + {m}, todo[1..])
      case Release(m) => m in held && Ordered(held - {m}, todo[1..])
  }

  lemma GuardedIsOrdered(held: set<Mutex>, m: Mutex, rest: seq<Act>)
    requires m !in held && MayAcquire(held, m) && Ordered(held, rest)
    ensures Ordered(held, Guarded(m) + rest)
  {
    assert (Guarded(m) + rest)[1..] == [Release(m)] + rest;
    assert ([Release(m)] + rest)[1..] == rest;
    assert held + {m} - {m} == held;
  }

  lemma {:induction false} CloseAllIsOrdered(held: set<Mutex>, closing: seq<nat>, rest: seq<Act>)
    requires held <= {NicknameMutex} && Ordered(held, rest)
    ensures Ordered(held, CloseAll(closing) + rest)
  {
    if closing == [] {
      assert CloseAll(closing) + rest == rest;
    } else {
      CloseAllIsOrdered(held, closing[1..], rest);
      GuardedIsOrdered(held, ShardMutex(closing[0]), CloseAll(closing[1..]) + rest);
      assert CloseAll(closing) + rest == Guarded(ShardMutex(closing[0])) + (CloseAll(closing[1..]) + rest);
    }
  }

  lemma {:induction false} ScanIsOrdered(shard: nat, shards: nat, rest: seq<Act>)
    requires Ordered({}, rest)
    ensures Ordered({}, Scan(shard, shards) + rest)
    decreases shards - shard
  {
    if shard >= shards {
      assert Scan(shard, shards) + rest == rest;
    } else {
      ScanIsOrdered(shard + 1, shards, rest);
      GuardedIsOrdered({}, ShardMutex(shard), Scan(shard + 1, shards) + rest);
      assert Scan(shard, shards) + rest == Guarded(ShardMutex(shard)) + (Scan(shard + 1, shards) + rest);
    }
  }

  lemma RegisterIsOrdered(closing: seq<nat>, rest: seq<Act>)
    requires Ordered({}, rest)
    ensures Ordered({}, [Acquire(NicknameMutex)] + CloseAll(closing) + [Release(NicknameMutex)] + rest)
  {
    var none: set<Mutex>, one := {}, {NicknameMutex};
    assert none + {NicknameMutex} == one && one - {NicknameMutex} == none;
    var end := [Release(NicknameMutex)] + rest;
    assert end[1..] == rest;
    CloseAllIsOrdered(one, closing, end);
    var all := [Acquire(NicknameMutex)] + CloseAll(closing) + [Release(NicknameMutex)] + rest;
    assert all[1..] == CloseAll(closing) + end;
  }

  /** Every operation except `unregister_nickname` keeps the order: nickname mutex, then one shard. */
  lemma ProgramIsOrdered(shards: nat, op: Operation, rest: seq<Act>)
    requires !op.UnregisterNickname? && Ordered({}, rest)
    ensures Ordered({}, Program(shards, op) + rest)
  {
    if op.AddSession? {
      CloseAllIsOrdered({}, op.closing, rest);
      GuardedIsOrdered({}, ShardMutex(op.shard), CloseAll(op.closing) + rest);
      assert Program(shards, op) + rest == Guarded(ShardMutex(op.shard)) + (CloseAll(op.closing) + rest);
    } else if op.RegisterNickname? {
      RegisterIsOrdered(op.closing, rest);
    } else if op.SessionCount? {
      ScanIsOrdered(0, shards, rest);
    } else if op.ForEachSession? || op.CleanupInactive? {
      ScanAndCloseIsOrdered(shards, op.closing, rest);
    } else {
      var m := if op.RemoveSession? || op.FindSession? then ShardMutex(op.shard) else NicknameMutex;
      assert Program(shards, op) == Guarded(m);
      GuardedIsOrdered({}, m, rest);
    }
  }

  lemma ScanAndCloseIsOrdered(shards: nat, closing: seq<nat>, rest: seq<Act>)
    requires Ordered({}, rest)
    ensures Ordered({}, Scan(0, shards) + CloseAll(closing) + rest)
  {
    CloseAllIsOrdered({}, closing, rest);
    ScanIsOrdered(0, shards, CloseAll(closing) + rest);
    assert Scan(0, shards) + CloseAll(closing) + rest == Scan(0, shards) + (CloseAll(closing) + rest);
  }

  lemma {:induction false} ProgramsAreOrdered(shards: nat, ops: seq<Operation>)
    requires UnregisterNickname !in ops
    ensures Ordered({}, Programs(shards, ops))
  {
    if ops != [] {
      ProgramsAreOrdered(shards, ops[1..]);
      ProgramIsOrdered(shards, ops[0], Programs(shards, ops[1..]));
    }
  }

  // --- No deadlock ------------------------------------------------------------------------

  ghost predicate Inv(sys: System) {
    && (forall t :: t in sys ==> Ordered(sys[t].held, sys[t].todo))
    && (forall t, u :: t in sys && u in sys && t != u ==> sys[t].held !! sys[u].held)
  }

  lemma {:induction false} RunKeepsInv(sys: System, schedule: seq<Tid>)
    requires Inv(sys)
    ensures Inv(Run(sys, schedule)) && Run(sys, schedule).Keys == sys.Keys
  {
    if schedule != [] {
      RunKeepsInv(sys, Before(schedule));
    }
  }

  /** If anything is left to do, some thread can go on: one that holds a shard mutex, else the one that
      holds the nickname mutex, else any. */
  lemma SomeoneCanGoOn(sys: System, t: Tid) returns (u: Tid)
    requires Inv(sys) && t in sys && sys[t].todo != []
    ensures Enabled(sys, u)
  {
    if shardHolder :| shardHolder in sys && exists m :: m in sys[shardHolder].held && m.ShardMutex? {
      u := shardHolder;
    } else if holder :| holder in sys && NicknameMutex in sys[holder].held {
      u := holder;
    } else {
      u := t;
    }
  }

  // The thread is about to lock the nickname mutex while holding it, or will come to that.
  ghost predicate Doomed(th: Thread) {
    || (NicknameMutex in th.held && th.todo != [] && th.todo[0] == Acquire(NicknameMutex))
    || exists i :: 0 <= i < |th.todo| - 1 && RelocksAt(th.todo, i)
  }

  predicate RelocksAt(todo: seq<Act>, i: nat)
    requires i < |todo| - 1
  {
    todo[i] == Acquire(NicknameMutex) && todo[i + 1] == Acquire(NicknameMutex)
  }

  lemma {:induction false} UnregisterRelocks(shards: nat, ops: seq<Operation>, held: set<Mutex>)
    requires UnregisterNickname in ops
    ensures Doomed(Thread(held, Programs(shards, ops)))
  {
    var first, rest, todo := Program(shards, ops[0]), Programs(shards, ops[1..]), Programs(shards, ops);
    if ops[0].UnregisterNickname? {
      assert RelocksAt(todo, 0);
    } else {
      UnregisterRelocks(shards, ops[1..], {});
      var i :| 0 <= i < |rest| - 1 && RelocksAt(rest, i);
      assert RelocksAt(todo, |first| + i);
    }
  }

  lemma StepKeepsDoomed(sys: System, u: Tid, t: Tid)
    requires t in sys && Doomed(sys[t])
    ensures t in Step(sys, u) && Doomed(Step(sys, u)[t])
  {
    if u == t && Enabled(sys, t) {
      var i :| 0 <= i < |sys[t].todo| - 1 && RelocksAt(sys[t].todo, i);
      assert i > 0 ==> RelocksAt(sys[t].todo[1..], i - 1);
    }
  }

  lemma {:induction false} DoomedForever(sys: System, schedule: seq<Tid>, t: Tid)
    requires t in sys && Doomed(sys[t])
    ensures t in Run(sys, schedule) && Doomed(Run(sys, schedule)[t])
  {
    if schedule != [] {
      DoomedForever(sys, Before(schedule), t);
      StepKeepsDoomed(Run(sys, Before(schedule)), Last(schedule), t);
    }
  }

  /** `unregister_nickname` as written locks a mutex it holds: a thread that comes to call it never
      finishes, whoever else is around and whatever the schedule. */
  lemma UnregisterNeverFinishes(shards: nat, work: map<Tid, seq<Operation>>, schedule: seq<Tid>, t: Tid)
    requires t in work && UnregisterNickname in work[t]
    ensures t in Run(Start(shards, work), schedule) && Run(Start(shards, work), schedule)[t].todo != []
  {
    UnregisterRelocks(shards, work[t], {});
    DoomedForever(Start(shards, work), schedule, t);
  }

  ghost predicate Finished(sys: System) {
    forall t :: t in sys ==> sys[t].todo == [] && sys[t].held == {}
  }

  lemma StuckIsFinished(sys: System)
    requires Inv(sys) && forall u :: !Enabled(sys, u)
    ensures Finished(sys)
  {
    if t :| t in sys && sys[t].todo != [] {
      var u := SomeoneCanGoOn(sys, t);
    }
  }

  /** Deadlock freedom, for any number of threads, any work and any schedule: a state in which nobody can
      go on is one in which everybody has finished, exactly if nobody calls `unregister_nickname`. */
  lemma NoDeadlock(shards: nat, work: map<Tid, seq<Operation>>, schedule: seq<Tid>)
    requires forall u :: !Enabled(Run(Start(shards, work), schedule), u)
    ensures Finished(Run(Start(shards, work), schedule)) <==>
            forall t :: t in work ==> UnregisterNickname !in work[t]
  {
    var start := Start(shards, work);
    if t :| t in work && UnregisterNickname in work[t] {
      UnregisterNeverFinishes(shards, work, schedule, t);
    } else {
      forall t | t in work ensures Ordered(start[t].held, start[t].todo) {
        ProgramsAreOrdered(shards, work[t]);
      }
      RunKeepsInv(start, schedule);
      StuckIsFinished(Run(start, schedule));
    }
  }
}
