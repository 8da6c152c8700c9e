/** The MySQL connection pool: a bounded FIFO of idle connections, with creation on demand.

    A connection is the number of its creation. The ledger beside the queue says which connections are
    lent and which were discarded on return; in the C++ code unique_ptr keeps it. */
module ConnectionPool {
  import opened Utils

  type Connection = nat

  datatype Ledger = Ledger(
    idle: seq<Connection>,
    lent: set<Connection>,
    discarded: set<Connection>,
    created: nat,
    creating: nat,              // acquires that found the pool empty and are connecting outside the lock
    entered: seq<Connection>,   // everything ever pushed, in order
    left: seq<Connection>)      // everything ever popped, in order

  // The constructor: one attempt per slot, a failed one leaves the slot out.
  function Start(attempts: seq<bool>): Ledger {
    if attempts == [] then Ledger([], {}, {}, 0, 0, [], [])
    else
      var l := Start(Before(attempts));
      if Last(attempts) then Push(l.(created := l.created + 1), l.created) else l
  }

  function Push(l: Ledger, c: Connection): Ledger {
    l.(idle := l.idle + [c], entered := l.entered + [c])
  }

  /** The locked half of `acquire`, its creation on demand, and `release`, of any threads. */
  datatype Event = Take | Create(ok: bool) | Return(c: Connection)

  function TakeIdle(l: Ledger): Ledger {
    if l.idle == [] then l.(creating := l.creating + 1)
    else l.(idle := l.idle[1..], lent := l.lent + {l.idle[0]}, left := l.left + [l.idle[0]])
  }

  function CreateOne(l: Ledger, ok: bool): Ledger
    requires l.creating > 0
  {
    if ok then l.(creating := l.creating - 1, lent := l.lent + {l.created}, created := l.created + 1)
    else l.(creating := l.creating - 1)
  }

  function GiveBack(capacity: nat, l: Ledger, c: Connection): Ledger {
    var l' := l.(lent := l.lent - {c});
    if |l.idle| < capacity then Push(l', c) else l'.(discarded := l.discarded + {c})
  }

  function Step(capacity: nat, l: Ledger, e: Event): Ledger {
    match e
    case Take => TakeIdle(l)
    case Create(ok) => if l.creating > 0 then CreateOne(l, ok) else l
    case Return(c) => if c in l.lent then GiveBack(capacity, l, c) else l
  }

  function Run(capacity: nat, attempts: seq<bool>, events: seq<Event>): Ledger {
    if events == [] then Start(attempts) else Step(capacity, Run(capacity, attempts, Before(events)), Last(events))
  }

  ghost predicate Balanced(capacity: nat, l: Ledger) {
    && |l.idle| <= capacity
    && l.entered == l.left + l.idle
    && (forall i, j :: 0 <= i < j < |l.idle| ==> l.idle[i] != l.idle[j])
    && (forall c :: c in l.idle ==> c !in l.lent && c !in l.discarded)
    && l.lent !! l.discarded
    && (forall c: nat :: c < l.created <==> c in l.idle || c in l.lent || c in l.discarded)
  }

  lemma {:induction false} StartIsBalanced(attempts: seq<bool>)
    ensures Balanced(|attempts|, Start(attempts)) && Start(attempts).lent == {} == Start(attempts).discarded
  {
    if attempts != [] {
      var l := Start(Before(attempts));
      StartIsBalanced(Before(attempts));
      assert l.created !in l.idle;
      assert forall i :: 0 <= i < |l.idle| ==> l.idle[i] in l.idle;
      assert l.left + (l.idle + [l.created]) == (l.left + l.idle) + [l.created];
    }
  }

  lemma StepKeepsBalance(capacity: nat, l: Ledger, e: Event)
    requires Balanced(capacity, l)
    ensures Balanced(capacity, Step(capacity, l, e))
  {
    if e.Take? && l.idle != [] {
      assert l.idle == [l.idle[0]] + l.idle[1..];
      assert l.left + l.idle == (l.left + [l.idle[0]]) + l.idle[1..];
    }
  }

  /** Over any run, every connection ever created is in exactly one of idle, lent and discarded, nothing
      else is; idle never exceeds the capacity, even after a partly failed start; and idle connections
      leave in the order they entered. */
  lemma {:induction false} EveryConnectionHasOnePlace(attempts: seq<bool>, events: seq<Event>)
    ensures Balanced(|attempts|, Run(|attempts|, attempts, events))
  {
    if events == [] {
      StartIsBalanced(attempts);
    } else {
      EveryConnectionHasOnePlace(attempts, Before(events));
      StepKeepsBalance(|attempts|, Run(|attempts|, attempts, Before(events)), Last(events));
    }
  }

  // --- Which place a connection is in -----------------------------------------------------

  /** A start leaves as many idle connections as attempts that succeeded. */
  lemma {:induction false} StartFillsPool(attempts: seq<bool>)
    ensures |Start(attempts).idle| == Start(attempts).created == multiset(attempts)[true]
  {
    if attempts != [] {
      StartFillsPool(Before(attempts));
      assert attempts == Before(attempts) + [Last(attempts)];
    }
  }

  lemma RunOn(attempts: seq<bool>, events: seq<Event>, e: Event)
    ensures Run(|attempts|, attempts, events + [e]) == Step(|attempts|, Run(|attempts|, attempts, events), e)
  {
    assert Before(events + [e]) == events;
  }

  /** An acquire lends the connection that has been idle longest ... */
  lemma TakeLendsOldest(attempts: seq<bool>, events: seq<Event>)
    requires Run(|attempts|, attempts, events).idle != []
    ensures var l, l' := Run(|attempts|, attempts, events), Run(|attempts|, attempts, events + [Take]);
            l'.lent == l.lent + {l.idle[0]} && l.idle == [l.idle[0]] + l'.idle && l'.created == l.created
  {
    RunOn(attempts, events, Take);
  }

  /** ... and from an empty pool a new one, if connecting succeeds. */
  lemma TakeLendsNew(attempts: seq<bool>, events: seq<Event>, ok: bool)
    requires Run(|attempts|, attempts, events).idle == []
    ensures var l, l' := Run(|attempts|, attempts, events), Run(|attempts|, attempts, events + [Take] + [Create(ok)]);
            && l'.idle == [] && l'.discarded == l.discarded && l'.creating == l.creating
            && l.created !in l.lent + l.discarded
            && l'.lent == if ok then l.lent + {l.created} else l.lent
  {
    var l := Run(|attempts|, attempts, events);
    EveryConnectionHasOnePlace(attempts, events);
    assert l.created !in l.lent + l.discarded;
    hide Balanced, Run;
    RunOn(attempts, events, Take);
    RunOn(attempts, events + [Take], Create(ok));
  }

  /** A returned connection is idle again exactly if the pool had room, and discarded otherwise. */
  lemma ReturnIsReused(attempts: seq<bool>, events: seq<Event>, c: Connection)
    requires c in Run(|attempts|, attempts, events).lent
    ensures var l, l' := Run(|attempts|, attempts, events), Run(|attempts|, attempts, events + [Return(c)]);
            && (c in l'.idle <==> |l.idle| < |attempts|) && (c in l'.discarded <==> c !in l'.idle) && c !in l'.lent
            && l.idle <= l'.idle && l.discarded <= l'.discarded && l'.lent + {c} == l.lent
  {
    assert Before(events + [Return(c)]) == events;
    EveryConnectionHasOnePlace(attempts, events);
    EveryConnectionHasOnePlace(attempts, events + [Return(c)]);
  }

  predicate ReturnedToFull(attempts: seq<bool>, events: seq<Event>, i: nat, c: Connection)
    requires i < |events|
  {
    var l := Run(|attempts|, attempts, events[..i]);
    events[i] == Return(c) && c in l.lent && |l.idle| == |attempts|
  }

  /** A connection is discarded exactly if it was once returned to a full pool. */
  lemma {:induction false} DiscardedExactly(attempts: seq<bool>, events: seq<Event>, c: Connection)
    ensures c in Run(|attempts|, attempts, events).discarded <==>
            exists i :: 0 <= i < |events| && ReturnedToFull(attempts, events, i, c)
  {
    if events == [] {
      StartIsBalanced(attempts);
    } else {
      var before := Before(events);
      DiscardedExactly(attempts, before, c);
      EveryConnectionHasOnePlace(attempts, before);
      assert forall i :: 0 <= i < |before| ==> before[..i] == events[..i];
      assert forall i :: 0 <= i < |before| ==>
               (ReturnedToFull(attempts, before, i, c) <==> ReturnedToFull(attempts, events, i, c));
      assert events[..|before|] == before;
      var l, l' := Run(|attempts|, attempts, before), Run(|attempts|, attempts, events);
      assert c in l'.discarded <==> c in l.discarded || ReturnedToFull(attempts, events, |before|, c);
    }
  }

  lemma {:induction false} DiscardedForever(attempts: seq<bool>, events: seq<Event>, more: seq<Event>, c: Connection)
    requires c in Run(|attempts|, attempts, events).discarded
    ensures var l := Run(|attempts|, attempts, events + more);
            c in l.discarded && c !in l.idle && c !in l.lent
    decreases |more|
  {
    EveryConnectionHasOnePlace(attempts, events + more);
    if more == [] {
      assert events + more == events;
    } else {
      assert Before(events + more) == events + Before(more);
      DiscardedForever(attempts, events, Before(more), c);
    }
  }

  class MySqlPool {
    const capacity: nat
    var pool: seq<Connection>
    var created: nat
    ghost var lent: set<Connection>
    ghost var discarded: set<Connection>
    ghost var creating: nat
    ghost var entered: seq<Connection>
    ghost var left: seq<Connection>

    ghost function Books(): Ledger
      reads this
    {
      Ledger(pool, lent, discarded, created, creating, entered, left)
    }

    // `attempts` says which of the initial connections succeed.
    constructor (attempts: seq<bool>)
      ensures capacity == |attempts| && Books() == Start(attempts)
    {
      capacity := |attempts|;
      pool, created, lent, discarded, creating, entered, left := [], 0, {}, {}, 0, [], [];
      new;
      for i := 0 to capacity
        invariant Books() == Start(attempts[..i])
      {
        assert Before(attempts[..i + 1]) == attempts[..i];
        if attempts[i] {
          pool, entered, created := pool + [created], entered + [created], created + 1;
        }
      }
      assert attempts[..capacity] == attempts;
    }

    /** `connects` says whether a connection on demand would succeed. */
    method Acquire(connects: bool) returns (conn: Option<Connection>)
      modifies this
      ensures Books() == if old(pool) != [] then TakeIdle(old(Books()))
                         else CreateOne(TakeIdle(old(Books())), connects)
      ensures conn.Some? <==> old(pool) != [] || connects
      ensures conn.Some? ==> lent == old(lent) + {conn.value}
      ensures old(pool) != [] ==> conn == Some(old(pool)[0])
    {
      conn := None;
      if pool != [] {
        conn := Some(pool[0]);
        pool, left := pool[1..], left + [pool[0]];
      }
      if conn.None? {
        if !connects {
          return;
        }
        conn := Some(created);
        created := created + 1;
      }
      lent := lent + {conn.value};
    }

    /** Only what was borrowed can be returned: the caller gives up its unique_ptr. */
    method Release(conn: Option<Connection>)
      requires conn.Some? ==> conn.value in lent
      modifies this
      ensures Books() == if conn.None? then old(Books()) else GiveBack(capacity, old(Books()), conn.value)
    {
      if conn.None? {
        return;
      }
      lent := lent - {conn.value};
      if |pool| < capacity {
        pool, entered := pool + [conn.value], entered + [conn.value];
      } else {
        discarded := discarded + {conn.value};
      }
    }
  }
}
