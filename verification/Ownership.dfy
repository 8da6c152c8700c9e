/** Who owns a nickname, when any number of sessions log in, close, overflow and are swept at once.

    Every action is one atomic step of some thread: one critical section, one atomic exchange, or one
    step of a handler on its session's strand. The check of a login and its registration are separate
    steps, and any other actions may come between them. */
module Ownership {
  import opened Utils

  type Sid = nat
  type Nickname = string

  /** Where the login handler of a session stands. From `Locked` to `Entering` it holds
      `nickname_mutex_`. */
  datatype Pc =
    | Resting
    | Checked(n: Nickname)                         // the duplicate check found the nickname free
    | Marked(n: Nickname)                          // nickname and login flag are set
    | Locked(n: Nickname, prev: Option<Sid>)       // prev: another live session found in the index
    | Evicting(n: Nickname, victim: Sid)           // won the exchange on the victim's closed_
    | Entering(n: Nickname)                        // about to write the index

  datatype State = State(
    added: set<Sid>,
    registry: set<Sid>,           // strong references, in the shards
    alive: set<Sid>,              // sessions whose object still exists
    closed: set<Sid>,             // closed_ is set
    tearing: set<Sid>,            // exchange won outside a takeover, removal from the registry to come
    torn: multiset<Sid>,          // removals carried out
    index: map<Nickname, Sid>,    // weak references
    pc: map<Sid, Pc>,
    owns: set<(Nickname, Sid)>)   // registrations completed so far

  const INIT := State({}, {}, {}, {}, {}, multiset{}, map[], map[], {})

  datatype Action =
    | Accept(s: Sid)
    | Check(s: Sid, n: Nickname)
    | Mark(s: Sid)
    | Lock(s: Sid)
    | Evict(s: Sid)
    | FinishEviction(s: Sid)
    | Enter(s: Sid)
    | Close(s: Sid)                     // any thread; also the cleanup functions
    | TearDown(s: Sid)
    | Overflow(s: Sid)                  // enqueue_write sets closed_ and nothing else
    | Sweep(gone: set<Nickname>)
    | Destroy(s: Sid)

  predicate Holds(pc: Pc) {
    pc.Locked? || pc.Evicting? || pc.Entering?
  }

  predicate MutexFree(st: State) {
    forall s | s in st.pc :: !Holds(st.pc[s])
  }

  // weak_ptr::lock of the index entry.
  function Lookup(st: State, n: Nickname): Option<Sid> {
    if n in st.index && st.index[n] in st.alive then Some(st.index[n]) else None
  }

  predicate RefersTo(pc: Pc, s: Sid) {
    (pc.Locked? && pc.prev == Some(s)) || (pc.Evicting? && pc.victim == s)
  }

  // A login for the nickname that is past its check and has not entered the index.
  predicate Pursues(pc: Pc, n: Nickname) {
    !pc.Resting? && pc.n == n
  }

  predicate Happens(st: State, a: Action) {
    match a
    case Accept(s) => s !in st.added
    case Check(s, n) =>
      s in st.pc && st.pc[s] == Resting && s in st.alive && n != "" && MutexFree(st) && Lookup(st, n) == None
    case Mark(s) => s in st.pc && st.pc[s].Checked?
    case Lock(s) => s in st.pc && st.pc[s].Marked? && MutexFree(st)
    case Evict(s) => s in st.pc && st.pc[s].Locked?
    case FinishEviction(s) => s in st.pc && st.pc[s].Evicting?
    case Enter(s) => s in st.pc && st.pc[s].Entering?
    case Close(s) => s in st.alive
    case TearDown(s) => s in st.tearing
    case Overflow(s) => s in st.alive
    case Sweep(gone) => MutexFree(st) && forall n | n in gone :: n in st.index && Lookup(st, n) == None
    case Destroy(s) =>
      && s in st.alive && s !in st.registry && s !in st.tearing
      && s in st.pc && st.pc[s] == Resting
      && forall t | t in st.pc :: !RefersTo(st.pc[t], s)
  }

  function Step(st: State, a: Action): State {
    if !Happens(st, a) then st else
    match a
    case Accept(s) =>
      st.(added := st.added + {s}, registry := st.registry + {s}, alive := st.alive + {s}, pc := st.pc[s := Resting])
    case Check(s, n) => st.(pc := st.pc[s := Checked(n)])
    case Mark(s) => st.(pc := st.pc[s := Marked(st.pc[s].n)])
    case Lock(s) =>
      var n := st.pc[s].n;
      var found := Lookup(st, n);
      st.(pc := st.pc[s := Locked(n, if found == Some(s) then None else found)])
    case Evict(s) =>
      var Locked(n, prev) := st.pc[s];
      if prev.None? || prev.value in st.closed then st.(pc := st.pc[s := Entering(n)])
      else st.(closed := st.closed + {prev.value}, pc := st.pc[s := Evicting(n, prev.value)])
    case FinishEviction(s) =>
      var Evicting(n, victim) := st.pc[s];
      st.(registry := st.registry - {victim}, torn := st.torn + multiset{victim}, pc := st.pc[s := Entering(n)])
    case Enter(s) =>
      var n := st.pc[s].n;
      st.(index := st.index[n := s], owns := st.owns + {(n, s)}, pc := st.pc[s := Resting])
    case Close(s) =>
      if s in st.closed then st else st.(closed := st.closed + {s}, tearing := st.tearing + {s})
    case TearDown(s) =>
      st.(registry := st.registry - {s}, tearing := st.tearing - {s}, torn := st.torn + multiset{s})
    case Overflow(s) => st.(closed := st.closed + {s})
    case Sweep(gone) => st.(index := map n | n in st.index && n !in gone :: st.index[n])
    case Destroy(s) => st.(alive := st.alive - {s})
  }

  function Run(actions: seq<Action>): State {
    if actions == [] then INIT else Step(Run(Before(actions)), Last(actions))
  }

  lemma Then(actions: seq<Action>, a: Action) returns (longer: seq<Action>)
    ensures longer == actions + [a] && Run(longer) == Step(Run(actions), a)
  {
    longer := actions + [a];
    assert Before(longer) == actions;
  }

  // --- The invariant ----------------------------------------------------------------------

  // Sets only: who is added, held, closed and torn down.
  ghost predicate Held(st: State) {
    && st.registry <= st.alive <= st.added
    && st.closed <= st.added
    && st.tearing <= st.closed
    && st.added - st.closed <= st.registry
    && st.tearing <= st.registry
  }

  ghost predicate Tracked(st: State) {
    st.pc.Keys == st.added
  }

  // A session has been torn down once if it has left the registry, and not at all otherwise.
  ghost predicate TornOnce(st: State) {
    forall s :: st.torn[s] == if s in st.added && s !in st.registry then 1 else 0
  }

  // What a login handler in the critical section knows about the index, which nobody else can write.
  ghost predicate Knows(st: State, s: Sid, pc: Pc) {
    match pc
    case Locked(n, Some(p)) => p != s && p in st.alive && n in st.index && st.index[n] == p
    case Locked(n, None) => n in st.index ==> st.index[n] == s || st.index[n] !in st.alive
    case Evicting(n, p) =>
      && p != s && p in st.alive && n in st.index && st.index[n] == p
      && p in st.closed && p in st.registry && p !in st.tearing
    case Entering(n) =>
      n in st.index ==> st.index[n] == s || st.index[n] !in st.alive || st.index[n] in st.closed
    case _ => true
  }

  ghost predicate Exclusive(st: State) {
    forall s, t :: s in st.pc && t in st.pc && Holds(st.pc[s]) && Holds(st.pc[t]) ==> s == t
  }

  ghost predicate Handlers(st: State) {
    && (forall s :: s in st.pc && st.pc[s] != Resting ==> s in st.alive)
    && (forall s :: s in st.pc ==> Knows(st, s, st.pc[s]))
    && Exclusive(st)
  }

  ghost predicate Owners(st: State) {
    && (forall n :: n in st.index ==> (n, st.index[n]) in st.owns)
    && (forall n, s :: (n, s) in st.owns && s !in st.closed ==> n in st.index && st.index[n] == s)
    && (forall n, s :: (n, s) in st.owns ==> s in st.added)
    && (forall n, s :: (n, s) in st.owns && s !in st.closed && s in st.pc ==> !Pursues(st.pc[s], n))
  }

  ghost predicate Inv(st: State) {
    Held(st) && Tracked(st) && TornOnce(st) && Handlers(st) && Owners(st)
  }

  lemma StepKeepsHeld(st: State, a: Action)
    requires Inv(st)
    ensures Held(Step(st, a))
  {
  }

  lemma StepKeepsTracked(st: State, a: Action)
    requires Inv(st)
    ensures Tracked(Step(st, a))
  {
  }

  lemma StepKeepsTornOnce(st: State, a: Action)
    requires Inv(st)
    ensures TornOnce(Step(st, a))
  {
  }

  lemma StepKeepsExclusive(st: State, a: Action)
    requires Inv(st)
    ensures Exclusive(Step(st, a))
  {
  }

  lemma OwnStepKnows(st: State, a: Action, s: Sid)
    requires Inv(st) && s in st.pc && Step(st, a).pc[s] != st.pc[s]
    ensures Knows(Step(st, a), s, Step(st, a).pc[s])
  {
  }

  // While a handler holds the mutex, other threads can close its victim but not change the index.
  lemma OtherStepKnows(st: State, a: Action, s: Sid)
    requires Inv(st) && s in st.pc && Step(st, a).pc[s] == st.pc[s]
    ensures Knows(Step(st, a), s, Step(st, a).pc[s])
  {
  }

  lemma StepKeepsHandlers(st: State, a: Action)
    requires Inv(st)
    ensures Handlers(Step(st, a))
  {
    StepKeepsExclusive(st, a);
    forall s | s in Step(st, a).pc ensures Knows(Step(st, a), s, Step(st, a).pc[s]) {
      if s in st.pc {
        if Step(st, a).pc[s] != st.pc[s] {
          OwnStepKnows(st, a, s);
        } else {
          OtherStepKnows(st, a, s);
        }
      }
    }
  }

  lemma StepKeepsOwners(st: State, a: Action)
    requires Inv(st)
    ensures Owners(Step(st, a))
  {
    hide TornOnce, Exclusive;
    OpenOwnersRest(st, a);
  }

  // An open owner is refused by the check, and it rests after entering.
  lemma OpenOwnersRest(st: State, a: Action)
    requires Inv(st)
    ensures forall n, s :: var st' := Step(st, a);
              (n, s) in st'.owns && s !in st'.closed && s in st'.pc ==> !Pursues(st'.pc[s], n)
  {
    hide TornOnce, Exclusive;
  }

  lemma StepKeepsInv(st: State, a: Action)
    requires Inv(st)
    ensures Inv(Step(st, a))
  {
    StepKeepsHeld(st, a);
    StepKeepsTracked(st, a);
    StepKeepsTornOnce(st, a);
    StepKeepsHandlers(st, a);
    StepKeepsOwners(st, a);
  }

  lemma {:induction false} RunKeepsInv(actions: seq<Action>)
    ensures Inv(Run(actions))
  {
    if actions != [] {
      RunKeepsInv(Before(actions));
      StepKeepsInv(Run(Before(actions)), Last(actions));
    }
  }

  // --- Uniqueness -------------------------------------------------------------------------

  predicate OpenOwner(st: State, n: Nickname, s: Sid) {
    (n, s) in st.owns && s !in st.closed
  }

  /** Under every interleaving at most one open session has completed registration for a nickname; the
      index maps the nickname to it, its weak reference is live, and no sweep can remove the entry. */
  lemma OneOpenOwner(actions: seq<Action>, n: Nickname, s: Sid)
    requires OpenOwner(Run(actions), n, s)
    ensures var st := Run(actions);
            && (forall t :: OpenOwner(st, n, t) ==> t == s)
            && Lookup(st, n) == Some(s) && s in st.registry
            && (forall gone :: Happens(st, Sweep(gone)) ==> n !in gone)
            && !Happens(st, Destroy(s))
  {
    RunKeepsInv(actions);
  }

  /** While a nickname has an open owner, the duplicate check lets nobody through. */
  lemma OwnedNicknameIsRefused(actions: seq<Action>, n: Nickname, owner: Sid, s: Sid)
    requires OpenOwner(Run(actions), n, owner)
    ensures !Happens(Run(actions), Check(s, n))
  {
    RunKeepsInv(actions);
  }

  // The session that last completed a registration for the nickname, whatever was swept since.
  ghost function LastEntrant(actions: seq<Action>, n: Nickname): Option<Sid> {
    if actions == [] then None
    else if Enters(Run(Before(actions)), Last(actions), n) then Some(Last(actions).s)
    else LastEntrant(Before(actions), n)
  }

  predicate Enters(st: State, a: Action, n: Nickname) {
    a.Enter? && Happens(st, a) && st.pc[a.s].n == n
  }

  // Only dead entries are ever swept, and a session never comes back to life.
  ghost predicate EntryIs(st: State, n: Nickname, last: Option<Sid>) {
    && (n in st.index ==> last == Some(st.index[n]))
    && (n !in st.index && last.Some? ==> last.value !in st.alive && last.value in st.added)
  }

  lemma StepKeepsEntry(st: State, a: Action, n: Nickname, last: Option<Sid>)
    requires Inv(st) && EntryIs(st, n, last)
    ensures EntryIs(Step(st, a), n, if Enters(st, a, n) then Some(a.s) else last)
  {
    hide TornOnce, Handlers;
  }

  lemma {:induction false} EntryIsLastEntrant(actions: seq<Action>, n: Nickname)
    ensures EntryIs(Run(actions), n, LastEntrant(actions, n))
  {
    if actions != [] {
      RunKeepsInv(Before(actions));
      EntryIsLastEntrant(Before(actions), n);
      StepKeepsEntry(Run(Before(actions)), Last(actions), n, LastEntrant(Before(actions), n));
      hide Inv, Step, Enters, EntryIs;
    }
  }

  /** The duplicate check lets a resting session through, if the mutex is free, exactly when the session
      that last registered the nickname does not exist any more, swept or not. */
  lemma CheckPassesExactly(actions: seq<Action>, s: Sid, n: Nickname)
    ensures var st, last := Run(actions), LastEntrant(actions, n);
            Happens(st, Check(s, n)) <==>
              && s in st.pc && st.pc[s] == Resting && s in st.alive && n != "" && MutexFree(st)
              && (last.Some? ==> last.value !in st.alive)
  {
    EntryIsLastEntrant(actions, n);
    hide Run, LastEntrant;
  }

  /** A user who has disconnected can log in again under the old nickname from a new session, with no sweep
      in between. */
  lemma OwnerCanReconnect(actions: seq<Action>, n: Nickname, s: Sid, t: Sid)
    requires OpenOwner(Run(actions), n, s) && n != ""
    requires var st := Run(actions); MutexFree(st) && s in st.pc && st.pc[s] == Resting && t !in st.added
    ensures Happens(Run(actions + [Close(s)] + [TearDown(s)] + [Destroy(s)] + [Accept(t)]), Check(t, n))
  {
    RunKeepsInv(actions);
    var st := Run(actions);
    var r := Then(actions, Close(s));
    hide Run, TornOnce;
    r := Then(r, TearDown(s));
    assert Run(r).pc == st.pc && s !in Run(r).registry && s !in Run(r).tearing && Run(r).index == st.index;
    r := Then(r, Destroy(s));
    assert s !in Run(r).alive && Run(r).pc == st.pc && Run(r).index == st.index && Run(r).added == st.added;
    r := Then(r, Accept(t));
    assert t in Run(r).alive && Run(r).pc == st.pc[t := Resting] && Lookup(Run(r), n) == None;
  }

  /** A sweep takes the mutex and removes dead entries, and only those. */
  lemma SweepRemovesExactly(actions: seq<Action>, gone: set<Nickname>)
    ensures var st := Run(actions);
            var dead := forall n :: n in gone ==> n in st.index && st.index[n] !in st.alive;
            Run(actions + [Sweep(gone)]).index == if MutexFree(st) && dead then st.index - gone else st.index
  {
    assert Before(actions + [Sweep(gone)]) == actions;
  }

  // Sessions 0 and 1 are connected and have both passed the duplicate check for the nickname.
  function Racing(n: Nickname): State {
    INIT.(added := {0, 1}, registry := {0, 1}, alive := {0, 1}, pc := map[0 := Checked(n), 1 := Checked(n)])
  }

  lemma BothPass(n: Nickname) returns (r: seq<Action>)
    requires n != ""
    ensures Run(r) == Racing(n)
  {
    r := Then([], Accept(0));
    r := Then(r, Accept(1));
    assert Run(r) == INIT.(added := {0, 1}, registry := {0, 1}, alive := {0, 1}, pc := map[0 := Resting, 1 := Resting]);
    hide Run;
    r := Then(r, Check(0, n));
    r := Then(r, Check(1, n));
    assert Run(r).pc == Racing(n).pc;
  }

  lemma FirstEnters(n: Nickname, actions: seq<Action>) returns (r: seq<Action>)
    requires Run(actions) == Racing(n)
    ensures Run(r) == Racing(n).(index := map[n := 0], pc := map[0 := Resting, 1 := Checked(n)],
                                 owns := {(n, 0)})
  {
    r := Then(actions, Mark(0));
    r := Then(r, Lock(0));
    r := Then(r, Evict(0));
    r := Then(r, Enter(0));
    assert Run(r).pc == map[0 := Resting, 1 := Checked(n)];
  }

  lemma SecondLocks(n: Nickname, actions: seq<Action>) returns (r: seq<Action>)
    requires Run(actions) == Racing(n).(index := map[n := 0], pc := map[0 := Resting, 1 := Checked(n)],
                                        owns := {(n, 0)})
    ensures Run(r) == Run(actions).(pc := map[0 := Resting, 1 := Locked(n, Some(0))])
  {
    r := Then(actions, Mark(1));
    r := Then(r, Lock(1));
    assert Run(r).pc == map[0 := Resting, 1 := Locked(n, Some(0))];
  }

  /** The check alone does not make nicknames unique: two sessions can pass it for the same nickname
      and both complete their registration. What keeps the owner unique is the takeover, which closes
      the first one before the second enters the index. */
  lemma CheckDoesNotExclude(n: Nickname)
    requires n != ""
    ensures exists actions ::
              var st := Run(actions);
              (n, 0) in st.owns && (n, 1) in st.owns && !OpenOwner(st, n, 0) && OpenOwner(st, n, 1)
  {
    var r := BothPass(n);
    r := FirstEnters(n, r);
    r := SecondLocks(n, r);
    r := Then(r, Evict(1));
    r := Then(r, FinishEviction(1));
    r := Then(r, Enter(1));
    assert Run(r).owns == {(n, 0), (n, 1)} && Run(r).closed == {0};
  }

  lemma {:induction false} ClosedForever(actions: seq<Action>, more: seq<Action>, n: Nickname, s: Sid)
    requires (n, s) in Run(actions).owns && s in Run(actions).closed
    ensures s in Run(actions + more).closed
    decreases |more|
  {
    if more == [] {
      assert actions + more == actions;
    } else {
      assert Before(actions + more) == actions + Before(more);
      ClosedForever(actions, Before(more), n, s);
    }
  }

  /** When the check fails to exclude: a login past its check closes another session `p` at the takeover
      exactly if `p` completed its registration for the nickname after that check and is still open. */
  lemma CheckMissesExactly(actions: seq<Action>, more: seq<Action>, n: Nickname, s: Sid, p: Sid)
    requires Happens(Run(actions), Check(s, n))
    requires var st := Run(actions + more); s in st.pc && st.pc[s].Locked? && st.pc[s].n == n
    ensures var st, st' := Run(actions + more), Run(actions + more + [Evict(s)]);
            p !in st.closed && p in st'.closed <==> OpenOwner(st, n, p) && (n, p) !in Run(actions).owns
  {
    RunKeepsInv(actions);
    RunKeepsInv(actions + more);
    assert Before(actions + more + [Evict(s)]) == actions + more;
    if (n, p) in Run(actions).owns {
      ClosedForever(actions, more, n, p);
    }
  }

  // --- Teardown ---------------------------------------------------------------------------

  lemma StepKeepsRemoved(st: State, a: Action, s: Sid)
    requires Inv(st) && s in st.added && s !in st.registry
    ensures s in Step(st, a).added && s !in Step(st, a).registry
  {
  }

  /** Removal from the registry happens at most once per session, only to a closed one, and for good;
      an open session is always registered and alive. */
  lemma {:induction false} RemovedForever(actions: seq<Action>, more: seq<Action>, s: Sid)
    requires s in Run(actions).added && s !in Run(actions).registry
    ensures var st := Run(actions + more);
            s in st.closed && s !in st.registry && s in st.added && st.torn[s] == 1
    decreases |more|
  {
    RunKeepsInv(actions + more);
    if more == [] {
      assert actions + more == actions;
    } else {
      var sooner := actions + Before(more);
      assert Before(actions + more) == sooner;
      RemovedForever(actions, Before(more), s);
      RunKeepsInv(sooner);
      StepKeepsRemoved(Run(sooner), Last(more), s);
    }
  }

  predicate Leaving(st: State, s: Sid) {
    s in st.added && (s in st.tearing || s !in st.registry)
  }

  lemma StepKeepsLeaving(st: State, a: Action, s: Sid)
    requires Inv(st) && Leaving(st, s)
    ensures Leaving(Step(st, a), s)
  {
    hide TornOnce, Owners, Exclusive;
  }

  lemma {:induction false} LeavingForever(actions: seq<Action>, more: seq<Action>, s: Sid)
    requires Leaving(Run(actions), s)
    ensures Leaving(Run(actions + more), s)
    decreases |more|
  {
    hide Inv, Step, Leaving;
    if more == [] {
      assert actions + more == actions;
    } else {
      var sooner := actions + Before(more);
      assert Before(actions + more) == sooner;
      LeavingForever(actions, Before(more), s);
      RunKeepsInv(sooner);
      StepKeepsLeaving(Run(sooner), Last(more), s);
    }
  }

  /** A close sets `closed_` and makes a teardown due, and the teardown removes the session, whatever comes in
      between. */
  lemma CloseIsCompleted(actions: seq<Action>, more: seq<Action>, s: Sid)
    requires s in Run(actions).alive && s !in Run(actions).closed
    ensures var closed := actions + [Close(s)];
            var torn := closed + more + [TearDown(s)];
            && s in Run(closed).closed && s in Run(closed).tearing && s in Run(closed).registry
            && s !in Run(torn).registry && s !in Run(torn).tearing && Run(torn).torn[s] == 1
  {
    hide Run, Handlers, Owners;
    var closed := Then(actions, Close(s));
    var torn := Then(closed + more, TearDown(s));
    RunKeepsInv(actions);
    LeavingForever(closed, more, s);
    RunKeepsInv(closed + more);
    StepKeepsTornOnce(Run(closed + more), TearDown(s));
  }

  lemma OpenIsRegistered(actions: seq<Action>, s: Sid)
    requires s in Run(actions).added && s !in Run(actions).closed
    ensures s in Run(actions).registry && s in Run(actions).alive && Run(actions).torn[s] == 0
  {
    RunKeepsInv(actions);
  }

  // --- What the overflow close leaves behind ----------------------------------------------

  // Closed, still registered, and nobody left who will tear it down.
  ghost predicate Stranded(st: State, s: Sid) {
    && s in st.closed && s in st.registry && s !in st.tearing
    && forall t :: t in st.pc && st.pc[t].Evicting? ==> st.pc[t].victim != s
  }

  ghost predicate OverflowedWhileOpen(actions: seq<Action>, s: Sid) {
    exists i :: 0 <= i < |actions| && OverflowsAt(actions, i, s)
  }

  predicate OverflowsAt(actions: seq<Action>, i: nat, s: Sid)
    requires i < |actions|
  {
    OverflowsOpen(Run(actions[..i]), actions[i], s)
  }

  lemma StepKeepsStranded(st: State, a: Action, s: Sid)
    requires Inv(st) && Stranded(st, s)
    ensures Stranded(Step(st, a), s)
  {
  }

  predicate OverflowsOpen(st: State, a: Action, s: Sid) {
    a == Overflow(s) && s in st.alive && s !in st.closed
  }

  // A close by exchange has its teardown to come, here or in the takeover that won the exchange.
  lemma OnlyOverflowStrands(st: State, a: Action, s: Sid)
    requires Inv(st) && !Stranded(st, s) && !OverflowsOpen(st, a, s)
    ensures !Stranded(Step(st, a), s)
  {
    hide Owners, TornOnce, Exclusive;
    var st' := Step(st, a);
    if t :| t in st.pc && st.pc[t].Evicting? && st.pc[t].victim == s {
      assert a != FinishEviction(t) ==> st'.pc[t] == st.pc[t];
    } else if a.Evict? && Happens(st, a) {
      assert st'.pc[a.s].Evicting? || st'.closed == st.closed;
    }
  }

  /** `closed_` does not imply removal. A closed session stays registered with no teardown to come
      exactly when an overflow set its flag while it was open. */
  lemma {:induction false} StrandedExactly(actions: seq<Action>, s: Sid)
    ensures Stranded(Run(actions), s) <==> OverflowedWhileOpen(actions, s)
  {
    if actions != [] {
      var before := Before(actions);
      StrandedExactly(before, s);
      RunKeepsInv(before);
      OverflowHistory(actions, s);
      if Stranded(Run(before), s) {
        StepKeepsStranded(Run(before), Last(actions), s);
      } else if !OverflowsOpen(Run(before), Last(actions), s) {
        OnlyOverflowStrands(Run(before), Last(actions), s);
      }
    }
  }

  lemma OverflowHistory(actions: seq<Action>, s: Sid)
    requires actions != []
    ensures OverflowedWhileOpen(actions, s) <==>
            OverflowedWhileOpen(Before(actions), s) || OverflowsOpen(Run(Before(actions)), Last(actions), s)
  {
    var before := Before(actions);
    assert forall i :: 0 <= i < |before| ==> before[..i] == actions[..i];
    assert forall i :: 0 <= i < |before| ==> (OverflowsAt(before, i, s) <==> OverflowsAt(actions, i, s));
    assert OverflowsAt(actions, |before|, s) <==> OverflowsOpen(Run(before), Last(actions), s);
  }

  ghost predicate Blocked(st: State, n: Nickname, s: Sid) {
    && Stranded(st, s) && n in st.index && st.index[n] == s
    && !Pursued(st, n)
  }

  lemma StepKeepsBlocked(st: State, a: Action, n: Nickname, s: Sid)
    requires Inv(st) && Blocked(st, n, s)
    ensures Blocked(Step(st, a), n, s) && (forall t :: !Happens(st, Check(t, n)))
  {
    StepKeepsStranded(st, a, s);
    assert Lookup(st, n) == Some(s);
    hide Stranded, Inv;
  }

  lemma {:induction false} BlockedForever(actions: seq<Action>, more: seq<Action>, n: Nickname, s: Sid)
    requires Blocked(Run(actions), n, s)
    ensures Blocked(Run(actions + more), n, s) && Lookup(Run(actions + more), n) == Some(s)
    ensures forall t :: !Happens(Run(actions + more), Check(t, n))
    decreases |more|
  {
    RunKeepsInv(actions + more);
    if more == [] {
      assert actions + more == actions;
    } else {
      var sooner := actions + Before(more);
      assert Before(actions + more) == sooner;
      BlockedForever(actions, Before(more), n, s);
      RunKeepsInv(sooner);
      StepKeepsBlocked(Run(sooner), Last(more), n, s);
    }
    StepKeepsBlocked(Run(actions + more), Close(s), n, s);
  }

  lemma {:induction false} StrandedForever(actions: seq<Action>, more: seq<Action>, s: Sid)
    requires Stranded(Run(actions), s)
    ensures Stranded(Run(actions + more), s) && s in Run(actions + more).registry
    decreases |more|
  {
    if more == [] {
      assert actions + more == actions;
    } else {
      var sooner := actions + Before(more);
      assert Before(actions + more) == sooner;
      StrandedForever(actions, Before(more), s);
      RunKeepsInv(sooner);
      StepKeepsStranded(Run(sooner), Last(more), s);
    }
  }

  // The sessions that a takeover in the critical section has closed or is about to close.
  function Victims(st: State, s: Sid): set<Sid>
    requires s in st.pc
  {
    match st.pc[s]
    case Locked(_, Some(p)) => if p in st.closed then {} else {p}
    case Evicting(_, p) => {p}
    case _ => {}
  }

  function NextOfLogin(pc: Pc, s: Sid): Action {
    if pc.Locked? then Evict(s) else if pc.Evicting? then FinishEviction(s) else Enter(s)
  }

  function StepsLeft(pc: Pc): nat {
    if pc.Locked? then 2 else if pc.Evicting? then 1 else 0
  }

  lemma LoginStep(st: State, s: Sid)
    requires Inv(st) && s in st.pc && Holds(st.pc[s]) && !st.pc[s].Entering?
    ensures var st' := Step(st, NextOfLogin(st.pc[s], s));
            && s in st'.pc && Holds(st'.pc[s]) && st'.pc[s].n == st.pc[s].n
            && StepsLeft(st'.pc[s]) < StepsLeft(st.pc[s])
            && st'.pc[s := Resting] == st.pc[s := Resting] && st'.index == st.index
            && st'.closed + Victims(st', s) == st.closed + Victims(st, s)
            && st'.registry - Victims(st', s) == st.registry - Victims(st, s)
  {
    hide Owners, TornOnce, Exclusive, Held;
  }

  /** A takeover that nobody interrupts. */
  lemma {:induction false} FinishLogin(actions: seq<Action>, s: Sid) returns (more: seq<Action>)
    requires s in Run(actions).pc && Holds(Run(actions).pc[s])
    ensures var st, st' := Run(actions), Run(actions + more);
            && st'.pc == st.pc[s := Resting] && st'.index == st.index[st.pc[s].n := s]
            && st'.closed == st.closed + Victims(st, s) && st'.registry == st.registry - Victims(st, s)
    decreases StepsLeft(Run(actions).pc[s])
  {
    hide Run, Inv;
    RunKeepsInv(actions);
    var st := Run(actions);
    var a := NextOfLogin(st.pc[s], s);
    var longer := Then(actions, a);
    if st.pc[s].Entering? {
      more := [a];
    } else {
      hide Step, NextOfLogin, Victims;
      LoginStep(st, s);
      more := FinishLogin(longer, s);
      assert longer + more == actions + ([a] + more);
      more := [a] + more;
    }
  }

  lemma EnterMutex(actions: seq<Action>, s: Sid) returns (more: seq<Action>)
    requires var st := Run(actions); s in st.pc && (st.pc[s].Checked? || st.pc[s].Marked?) && MutexFree(st)
    ensures var st, st' := Run(actions), Run(actions + more);
            && s in st'.pc && st'.pc[s].Locked? && st'.pc[s].n == st.pc[s].n && st'.index == st.index
  {
    var longer, pc := actions, Run(actions).pc[s];
    if pc.Checked? {
      longer := Then(longer, Mark(s));
    }
    longer := Then(longer, Lock(s));
    more := longer[|actions|..];
    assert longer == actions + more;
  }

  lemma FreeMutexEnters(actions: seq<Action>, t: Sid) returns (more: seq<Action>)
    requires var st := Run(actions); t in st.pc && (st.pc[t].Checked? || st.pc[t].Marked?) && MutexFree(st)
    ensures var st := Run(actions); Run(actions + more).index == st.index[st.pc[t].n := t]
  {
    hide Run, Inv, Victims;
    var enter := EnterMutex(actions, t);
    more := FinishLogin(actions + enter, t);
    assert actions + enter + more == actions + (enter + more);
    more := enter + more;
  }

  lemma LeavesMutex(actions: seq<Action>, h: Sid)
    requires h in Run(actions).pc && Holds(Run(actions).pc[h])
    ensures forall t :: t in Run(actions).pc && t != h ==> !Holds(Run(actions).pc[t])
  {
    RunKeepsInv(actions);
  }

  predicate Pursued(st: State, n: Nickname) {
    exists t :: t in st.pc && Pursues(st.pc[t], n)
  }

  ghost predicate TakenFrom(st: State, n: Nickname, s: Sid) {
    n in st.index && st.index[n] != s
  }

  /** A login past its check can always go on to enter the index: whoever holds the mutex leaves it. */
  lemma PursuerEnters(actions: seq<Action>, t: Sid, n: Nickname, s: Sid) returns (more: seq<Action>)
    requires t in Run(actions).pc && Pursues(Run(actions).pc[t], n) && t != s
    ensures TakenFrom(Run(actions + more), n, s)
  {
    hide Run, Inv, Victims;
    if MutexFree(Run(actions)) {
      more := FreeMutexEnters(actions, t);
    } else {
      var h :| h in Run(actions).pc && Holds(Run(actions).pc[h]);
      var done := FinishLogin(actions, h);
      more := done;
      if h != t {
        LeavesMutex(actions, h);
        var enter := FreeMutexEnters(actions + done, t);
        assert actions + done + enter == actions + (done + enter);
        more := done + enter;
      }
    }
  }

  lemma OverflowStrands(actions: seq<Action>, n: Nickname, s: Sid)
    requires OpenOwner(Run(actions), n, s)
    ensures var st, st' := Run(actions), Run(actions + [Overflow(s)]);
            && Stranded(st', s) && st'.pc == st.pc && n in st'.index && st'.index[n] == s
            && forall t :: t in st.pc && Pursues(st.pc[t], n) ==> t != s
  {
    RunKeepsInv(actions);
    assert Before(actions + [Overflow(s)]) == actions;
  }

  /** If the owner of a nickname is closed by a write-queue overflow, it stays in the registry for ever,
      whatever happens (disconnects, cleanups, sweeps). Its nickname can still be taken over by a login
      that was past its check by then, and only so: without one nobody ever gets past the check again. */
  lemma OverflowStrandsOwner(actions: seq<Action>, n: Nickname, s: Sid)
    requires OpenOwner(Run(actions), n, s)
    ensures var st, stranded := Run(actions), actions + [Overflow(s)];
            && (forall more :: s in Run(stranded + more).registry)
            && ((exists more :: TakenFrom(Run(stranded + more), n, s)) <==> Pursued(st, n))
            && (!Pursued(st, n) ==> forall more :: Lookup(Run(stranded + more), n) == Some(s))
            && (!Pursued(st, n) ==> forall more, t :: !Happens(Run(stranded + more), Check(t, n)))
  {
    hide Run, Stranded;
    var st, stranded := Run(actions), actions + [Overflow(s)];
    OverflowStrands(actions, n, s);
    forall more ensures s in Run(stranded + more).registry {
      StrandedForever(stranded, more, s);
    }
    if Pursued(st, n) {
      var t :| t in st.pc && Pursues(st.pc[t], n);
      var more := PursuerEnters(stranded, t, n, s);
      assert TakenFrom(Run(stranded + more), n, s);
    } else {
      forall more
        ensures !TakenFrom(Run(stranded + more), n, s) && Lookup(Run(stranded + more), n) == Some(s)
        ensures forall t :: !Happens(Run(stranded + more), Check(t, n))
      {
        BlockedForever(stranded, more, n, s);
      }
    }
  }
}
