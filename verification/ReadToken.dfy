/** The read/task protocol of a session: `read_pending_` is a token that travels from the thread that
    acquired it, through the strand and the task queue, into one outstanding read, and back.

    A read callback is two steps, because other threads can run between its `release_read` and its
    end. The only job ever queued is "start the next read", so the task queue is its length here. */
module ReadToken {
  import opened Utils

  datatype Reader = Reader(
    pending: bool,      // read_pending_
    claimed: nat,       // threads past try_acquire_read that have not dispatched the job yet
    jobs: nat,          // post_task jobs waiting for the strand
    tasks: nat,         // task_queue_
    running: bool,      // task_running_
    active: nat,        // outstanding async_read_some calls, each owning data_
    inCallback: bool,   // a read callback is using data_ on the strand
    wedged: bool,       // a callback left through the invalid-length return
    overflowed: bool)   // the task queue was found full

  const IDLE := Reader(false, 0, 0, 0, false, 0, false, false, false)

  function RunNextTask(r: Reader): Reader {
    if r.tasks == 0 then r.(running := false) else r.(tasks := r.tasks - 1, active := r.active + 1)
  }

  // The body of post_task on the strand.
  function Enqueue(maxTasks: nat, r: Reader): Reader {
    if r.tasks >= maxTasks then r.(overflowed := true)
    else
      var r' := r.(tasks := r.tasks + 1);
      if r.running then r' else RunNextTask(r'.(running := true))
  }

  predicate Acquires(r: Reader, stateClosed: bool) {
    !stateClosed && !r.pending
  }

  // A read callback starts by giving the token back.
  function ReleaseRead(r: Reader): Reader
    requires r.active > 0
  {
    r.(active := r.active - 1, pending := false, inCallback := true)
  }

  datatype Outcome = Continue | Invalid | Stop

  // How a read callback ends; `do_read` from inside the strand runs its job at once.
  function EndCallback(maxTasks: nat, r: Reader, outcome: Outcome, stateClosed: bool): Reader {
    var r' := r.(inCallback := false);
    match outcome
    case Invalid => r'.(wedged := true)
    case Stop => RunNextTask(r')
    case Continue =>
      RunNextTask(if Acquires(r', stateClosed) then Enqueue(maxTasks, r'.(pending := true)) else r')
  }

  /** `stateClosed` is what the step reads from `state_`, which other threads may change at any time. */
  datatype Event =
    | DoRead(stateClosed: bool)                      // any thread, up to try_acquire_read
    | Dispatch                                       // that thread posts the job to the strand
    | RunJob                                         // the strand runs the job
    | BeginCallback                                  // a read completes; release_read
    | FinishCallback(outcome: Outcome, closed: bool) // the rest of the callback

  predicate Happens(r: Reader, e: Event) {
    match e
    case DoRead(_) => true
    case Dispatch => r.claimed > 0
    case RunJob => r.jobs > 0 && !r.inCallback
    case BeginCallback => r.active > 0 && !r.inCallback
    case FinishCallback(_, _) => r.inCallback
  }

  function Step(maxTasks: nat, r: Reader, e: Event): Reader {
    if !Happens(r, e) then r else
    match e
    case DoRead(stateClosed) =>
      if Acquires(r, stateClosed) then r.(pending := true, claimed := r.claimed + 1) else r
    case Dispatch => r.(claimed := r.claimed - 1, jobs := r.jobs + 1)
    case RunJob => Enqueue(maxTasks, r.(jobs := r.jobs - 1))
    case BeginCallback => ReleaseRead(r)
    case FinishCallback(outcome, closed) => EndCallback(maxTasks, r, outcome, closed)
  }

  function Run(maxTasks: nat, events: seq<Event>): Reader {
    if events == [] then IDLE
    else Step(maxTasks, Run(maxTasks, Before(events)), Last(events))
  }

  function Places(r: Reader): nat {
    r.claimed + r.jobs + r.tasks + r.active
  }

  ghost predicate Conserved(r: Reader) {
    && Places(r) == (if r.pending then 1 else 0)
    && !r.overflowed
    && (r.running <==> r.active == 1 || r.inCallback || r.wedged)
    && (r.inCallback || r.wedged ==> r.active == 0)
    && (!r.wedged ==> r.tasks == 0)
    && !(r.inCallback && r.wedged)
  }

  /** The token is in exactly one place while `read_pending_` is set and in none otherwise: over every
      interleaving there is at most one read, `data_` is never being filled while a callback parses
      it, the task queue is empty between strand steps and never overflows. */
  lemma {:induction false} TokenIsConserved(maxTasks: nat, events: seq<Event>)
    requires maxTasks >= 1
    ensures Conserved(Run(maxTasks, events))
  {
    if events != [] {
      TokenIsConserved(maxTasks, Before(events));
    }
  }

  lemma OverflowExactly(maxTasks: nat)
    ensures (exists events :: Run(maxTasks, events).overflowed) <==> maxTasks == 0
  {
    if maxTasks == 0 {
      var first := [DoRead(false)];
      var second := first + [Dispatch];
      var third := second + [RunJob];
      assert Before(first) == [] && Before(second) == first && Before(third) == second;
      assert Run(maxTasks, []) == IDLE;
      assert Run(maxTasks, first) == IDLE.(pending := true, claimed := 1);
      assert Run(maxTasks, second) == IDLE.(pending := true, jobs := 1);
      assert Run(maxTasks, third).overflowed;
      assert exists events :: Run(maxTasks, events).overflowed;
    } else {
      forall events ensures !Run(maxTasks, events).overflowed {
        TokenIsConserved(maxTasks, events);
      }
    }
  }

  // --- The token as one thing in one place ------------------------------------------------

  /** Free, with the thread that acquired it, on the strand, in a read, or parked in the task queue of a
      session whose task chain has stopped. */
  datatype Place = Free | WithThread | OnStrand | InRead | Parked

  datatype Token = Token(place: Place, inCallback: bool, stopped: bool)

  const START := Token(Free, false, false)

  function Move(t: Token, e: Event): Token {
    match e
    case DoRead(stateClosed) => if t.place == Free && !stateClosed then t.(place := WithThread) else t
    case Dispatch => if t.place == WithThread then t.(place := OnStrand) else t
    case RunJob =>
      if t.place == OnStrand && !t.inCallback then t.(place := if t.stopped then Parked else InRead) else t
    case BeginCallback => if t.place == InRead then t.(place := Free, inCallback := true) else t
    case FinishCallback(outcome, stateClosed) =>
      if !t.inCallback then t
      else if outcome == Invalid then t.(inCallback := false, stopped := true)
      else if outcome == Continue && t.place == Free && !stateClosed then t.(inCallback := false, place := InRead)
      else t.(inCallback := false)
  }

  function Travel(events: seq<Event>): Token {
    if events == [] then START else Move(Travel(Before(events)), Last(events))
  }

  predicate Possible(t: Token) {
    && (t.place == Parked ==> t.stopped)
    && (t.place == InRead ==> !t.inCallback && !t.stopped)
    && !(t.inCallback && t.stopped)
  }

  // The fields of a session with its token there.
  function Fields(t: Token): Reader {
    var r := IDLE.(pending := t.place != Free, running := t.inCallback || t.stopped, inCallback := t.inCallback,
                   wedged := t.stopped);
    match t.place
    case Free => r
    case WithThread => r.(claimed := 1)
    case OnStrand => r.(jobs := 1)
    case InRead => r.(active := 1, running := true)
    case Parked => r.(tasks := 1)
  }

  lemma StepMoves(maxTasks: nat, t: Token, e: Event)
    requires maxTasks >= 1 && Possible(t)
    ensures Possible(Move(t, e)) && Step(maxTasks, Fields(t), e) == Fields(Move(t, e))
  {
    match t.place
    case Free =>
    case WithThread =>
    case OnStrand =>
    case InRead =>
    case Parked =>
  }

  /** The flags, counters and queues of a session do nothing but carry one token around: over every
      interleaving they are the token's place, step by step. */
  lemma {:induction false} ReaderCarriesToken(maxTasks: nat, events: seq<Event>)
    requires maxTasks >= 1
    ensures Run(maxTasks, events) == Fields(Travel(events)) && Possible(Travel(events))
  {
    if events != [] {
      ReaderCarriesToken(maxTasks, Before(events));
      StepMoves(maxTasks, Travel(Before(events)), Last(events));
    }
  }

  // --- Closed sessions do not read --------------------------------------------------------

  predicate ReadsClosed(e: Event) {
    (e.DoRead? ==> e.stateClosed) && (e.FinishCallback? ==> e.closed)
  }

  /** A `do_read` that finds the session Closed changes nothing, ... */
  lemma ClosedDoReadIsNothing(maxTasks: nat, events: seq<Event>)
    ensures Run(maxTasks, events + [DoRead(true)]) == Run(maxTasks, events)
  {
    assert Before(events + [DoRead(true)]) == events;
  }

  lemma {:induction false} FreeStaysFree(events: seq<Event>, more: seq<Event>)
    requires Travel(events).place == Free && forall e :: e in more ==> ReadsClosed(e)
    ensures Travel(events + more).place == Free
    decreases |more|
  {
    if more == [] {
      assert events + more == events;
    } else {
      assert Before(events + more) == events + Before(more);
      assert Last(more) in more;
      FreeStaysFree(events, Before(more));
    }
  }

  /** ... and as long as everybody finds it Closed, a free token stays free: no read is started, neither
      from outside nor by a callback that goes on. */
  lemma ClosedStartsNoRead(maxTasks: nat, events: seq<Event>, more: seq<Event>)
    requires maxTasks >= 1 && !Run(maxTasks, events).pending
    requires forall e :: e in more ==> ReadsClosed(e)
    ensures var r := Run(maxTasks, events + more); !r.pending && Places(r) == 0
  {
    ReaderCarriesToken(maxTasks, events);
    FreeStaysFree(events, more);
    ReaderCarriesToken(maxTasks, events + more);
    hide Run, Travel;
  }

  /** No wake-up is lost. A held token is with a thread, on the strand or in a read, never parked; and
      wherever it is, its next step moves it on to a read. Only the early return on an invalid length
      ends reading, and it does so for good. */
  lemma TokenMakesProgress(maxTasks: nat, events: seq<Event>)
    requires maxTasks >= 1
    ensures var r := Run(maxTasks, events);
            && (r.pending && !r.wedged ==> r.claimed + r.jobs + r.active == 1)
            && (r.jobs == 1 && !r.inCallback && !r.wedged ==> Step(maxTasks, r, RunJob).active == 1)
            && (r.inCallback ==> var r' := Step(maxTasks, r, FinishCallback(Continue, false));
                                 r'.pending && r'.claimed + r'.jobs + r'.active == 1)
            && (r.inCallback && !r.pending ==> Step(maxTasks, r, FinishCallback(Continue, false)).active == 1)
  {
    TokenIsConserved(maxTasks, events);
  }

  lemma WedgedStep(maxTasks: nat, r: Reader, e: Event)
    requires Conserved(r) && r.wedged
    ensures Step(maxTasks, r, e).wedged && Step(maxTasks, r, e).active == 0
  {
  }

  lemma {:induction false} WedgedForever(maxTasks: nat, events: seq<Event>, more: seq<Event>)
    requires maxTasks >= 1 && Run(maxTasks, events).wedged
    ensures Run(maxTasks, events + more).wedged && Run(maxTasks, events + more).active == 0
    decreases |more|
  {
    if more == [] {
      assert events + more == events;
      TokenIsConserved(maxTasks, events);
    } else {
      var sooner := events + Before(more);
      assert Before(events + more) == sooner;
      WedgedForever(maxTasks, events, Before(more));
      TokenIsConserved(maxTasks, sooner);
      WedgedStep(maxTasks, Run(maxTasks, sooner), Last(more));
    }
  }

  /** The early return on an invalid length is the only thing that ends reading for good. */
  lemma ReadingEndsExactly(maxTasks: nat, events: seq<Event>)
    requires maxTasks >= 1
    ensures (forall more :: Run(maxTasks, events + more).active == 0) <==> Run(maxTasks, events).wedged
  {
    if Run(maxTasks, events).wedged {
      forall more ensures Run(maxTasks, events + more).active == 0 {
        WedgedForever(maxTasks, events, more);
      }
    } else {
      ReaderCarriesToken(maxTasks, events);
      var one := TravelOn(events, FinishCallback(Stop, true));
      var two := TravelOn(one, DoRead(false));
      var three := TravelOn(two, Dispatch);
      var four := TravelOn(three, RunJob);
      ReaderCarriesToken(maxTasks, four);
      assert four == events + four[|events|..];
      assert Run(maxTasks, four).active == 1;
    }
  }

  lemma TravelOn(events: seq<Event>, e: Event) returns (longer: seq<Event>)
    ensures longer == events + [e] && Travel(longer) == Move(Travel(events), e)
  {
    longer := events + [e];
    assert Before(longer) == events;
  }
}
