/** The outbound half of a session: one bounded queue whose front element stands for the message
    being sent, even after an overflow has popped that very element.

    `Writer` and its step functions say what the callbacks on the session's strand do.
    `DropOldest` is an independent reference queue that keeps the message being sent apart from the
    waiting ones and, when full, discards the oldest *waiting* message. */
module Outbound {
  import opened Utils
  import opened Framing

  datatype SessionState = Handshaking | Handshaked | LoginWait | Ready | Closed

  // `max_write_queue_size` and `write_queue_overflow_limit`. With a maximum of 0 the first post
  // would pop an empty std::queue, which C++ leaves undefined.
  datatype RawLimits = Limits(maxQueue: nat, overflowLimit: nat)
  type Limits = c: RawLimits | c.maxQueue >= 1 witness Limits(100, 10)

  datatype Writer = Writer(
    queue: seq<Message>,
    inProgress: bool,
    overflows: nat,
    closed: bool,
    state: SessionState,
    outstanding: seq<Message>,  // writes handed to the socket and not completed, oldest first
    sent: seq<Message>)         // completed writes, in order

  const FRESH := Writer([], false, 0, false, Handshaking, [], [])

  // The source pops without looking; `NeverPopsEmpty` below shows the first branch is never taken
  // in a session that runs with a maximum of at least 2.
  function Pop(queue: seq<Message>): seq<Message> {
    if queue == [] then [] else queue[1..]
  }

  function CloseSession(w: Writer): Writer {
    if w.closed then w else w.(closed := true, state := Closed)
  }

  predicate IsFull(c: Limits, w: Writer) {
    |w.queue| >= c.maxQueue
  }

  predicate Refuses(c: Limits, w: Writer) {
    IsFull(c, w) && w.overflows + 1 >= c.overflowLimit
  }

  function EnqueueWrite(c: Limits, w: Writer, m: Message): Writer {
    if !IsFull(c, w) then
      w.(overflows := 0, queue := w.queue + [m])
    else if Refuses(c, w) then
      w.(queue := Pop(w.queue), overflows := w.overflows + 1, closed := true)
    else
      w.(queue := Pop(w.queue) + [m], overflows := w.overflows + 1)
  }

  function DoWriteQueue(w: Writer): Writer {
    if w.state == Closed then w
    else if w.queue == [] then w.(inProgress := false)
    else w.(outstanding := w.outstanding + [w.queue[0]])
  }

  function PostWrite(c: Limits, w: Writer, m: Message): Writer {
    var enqueued := EnqueueWrite(c, w, m);
    if w.queue == [] then DoWriteQueue(enqueued.(inProgress := true)) else enqueued
  }

  function WriteDone(w: Writer, ok: bool): Writer
    requires w.outstanding != []
  {
    var w' := w.(outstanding := w.outstanding[1..]);
    if ok then DoWriteQueue(w'.(queue := Pop(w.queue), sent := w.sent + [w.outstanding[0]]))
    else CloseSession(w')
  }

  /** What can happen to a writer. `MarkClosed` and `SetState` are the two atomic halves of a
      `close_session` on another thread; `SetState(Ready)` is also what a login does. */
  datatype Event = Post(m: Message) | Done(ok: bool) | MarkClosed | SetState(s: SessionState)

  // A completion arrives only for an outstanding write.
  predicate Happens(w: Writer, e: Event) {
    e.Done? ==> w.outstanding != []
  }

  function Step(c: Limits, w: Writer, e: Event): Writer {
    match e
    case Post(m) => PostWrite(c, w, m)
    case Done(ok) => if Happens(w, e) then WriteDone(w, ok) else w
    case MarkClosed => w.(closed := true)
    case SetState(s) => w.(state := s)
  }

  function Run(c: Limits, events: seq<Event>): Writer {
    if events == [] then FRESH else Step(c, Run(c, Before(events)), Last(events))
  }

  function Posts(events: seq<Event>): seq<Message> {
    if events == [] then []
    else Posts(Before(events)) + if Last(events).Post? then [Last(events).m] else []
  }

  // --- At most one write, for every run ---------------------------------------------------

  ghost predicate SingleWrite(c: Limits, w: Writer) {
    && |w.outstanding| <= 1
    && (w.outstanding != [] ==> w.queue != [] && w.inProgress)
    && |w.queue| <= c.maxQueue
    && w.overflows <= (if c.overflowLimit == 0 then 1 else c.overflowLimit)
    && (w.overflows > 0 && w.overflows >= c.overflowLimit ==> !IsFull(c, w))
  }

  /** Whatever happens (failed writes, closes, logins after a close), with a maximum of at least 2
      there is never a second write, and a completion never pops an empty queue. */
  lemma {:induction false} AtMostOneWrite(c: Limits, events: seq<Event>)
    requires c.maxQueue >= 2
    ensures SingleWrite(c, Run(c, events))
  {
    if events != [] {
      AtMostOneWrite(c, Before(events));
    }
  }

  function Repeat(m: Message, n: nat): seq<Event> {
    seq(n, _ => Post(m))
  }

  // With a maximum of 1 every overflow pops the message in flight itself.
  lemma {:induction false} FillCapacityOne(c: Limits, m: Message, n: nat)
    requires c.maxQueue == 1 && 1 <= n && (n == 1 || n <= c.overflowLimit)
    ensures Run(c, Repeat(m, n)) == FRESH.(queue := [m], inProgress := true, outstanding := [m], overflows := n - 1)
  {
    assert Before(Repeat(m, n)) == Repeat(m, n - 1);
    if n > 1 {
      FillCapacityOne(c, m, n - 1);
    } else {
      assert Run(c, Repeat(m, 0)) == FRESH;
    }
  }

  lemma CapacityOneStartsTwoWrites(c: Limits, m: Message)
    requires c.maxQueue == 1
    ensures exists events :: Run(c, events).outstanding != [] && Run(c, events).queue == []
    ensures exists events :: |Run(c, events).outstanding| == 2
  {
    var n := if c.overflowLimit == 0 then 1 else c.overflowLimit;
    FillCapacityOne(c, m, n);
    var stalled, twice := Repeat(m, n + 1), Repeat(m, n + 2);
    assert Before(stalled) == Repeat(m, n) && Before(twice) == stalled;
    assert Run(c, stalled).queue == [] && Run(c, stalled).outstanding == [m];
    assert |Run(c, twice).outstanding| == 2;
  }

  /** The exact condition under which writes never overlap. */
  lemma SingleWriteExactly(c: Limits)
    ensures (forall events :: |Run(c, events).outstanding| <= 1) <==> c.maxQueue >= 2
  {
    if c.maxQueue >= 2 {
      forall events ensures |Run(c, events).outstanding| <= 1 {
        AtMostOneWrite(c, events);
      }
    } else {
      CapacityOneStartsTwoWrites(c, []);
    }
  }

  /** The exact condition under which a completion always finds a front element to pop. */
  lemma NeverPopsEmptyExactly(c: Limits)
    ensures (forall events :: Run(c, events).outstanding != [] ==> Run(c, events).queue != []) <==> c.maxQueue >= 2
  {
    if c.maxQueue >= 2 {
      forall events ensures Run(c, events).outstanding != [] ==> Run(c, events).queue != [] {
        AtMostOneWrite(c, events);
      }
    } else {
      CapacityOneStartsTwoWrites(c, []);
    }
  }

  // --- Refinement of the drop-oldest-unsent queue -----------------------------------------

  // `Stuck` is a front element that nothing will ever send: nobody starts or completes it.
  datatype Head = Empty | Sending(m: Message) | Stuck

  datatype DropOldest = DropOldest(
    head: Head,
    waiting: seq<Message>,
    finished: seq<Message>,
    lost: nat,      // waiting messages discarded because the queue was full
    refused: nat,   // posted messages turned away at the overflow limit
    stalls: nat,
    busy: bool,
    closed: bool,
    state: SessionState)

  const EMPTY := DropOldest(Empty, [], [], 0, 0, 0, false, false, Handshaking)

  // Under a Closed state the next message gets to the front, but not to the socket.
  function Offer(c: Limits, r: DropOldest, m: Message): DropOldest
    requires c.maxQueue >= 2
  {
    if r.head.Empty? then
      r.(head := if r.state == Closed then Stuck else Sending(m), busy := true, stalls := 0)
    else if 1 + |r.waiting| < c.maxQueue then
      r.(waiting := r.waiting + [m], stalls := 0)
    else if r.stalls + 1 < c.overflowLimit then
      r.(waiting := r.waiting[1..] + [m], lost := r.lost + 1, stalls := r.stalls + 1)
    else
      r.(waiting := r.waiting[1..], lost := r.lost + 1, refused := r.refused + 1, stalls := r.stalls + 1, closed := true)
  }

  function Settle(r: DropOldest, ok: bool): DropOldest {
    match r.head
    case Sending(m) =>
      if !ok then
        r.(head := Stuck, closed := true, state := if r.closed then r.state else Closed)
      else
        var r' := r.(finished := r.finished + [m]);
        if r.waiting == [] then r'.(head := Empty, busy := r.state == Closed)
        else r'.(head := if r.state == Closed then Stuck else Sending(r.waiting[0]), waiting := r.waiting[1..])
    case _ => r
  }

  function Reference(c: Limits, events: seq<Event>): DropOldest
    requires c.maxQueue >= 2
  {
    if events == [] then EMPTY
    else
      var r := Reference(c, Before(events));
      match Last(events)
      case Post(m) => Offer(c, r, m)
      case Done(ok) => Settle(r, ok)
      case MarkClosed => r.(closed := true)
      case SetState(s) => r.(state := s)
  }

  ghost predicate Refines(w: Writer, r: DropOldest) {
    && w.outstanding == (if r.head.Sending? then [r.head.m] else [])
    && (w.queue != [] <==> !r.head.Empty?)
    && r.waiting == Pop(w.queue)
    && r.finished == w.sent
    && r.stalls == w.overflows
    && (r.busy <==> w.inProgress)
    && (r.closed <==> w.closed)
    && r.state == w.state
    && (r.head.Sending? ==> r.busy)
  }

  lemma PostRefines(c: Limits, w: Writer, r: DropOldest, m: Message)
    requires c.maxQueue >= 2 && Refines(w, r)
    ensures Refines(PostWrite(c, w, m), Offer(c, r, m))
  {
  }

  lemma DoneRefines(w: Writer, r: DropOldest, ok: bool)
    requires Refines(w, r)
    ensures Refines(if w.outstanding == [] then w else WriteDone(w, ok), Settle(r, ok))
  {
  }

  /** Although an overflow pops the element that stands for the message in flight, and the completion
      pops blindly later, the waiting messages are always `queue[1..]`: in every run, through failures,
      closes and logins after a close, the queue is a faithful drop-oldest-unsent queue. */
  lemma {:induction false} QueueRefinesDropOldest(c: Limits, events: seq<Event>)
    requires c.maxQueue >= 2
    ensures Refines(Run(c, events), Reference(c, events))
  {
    if events != [] {
      var w, r := Run(c, Before(events)), Reference(c, Before(events));
      QueueRefinesDropOldest(c, Before(events));
      match Last(events)
      case Post(m) => PostRefines(c, w, r, m);
      case Done(ok) => DoneRefines(w, r, ok);
      case _ =>
    }
  }

  // No write has failed and nobody has entered the Closed state.
  predicate Healthy(events: seq<Event>) {
    Done(false) !in events && SetState(Closed) !in events
  }

  predicate Flowing(w: Writer) {
    w.state != Closed && (w.queue != [] <==> w.inProgress) && (w.inProgress <==> w.outstanding != [])
  }

  lemma StepKeepsFlowing(c: Limits, w: Writer, e: Event)
    requires c.maxQueue >= 2 && SingleWrite(c, w) && Flowing(w) && e != Done(false) && e != SetState(Closed)
    ensures Flowing(Step(c, w, e))
  {
  }

  /** Until then a non-empty queue, `write_in_progress_` and a write in flight are the same thing. */
  lemma {:induction false} HealthyQueueIsSending(c: Limits, events: seq<Event>)
    requires c.maxQueue >= 2 && Healthy(events)
    ensures Flowing(Run(c, events))
  {
    if events != [] {
      HealthyQueueIsSending(c, Before(events));
      AtMostOneWrite(c, Before(events));
      StepKeepsFlowing(c, Run(c, Before(events)), Last(events));
    }
  }

  function OverflowPops(c: Limits, events: seq<Event>): nat {
    if events == [] then 0
    else OverflowPops(c, Before(events))
         + if Last(events).Post? && IsFull(c, Run(c, Before(events))) then 1 else 0
  }

  function Refusals(c: Limits, events: seq<Event>): nat {
    if events == [] then 0
    else Refusals(c, Before(events))
         + if Last(events).Post? && Refuses(c, Run(c, Before(events))) then 1 else 0
  }

  function Accounted(r: DropOldest): nat {
    |r.finished| + (if r.head.Empty? then 0 else 1) + |r.waiting| + r.lost + r.refused
  }

  lemma OfferAccounts(c: Limits, w: Writer, r: DropOldest, m: Message)
    requires c.maxQueue >= 2 && Refines(w, r)
    ensures var r' := Offer(c, r, m);
            && Accounted(r') == Accounted(r) + 1
            && r'.lost == r.lost + (if IsFull(c, w) then 1 else 0)
            && r'.refused == r.refused + (if Refuses(c, w) then 1 else 0)
  {
  }

  lemma {:induction false} ReferenceAccounts(c: Limits, events: seq<Event>)
    requires c.maxQueue >= 2
    ensures var r := Reference(c, events);
            && |Posts(events)| == Accounted(r)
            && r.lost == OverflowPops(c, events) && r.refused == Refusals(c, events)
  {
    if events != [] {
      ReferenceAccounts(c, Before(events));
      if Last(events).Post? {
        QueueRefinesDropOldest(c, Before(events));
        OfferAccounts(c, Run(c, Before(events)), Reference(c, Before(events)), Last(events).m);
      }
    }
  }

  /** Exact loss accounting, in every run: every posted message is completed, in the queue, popped by an
      overflow or refused, and nothing is counted twice. */
  lemma LossAccounting(c: Limits, events: seq<Event>)
    requires c.maxQueue >= 2
    ensures var w := Run(c, events);
            |Posts(events)| == |w.sent| + |w.queue| + OverflowPops(c, events) + Refusals(c, events)
  {
    QueueRefinesDropOldest(c, events);
    ReferenceAccounts(c, events);
  }

  lemma HealthyStepCloses(c: Limits, w: Writer, e: Event)
    requires c.maxQueue >= 2 && w.state != Closed && e != Done(false) && e != SetState(Closed) && e != MarkClosed
    ensures Step(c, w, e).state != Closed
    ensures Step(c, w, e).closed <==> w.closed || (e.Post? && Refuses(c, w))
  {
  }

  /** `closed_` set from inside the writer means exactly that some post was refused; the state does
      not become Closed by it. */
  lemma {:induction false} ClosedByRefusal(c: Limits, events: seq<Event>)
    requires c.maxQueue >= 2 && Healthy(events) && MarkClosed !in events
    ensures Run(c, events).closed <==> Refusals(c, events) > 0
    ensures Run(c, events).state != Closed
  {
    if events != [] {
      ClosedByRefusal(c, Before(events));
      HealthyStepCloses(c, Run(c, Before(events)), Last(events));
    }
  }

  // --- Order of delivery, for every run ---------------------------------------------------

  ghost predicate Embeds(s: seq<Message>, t: seq<Message>, at: seq<nat>) {
    && |at| == |s|
    && (forall i, j :: 0 <= i < j < |at| ==> at[i] < at[j])
    && (forall i :: 0 <= i < |at| ==> at[i] < |t| && s[i] == t[at[i]])
  }

  /** In order and without duplicates: distinct, increasing positions of `t` hold the elements of `s`. */
  ghost predicate Subsequence(s: seq<Message>, t: seq<Message>) {
    exists at: seq<nat> :: Embeds(s, t, at)
  }

  lemma SubsequenceGrows(s: seq<Message>, t: seq<Message>, m: Message)
    requires Subsequence(s, t)
    ensures Subsequence(s, t + [m]) && Subsequence(s + [m], t + [m])
  {
    var at: seq<nat> :| Embeds(s, t, at);
    assert Embeds(s, t + [m], at);
    assert Embeds(s + [m], t + [m], at + [|t|]);
  }

  lemma SubsequenceDrops(a: seq<Message>, x: Message, b: seq<Message>, t: seq<Message>)
    requires Subsequence(a + [x] + b, t)
    ensures Subsequence(a + b, t)
  {
    var at: seq<nat> :| Embeds(a + [x] + b, t, at);
    var s := a + [x] + b;
    assert forall i :: 0 <= i < |b| ==> s[|a| + 1 + i] == b[i];
    assert Embeds(a + b, t, at[..|a|] + at[|a| + 1..]);
  }

  lemma SubsequencePrefix(a: seq<Message>, b: seq<Message>, t: seq<Message>)
    requires Subsequence(a + b, t)
    ensures Subsequence(a, t)
  {
    var at: seq<nat> :| Embeds(a + b, t, at);
    assert forall i :: 0 <= i < |a| ==> (a + b)[i] == a[i];
    assert Embeds(a, t, at[..|a|]);
  }

  // The messages that are or may still be put on the wire, in wire order.
  function Line(w: Writer): seq<Message> {
    w.sent + w.outstanding + if w.outstanding == [] then [] else Pop(w.queue)
  }

  lemma LineGrowsInOrder(c: Limits, w: Writer, m: Message, posted: seq<Message>)
    requires c.maxQueue >= 2 && SingleWrite(c, w) && Subsequence(Line(w), posted)
    ensures Subsequence(Line(PostWrite(c, w, m)), posted + [m])
  {
    var w' := PostWrite(c, w, m);
    SubsequenceGrows(Line(w), posted, m);
    if w.outstanding == [] {
      assert Line(w') == Line(w) || Line(w') == Line(w) + [m];
    } else if !IsFull(c, w) {
      assert Line(w') == Line(w) + [m];
    } else {
      var ahead, waiting := w.sent + w.outstanding, Pop(w.queue);
      assert waiting == [waiting[0]] + waiting[1..];
      if Refuses(c, w) {
        assert Line(w) == ahead + [waiting[0]] + waiting[1..];
        SubsequenceDrops(ahead, waiting[0], waiting[1..], posted + [m]);
        assert Line(w') == ahead + waiting[1..];
      } else {
        assert Line(w) + [m] == ahead + [waiting[0]] + (waiting[1..] + [m]);
        SubsequenceDrops(ahead, waiting[0], waiting[1..] + [m], posted + [m]);
        assert Line(w') == ahead + (waiting[1..] + [m]);
      }
    }
  }

  lemma LineSettles(c: Limits, w: Writer, ok: bool, posted: seq<Message>)
    requires c.maxQueue >= 2 && SingleWrite(c, w) && Subsequence(Line(w), posted) && w.outstanding != []
    ensures Subsequence(Line(WriteDone(w, ok)), posted)
  {
    var w' := WriteDone(w, ok);
    var tail := w.outstanding + Pop(w.queue);
    assert Line(w) == w.sent + tail;
    if ok {
      var kept := w.sent + w.outstanding;
      assert Line(w) == kept + Pop(w.queue);
      if w'.outstanding == [] {
        SubsequencePrefix(kept, Pop(w.queue), posted);
        assert Line(w') == kept;
      } else {
        assert Line(w') == kept + Pop(w.queue);
      }
    } else {
      SubsequencePrefix(w.sent, tail, posted);
      assert Line(w') == w.sent;
    }
  }

  /** In every run, also through failures and closes, the messages completed, then the one in flight,
      then the ones that can still be started, form an in-order subsequence of those posted. */
  lemma {:induction false} DeliveredInOrder(c: Limits, events: seq<Event>)
    requires c.maxQueue >= 2
    ensures Subsequence(Line(Run(c, events)), Posts(events))
  {
    if events == [] {
      assert Embeds(Line(FRESH), [], []);
    } else {
      var w, e := Run(c, Before(events)), Last(events);
      DeliveredInOrder(c, Before(events));
      AtMostOneWrite(c, Before(events));
      if e.Post? {
        LineGrowsInOrder(c, w, e.m, Posts(Before(events)));
      } else {
        assert Posts(events) == Posts(Before(events));
        if e.Done? && w.outstanding != [] {
          LineSettles(c, w, e.ok, Posts(Before(events)));
        } else {
          assert Line(Step(c, w, e)) == Line(w);
        }
      }
    }
  }

  lemma LineStep(c: Limits, w: Writer, e: Event)
    requires c.maxQueue >= 2 && SingleWrite(c, w) && Flowing(w)
    requires e != Done(false) && e != SetState(Closed) && (e.Post? ==> !IsFull(c, w))
    ensures Line(Step(c, w, e)) == Line(w) + if e.Post? then [e.m] else []
  {
  }

  /** If no post ever found the queue full, nothing is lost at all. */
  lemma {:induction false} LosslessWhenNeverFull(c: Limits, events: seq<Event>)
    requires c.maxQueue >= 2 && Healthy(events) && OverflowPops(c, events) == 0
    ensures Line(Run(c, events)) == Posts(events)
  {
    if events != [] {
      LosslessWhenNeverFull(c, Before(events));
      HealthyQueueIsSending(c, Before(events));
      AtMostOneWrite(c, Before(events));
      LineStep(c, Run(c, Before(events)), Last(events));
    }
  }

  // --- A stopped writer never restarts ----------------------------------------------------

  predicate Halted(w: Writer) {
    w.queue != [] && w.outstanding == []
  }

  lemma {:induction false} HaltedForever(c: Limits, events: seq<Event>, more: seq<Event>)
    requires c.maxQueue >= 2 && Halted(Run(c, events))
    ensures Halted(Run(c, events + more)) && Run(c, events + more).sent == Run(c, events).sent
    decreases |more|
  {
    if more == [] {
      assert events + more == events;
    } else {
      assert Before(events + more) == events + Before(more);
      HaltedForever(c, events, Before(more));
    }
  }

  /** After the first failed write no message is ever sent again, whatever is posted and even if a
      later login puts the state back to Ready. */
  lemma FailedWriteIsFinal(c: Limits, events: seq<Event>, more: seq<Event>)
    requires c.maxQueue >= 2 && Run(c, events).outstanding != []
    ensures var failed := events + [Done(false)];
            && Run(c, failed).closed && (Run(c, events).closed || Run(c, failed).state == Closed)
            && Run(c, failed + more).sent == Run(c, events).sent && Run(c, failed + more).outstanding == []
  {
    var failed := events + [Done(false)];
    assert Before(failed) == events;
    AtMostOneWrite(c, events);
    HaltedForever(c, failed, more);
  }

  /** Sending has come to an end exactly if there is a front element that is not in flight. */
  lemma SendingEndsExactly(c: Limits, events: seq<Event>)
    requires c.maxQueue >= 2
    ensures (forall more :: Run(c, events + more).outstanding == []) <==> Halted(Run(c, events))
  {
    if Halted(Run(c, events)) {
      forall more ensures Run(c, events + more).outstanding == [] {
        HaltedForever(c, events, more);
      }
    } else if Run(c, events).outstanding != [] {
      assert events + [] == events;
    } else {
      var ready := events + [SetState(Ready)];
      var posted := events + [SetState(Ready), Post([])];
      assert Before(posted) == ready && Before(ready) == events;
      assert Run(c, posted).outstanding != [];
    }
  }

  lemma ClosedStep(c: Limits, w: Writer, e: Event)
    requires w.state == Closed
    ensures var w' := Step(c, w, e);
            || (w'.outstanding == w.outstanding && w'.sent == w.sent)
            || (w.outstanding != [] && w'.outstanding == w.outstanding[1..]
                && (w'.sent == w.sent || w'.sent == w.sent + [w.outstanding[0]]))
  {
  }

  ghost predicate ClosedThroughout(c: Limits, events: seq<Event>, more: seq<Event>) {
    forall k :: 0 <= k <= |more| ==> Run(c, events + more[..k]).state == Closed
  }

  /** While the state stays Closed nothing is handed to the socket: what is in flight at the end was in
      flight at the start, and what has been completed meanwhile as well. */
  lemma {:induction false} ClosedStartsNothing(c: Limits, events: seq<Event>, more: seq<Event>)
    requires ClosedThroughout(c, events, more)
    ensures var w, w' := Run(c, events), Run(c, events + more);
            var settled := |w.outstanding| - |w'.outstanding|;
            && settled >= 0 && w'.outstanding == w.outstanding[settled..]
            && |w'.sent| <= |w.sent| + settled && w.sent <= w'.sent
    decreases |more|
  {
    if more == [] {
      assert events + more == events;
    } else {
      var before := Before(more);
      assert forall k :: 0 <= k <= |before| ==> more[..k] == before[..k];
      assert Before(events + more) == events + before;
      assert more[..|before|] == before && more[..|more|] == more;
      ClosedStartsNothing(c, events, before);
      ClosedStep(c, Run(c, events + before), Last(more));
      assert Run(c, events + more) == Step(c, Run(c, events + before), Last(more));
      hide Step, Run;
    }
  }

  // --- The overflow close is a consecutive-stall detector ---------------------------------

  /** `events[i..j]` holds the last `k` posts; each found the queue full, and no write completed
      among them. */
  ghost predicate StallWindow(c: Limits, events: seq<Event>, i: nat, j: nat, k: nat) {
    && i <= j <= |events|
    && |Posts(events[i..j])| == k
    && (forall x :: j <= x < |events| ==> !events[x].Post?)
    && (forall x :: i <= x < j && events[x].Post? ==> IsFull(c, Run(c, events[..x])))
    && (forall x :: i <= x < j ==> !Completes(c, events, x))
  }

  predicate Completes(c: Limits, events: seq<Event>, x: nat)
    requires x < |events|
  {
    events[x] == Done(true) && Run(c, events[..x]).outstanding != []
  }

  lemma SamePrefix(c: Limits, events: seq<Event>)
    requires events != []
    ensures forall x :: 0 <= x < |events| ==> Before(events)[..x] == events[..x]
    ensures forall x :: 0 <= x < |events| - 1 ==> (Completes(c, events, x) <==> Completes(c, Before(events), x))
  {
    assert forall x :: 0 <= x < |events| ==> Before(events)[..x] == events[..x];
  }

  lemma WindowInPrefix(c: Limits, events: seq<Event>, i: nat, j: nat, k: nat)
    requires events != [] && i <= j < |events| && !Last(events).Post?
    ensures StallWindow(c, events, i, j, k) <==> StallWindow(c, Before(events), i, j, k)
  {
    SamePrefix(c, events);
    assert Before(events)[i..j] == events[i..j];
    assert forall x :: j <= x < |events| - 1 ==> Before(events)[x] == events[x];
  }

  lemma {:induction false} NoPostsAfter(events: seq<Event>, i: nat, j: nat)
    requires i <= j <= |events| && forall x :: j <= x < |events| ==> !events[x].Post?
    ensures Posts(events[i..]) == Posts(events[i..j])
    decreases |events| - j
  {
    if j < |events| {
      assert Before(events[i..j + 1]) == events[i..j];
      NoPostsAfter(events, i, j + 1);
    } else {
      assert events[i..] == events[i..j];
    }
  }

  // A completion after the window has made room, so the next post would not find the queue full.
  ghost predicate Tight(c: Limits, events: seq<Event>, j: nat) {
    (exists x :: j <= x < |events| && Completes(c, events, x)) ==> !IsFull(c, Run(c, events))
  }

  lemma OtherStepKeepsRoom(c: Limits, w: Writer, e: Event)
    requires c.maxQueue >= 2 && SingleWrite(c, w) && !e.Post?
    ensures var w' := Step(c, w, e);
            && w'.overflows == w.overflows
            && (!IsFull(c, w) || (e == Done(true) && w.outstanding != []) ==> !IsFull(c, w'))
  {
  }

  lemma WindowSurvives(c: Limits, events: seq<Event>, i: nat, j: nat, k: nat)
    requires c.maxQueue >= 2 && events != [] && !Last(events).Post?
    requires StallWindow(c, Before(events), i, j, k) && Tight(c, Before(events), j)
    ensures StallWindow(c, events, i, j, k) && Tight(c, events, j)
  {
    var n := |events| - 1;
    WindowInPrefix(c, events, i, j, k);
    AtMostOneWrite(c, Before(events));
    OtherStepKeepsRoom(c, Run(c, Before(events)), Last(events));
    SamePrefix(c, events);
    forall x | j <= x < |events| && Completes(c, events, x) ensures !IsFull(c, Run(c, events)) {
      if x < n {
        assert Completes(c, Before(events), x);
      }
    }
  }

  lemma WindowGrows(c: Limits, events: seq<Event>, i: nat, j: nat, k: nat)
    requires c.maxQueue >= 2 && events != [] && Last(events).Post? && IsFull(c, Run(c, Before(events)))
    requires StallWindow(c, Before(events), i, j, k) && Tight(c, Before(events), j)
    ensures StallWindow(c, events, i, |events|, k + 1)
  {
    var n := |events| - 1;
    SamePrefix(c, events);
    assert |Posts(events[i..n + 1])| == k + 1 by {
      NoPostsAfter(Before(events), i, j);
      assert Before(events[i..n + 1]) == Before(events)[i..];
    }
    forall x | i <= x < n + 1 ensures !Completes(c, events, x) {
      if x < n {
        assert !Completes(c, Before(events), x);
      }
    }
    forall x | i <= x < n + 1 && events[x].Post? ensures IsFull(c, Run(c, events[..x])) {
      if x < n {
        assert Before(events)[x].Post? && x < j;
      }
    }
  }

  lemma {:induction false} CounterHasWindow(c: Limits, events: seq<Event>) returns (i: nat, j: nat)
    requires c.maxQueue >= 2
    ensures StallWindow(c, events, i, j, Run(c, events).overflows) && Tight(c, events, j)
  {
    var n := |events|;
    if events == [] || (Last(events).Post? && !IsFull(c, Run(c, Before(events)))) {
      i, j := n, n;
    } else {
      var k := Run(c, Before(events)).overflows;
      i, j := CounterHasWindow(c, Before(events));
      if Last(events).Post? {
        WindowGrows(c, events, i, j, k);
        j := n;
      } else {
        WindowSurvives(c, events, i, j, k);
        AtMostOneWrite(c, Before(events));
        OtherStepKeepsRoom(c, Run(c, Before(events)), Last(events));
      }
    }
  }

  lemma WindowOfPrefix(c: Limits, events: seq<Event>, i: nat, k: nat)
    requires i < |events| && StallWindow(c, events, i, |events|, k)
    ensures StallWindow(c, Before(events), i, |events| - 1, if Last(events).Post? then k - 1 else k)
  {
    var n := |events| - 1;
    SamePrefix(c, events);
    assert Before(events[i..n + 1]) == Before(events)[i..n];
    forall x | i <= x < n && Before(events)[x].Post? ensures IsFull(c, Run(c, Before(events)[..x])) {
      assert events[x].Post?;
    }
  }

  lemma StepCounts(c: Limits, w: Writer, e: Event)
    requires c.maxQueue >= 2 && (e.Post? ==> IsFull(c, w))
    ensures Step(c, w, e).overflows == w.overflows + if e.Post? then 1 else 0
  {
  }

  lemma {:induction false} WindowBoundsCounter(c: Limits, events: seq<Event>, i: nat, j: nat, k: nat)
    requires c.maxQueue >= 2 && StallWindow(c, events, i, j, k)
    ensures Run(c, events).overflows >= k
  {
    var n := |events|;
    if i == j {
      assert events[i..j] == [];
    } else if j == n {
      WindowOfPrefix(c, events, i, k);
      WindowBoundsCounter(c, Before(events), i, n - 1, if Last(events).Post? then k - 1 else k);
      assert Before(events) == events[..n - 1];
      StepCounts(c, Run(c, Before(events)), Last(events));
    } else {
      WindowInPrefix(c, events, i, j, k);
      WindowBoundsCounter(c, Before(events), i, j, k);
      StepCounts(c, Run(c, Before(events)), Last(events));
    }
  }

  /** The counter stands at `k` or more exactly when the last `k` posts all found the queue full with
      no completed write among them. */
  lemma CounterIsStallDetector(c: Limits, events: seq<Event>, k: nat)
    requires c.maxQueue >= 2
    ensures Run(c, events).overflows >= k <==> exists i, j :: StallWindow(c, events, i, j, k)
  {
    if Run(c, events).overflows >= k {
      var i, j := CounterHasWindow(c, events);
      assert StallWindow(c, events, i, j, Run(c, events).overflows);
      i, j := ShrinkWindow(c, events, i, j, Run(c, events).overflows, k);
      assert StallWindow(c, events, i, j, k);
    } else {
      forall i, j | StallWindow(c, events, i, j, k) ensures false {
        WindowBoundsCounter(c, events, i, j, k);
      }
    }
  }

  lemma {:induction false} ShrinkWindow(c: Limits, events: seq<Event>, i: nat, j: nat, k: nat, goal: nat)
    returns (i': nat, j': nat)
    requires StallWindow(c, events, i, j, k) && goal <= k
    ensures StallWindow(c, events, i', j', goal)
    decreases j - i
  {
    if k == goal {
      i', j' := i, j;
    } else {
      PostsFrom(events[i..j]);
      assert events[i..j][1..] == events[i + 1..j];
      i', j' := ShrinkWindow(c, events, i + 1, j, |Posts(events[i + 1..j])|, goal);
    }
  }

  lemma {:induction false} PostsFrom(events: seq<Event>)
    requires events != []
    ensures |Posts(events)| == |Posts(events[1..])| + if events[0].Post? then 1 else 0
  {
    if |events| > 1 {
      PostsFrom(Before(events));
      assert Before(events)[1..] == Before(events[1..]);
    }
  }

  /** A post makes the writer give up exactly when it is the last of `overflowLimit` posts in a row
      that all found the queue full, with no write completing among them. */
  lemma RefusalExactly(c: Limits, events: seq<Event>, m: Message)
    requires c.maxQueue >= 2 && c.overflowLimit >= 1
    ensures Refuses(c, Run(c, events)) <==> exists i, j :: StallWindow(c, events + [Post(m)], i, j, c.overflowLimit)
  {
    var next := events + [Post(m)];
    assert Before(next) == events;
    AtMostOneWrite(c, events);
    CounterIsStallDetector(c, next, c.overflowLimit);
  }
}
