/** End to end: what a peer decodes from the bytes a session put on the wire. */
module Delivery {
  import opened Framing
  import opened Outbound
  import opened Utils
  import D = Dispatch
  import R = Reading

  lemma {:induction false} PrefixDecodes(messages: seq<Message>, received: seq<Byte>)
    requires AllDeliverable(messages) && received <= Encode(messages)
    ensures Parse(received).messages <= messages && !Parse(received).invalid
  {
    hide EncodeLength, DecodeLength;
    if messages == [] {
      assert Parse([]) == START;
    } else {
      var m, first, others := messages[0], Frame(messages[0]), Encode(messages[1..]);
      if |received| < |first| {
        assert received == first[..|received|];
        PartialFrame(m, |received|);
      } else {
        var more := received[|first|..];
        assert received == first + more;
        assert more <= others;
        PrefixDecodes(messages[1..], more);
        ParseFrame(m);
        ParseComplete(first, [m], more);
        assert messages == [m] + messages[1..];
      }
    }
  }

  lemma {:induction false} DeliverablePosts(c: Limits, events: seq<Event>)
    requires c.maxQueue >= 2 && AllDeliverable(Posts(events))
    ensures AllDeliverable(Line(Run(c, events)))
  {
    var line, posted := Line(Run(c, events)), Posts(events);
    DeliveredInOrder(c, events);
    var at: seq<nat> :| Embeds(line, posted, at);
    forall m | m in line ensures Deliverable(m) {
      var i :| 0 <= i < |line| && line[i] == m;
      assert posted[at[i]] in posted;
    }
  }

  lemma SentInOrder(c: Limits, events: seq<Event>)
    requires c.maxQueue >= 2
    ensures Subsequence(Run(c, events).sent, Posts(events))
  {
    var w := Run(c, events);
    DeliveredInOrder(c, events);
    var rest := w.outstanding + if w.outstanding == [] then [] else Pop(w.queue);
    assert Line(w) == w.sent + rest;
    SubsequencePrefix(w.sent, rest, Posts(events));
  }

  lemma DecodesAll(messages: seq<Message>, chunks: seq<seq<Byte>>)
    requires AllDeliverable(messages) && Flatten(chunks) == Encode(messages)
    ensures Feed(START, chunks) == Parsed(messages, [], false)
  {
    ParseEncode(messages);
    ChunkIndependence(chunks);
  }

  /** In every run, also through failures, overflows and closes, and however the network cuts the
      stream: the peer decodes exactly the completed messages once it has their bytes, and these are
      an in-order, duplicate-free subsequence of what was posted. */
  lemma CompletedMessagesArrive(c: Limits, events: seq<Event>, chunks: seq<seq<Byte>>)
    requires c.maxQueue >= 2 && AllDeliverable(Posts(events))
    requires Flatten(chunks) == Encode(Run(c, events).sent)
    ensures Feed(START, chunks) == Parsed(Run(c, events).sent, [], false)
    ensures Subsequence(Run(c, events).sent, Posts(events))
  {
    DeliverablePosts(c, events);
    assert forall m :: m in Run(c, events).sent ==> m in Line(Run(c, events));
    DecodesAll(Run(c, events).sent, chunks);
    SentInOrder(c, events);
  }

  /** At any moment, with any part of the handed-over bytes received, the peer has decoded an initial
      segment of what was handed over and has seen no invalid length. */
  lemma NothingElseArrives(c: Limits, events: seq<Event>, chunks: seq<seq<Byte>>)
    requires c.maxQueue >= 2 && AllDeliverable(Posts(events))
    requires var w := Run(c, events); Flatten(chunks) <= Encode(w.sent + w.outstanding)
    ensures var w := Run(c, events); Feed(START, chunks).messages <= w.sent + w.outstanding
    ensures !Feed(START, chunks).invalid
  {
    var w := Run(c, events);
    DeliverablePosts(c, events);
    assert forall m :: m in w.sent + w.outstanding ==> m in Line(w);
    PrefixDecodes(w.sent + w.outstanding, Flatten(chunks));
    ChunkIndependence(chunks);
  }

  /** Drained without ever filling up: the peer decodes all posted messages, in order. */
  lemma EverythingArrives(c: Limits, events: seq<Event>, chunks: seq<seq<Byte>>)
    requires c.maxQueue >= 2 && AllDeliverable(Posts(events))
    requires Healthy(events) && OverflowPops(c, events) == 0 && Run(c, events).outstanding == []
    requires Flatten(chunks) == Encode(Run(c, events).sent)
    ensures Feed(START, chunks) == Parsed(Posts(events), [], false)
  {
    LosslessWhenNeverFull(c, events);
    CompletedMessagesArrive(c, events, chunks);
    assert Line(Run(c, events)) == Run(c, events).sent;
  }

  // --- From received packets to delivered replies -----------------------------------------

  lemma {:induction false} RepliesAreDeliverable(cfg: D.Config, inputs: seq<D.Input>)
    requires forall input :: input in inputs && input.Elsewhere? && input.e.Post? ==> Deliverable(input.e.m)
    ensures AllDeliverable(Posts(D.LifeEvents(cfg, inputs)))
  {
    if inputs != [] {
      var before := Before(inputs);
      RepliesAreDeliverable(cfg, before);
      var p, events := D.Live(cfg, before), D.LifeEvents(cfg, before);
      match Last(inputs)
      case Received(bytes, inUse) =>
        ServedPosts(cfg, p, bytes, inUse);
        PostsAppend(events, D.ServeEvents(cfg, p, bytes, inUse));
      case Elsewhere(e) =>
        assert Last(inputs) in inputs;
        PostsAppend(events, [e]);
        assert Before([e]) == [];
    }
  }

  lemma ServedPosts(cfg: D.Config, p: D.Profile, packet: seq<Byte>, inUse: bool)
    ensures AllDeliverable(Posts(D.ServeEvents(cfg, p, packet, inUse)))
  {
    var es := D.ServeEvents(cfg, p, packet, inUse);
    assert forall i :: 0 <= i < |es| && es[i].Post? ==> Deliverable(es[i].m);
    OnlyDeliverablePosts(es);
  }

  lemma {:induction false} OnlyDeliverablePosts(events: seq<Event>)
    requires forall i :: 0 <= i < |events| && events[i].Post? ==> Deliverable(events[i].m)
    ensures AllDeliverable(Posts(events))
  {
    if events != [] {
      OnlyDeliverablePosts(Before(events));
    }
  }

  lemma {:induction false} PostsAppend(events: seq<Event>, more: seq<Event>)
    ensures Posts(events + more) == Posts(events) + Posts(more)
    decreases |more|
  {
    if more == [] {
      assert events + more == events;
    } else {
      assert Before(events + more) == events + Before(more);
      PostsAppend(events, Before(more));
    }
  }

  function Replies(cfg: D.Config, loggedIn: bool, packet: seq<Byte>, inUse: bool): seq<Message> {
    if D.Offends(cfg, loggedIn, packet) then [] else [D.Ascii(D.AnswerTo(cfg, packet, inUse))]
  }

  /** Every packet that does not offend is answered exactly once, and with the answer that belongs to it; an
      offending one never is. */
  lemma AnsweredExactlyOnce(cfg: D.Config, inputs: seq<D.Input>, packet: seq<Byte>, inUse: bool)
    ensures Posts(D.LifeEvents(cfg, inputs + [D.Received(packet, inUse)])) ==
            Posts(D.LifeEvents(cfg, inputs)) + Replies(cfg, D.HasLoggedIn(cfg, inputs), packet, inUse)
  {
    var p, longer := D.Live(cfg, inputs), inputs + [D.Received(packet, inUse)];
    assert Before(longer) == inputs;
    D.RegisteredExactly(cfg, inputs);
    PostsAppend(D.LifeEvents(cfg, inputs), D.ServeEvents(cfg, p, packet, inUse));
    PostsServed(cfg, p, packet, inUse);
  }

  lemma PostsServed(cfg: D.Config, p: D.Profile, packet: seq<Byte>, inUse: bool)
    ensures Posts(D.ServeEvents(cfg, p, packet, inUse)) == Replies(cfg, p.registered, packet, inUse)
  {
    ShortPosts(D.ServeEvents(cfg, p, packet, inUse));
    hide Posts, D.Ascii;
  }

  function PostOf(e: Event): seq<Message> {
    if e.Post? then [e.m] else []
  }

  lemma ShortPosts(events: seq<Event>)
    ensures |events| == 0 ==> Posts(events) == []
    ensures |events| == 1 ==> Posts(events) == PostOf(events[0])
    ensures |events| == 2 ==> Posts(events) == PostOf(events[0]) + PostOf(events[1])
  {
    assert Posts([]) == [];
    if |events| == 2 {
      assert Before(events) == [events[0]] && Before([events[0]]) == [];
    } else if |events| == 1 {
      assert Before(events) == [];
    }
  }

  // What a session says in its life: the answers to its packets, and what others posted to it.
  ghost function Answers(cfg: D.Config, inputs: seq<D.Input>): seq<Message> {
    if inputs == [] then []
    else
      Answers(cfg, Before(inputs)) +
      match Last(inputs)
      case Received(bytes, inUse) => Replies(cfg, D.HasLoggedIn(cfg, Before(inputs)), bytes, inUse)
      case Elsewhere(e) => PostOf(e)
  }

  lemma {:induction false} PostsAreAnswers(cfg: D.Config, inputs: seq<D.Input>)
    ensures Posts(D.LifeEvents(cfg, inputs)) == Answers(cfg, inputs)
  {
    if inputs != [] {
      var before := Before(inputs);
      PostsAreAnswers(cfg, before);
      assert inputs == before + [Last(inputs)];
      match Last(inputs)
      case Received(bytes, inUse) =>
        AnsweredExactlyOnce(cfg, before, bytes, inUse);
      case Elsewhere(e) =>
        PostsAppend(D.LifeEvents(cfg, before), [e]);
        ShortPosts([e]);
    }
  }

  /** Whatever packets, closes, failures and takeovers make up the life of a session, its peer decodes
      exactly the completed replies, in the order they were made. */
  lemma CompletedRepliesArrive(cfg: D.Config, inputs: seq<D.Input>, chunks: seq<seq<Byte>>)
    requires cfg.limits.maxQueue >= 2
    requires forall input :: input in inputs && input.Elsewhere? && input.e.Post? ==> Deliverable(input.e.m)
    requires Flatten(chunks) == Encode(D.Live(cfg, inputs).writer.sent)
    ensures Feed(START, chunks) == Parsed(D.Live(cfg, inputs).writer.sent, [], false)
    ensures Subsequence(D.Live(cfg, inputs).writer.sent, Answers(cfg, inputs))
    ensures |D.Live(cfg, inputs).writer.outstanding| <= 1
  {
    D.LifeIsARun(cfg, inputs);
    RepliesAreDeliverable(cfg, inputs);
    CompletedMessagesArrive(cfg.limits, D.LifeEvents(cfg, inputs), chunks);
    AtMostOneWrite(cfg.limits, D.LifeEvents(cfg, inputs));
    PostsAreAnswers(cfg, inputs);
  }

  ghost predicate DeliverableMeanwhile(os: seq<R.Occurrence>) {
    forall i :: 0 <= i < |os| && os[i].Meanwhile? && os[i].e.Post? ==> Deliverable(os[i].e.m)
  }

  lemma {:induction false} InputsAreDeliverable(cfg: D.Config, os: seq<R.Occurrence>)
    requires DeliverableMeanwhile(os)
    ensures forall input :: input in R.InputsOf(cfg, os) && input.Elsewhere? && input.e.Post? ==> Deliverable(input.e.m)
  {
    if os != [] {
      InputsAreDeliverable(cfg, Before(os));
      assert forall events, input :: input in R.Elsewheres(events) ==> input.Elsewhere? && input.e in events;
    }
  }

  /** Bytes in, bytes out. However the received stream is cut into reads, and whatever else happens between
      them: the session has served exactly the packets of a one-shot parse of all bytes read, and its peer,
      however its own stream is cut, decodes exactly the completed ones among the answers to these packets
      and the other posts, in order; all of them once the session has drained without ever filling its
      queue. */
  lemma RepliesArriveInOrder(cfg: D.Config, os: seq<R.Occurrence>, chunks: seq<seq<Byte>>)
    requires cfg.limits.maxQueue >= 2 && DeliverableMeanwhile(os)
    requires Flatten(chunks) == Encode(R.Connected(cfg, os).profile.writer.sent)
    ensures var c, inputs := R.Connected(cfg, os), R.InputsOf(cfg, os);
            var w, events := c.profile.writer, D.LifeEvents(cfg, inputs);
            && R.Packets(inputs) == Parse(R.BytesRead(os)).messages && c.profile == D.Live(cfg, inputs)
            && Feed(START, chunks) == Parsed(w.sent, [], false)
            && Subsequence(w.sent, Answers(cfg, inputs))
            && (Healthy(events) && OverflowPops(cfg.limits, events) == 0 && w.outstanding == [] ==>
                  w.sent == Answers(cfg, inputs))
  {
    var inputs := R.InputsOf(cfg, os);
    R.ReadsAreALife(cfg, os);
    InputsAreDeliverable(cfg, os);
    CompletedRepliesArrive(cfg, inputs, chunks);
    var events := D.LifeEvents(cfg, inputs);
    D.LifeIsARun(cfg, inputs);
    if Healthy(events) && OverflowPops(cfg.limits, events) == 0 && Run(cfg.limits, events).outstanding == [] {
      RepliesAreDeliverable(cfg, inputs);
      EverythingArrives(cfg.limits, events, chunks);
      PostsAreAnswers(cfg, inputs);
    }
  }
}
