/** A session's life told by its reads: chunks of bytes come in, and the packets they complete are served.

    `OnRead` is what the read callback does; every such life is one of `Dispatch.Live`. */
module Reading {
  import opened Utils
  import opened Framing
  import opened Outbound
  import opened Dispatch

  /** Packets of one read, served in order; `answers(i)` is what the nickname index said to packet i. */
  function ServeAll(cfg: Config, p: Profile, packets: seq<Message>, answers: nat -> bool): Profile {
    if packets == [] then p
    else Serve(cfg, ServeAll(cfg, p, Before(packets), answers), Last(packets), answers(|packets| - 1))
  }

  function Closing(p: Profile): Profile {
    p.(writer := Outbound.CloseSession(p.writer))
  }

  /** A session with what it has received: the packets cut so far and the bytes kept for the next read. */
  datatype Connection = Connection(profile: Profile, received: Parsed)

  const CONNECTED := Connection(NEWCOMER, START)

  /** One successful read. After an invalid length there is no other. */
  function OnRead(cfg: Config, c: Connection, bytes: seq<Byte>, answers: nat -> bool): Connection {
    if c.received.invalid then c
    else
      var read := Parse(c.received.rest + bytes);
      var served := ServeAll(cfg, c.profile, read.messages, answers);
      Connection(if read.invalid then Closing(served) else served, Receive(c.received, bytes))
  }

  /** What happens to a session: reads, however the network cuts the stream, and anything else between. */
  datatype Occurrence = Read(bytes: seq<Byte>, answers: nat -> bool) | Meanwhile(e: Event)

  ghost function Connected(cfg: Config, os: seq<Occurrence>): Connection {
    if os == [] then CONNECTED
    else
      var c := Connected(cfg, Before(os));
      match Last(os)
      case Read(bytes, answers) => OnRead(cfg, c, bytes, answers)
      case Meanwhile(e) => c.(profile := c.profile.(writer := Step(cfg.limits, c.profile.writer, e)))
  }

  ghost function BytesRead(os: seq<Occurrence>): seq<Byte> {
    if os == [] then [] else BytesRead(Before(os)) + if Last(os).Read? then Last(os).bytes else []
  }

  function Arrivals(packets: seq<Message>, answers: nat -> bool): seq<Input> {
    seq(|packets|, i requires 0 <= i < |packets| => Received(packets[i], answers(i)))
  }

  function Elsewheres(events: seq<Event>): seq<Input> {
    seq(|events|, i requires 0 <= i < |events| => Elsewhere(events[i]))
  }

  ghost function InputsOf(cfg: Config, os: seq<Occurrence>): seq<Input> {
    if os == [] then []
    else
      var c := Connected(cfg, Before(os));
      InputsOf(cfg, Before(os)) +
      match Last(os)
      case Read(bytes, answers) =>
        if c.received.invalid then []
        else
          var read := Parse(c.received.rest + bytes);
          var served := ServeAll(cfg, c.profile, read.messages, answers);
          Arrivals(read.messages, answers) + Elsewheres(if read.invalid then CloseEvents(served.writer) else [])
      case Meanwhile(e) => [Elsewhere(e)]
  }

  function Packets(inputs: seq<Input>): seq<Message> {
    if inputs == [] then []
    else Packets(Before(inputs)) + if Last(inputs).Received? then [Last(inputs).bytes] else []
  }

  lemma {:induction false} ServeAllIsLife(cfg: Config, inputs: seq<Input>, packets: seq<Message>, answers: nat -> bool)
    ensures var longer := inputs + Arrivals(packets, answers);
            && Live(cfg, longer) == ServeAll(cfg, Live(cfg, inputs), packets, answers)
            && Packets(longer) == Packets(inputs) + packets
    decreases |packets|
  {
    var longer := inputs + Arrivals(packets, answers);
    if packets == [] {
      assert longer == inputs;
    } else {
      ServeAllIsLife(cfg, inputs, Before(packets), answers);
      assert Before(longer) == inputs + Arrivals(Before(packets), answers);
      assert packets == Before(packets) + [Last(packets)];
    }
  }

  lemma ClosingIsLife(cfg: Config, inputs: seq<Input>)
    ensures var p := Live(cfg, inputs);
            var longer := inputs + Elsewheres(CloseEvents(p.writer));
            Live(cfg, longer) == Closing(p) && Packets(longer) == Packets(inputs)
  {
    var p := Live(cfg, inputs);
    if p.writer.closed {
      assert inputs + Elsewheres([]) == inputs;
    } else {
      var marked := inputs + [Elsewhere(MarkClosed)];
      var longer := inputs + Elsewheres(CloseEvents(p.writer));
      assert Before(longer) == marked && Before(marked) == inputs;
    }
  }

  /** However its bytes arrive and whatever happens between two reads: a session has served exactly the
      packets of a one-shot parse of all bytes read, in order, as one life. */
  lemma {:induction false} ReadsAreALife(cfg: Config, os: seq<Occurrence>)
    ensures var c := Connected(cfg, os);
            && c.received == Parse(BytesRead(os))
            && c.profile == Live(cfg, InputsOf(cfg, os))
            && Packets(InputsOf(cfg, os)) == c.received.messages
  {
    if os == [] {
    } else {
      var before := Before(os);
      ReadsAreALife(cfg, before);
      var c, inputs := Connected(cfg, before), InputsOf(cfg, before);
      match Last(os)
      case Meanwhile(e) =>
        assert Before(inputs + [Elsewhere(e)]) == inputs;
        assert BytesRead(os) == BytesRead(before);
      case Read(bytes, answers) =>
        ParseAppend(BytesRead(before), bytes);
        if c.received.invalid {
          assert InputsOf(cfg, os) == inputs;
        } else {
          ReadIsLife(cfg, inputs, c, bytes, answers);
        }
    }
  }

  lemma ReadIsLife(cfg: Config, inputs: seq<Input>, c: Connection, bytes: seq<Byte>, answers: nat -> bool)
    requires !c.received.invalid && c.profile == Live(cfg, inputs)
    ensures var read := Parse(c.received.rest + bytes);
            var served := ServeAll(cfg, c.profile, read.messages, answers);
            var closing := Elsewheres(if read.invalid then CloseEvents(served.writer) else []);
            var more := Arrivals(read.messages, answers) + closing;
            && OnRead(cfg, c, bytes, answers).profile == Live(cfg, inputs + more)
            && Packets(inputs + more) == Packets(inputs) + read.messages
  {
    var read := Parse(c.received.rest + bytes);
    var arrived := inputs + Arrivals(read.messages, answers);
    ServeAllIsLife(cfg, inputs, read.messages, answers);
    if read.invalid {
      ClosingIsLife(cfg, arrived);
      var closing := Elsewheres(CloseEvents(Live(cfg, arrived).writer));
      assert arrived + closing == inputs + (Arrivals(read.messages, answers) + closing);
    } else {
      assert arrived == inputs + (Arrivals(read.messages, answers) + Elsewheres([]));
    }
  }
}
