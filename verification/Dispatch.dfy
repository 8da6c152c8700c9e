/** What one received packet does to its session, and the gate in front of the handlers. */
module Dispatch {
  import opened Utils
  import opened Framing
  import opened Outbound

  // A JSON member as `value(key, "")` sees it: missing, a string, or something it throws on.
  datatype Field = Absent | Text(s: string) | Other

  // The parser's verdict on a text. On `NonObject` every `value` call throws.
  datatype Json = NotJson | NonObject | Object(type_: Field, nickname: Field, table: Field)

  datatype Config = Config(limits: Limits, secret: seq<Byte>, parse: seq<Byte> -> Json)

  function ValueOf(f: Field): Option<string> {
    match f
    case Absent => Some("")
    case Text(s) => Some(s)
    case Other => None
  }

  function TypeOf(msg: Json): Option<string> {
    if msg.Object? then ValueOf(msg.type_) else None
  }

  predicate HasSecret(cfg: Config, packet: seq<Byte>) {
    cfg.secret <= packet
  }

  datatype Route = Reject | Throw | Handle(type_: string, msg: Json)

  function RouteOf(cfg: Config, registered: bool, packet: seq<Byte>): Route {
    if !registered then
      if !HasSecret(cfg, packet) then Reject
      else
        var msg := cfg.parse(packet[|cfg.secret|..]);
        if msg == NotJson then Reject
        else if TypeOf(msg).None? then Throw
        else if TypeOf(msg) != Some("login") then Reject
        else Handle("login", msg)
    else
      var text := if HasSecret(cfg, packet) then packet[|cfg.secret|..] else packet;
      var msg := cfg.parse(text);
      if msg == NotJson then Reject
      else if TypeOf(msg).None? then Throw
      else if TypeOf(msg) == Some("keepalive") && !HasSecret(cfg, packet) then Reject
      else Handle(TypeOf(msg).value, msg)
  }

  const NICKNAME_REQUIRED := "{\"type\":\"login_ack\",\"result\":\"error\",\"msg\":\"Nickname is required.\"}\n"
  const NICKNAME_IN_USE := "{\"type\":\"login_ack\",\"result\":\"error\",\"msg\":\"Nickname already in use.\"}\n"
  const LOGIN_OK := "{\"type\":\"login_ack\",\"result\":\"ok\"}\n"
  const INSERT_OK := "{\"type\":\"insert_ack\",\"result\":\"ok\"}\n"
  const UNKNOWN_TYPE := "{\"type\":\"error\",\"msg\":\"Unknown message type.\"}\n"
  const PARSING_FAILED := "{\"type\":\"error\",\"msg\":\"Message parsing failed\"}\n"

  function Ascii(text: string): (bytes: Message)
    ensures |bytes| == |text|
    ensures forall i :: 0 <= i < |text| && text[i] < 256 as char ==> bytes[i] == text[i] as int
  {
    seq(|text|, i requires 0 <= i < |text| => text[i] as int % 256)
  }

  /** The part of a session that packets and writes act on. */
  datatype Profile = Profile(writer: Writer, registered: bool, nickname: string)

  const NEWCOMER := Profile(FRESH, false, "")

  function Answer(cfg: Config, p: Profile, text: string): Profile {
    p.(writer := PostWrite(cfg.limits, p.writer, Ascii(text)))
  }

  // The login handler; `inUse` is what the nickname index answered to this packet.
  function Login(cfg: Config, p: Profile, nickname: string, inUse: bool): Profile {
    if nickname == "" then Answer(cfg, p, NICKNAME_REQUIRED)
    else if inUse then Answer(cfg, p, NICKNAME_IN_USE)
    else Answer(cfg, Profile(p.writer.(state := Ready), true, nickname), LOGIN_OK)
  }

  // One turn of the drain loop: an exception that escapes a handler is answered, not fatal.
  function Serve(cfg: Config, p: Profile, packet: seq<Byte>, inUse: bool): Profile {
    match RouteOf(cfg, p.registered, packet)
    case Reject => p.(writer := CloseSession(p.writer))
    case Throw => Answer(cfg, p, PARSING_FAILED)
    case Handle(type_, msg) =>
      if type_ == "login" && msg.Object? then
        match ValueOf(msg.nickname)
        case None => Answer(cfg, p, PARSING_FAILED)
        case Some(nickname) => Login(cfg, p, nickname, inUse)
      else if type_ == "insert" && msg.Object? then
        Answer(cfg, p, if ValueOf(msg.table).None? then PARSING_FAILED else INSERT_OK)
      else
        Answer(cfg, p, UNKNOWN_TYPE)
  }

  /** A session's life: received packets, with anything else that can happen to its writer between. */
  datatype Input = Received(bytes: seq<Byte>, inUse: bool) | Elsewhere(e: Event)

  function Live(cfg: Config, inputs: seq<Input>): Profile {
    if inputs == [] then NEWCOMER
    else
      var p := Live(cfg, Before(inputs));
      match Last(inputs)
      case Received(bytes, inUse) => Serve(cfg, p, bytes, inUse)
      case Elsewhere(e) => p.(writer := Step(cfg.limits, p.writer, e))
  }

  // --- What the theorems say of a packet: its bytes, the parser's verdict and raw members -

  predicate Signed(cfg: Config, packet: seq<Byte>) {
    |packet| >= |cfg.secret| && packet[..|cfg.secret|] == cfg.secret
  }

  function Body(cfg: Config, packet: seq<Byte>): Json {
    if Signed(cfg, packet) then cfg.parse(packet[|cfg.secret|..]) else cfg.parse(packet)
  }

  predicate HasType(msg: Json, type_: string) {
    msg.Object? && msg.type_ == Text(type_)
  }

  predicate ThrowsOnType(msg: Json) {
    msg.NonObject? || (msg.Object? && msg.type_ == Other)
  }

  // A packet whose login succeeds. The secret is asked of it only until the session has logged in.
  predicate LoginSucceeds(cfg: Config, loggedIn: bool, packet: seq<Byte>, inUse: bool) {
    var msg := Body(cfg, packet);
    && !inUse && (loggedIn || Signed(cfg, packet))
    && HasType(msg, "login") && msg.nickname.Text? && msg.nickname.s != ""
  }

  // A property of the packet and the index's answer alone, whatever the session has seen before.
  predicate LogsIn(cfg: Config, input: Input) {
    input.Received? && LoginSucceeds(cfg, false, input.bytes, input.inUse)
  }

  predicate RunsInsert(cfg: Config, p: Profile, packet: seq<Byte>) {
    var route := RouteOf(cfg, p.registered, packet);
    route.Handle? && route.type_ == "insert"
  }

  ghost predicate HasLoggedIn(cfg: Config, inputs: seq<Input>) {
    exists i :: 0 <= i < |inputs| && LogsIn(cfg, inputs[i])
  }

  lemma ServeRegisters(cfg: Config, p: Profile, packet: seq<Byte>, inUse: bool)
    ensures !p.registered ==> (Serve(cfg, p, packet, inUse).registered <==> LogsIn(cfg, Received(packet, inUse)))
    ensures p.registered ==> Serve(cfg, p, packet, inUse).registered
  {
  }

  /** The login flag is set exactly by secret-prefixed login packets with a free, non-empty nickname,
      and never reverts: not by closes, exceptions, error replies or failed writes. */
  lemma {:induction false} RegisteredExactly(cfg: Config, inputs: seq<Input>)
    ensures Live(cfg, inputs).registered <==> HasLoggedIn(cfg, inputs)
  {
    if inputs != [] {
      var before := Before(inputs);
      RegisteredExactly(cfg, before);
      assert forall i :: 0 <= i < |before| ==> inputs[i] == before[i];
      assert HasLoggedIn(cfg, inputs) <==> HasLoggedIn(cfg, before) || LogsIn(cfg, Last(inputs));
      if Last(inputs).Received? {
        ServeRegisters(cfg, Live(cfg, before), Last(inputs).bytes, Last(inputs).inUse);
      }
    }
  }

  /** The insert handler runs exactly when an earlier packet of the session logged in and this one is
      a JSON object of type insert. */
  lemma InsertIsGated(cfg: Config, inputs: seq<Input>, packet: seq<Byte>)
    ensures RunsInsert(cfg, Live(cfg, inputs), packet)
       <==> HasLoggedIn(cfg, inputs) && HasType(Body(cfg, packet), "insert")
  {
    RegisteredExactly(cfg, inputs);
  }

  lemma AnswerKeepsState(cfg: Config)
    ensures forall p: Profile, text: string ::
              var after := Answer(cfg, p, text);
              && after.writer.state == p.writer.state && after.registered == p.registered && after.nickname == p.nickname
              && (after.writer.closed <==> p.writer.closed || Refuses(cfg.limits, p.writer))
  {
  }

  // The nickname of the last login that succeeded.
  ghost function LastNickname(cfg: Config, inputs: seq<Input>): string {
    if inputs == [] then ""
    else
      match Last(inputs)
      case Received(bytes, inUse) =>
        if LoginSucceeds(cfg, HasLoggedIn(cfg, Before(inputs)), bytes, inUse) then Body(cfg, bytes).nickname.s
        else LastNickname(cfg, Before(inputs))
      case Elsewhere(_) => LastNickname(cfg, Before(inputs))
  }

  /** A session carries the nickname of its last successful login; it is registered exactly if it has one. */
  lemma {:induction false} NicknameIsLastLogin(cfg: Config, inputs: seq<Input>)
    ensures Live(cfg, inputs).nickname == LastNickname(cfg, inputs)
    ensures Live(cfg, inputs).registered <==> Live(cfg, inputs).nickname != ""
  {
    if inputs != [] {
      NicknameIsLastLogin(cfg, Before(inputs));
      RegisteredExactly(cfg, Before(inputs));
      if Last(inputs).Received? {
        AnswerKeepsState(cfg);
        hide Outbound.PostWrite, Ascii, Outbound.Refuses;
      }
    }
  }

  // What costs a session its connection, given only whether it has ever logged in.
  predicate Offends(cfg: Config, loggedIn: bool, packet: seq<Byte>) {
    var msg := Body(cfg, packet);
    || msg == NotJson
    || (!loggedIn && (!Signed(cfg, packet) || (!ThrowsOnType(msg) && !HasType(msg, "login"))))
    || (HasType(msg, "keepalive") && !Signed(cfg, packet))
  }

  /** The one answer to a packet that does not offend. */
  function AnswerTo(cfg: Config, packet: seq<Byte>, inUse: bool): string {
    var msg := Body(cfg, packet);
    if HasType(msg, "login") then
      match msg.nickname
      case Other => PARSING_FAILED
      case Absent => NICKNAME_REQUIRED
      case Text(n) => if n == "" then NICKNAME_REQUIRED else if inUse then NICKNAME_IN_USE else LOGIN_OK
    else if HasType(msg, "insert") then
      if msg.table == Other then PARSING_FAILED else INSERT_OK
    else if ThrowsOnType(msg) then PARSING_FAILED
    else UNKNOWN_TYPE
  }

  /** A packet closes an open session exactly if it offends (and is then not answered at all), or if its
      one answer is refused by a stalled queue. An exception on the way costs nothing but a reply. */
  lemma PacketClosesExactly(cfg: Config, inputs: seq<Input>, packet: seq<Byte>, inUse: bool)
    requires !Live(cfg, inputs).writer.closed
    ensures var w, w' := Live(cfg, inputs).writer, Live(cfg, inputs + [Received(packet, inUse)]).writer;
            if Offends(cfg, HasLoggedIn(cfg, inputs), packet)
            then w'.closed && w'.state == Closed && w'.queue == w.queue
            else w'.closed <==> Refuses(cfg.limits, w)
  {
    RegisteredExactly(cfg, inputs);
    assert Before(inputs + [Received(packet, inUse)]) == inputs;
    AnswerKeepsState(cfg);
    hide Outbound.PostWrite, Ascii, Answer;
  }

  lemma WriterStaysClosed(cfg: Config, p: Profile, input: Input)
    requires p.writer.closed
    ensures match input
            case Received(bytes, inUse) => Serve(cfg, p, bytes, inUse).writer.closed
            case Elsewhere(e) => Step(cfg.limits, p.writer, e).closed
  {
  }

  /** `closed_` is monotone over every life of a session ... */
  lemma {:induction false} ClosedIsForever(cfg: Config, inputs: seq<Input>, more: seq<Input>)
    requires Live(cfg, inputs).writer.closed
    ensures Live(cfg, inputs + more).writer.closed
    decreases |more|
  {
    if more == [] {
      assert inputs + more == inputs;
    } else {
      assert Before(inputs + more) == inputs + Before(more);
      ClosedIsForever(cfg, inputs, Before(more));
      WriterStaysClosed(cfg, Live(cfg, inputs + Before(more)), Last(more));
    }
  }

  /** What a packet does to the state: a login that succeeds, with the secret or, once logged in, without,
      makes it Ready, an offence makes an open session Closed, and nothing else changes it. */
  lemma PacketSetsState(cfg: Config, inputs: seq<Input>, packet: seq<Byte>, inUse: bool)
    ensures var before, after := Live(cfg, inputs), Live(cfg, inputs + [Received(packet, inUse)]);
            var loggedIn := HasLoggedIn(cfg, inputs);
            after.writer.state ==
            if LoginSucceeds(cfg, loggedIn, packet, inUse) then Ready
            else if Offends(cfg, loggedIn, packet) && !before.writer.closed then Closed
            else before.writer.state
  {
    assert Before(inputs + [Received(packet, inUse)]) == inputs;
    RegisteredExactly(cfg, inputs);
    AnswerKeepsState(cfg);
    hide Outbound.PostWrite, Ascii, Outbound.Refuses;
  }

  /** ... but the Closed state is not: a packet served after a close puts the session back to Ready exactly
      if it is a login that succeeds. `closed_` stays set. */
  lemma LoginReopensState(cfg: Config, inputs: seq<Input>, packet: seq<Byte>, inUse: bool)
    requires Live(cfg, inputs).writer.state == Closed
    ensures var before, after := Live(cfg, inputs), Live(cfg, inputs + [Received(packet, inUse)]);
            var reopened := LoginSucceeds(cfg, HasLoggedIn(cfg, inputs), packet, inUse);
            && after.writer.state == (if reopened then Ready else Closed)
            && after.registered == (before.registered || reopened)
            && (before.writer.closed ==> after.writer.closed)
  {
    PacketSetsState(cfg, inputs, packet, inUse);
    assert Before(inputs + [Received(packet, inUse)]) == inputs;
    RegisteredExactly(cfg, inputs);
    if Live(cfg, inputs).writer.closed {
      WriterStaysClosed(cfg, Live(cfg, inputs), Received(packet, inUse));
    }
    AnswerKeepsState(cfg);
    hide Outbound.PostWrite, Ascii, Outbound.Refuses;
  }

  // What takes a session out of the Closed state.
  predicate Reopens(cfg: Config, loggedIn: bool, input: Input) {
    match input
    case Received(bytes, inUse) => LoginSucceeds(cfg, loggedIn, bytes, inUse)
    case Elsewhere(e) => e.SetState? && e.s != Closed
  }

  lemma StepReopens(cfg: Config, inputs: seq<Input>, input: Input)
    requires Live(cfg, inputs).writer.state == Closed
    ensures Live(cfg, inputs + [input]).writer.state != Closed <==> Reopens(cfg, HasLoggedIn(cfg, inputs), input)
  {
    assert Before(inputs + [input]) == inputs;
    if input.Received? {
      LoginReopensState(cfg, inputs, input.bytes, input.inUse);
    }
  }

  /** A closed session stays Closed all along a further part of its life exactly if no packet in it is a
      login that succeeds and nobody sets another state from elsewhere. */
  lemma {:induction false} StaysClosedExactly(cfg: Config, inputs: seq<Input>, more: seq<Input>)
    requires Live(cfg, inputs).writer.state == Closed
    ensures (forall k :: 0 <= k <= |more| ==> Live(cfg, inputs + more[..k]).writer.state == Closed)
       <==> (forall input :: input in more ==> !Reopens(cfg, HasLoggedIn(cfg, inputs), input))
    decreases |more|
  {
    hide Live, Reopens, HasLoggedIn;
    if more == [] {
      assert inputs + more[..0] == inputs;
    } else {
      var before, input := Before(more), Last(more);
      StaysClosedExactly(cfg, inputs, before);
      assert forall k :: 0 <= k <= |before| ==> more[..k] == before[..k];
      assert forall i :: i in more <==> i in before || i == input;
      assert inputs + more[..|before|] + [input] == inputs + more[..|more|];
      if Live(cfg, inputs + before).writer.state == Closed {
        StepReopens(cfg, inputs + before, input);
        LoggedInLater(cfg, inputs, before);
      }
    }
  }

  // A first login is one that succeeds, so where nothing reopens nobody has logged in.
  lemma LoggedInLater(cfg: Config, inputs: seq<Input>, more: seq<Input>)
    ensures HasLoggedIn(cfg, inputs) ==> HasLoggedIn(cfg, inputs + more)
    ensures (forall input :: input in more ==> !Reopens(cfg, HasLoggedIn(cfg, inputs), input)) ==>
              HasLoggedIn(cfg, inputs + more) == HasLoggedIn(cfg, inputs)
  {
    var all := inputs + more;
    if i :| 0 <= i < |inputs| && LogsIn(cfg, inputs[i]) {
      assert LogsIn(cfg, all[i]);
    }
    if i :| 0 <= i < |all| && LogsIn(cfg, all[i]) {
      assert i < |inputs| || all[i] in more;
      assert i < |inputs| ==> LogsIn(cfg, inputs[i]);
    }
  }

  // --- A life of a session is a run of its writer -----------------------------------------

  function CloseEvents(w: Writer): seq<Event> {
    if w.closed then [] else [MarkClosed, SetState(Closed)]
  }

  function ServeEvents(cfg: Config, p: Profile, packet: seq<Byte>, inUse: bool): seq<Event> {
    if RouteOf(cfg, p.registered, packet) == Reject then CloseEvents(p.writer)
    else if RouteOf(cfg, p.registered, packet).Throw? then [Post(Ascii(PARSING_FAILED))]
    else
      var Handle(type_, msg) := RouteOf(cfg, p.registered, packet);
      if type_ == "login" && msg.Object? then
        if ValueOf(msg.nickname).None? then [Post(Ascii(PARSING_FAILED))]
        else if ValueOf(msg.nickname).value == "" then [Post(Ascii(NICKNAME_REQUIRED))]
        else if inUse then [Post(Ascii(NICKNAME_IN_USE))]
        else [SetState(Ready), Post(Ascii(LOGIN_OK))]
      else if type_ == "insert" && msg.Object? then
        [Post(Ascii(if ValueOf(msg.table).None? then PARSING_FAILED else INSERT_OK))]
      else
        [Post(Ascii(UNKNOWN_TYPE))]
  }

  function LifeEvents(cfg: Config, inputs: seq<Input>): seq<Event> {
    if inputs == [] then []
    else
      LifeEvents(cfg, Before(inputs)) +
      match Last(inputs)
      case Received(bytes, inUse) => ServeEvents(cfg, Live(cfg, Before(inputs)), bytes, inUse)
      case Elsewhere(e) => [e]
  }

  lemma RunTwo(c: Limits, events: seq<Event>, more: seq<Event>)
    ensures |more| == 0 ==> Run(c, events + more) == Run(c, events)
    ensures |more| == 1 ==> Run(c, events + more) == Step(c, Run(c, events), more[0])
    ensures |more| == 2 ==> Run(c, events + more) == Step(c, Step(c, Run(c, events), more[0]), more[1])
  {
    if |more| == 0 {
      assert events + more == events;
    } else if |more| == 1 {
      assert Before(events + more) == events;
    } else if |more| == 2 {
      assert Before(events + more) == events + [more[0]];
      assert Before(events + [more[0]]) == events;
    }
  }

  lemma ServeIsSteps(cfg: Config, p: Profile, packet: seq<Byte>, inUse: bool)
    ensures var es := ServeEvents(cfg, p, packet, inUse);
            && |es| <= 2
            && Serve(cfg, p, packet, inUse).writer ==
               if |es| == 0 then p.writer
               else if |es| == 1 then Step(cfg.limits, p.writer, es[0])
               else Step(cfg.limits, Step(cfg.limits, p.writer, es[0]), es[1])
  {
  }

  /** Everything proved about writer runs holds in every life of a session. */
  lemma {:induction false} LifeIsARun(cfg: Config, inputs: seq<Input>)
    ensures Live(cfg, inputs).writer == Run(cfg.limits, LifeEvents(cfg, inputs))
  {
    if inputs != [] {
      var before := Before(inputs);
      var p, events := Live(cfg, before), LifeEvents(cfg, before);
      LifeIsARun(cfg, before);
      match Last(inputs)
      case Received(bytes, inUse) =>
        ServeIsSteps(cfg, p, bytes, inUse);
        RunTwo(cfg.limits, events, ServeEvents(cfg, p, bytes, inUse));
      case Elsewhere(e) =>
        RunTwo(cfg.limits, events, [e]);
    }
  }
}
