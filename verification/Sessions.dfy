/** The session object: its fields change in place in the callbacks of its strand.

    Each method is tied to the step functions of `Outbound`, `Dispatch` and `ReadToken`. The socket
    is the record of what was handed to it: `socketWrites` and `socketReads` are the asynchronous
    operations it has not completed, `wire` the bytes of the completed writes. */
module Sessions {
  import opened Utils
  import opened Framing
  import opened Outbound
  import opened Dispatch
  import opened MessageBuffer
  import opened Reading
  import RT = ReadToken

  datatype Task = StartRead

  class Session {
    const id: int
    const limits: Limits
    const maxTasks: nat
    const messageBuffer: MessageBufferManager

    var writeQueue: seq<Message>
    var writeInProgress: bool
    var overflowCount: nat
    var closed: bool
    var state: SessionState
    var nickname: string
    var nicknameRegistered: bool
    var lastAlive: int

    var readPending: bool
    var taskQueue: seq<Task>
    var taskRunning: bool

    var socketWrites: seq<seq<Byte>>
    var wire: seq<Byte>
    ghost var outstanding: seq<Message>
    ghost var sent: seq<Message>

    var strandJobs: nat
    var socketReads: nat
    ghost var inCallback: bool
    ghost var wedged: bool
    ghost var overflowed: bool

    ghost predicate Valid()
      reads `socketWrites, `outstanding, `wire, `sent
    {
      && |socketWrites| == |outstanding|
      && (forall i :: 0 <= i < |outstanding| ==> socketWrites[i] == Frame(outstanding[i]))
      && wire == Encode(sent)
    }

    ghost function Outgoing(): Writer
      reads `writeQueue, `writeInProgress, `overflowCount, `closed, `state, `outstanding, `sent
    {
      Writer(writeQueue, writeInProgress, overflowCount, closed, state, outstanding, sent)
    }

    ghost function Profile(): Profile
      reads `writeQueue, `writeInProgress, `overflowCount, `closed, `state, `outstanding, `sent
      reads `nicknameRegistered, `nickname
    {
      Dispatch.Profile(Outgoing(), nicknameRegistered, nickname)
    }

    ghost function Reading(): RT.Reader
      reads `readPending, `strandJobs, `taskQueue, `taskRunning, `socketReads, `inCallback, `wedged, `overflowed
    {
      RT.Reader(readPending, 0, strandJobs, |taskQueue|, taskRunning, socketReads, inCallback, wedged, overflowed)
    }

    constructor (id: int, limits: Limits, maxTasks: nat, now: int)
      ensures Valid() && this.id == id && this.limits == limits && this.maxTasks == maxTasks
      ensures fresh(messageBuffer) && messageBuffer.buffer == []
      ensures Profile() == NEWCOMER && Reading() == RT.IDLE && lastAlive == now
    {
      this.id, this.limits, this.maxTasks, lastAlive := id, limits, maxTasks, now;
      messageBuffer := new MessageBufferManager();
      writeQueue, writeInProgress, overflowCount := [], false, 0;
      closed, state, nickname, nicknameRegistered := false, Handshaking, "", false;
      readPending, taskQueue, taskRunning := false, [], false;
      socketWrites, wire, outstanding, sent := [], [], [], [];
      strandJobs, socketReads, inCallback, wedged, overflowed := 0, 0, false, false, false;
    }

    // --- Writing ----------------------------------------------------------------------------

    method EnqueueWrite(m: Message)
      modifies this`writeQueue, this`overflowCount, this`closed
      ensures Outgoing() == Outbound.EnqueueWrite(limits, old(Outgoing()), m)
    {
      if |writeQueue| >= limits.maxQueue {
        writeQueue := writeQueue[1..];
        overflowCount := overflowCount + 1;
        if overflowCount >= limits.overflowLimit {
          closed := true;
          return;
        }
      } else {
        overflowCount := 0;
      }
      writeQueue := writeQueue + [m];
    }

    method DoWriteQueue()
      requires Valid()
      modifies this`writeInProgress, this`socketWrites, this`outstanding
      ensures Valid() && Outgoing() == Outbound.DoWriteQueue(old(Outgoing()))
    {
      if state == Closed {
        return;
      }
      if writeQueue == [] {
        writeInProgress := false;
        return;
      }
      var message := writeQueue[0];
      var header := EncodeLength(|message|);
      socketWrites := socketWrites + [header + message];
      outstanding := outstanding + [message];
    }

    method PostWrite(m: Message)
      requires Valid()
      modifies this`writeQueue, this`overflowCount, this`closed
      modifies this`writeInProgress, this`socketWrites, this`outstanding
      ensures Valid() && Outgoing() == Outbound.PostWrite(limits, old(Outgoing()), m)
    {
      var idle := writeQueue == [];
      EnqueueWrite(m);
      if idle {
        writeInProgress := true;
        DoWriteQueue();
      }
    }

    /** The completion callback of the oldest write. A second pop of an element that an overflow has
        already popped is harmless: see `Outbound.QueueRefinesDropOldest`. */
    method OnWriteDone(ok: bool)
      requires Valid() && outstanding != []
      requires ok ==> writeQueue != []
      modifies this`writeQueue, this`closed, this`state, this`wire, this`sent
      modifies this`writeInProgress, this`socketWrites, this`outstanding
      ensures Valid() && Outgoing() == WriteDone(old(Outgoing()), ok)
    {
      var frame := socketWrites[0];
      socketWrites := socketWrites[1..];
      ghost var message := outstanding[0];
      outstanding := outstanding[1..];
      if !ok {
        var _ := CloseSession();
        return;
      }
      wire := wire + frame;
      EncodeOneMore(sent, message);
      sent := sent + [message];
      writeQueue := writeQueue[1..];
      DoWriteQueue();
    }

    /** Returns whether this call won the exchange on `closed_`, so that its caller is the one to
        remove the session from the registry. */
    method CloseSession() returns (won: bool)
      modifies this`closed, this`state
      ensures won == !old(closed)
      ensures Outgoing() == Outbound.CloseSession(old(Outgoing())) && Profile() == Closing(old(Profile()))
    {
      won := !closed;
      if won {
        closed := true;
        state := Closed;
      }
    }

    method OnNicknameRegistered()
      modifies this`nicknameRegistered, this`state
      ensures nicknameRegistered && state == Ready
    {
      nicknameRegistered := true;
      state := Ready;
    }

    // --- Reading ----------------------------------------------------------------------------

    method TryAcquireRead() returns (acquired: bool)
      modifies this`readPending
      ensures acquired == !old(readPending) && readPending
    {
      acquired := !readPending;
      readPending := true;
    }

    /** On the strand, as at the end of a read callback, the job runs at once; otherwise it waits. */
    method DoRead(onStrand: bool)
      modifies this`readPending, this`strandJobs, this`taskQueue, this`taskRunning, this`socketReads
      modifies this`closed, this`state, this`overflowed
      ensures Reading() ==
              var r, c := old(Reading()), old(state == Closed);
              if !RT.Acquires(r, c) then r
              else if onStrand then RT.Enqueue(maxTasks, r.(pending := true))
              else r.(pending := true, jobs := r.jobs + 1)
      ensures Outgoing() ==
              if RT.Acquires(old(Reading()), old(state == Closed)) && onStrand && old(|taskQueue|) >= maxTasks
              then Outbound.CloseSession(old(Outgoing())) else old(Outgoing())
    {
      if state == Closed {
        return;
      }
      var acquired := TryAcquireRead();
      if !acquired {
        return;
      }
      if onStrand {
        PostTask(StartRead);
      } else {
        strandJobs := strandJobs + 1;
      }
    }

    method RunStrandJob()
      requires strandJobs > 0 && !inCallback
      modifies this`strandJobs, this`taskQueue, this`taskRunning, this`socketReads
      modifies this`closed, this`state, this`overflowed
      ensures Reading() == RT.Step(maxTasks, old(Reading()), RT.RunJob)
    {
      strandJobs := strandJobs - 1;
      PostTask(StartRead);
    }

    method PostTask(task: Task)
      modifies this`taskQueue, this`taskRunning, this`socketReads, this`closed, this`state, this`overflowed
      ensures Reading() == RT.Enqueue(maxTasks, old(Reading()))
      ensures Outgoing() == if old(|taskQueue|) >= maxTasks then Outbound.CloseSession(old(Outgoing()))
                            else old(Outgoing())
      ensures overflowed == (old(overflowed) || old(|taskQueue|) >= maxTasks)
    {
      if |taskQueue| >= maxTasks {
        var _ := CloseSession();
        overflowed := true;
        return;
      }
      taskQueue := taskQueue + [task];
      if !taskRunning {
        taskRunning := true;
        RunNextTask();
      }
    }

    method ReleaseRead()
      requires socketReads > 0
      modifies `readPending, `socketReads, `inCallback
      ensures Reading() == RT.ReleaseRead(old(Reading()))
    {
      socketReads := socketReads - 1;
      readPending := false;
      inCallback := true;
    }

    // The three ways a read callback ends: on to the next read, ...
    method ResumeReading()
      requires inCallback && |taskQueue| < maxTasks
      modifies `readPending, `strandJobs, `taskQueue, `taskRunning, `socketReads, `inCallback, `overflowed, `closed, `state
      ensures Reading() == RT.EndCallback(maxTasks, old(Reading()), RT.Continue, state == Closed)
      ensures closed == old(closed) && state == old(state)
    {
      inCallback := false;
      DoRead(true);
      RunNextTask();
    }

    // ... through the early return on an invalid length, which runs no further task, ...
    method AbandonReading()
      requires inCallback
      modifies `inCallback, `wedged, `closed, `state
      ensures Reading() == RT.EndCallback(maxTasks, old(Reading()), RT.Invalid, state == Closed)
      ensures Profile() == Closing(old(Profile()))
    {
      var _ := CloseSession();
      inCallback, wedged := false, true;
    }

    method FinishData(invalid: bool)
      requires inCallback && |taskQueue| < maxTasks
      modifies `readPending, `strandJobs, `taskQueue, `taskRunning, `socketReads
      modifies `inCallback, `wedged, `overflowed, `closed, `state
      ensures Profile() == if invalid then Closing(old(Profile())) else old(Profile())
      ensures Reading() == RT.EndCallback(maxTasks, old(Reading()), if invalid then RT.Invalid else RT.Continue,
                                          state == Closed)
    {
      hide RT.EndCallback, Closing;
      if invalid {
        AbandonReading();
      } else {
        ResumeReading();
      }
    }

    // ... or with no further read.
    method StopReading()
      requires inCallback
      modifies `inCallback, `taskQueue, `taskRunning, `socketReads
      ensures Reading() == RT.EndCallback(maxTasks, old(Reading()), RT.Stop, state == Closed)
    {
      inCallback := false;
      RunNextTask();
    }

    method RunNextTask()
      modifies this`taskQueue, this`taskRunning, this`socketReads
      ensures Reading() == RT.RunNextTask(old(Reading()))
    {
      if taskQueue == [] {
        taskRunning := false;
        return;
      }
      taskQueue := taskQueue[1..];
      socketReads := socketReads + 1;
    }

    // --- The read callback ------------------------------------------------------------------

    // One turn of the drain loop, with its own try and catch.
    method ServePacket(d: MessageDispatcher, packet: seq<Byte>, inUse: bool)
      requires Valid()
      modifies `writeQueue, `overflowCount, `closed, `state, `nickname, `nicknameRegistered
      modifies `writeInProgress, `socketWrites, `outstanding
      ensures Valid()
      ensures Profile() == Serve(d.Settings(this), old(Profile()), packet, inUse)
    {
      var threw := d.Dispatch(this, packet, inUse);
      if threw {
        PostWrite(Ascii(PARSING_FAILED));
      }
    }

    /** Each turn takes at least five bytes out of the buffer, and together the turns serve exactly the
        packets of a one-shot parse, in order. */
    method DrainPackets(d: MessageDispatcher, answers: nat -> bool)
      requires Valid()
      modifies `writeQueue, `overflowCount, `closed, `state, `nickname, `nicknameRegistered
      modifies `writeInProgress, `socketWrites, `outstanding, messageBuffer
      ensures Valid()
      ensures var read := Parse(old(messageBuffer.buffer));
              && messageBuffer.buffer == read.rest && messageBuffer.lastClearByInvalidLength == read.invalid
              && Profile() == ServeAll(d.Settings(this), old(Profile()), read.messages, answers)
    {
      hide Encode, Frame, Serve, Parse;
      var buffer := messageBuffer;
      ghost var packets: seq<Message> := [];
      ghost var whole, start, cfg := buffer.buffer, Profile(), d.Settings(this);
      assert packets + Parse(whole).messages == Parse(whole).messages;
      TakeOne(whole, packets, whole);
      var next := buffer.ExtractMessage();
      var i := 0;
      while next.Some?
        invariant Valid() && i == |packets|
        invariant Profile() == ServeAll(cfg, start, packets, answers)
        invariant next.Some? ==> Taken(whole, packets + [next.value], buffer.buffer)
        invariant next.None? ==> Parse(whole) == Parsed(packets, buffer.buffer, buffer.lastClearByInvalidLength)
        decreases next.Some?, |buffer.buffer|
      {
        ServePacket(d, next.value, answers(i));
        assert Before(packets + [next.value]) == packets;
        packets := packets + [next.value];
        i := i + 1;
        TakeOne(whole, packets, buffer.buffer);
        next := buffer.ExtractMessage();
      }
    }

    /** The callback of a successful read, run without other threads in between: the bytes are cut as a
        one-shot parse would cut them and every packet is served. On an invalid length the session is
        closed and the read token parked for ever; otherwise the token starts the next read.
        `ReadToken.TokenIsConserved` shows that the task queue is empty whenever a callback starts. */
    method OnData(d: MessageDispatcher, bytes: seq<Byte>, answers: nat -> bool)
      requires Valid() && socketReads > 0 && |taskQueue| < maxTasks
      modifies `writeQueue, `overflowCount, `closed, `state, `nickname, `nicknameRegistered
      modifies `writeInProgress, `socketWrites, `outstanding, messageBuffer
      modifies `readPending, `socketReads, `inCallback, `taskQueue, `taskRunning, `strandJobs, `wedged, `overflowed
      ensures Valid()
      ensures var before := Connection(old(Profile()), Parsed([], old(messageBuffer.buffer), false));
              var after := OnRead(d.Settings(this), before, bytes, answers);
              var ending := if after.received.invalid then RT.Invalid else RT.Continue;
              && messageBuffer.buffer == after.received.rest && Profile() == after.profile
              && Reading() == RT.EndCallback(maxTasks, RT.ReleaseRead(old(Reading())), ending,
                                             state == Closed)
    {
      hide Encode, Frame, ServeAll, Parse, Closing, RT.EndCallback;
      ReleaseRead();
      messageBuffer.Append(bytes);
      DrainPackets(d, answers);
      FinishData(messageBuffer.lastClearByInvalidLength);
    }

    /** The callback of a failed read; an aborted one closes nothing. */
    method OnReadFailed(aborted: bool)
      requires socketReads > 0
      modifies `readPending, `socketReads, `inCallback, `taskQueue, `taskRunning, `closed, `state
      ensures Profile() == if aborted then old(Profile()) else Closing(old(Profile()))
      ensures Reading() == RT.EndCallback(maxTasks, RT.ReleaseRead(old(Reading())), RT.Stop, state == Closed)
    {
      hide RT.EndCallback;
      ReleaseRead();
      if !aborted {
        var _ := CloseSession();
      }
      StopReading();
    }
  }

  /** The dispatcher with its two handlers, and the read callback that feeds it. */
  class MessageDispatcher {
    const secret: seq<Byte>
    const parse: seq<Byte> -> Json

    constructor (secret: seq<Byte>, parse: seq<Byte> -> Json)
      ensures this.secret == secret && this.parse == parse
    {
      this.secret, this.parse := secret, parse;
    }

    ghost function Settings(s: Session): Config {
      Config(s.limits, secret, parse)
    }

    /** `threw` stands for an exception leaving `dispatch`. */
    method Dispatch(s: Session, packet: seq<Byte>, inUse: bool) returns (threw: bool)
      requires s.Valid()
      modifies s`writeQueue, s`overflowCount, s`closed, s`state, s`nickname, s`nicknameRegistered
      modifies s`writeInProgress, s`socketWrites, s`outstanding
      ensures s.Valid()
      ensures threw ==> s.Profile() == old(s.Profile())
      ensures Serve(Settings(s), old(s.Profile()), packet, inUse) ==
              if threw then Answer(Settings(s), s.Profile(), PARSING_FAILED) else s.Profile()
    {
      hide Encode, Frame, Outbound.PostWrite, Outbound.CloseSession;
      var hasSecret := secret <= packet;
      var msg := NotJson;
      if !s.nicknameRegistered {
        if !hasSecret {
          var _ := s.CloseSession();
          return false;
        }
        msg := parse(packet[|secret|..]);
        if msg == NotJson {
          var _ := s.CloseSession();
          return false;
        }
        if TypeOf(msg).None? {
          return true;
        }
        if TypeOf(msg).value != "login" {
          var _ := s.CloseSession();
          return false;
        }
      } else {
        msg := parse(if hasSecret then packet[|secret|..] else packet);
        if msg == NotJson {
          var _ := s.CloseSession();
          return false;
        }
        if TypeOf(msg).None? {
          return true;
        }
        if TypeOf(msg).value == "keepalive" && !hasSecret {
          var _ := s.CloseSession();
          return false;
        }
      }
      var type_ := TypeOf(msg).value;
      if type_ == "login" {
        threw := LoginHandler(s, msg, inUse);
      } else if type_ == "insert" {
        threw := InsertHandler(s, msg);
      } else {
        s.PostWrite(Ascii(UNKNOWN_TYPE));
        threw := false;
      }
    }

    // The entry into the nickname index that follows a success is the subject of `Ownership`.
    method LoginHandler(s: Session, msg: Json, inUse: bool) returns (threw: bool)
      requires s.Valid() && msg.Object?
      modifies s`writeQueue, s`overflowCount, s`closed, s`state, s`nickname, s`nicknameRegistered
      modifies s`writeInProgress, s`socketWrites, s`outstanding
      ensures s.Valid()
      ensures match ValueOf(msg.nickname)
              case None => threw && s.Profile() == old(s.Profile())
              case Some(nickname) => !threw && s.Profile() == Login(Settings(s), old(s.Profile()), nickname, inUse)
    {
      if ValueOf(msg.nickname).None? {
        return true;
      }
      var nickname := ValueOf(msg.nickname).value;
      if nickname == "" {
        s.PostWrite(Ascii(NICKNAME_REQUIRED));
        return false;
      }
      if inUse {
        s.PostWrite(Ascii(NICKNAME_IN_USE));
        return false;
      }
      s.nickname := nickname;
      s.OnNicknameRegistered();
      s.PostWrite(Ascii(LOGIN_OK));
      return false;
    }

    method InsertHandler(s: Session, msg: Json) returns (threw: bool)
      requires s.Valid() && msg.Object?
      modifies s`writeQueue, s`overflowCount, s`closed
      modifies s`writeInProgress, s`socketWrites, s`outstanding
      ensures s.Valid() && threw == ValueOf(msg.table).None?
      ensures s.Profile() == if threw then old(s.Profile()) else Answer(Settings(s), old(s.Profile()), INSERT_OK)
    {
      if ValueOf(msg.table).None? {
        return true;
      }
      s.PostWrite(Ascii(INSERT_OK));
      return false;
    }
  }
}
