/** The wire format: a 4-byte big-endian length followed by that many payload bytes.

    `Parse` is the one-shot meaning of a byte stream. The incremental extractor of the server and
    the header built by its writer are both proved against it. */
module Framing {

  type Byte = b: int | 0 <= b < 256

  type Message = seq<Byte>

  const MAX_PACKET_SIZE := 4096
  const HEADER_SIZE := 4

  function DecodeLength(header: seq<Byte>): nat
    requires |header| >= HEADER_SIZE
  {
    0x100_0000 * header[0] as int + 0x1_0000 * header[1] as int + 0x100 * header[2] as int + header[3]
  }

  lemma SplitLength(len: int)
    requires 0 <= len < 0x1_0000_0000
    ensures len == 0x100_0000 * (len / 0x100_0000) + 0x1_0000 * (len / 0x1_0000 % 256) + 0x100 * (len / 0x100 % 256)
                   + len % 256
  {
    assert len / 0x1_0000 == 0x100 * (len / 0x100_0000) + len / 0x1_0000 % 256;
    assert len / 0x100 == 0x100 * (len / 0x1_0000) + len / 0x100 % 256;
    assert len == 0x100 * (len / 0x100) + len % 256;
  }

  // The length as htonl of a uint32_t lays it out, most significant byte first; the cast keeps it
  // modulo 2^32.
  function EncodeLength(n: nat): (header: seq<Byte>)
    ensures |header| == HEADER_SIZE
    ensures DecodeLength(header) == n % 0x1_0000_0000
    ensures n < 256 ==> header == [0, 0, 0, n]
  {
    var len := n % 0x1_0000_0000;
    SplitLength(len);
    [len / 0x100_0000, len / 0x1_0000 % 256, len / 0x100 % 256, len % 256]
  }

  // A number written in base 256, its most significant digit first.
  function BigEndian(digits: seq<Byte>): nat {
    if digits == [] then 0 else 256 * BigEndian(digits[..|digits| - 1]) + digits[|digits| - 1] as int
  }

  /** The length is the header in network byte order. */
  lemma LengthIsBigEndian(header: seq<Byte>)
    requires |header| >= 4
    ensures DecodeLength(header) == BigEndian(header[..4])
  {
    var h := header[..4];
    assert h[..3][..2] == h[..2] && h[..2][..1] == h[..1] && h[..1][..0] == [];
    assert BigEndian(h[..1]) == h[0] as int;
    assert BigEndian(h[..2]) == 256 * BigEndian(h[..1]) + h[1] as int;
    assert BigEndian(h[..3]) == 256 * BigEndian(h[..2]) + h[2] as int;
  }

  /** Headers compare as their first differing byte does. */
  lemma NetworkOrder(g: seq<Byte>, h: seq<Byte>, i: nat)
    requires |g| == |h| == 4 && i < 4
    requires g[..i] == h[..i] && g[i] < h[i]
    ensures DecodeLength(g) < DecodeLength(h)
  {
    assert forall k :: 0 <= k < i ==> g[..i][k] == g[k] && h[..i][k] == h[k];
  }

  function Frame(m: Message): (bytes: seq<Byte>)
    ensures |bytes| == HEADER_SIZE + |m|
  {
    EncodeLength(|m|) + m
  }

  function Encode(messages: seq<Message>): seq<Byte> {
    if messages == [] then [] else Frame(messages[0]) + Encode(messages[1..])
  }

  predicate Deliverable(m: Message) {
    1 <= |m| <= MAX_PACKET_SIZE
  }

  predicate AllDeliverable(messages: seq<Message>) {
    forall m | m in messages :: Deliverable(m)
  }

  /** What one look at the front of the buffer finds. */
  datatype Peeled = Incomplete | BadLength | Packet(message: Message, rest: seq<Byte>)

  function Peel(buffer: seq<Byte>): (p: Peeled)
    ensures p.Packet? ==> Deliverable(p.message) && |buffer| == HEADER_SIZE + |p.message| + |p.rest|
  {
    if |buffer| < HEADER_SIZE then Incomplete
    else
      var len := DecodeLength(buffer);
      if len == 0 || len > MAX_PACKET_SIZE then BadLength
      else if |buffer| < HEADER_SIZE + len then Incomplete
      else Packet(buffer[HEADER_SIZE..HEADER_SIZE + len], buffer[HEADER_SIZE + len..])
  }

  datatype Parsed = Parsed(messages: seq<Message>, rest: seq<Byte>, invalid: bool)

  const START := Parsed([], [], false)

  /** Everything a byte stream says, up to and including its first invalid header. */
  function Parse(buffer: seq<Byte>): Parsed
    decreases |buffer|
  {
    match Peel(buffer)
    case Incomplete => Parsed([], buffer, false)
    case BadLength => Parsed([], [], true)
    case Packet(m, rest) =>
      var p := Parse(rest);
      p.(messages := [m] + p.messages)
  }

  // --- What the parser accepts ------------------------------------------------------------

  predicate StartsInvalid(bytes: seq<Byte>) {
    |bytes| >= 4 && (DecodeLength(bytes) == 0 || DecodeLength(bytes) > 4096)
  }

  // Less than a header, or a valid header and less than its payload.
  predicate Unfinished(bytes: seq<Byte>) {
    |bytes| < 4 || (1 <= DecodeLength(bytes) <= 4096 && |bytes| < 4 + DecodeLength(bytes))
  }

  /** The verdict is exact: the emitted packets re-encode to the consumed bytes, and what follows
      them is either the unfinished residue or starts with an invalid header. */
  lemma {:induction false} ParseIsExact(buffer: seq<Byte>)
    ensures var p := Parse(buffer);
            var n := |Encode(p.messages)|;
            && AllDeliverable(p.messages)
            && n <= |buffer| && Encode(p.messages) == buffer[..n]
            && (if p.invalid then p.rest == [] && StartsInvalid(buffer[n..])
                else p.rest == buffer[n..] && Unfinished(p.rest))
    decreases |buffer|
  {
    hide DecodeLength, EncodeLength;
    match Peel(buffer)
    case Incomplete =>
      assert buffer[0..] == buffer;
    case BadLength =>
      assert buffer[0..] == buffer;
    case Packet(m, rest) =>
      ParseIsExact(rest);
      FrameOfPacket(buffer);
      var more := Parse(rest).messages;
      var n := |Encode(more)|;
      assert ([m] + more)[1..] == more;
      assert Encode([m] + more) == Frame(m) + Encode(more);
      assert buffer[HEADER_SIZE + |m| + n..] == rest[n..];
  }

  lemma FrameOfPacket(buffer: seq<Byte>)
    requires Peel(buffer).Packet?
    ensures buffer == Frame(Peel(buffer).message) + Peel(buffer).rest
  {
    var m := Peel(buffer).message;
    var h := buffer[..HEADER_SIZE];
    assert DecodeLength(h) == |m|;
    HeaderIsUnique(h);
    assert buffer == h + m + Peel(buffer).rest;
  }

  /** Only one header carries a length. */
  lemma HeaderIsUnique(h: seq<Byte>)
    requires |h| == HEADER_SIZE
    ensures EncodeLength(DecodeLength(h)) == h
  {
    BytesOfLength(h[0], h[1], h[2], h[3]);
  }

  lemma BytesOfLength(a: int, b: int, c: int, d: int)
    requires 0 <= a < 256 && 0 <= b < 256 && 0 <= c < 256 && 0 <= d < 256
    ensures var len := 0x100_0000 * a + 0x1_0000 * b + 0x100 * c + d;
            && len < 0x1_0000_0000
            && len / 0x100_0000 == a && len / 0x1_0000 % 256 == b && len / 0x100 % 256 == c && len % 256 == d
  {
    var len := 0x100_0000 * a + 0x1_0000 * b + 0x100 * c + d;
    assert len / 0x1_0000 == 0x100 * a + b;
    assert len / 0x100 == 0x1_0000 * a + 0x100 * b + c;
  }

  function Size(messages: seq<Message>): nat {
    if messages == [] then 0 else HEADER_SIZE + |messages[0]| + Size(messages[1..])
  }

  lemma {:induction false} EncodeSize(messages: seq<Message>)
    ensures |Encode(messages)| == Size(messages)
  {
    if messages != [] {
      EncodeSize(messages[1..]);
    }
  }

  /** Until an invalid header no byte is lost: framed packets plus residue are the bytes received. */
  lemma BytesAreConserved(buffer: seq<Byte>)
    requires !Parse(buffer).invalid
    ensures Size(Parse(buffer).messages) + |Parse(buffer).rest| == |buffer|
    ensures |Parse(buffer).rest| <= HEADER_SIZE + MAX_PACKET_SIZE - 1
  {
    ParseIsExact(buffer);
    EncodeSize(Parse(buffer).messages);
  }

  // --- Chunk independence -----------------------------------------------------------------

  function Flatten(chunks: seq<seq<Byte>>): seq<Byte> {
    if chunks == [] then [] else chunks[0] + Flatten(chunks[1..])
  }

  /** One completed read: append the bytes to the residue, then drain. */
  function Receive(p: Parsed, chunk: seq<Byte>): Parsed {
    var q := Parse(p.rest + chunk);
    Parsed(p.messages + q.messages, q.rest, q.invalid)
  }

  /** The read loop: it stops for good at the first invalid header. */
  function Feed(p: Parsed, chunks: seq<seq<Byte>>): Parsed
    decreases |chunks|
  {
    if chunks == [] || p.invalid then p else Feed(Receive(p, chunks[0]), chunks[1..])
  }

  lemma PeelExtends(a: seq<Byte>, b: seq<Byte>)
    ensures Peel(a).BadLength? ==> Peel(a + b).BadLength?
    ensures Peel(a).Packet? ==> Peel(a + b) == Packet(Peel(a).message, Peel(a).rest + b)
  {
    if |a| >= HEADER_SIZE {
      assert DecodeLength(a + b) == DecodeLength(a);
    }
  }

  lemma {:induction false} ParseAppend(a: seq<Byte>, b: seq<Byte>)
    ensures Parse(a + b) == if Parse(a).invalid then Parse(a) else Receive(Parse(a), b)
    decreases |a|
  {
    PeelExtends(a, b);
    match Peel(a)
    case Incomplete =>
      assert Receive(Parse(a), b).messages == Parse(a + b).messages;
    case BadLength =>
    case Packet(m, rest) =>
      ParseAppend(rest, b);
      var p, q := Parse(rest), Parse(Parse(rest).rest + b);
      assert [m] + (p.messages + q.messages) == ([m] + p.messages) + q.messages;
  }

  lemma {:induction false} FeedFrom(a: seq<Byte>, chunks: seq<seq<Byte>>)
    ensures Feed(Parse(a), chunks) == Parse(a + Flatten(chunks))
    decreases |chunks|
  {
    if chunks == [] {
      assert a + Flatten(chunks) == a;
    } else {
      assert a + Flatten(chunks) == (a + chunks[0]) + Flatten(chunks[1..]);
      ParseAppend(a, chunks[0]);
      if Parse(a).invalid {
        ParseAppend(a, Flatten(chunks));
      } else {
        FeedFrom(a + chunks[0], chunks[1..]);
      }
    }
  }

  /** However the network splits the stream, the same packets come out, with the same verdict. */
  lemma ChunkIndependence(chunks: seq<seq<Byte>>)
    ensures Feed(START, chunks) == Parse(Flatten(chunks))
  {
    assert Parse([]) == START;
    FeedFrom([], chunks);
    assert [] + Flatten(chunks) == Flatten(chunks);
  }

  /** The accumulation buffer is bounded for the whole life of a session. */
  lemma BufferIsBounded(chunks: seq<seq<Byte>>, k: nat)
    requires k < |chunks|
    requires !Feed(START, chunks[..k]).invalid
    requires |chunks[k]| <= 2048
    ensures |Feed(START, chunks[..k]).rest| <= 4099
    ensures |Feed(START, chunks[..k]).rest + chunks[k]| <= 6147
  {
    ChunkIndependence(chunks[..k]);
    BytesAreConserved(Flatten(chunks[..k]));
  }

  // --- The extractor inverts the encoder --------------------------------------------------

  lemma PeelFrame(m: Message, tail: seq<Byte>)
    requires Deliverable(m)
    ensures Peel(Frame(m) + tail) == Packet(m, tail)
  {
    var buffer := Frame(m) + tail;
    assert buffer[..HEADER_SIZE] == EncodeLength(|m|);
    assert DecodeLength(buffer) == DecodeLength(buffer[..HEADER_SIZE]);
  }

  lemma ParseFrame(m: Message)
    requires Deliverable(m)
    ensures Parse(Frame(m)) == Parsed([m], [], false)
  {
    PeelFrame(m, []);
    assert Frame(m) + [] == Frame(m);
    assert Parse([]) == START;
  }

  /** Decoding inverts encoding for every list of messages of admissible length. */
  lemma {:induction false} ParseEncode(messages: seq<Message>)
    requires AllDeliverable(messages)
    ensures Parse(Encode(messages)) == Parsed(messages, [], false)
  {
    if messages == [] {
      assert Parse([]) == START;
    } else {
      ParseFrame(messages[0]);
      ParseEncode(messages[1..]);
      ParseComplete(Frame(messages[0]), [messages[0]], Encode(messages[1..]));
      assert [messages[0]] + messages[1..] == messages;
    }
  }

  lemma ParseComplete(done: seq<Byte>, messages: seq<Message>, more: seq<Byte>)
    requires Parse(done) == Parsed(messages, [], false)
    ensures Parse(done + more) == Parse(more).(messages := messages + Parse(more).messages)
  {
    ParseAppend(done, more);
    assert [] + more == more;
  }

  /** A frame decodes to its message exactly when the message has 1 to 4096 bytes. */
  lemma RoundTripExactly(m: Message)
    ensures Parse(Frame(m)) == Parsed([m], [], false) <==> 1 <= |m| <= 4096
  {
    if Deliverable(m) {
      ParseFrame(m);
    } else {
      ParseIsExact(Frame(m));
    }
  }

  /** An unfinished frame yields nothing and is kept whole. */
  lemma PartialFrame(m: Message, k: nat)
    requires Deliverable(m) && k < |Frame(m)|
    ensures Parse(Frame(m)[..k]) == Parsed([], Frame(m)[..k], false)
  {
    if k >= HEADER_SIZE {
      assert Frame(m)[..k][..HEADER_SIZE] == EncodeLength(|m|);
      assert DecodeLength(Frame(m)[..k]) == DecodeLength(Frame(m)[..k][..HEADER_SIZE]);
    }
  }

  lemma {:induction false} EncodeAppend(a: seq<Message>, b: seq<Message>)
    ensures Encode(a + b) == Encode(a) + Encode(b)
  {
    if a == [] {
      assert a + b == b;
    } else {
      assert (a + b)[1..] == a[1..] + b;
      EncodeAppend(a[1..], b);
    }
  }

  lemma EncodeOneMore(a: seq<Message>, m: Message)
    ensures Encode(a + [m]) == Encode(a) + Frame(m)
  {
    EncodeAppend(a, [m]);
    assert Encode([m]) == Frame(m) + [];
  }
}
