/** The incremental packet extractor, as a class that appends to and cuts one buffer in place. */
module MessageBuffer {
  import opened Utils
  import opened Framing

  class MessageBufferManager {
    var buffer: seq<Byte>
    var lastClearByInvalidLength: bool

    constructor ()
      ensures buffer == [] && !lastClearByInvalidLength
    {
      buffer := [];
      lastClearByInvalidLength := false;
    }

    method Append(data: seq<Byte>)
      modifies this
      ensures buffer == old(buffer) + data
      ensures lastClearByInvalidLength == old(lastClearByInvalidLength)
    {
      buffer := buffer + data;
    }

    method ExtractMessage() returns (message: Option<Message>)
      modifies this
      ensures match Peel(old(buffer))
              case Incomplete => message == None && buffer == old(buffer) && !lastClearByInvalidLength
              case BadLength => message == None && buffer == [] && lastClearByInvalidLength
              case Packet(m, rest) => message == Some(m) && buffer == rest && !lastClearByInvalidLength
    {
      lastClearByInvalidLength := false;
      if |buffer| < HEADER_SIZE {
        return None;
      }
      var len := DecodeLength(buffer[..HEADER_SIZE]);
      if len == 0 || len > MAX_PACKET_SIZE {
        buffer := [];
        lastClearByInvalidLength := true;
        return None;
      }
      if |buffer| < HEADER_SIZE + len {
        return None;
      }
      message := Some(buffer[HEADER_SIZE..HEADER_SIZE + len]);
      buffer := buffer[HEADER_SIZE + len..];
    }

    method Clear()
      modifies this
      ensures buffer == [] && lastClearByInvalidLength == old(lastClearByInvalidLength)
    {
      buffer := [];
    }
  }

  /** `packets` have been taken from the front of `whole` and `left` is what remains to be parsed. */
  ghost predicate Taken(whole: seq<Byte>, packets: seq<Message>, left: seq<Byte>) {
    Parse(whole) == Parsed(packets + Parse(left).messages, Parse(left).rest, Parse(left).invalid)
  }

  lemma TakeOne(whole: seq<Byte>, packets: seq<Message>, left: seq<Byte>)
    requires Taken(whole, packets, left)
    ensures Peel(left).Packet? ==> Taken(whole, packets + [Peel(left).message], Peel(left).rest)
    ensures Peel(left).Incomplete? ==> Parse(whole) == Parsed(packets, left, false)
    ensures Peel(left).BadLength? ==> Parse(whole) == Parsed(packets, [], true)
  {
    if Peel(left).Packet? {
      var more := Parse(Peel(left).rest).messages;
      assert packets + ([Peel(left).message] + more) == packets + [Peel(left).message] + more;
    } else {
      assert packets + [] == packets;
    }
  }
}
