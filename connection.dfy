/**
 `EchoProtocolConnection`: one end of an echo-protocol connection, with
 the TCP socket replaced by two abstract character streams. Reads consume
 `incoming` from the front; sends go through the buffered writer's
 `pending` characters and, on flush, are appended to `outgoing`.
 */
module Protocol {
  import opened Framing

  /** The I/O failures the connection passes back to its caller. */
  datatype IoError = WriteFailed | FlushFailed | ReadFailed

  /** How the peer's side of the stream ends once its data is exhausted:
      a clean close (end of input) or a failure such as a reset. */
  datatype StreamEnd = Eof | Reset

  /** Which step of a send the underlying socket makes fail, if any. The
      socket is outside the model, so the caller states it. */
  datatype SendFault = NoFault | PayloadWriteFails | DelimiterWriteFails | FlushFails

  /** `io::Result<()>`. */
  datatype Outcome = Done | Failed(error: IoError)

  /** `io::Result<String>`. */
  datatype Received = Ok(message: string) | Err(error: IoError)

  class Connection {
    /** Characters the peer has sent that this end has not yet read: the
        socket's data together with the reader's internal buffer. */
    var incoming: string
    /** What follows `incoming` on the peer's side. */
    var incomingEnd: StreamEnd
    /** Characters written into the buffered writer and not yet flushed. */
    var pending: string
    /** Characters the writer has handed to the socket. */
    var outgoing: string

    /** Nothing written is still waiting in the writer. */
    predicate Flushed()
      reads this
    {
      pending == []
    }

    /** `new`: wraps a stream whose remaining data is `peerData`, ended as
        `peerEnd`; the reader has consumed nothing and the writer holds and
        has sent nothing. */
    constructor (peerData: string, peerEnd: StreamEnd)
      ensures incoming == peerData && incomingEnd == peerEnd
      ensures pending == [] && outgoing == []
    {
      incoming := peerData;
      incomingEnd := peerEnd;
      pending := [];
      outgoing := [];
    }

    /** `send_message`: writes the message, then one delimiter, then
        flushes; the first failing step ends the call with its error.
        Each write is assumed to accept its whole slice. */
    method SendMessage(message: string, fault: SendFault) returns (r: Outcome)
      modifies this`pending, this`outgoing
      ensures r.Done? <==> fault == NoFault
      ensures r.Failed? ==> r.error == (if fault == FlushFails then FlushFailed else WriteFailed)
      ensures fault == NoFault ==>
                Flushed() && outgoing == old(outgoing) + old(pending) + Frame(message)
      ensures fault == PayloadWriteFails ==>
                pending == old(pending) && outgoing == old(outgoing)
      ensures fault == DelimiterWriteFails ==>
                pending == old(pending) + message && outgoing == old(outgoing)
      ensures fault == FlushFails ==>
                pending == old(pending) + Frame(message) && outgoing == old(outgoing)
    {
      if fault == PayloadWriteFails {
        return Failed(WriteFailed);
      }
      pending := pending + message;
      if fault == DelimiterWriteFails {
        return Failed(WriteFailed);
      }
      pending := pending + [Delimiter];
      if fault == FlushFails {
        return Failed(FlushFailed);
      }
      outgoing := outgoing + pending;
      pending := [];
      return Done;
    }

    /** `read_message`: reads one line and pops its last character. When a
        delimiter is waiting, that line is consumed and returned without
        it. Otherwise all remaining data is consumed: at a clean end it is
        returned with its last character popped (the empty message at end
        of input); after a failure the read fails and that data is lost. */
    method ReadMessage() returns (r: Received)
      modifies this`incoming
      ensures r.Ok? <==> Delimiter in old(incoming) || incomingEnd == Eof
      ensures r.Ok? ==> r.message == NextMessage(old(incoming)).0 && incoming == NextMessage(old(incoming)).1
      ensures Delimiter in old(incoming) ==>
                r == Ok(NextMessage(old(incoming)).0) && incoming == NextMessage(old(incoming)).1
      ensures Delimiter !in old(incoming) ==> incoming == []
      ensures Delimiter !in old(incoming) && incomingEnd == Eof ==> r == Ok(Pop(old(incoming)))
      ensures Delimiter !in old(incoming) && incomingEnd == Reset ==> r == Err(ReadFailed)
    {
      var (line, rest) := ReadLine(incoming);
      assert Delimiter in line <==> Delimiter in incoming;
      incoming := rest;
      if Delimiter !in line && incomingEnd == Reset {
        return Err(ReadFailed);
      }
      line := Pop(line);
      return Ok(line);
    }
  }
}
