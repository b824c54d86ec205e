/**
 The per-connection step of the echo server: read one message from the
 connection, then send the same text back.
 */
module Server {
  import opened Framing
  import opened Protocol

  /** Whether the read of a pass succeeds on a connection whose unread
      input is `input`: a line is waiting, or the peer closed cleanly. */
  predicate ReadSucceeds(input: string, end: StreamEnd) {
    Delimiter in input || end == Eof
  }

  /** One pass of the server's per-connection loop: read a message, then
      send the same text back. A failed read ends the pass with that
      read's error and sends nothing; a failed send ends it with the
      send's error, leaving what that send's earlier steps did. */
  method EchoOnce(c: Connection, fault: SendFault) returns (r: Outcome)
    modifies c`incoming, c`pending, c`outgoing
    ensures !ReadSucceeds(old(c.incoming), c.incomingEnd) ==>
              r == Failed(ReadFailed) && c.incoming == [] &&
              c.pending == old(c.pending) && c.outgoing == old(c.outgoing)
    ensures ReadSucceeds(old(c.incoming), c.incomingEnd) ==>
              c.incoming == NextMessage(old(c.incoming)).1
    ensures ReadSucceeds(old(c.incoming), c.incomingEnd) && fault == NoFault ==>
              r == Done && c.Flushed() &&
              c.outgoing == old(c.outgoing) + old(c.pending) + Frame(NextMessage(old(c.incoming)).0)
    ensures ReadSucceeds(old(c.incoming), c.incomingEnd) && fault == PayloadWriteFails ==>
              r == Failed(WriteFailed) && c.pending == old(c.pending) && c.outgoing == old(c.outgoing)
    ensures ReadSucceeds(old(c.incoming), c.incomingEnd) && fault == DelimiterWriteFails ==>
              r == Failed(WriteFailed) && c.outgoing == old(c.outgoing) &&
              c.pending == old(c.pending) + NextMessage(old(c.incoming)).0
    ensures ReadSucceeds(old(c.incoming), c.incomingEnd) && fault == FlushFails ==>
              r == Failed(FlushFailed) && c.outgoing == old(c.outgoing) &&
              c.pending == old(c.pending) + Frame(NextMessage(old(c.incoming)).0)
    ensures Delimiter !in old(c.incoming) && c.incomingEnd == Eof && fault == NoFault ==>
              r == Done && c.incoming == [] && c.Flushed() &&
              c.outgoing == old(c.outgoing) + old(c.pending) + Frame(Pop(old(c.incoming)))
  {
    var received := c.ReadMessage();
    if received.Err? {
      return Failed(received.error);
    }
    r := c.SendMessage(received.message, fault);
  }

  /** The first `k` passes of the server's per-connection loop, on a
      connection whose peer closes cleanly and whose sends do not fail:
      each pass reads a message and sends it back, so what is sent is
      `Echo` of the input and what is left is what `k` reads leave. */
  method EchoPasses(c: Connection, k: nat)
    requires c.incomingEnd == Eof && c.Flushed()
    modifies c`incoming, c`pending, c`outgoing
    ensures c.Flushed()
    ensures c.incoming == NextMessages(old(c.incoming), k).1
    ensures c.outgoing == old(c.outgoing) + Echo(old(c.incoming), k)
  {
    ghost var input := c.incoming;
    var i := 0;
    while i < k
      invariant 0 <= i <= k
      invariant c.incomingEnd == Eof && c.Flushed()
      invariant c.incoming == NextMessages(input, i).1
      invariant c.outgoing == old(c.outgoing) + Echo(input, i)
    {
      ghost var sent := Echo(input, i);
      ghost var next := NextMessage(c.incoming).0;
      var r := EchoOnce(c, NoFault);
      EchoSnoc(input, i);
      SendAfter(old(c.outgoing), sent, Frame(next));
      i := i + 1;
    }
  }

  /** What one more pass appends lands after everything sent so far. */
  lemma SendAfter(earlier: string, sent: string, frame: string)
    ensures earlier + sent + [] + frame == earlier + (sent + frame)
  {
  }

  /** Per-connection round trip: when the peer sends the frames of
      delimiter-free messages and closes, as many passes send back
      exactly those frames, in order, and leave what followed unread. */
  method EchoFrames(c: Connection, ms: seq<string>, ghost rest: string)
    requires forall i :: 0 <= i < |ms| ==> IsLine(ms[i])
    requires c.incoming == FrameAll(ms) + rest && c.incomingEnd == Eof && c.Flushed()
    modifies c`incoming, c`pending, c`outgoing
    ensures c.Flushed() && c.incoming == rest
    ensures c.outgoing == old(c.outgoing) + FrameAll(ms)
  {
    EchoPasses(c, |ms|);
    Fifo(ms, rest);
    EchoStream(ms, rest);
  }

  /** What the server sends back after `k` fault-free passes over the
      input `input`. */
  function Echo(input: string, k: nat): (wire: string)
  {
    FrameAll(NextMessages(input, k).0)
  }

  /** One more fault-free pass sends the frame of the next message read
      and continues from where that read stopped. */
  lemma EchoSnoc(input: string, k: nat)
    ensures Echo(input, k + 1) == Echo(input, k) + Frame(NextMessage(NextMessages(input, k).1).0)
    ensures NextMessages(input, k + 1).1 == NextMessage(NextMessages(input, k).1).1
  {
    var done := NextMessages(input, k);
    var step := NextMessage(done.1);
    NextMessagesSnoc(input, k);
    FrameAllSnoc(done.0, step.0);
  }

  /** The echo reproduces its input: consuming the frames of
      delimiter-free messages sends back exactly those frames, in order. */
  lemma EchoStream(ms: seq<string>, rest: string)
    requires forall i :: 0 <= i < |ms| ==> IsLine(ms[i])
    ensures Echo(FrameAll(ms) + rest, |ms|) == FrameAll(ms)
  {
    Fifo(ms, rest);
  }

  /** At a clean end of input the read never fails, so each further pass
      sends one more empty line; the loop ends only when a send fails. */
  lemma EchoAtEndOfInput(k: nat)
    ensures Echo([], k) == FrameAll(seq(k, i => ""))
  {
    ReadsAtEndOfInput(k);
  }
}
