/**
 The newline line-framing of the echo protocol, as pure functions over
 character streams: how one message is put on the wire, how one message
 is taken off it (`read_line` followed by `String::pop`), and what that
 pair of operations does and does not guarantee.
 */
module Framing {

  /** The single reserved character that ends every frame. */
  const Delimiter: char := '\n'

  /** A message the protocol can carry unchanged: it holds no delimiter. */
  predicate IsLine(m: string) {
    Delimiter !in m
  }

  // ---------------------------------------------------------------------
  // Encoding
  // ---------------------------------------------------------------------

  /** The characters `send_message` hands to the writer for `m`: the
      message itself, then one delimiter. */
  function Frame(m: string): (wire: string)
    ensures |wire| == |m| + 1 && wire[..|m|] == m && wire[|m|] == Delimiter
  {
    m + [Delimiter]
  }

  /** The wire image of sending the messages `ms` one after the other. */
  function FrameAll(ms: seq<string>): (wire: string)
  {
    if ms == [] then [] else Frame(ms[0]) + FrameAll(ms[1..])
  }

  /** Sending one more message extends the wire image by exactly that
      message's frame: the stream a sequence of sends produces is
      `FrameAll` of the messages in the order they were sent. */
  lemma {:induction false} FrameAllSnoc(ms: seq<string>, m: string)
    ensures FrameAll(ms + [m]) == FrameAll(ms) + Frame(m)
  {
    if ms == [] {
      assert ms + [m] == [m];
      assert FrameAll([m]) == Frame(m) + FrameAll([]);
    } else {
      assert (ms + [m])[0] == ms[0];
      assert (ms + [m])[1..] == ms[1..] + [m];
      FrameAllSnoc(ms[1..], m);
    }
  }

  // ---------------------------------------------------------------------
  // Decoding
  // ---------------------------------------------------------------------

  /** `BufRead::read_line`: everything up to and including the first
      delimiter, or the whole remainder when there is none (nothing at all
      at end of input). The second component is what stays unread. */
  function ReadLine(input: string): (r: (string, string))
    ensures r.0 + r.1 == input
    ensures Delimiter in input ==>
              |r.0| > 0 && r.0[|r.0| - 1] == Delimiter && IsLine(r.0[..|r.0| - 1])
    ensures Delimiter !in input ==> r.0 == input && r.1 == []
  {
    if input == [] then ([], [])
    else if input[0] == Delimiter then ([Delimiter], input[1..])
    else
      var (line, rest) := ReadLine(input[1..]);
      assert input == [input[0]] + input[1..];
      if Delimiter in input[1..] then
        var extended := [input[0]] + line;
        assert extended[..|line|] == [input[0]] + line[..|line| - 1];
        (extended, rest)
      else
        ([input[0]] + line, rest)
  }

  /** `String::pop` with its result discarded: drops the last character,
      whatever it is, and leaves an empty string alone. */
  function Pop(s: string): (r: string)
    ensures s == [] ==> r == []
    ensures s != [] ==> |r| == |s| - 1 && r == s[..|r|]
  {
    if s == [] then [] else s[..|s| - 1]
  }

  /** `read_message` on the remaining input: the message it returns and
      the input it leaves unread. The message never holds a delimiter, and
      a read at end of input returns the empty message and consumes
      nothing; `ReadConsumesMessage` states what a read of non-empty input
      consumes. */
  function NextMessage(input: string): (r: (string, string))
    ensures IsLine(r.0)
    ensures input == [] ==> r == ([], [])
  {
    var read := ReadLine(input);
    (Pop(read.0), read.1)
  }

  /** A read of non-empty input consumes the message it returns and
      exactly one more character: the delimiter, or at an unterminated
      end the character `pop` drops. */
  lemma ReadConsumesMessage(input: string)
    requires input != []
    ensures var r := NextMessage(input);
            |r.0| + 1 + |r.1| == |input| && input[..|r.0|] == r.0 && input[|r.0| + 1..] == r.1
  {
    var read := ReadLine(input);
    assert read.0 != [];
  }

  /** `read_message` called `k` times in a row: the messages in the order
      read, and the input left unread. Its contract gives only the count;
      what the messages are is stated by `Fifo`, `ReadsAtEndOfInput` and
      `NextMessagesSnoc`. */
  function NextMessages(input: string, k: nat): (r: (seq<string>, string))
    ensures |r.0| == k
    decreases k
  {
    if k == 0 then ([], input)
    else
      var first := NextMessage(input);
      var later := NextMessages(first.1, k - 1);
      ([first.0] + later.0, later.1)
  }

  /** One more `read_message` after `k` of them appends its message to
      those already read and continues from where they stopped. */
  lemma {:induction false} NextMessagesSnoc(input: string, k: nat)
    ensures NextMessages(input, k + 1).0 ==
              NextMessages(input, k).0 + [NextMessage(NextMessages(input, k).1).0]
    ensures NextMessages(input, k + 1).1 == NextMessage(NextMessages(input, k).1).1
    decreases k
  {
    var first := NextMessage(input);
    if k > 0 {
      NextMessagesSnoc(first.1, k - 1);
      var later := NextMessages(first.1, k - 1);
      var next := NextMessage(later.1);
      assert NextMessages(input, k).0 == [first.0] + later.0;
      assert NextMessages(input, k + 1).0 == [first.0] + NextMessages(first.1, k).0;
      assert [first.0] + (later.0 + [next.0]) == ([first.0] + later.0) + [next.0];
    } else {
      assert NextMessages(input, 1).0 == [first.0] + NextMessages(first.1, 0).0;
    }
  }

  // ---------------------------------------------------------------------
  // Properties of the framing
  // ---------------------------------------------------------------------

  /** A line is read exactly up to its first delimiter. */
  lemma ReadLineStopsAtFirstDelimiter(p: string, q: string)
    requires IsLine(p)
    ensures ReadLine(p + [Delimiter] + q) == (p + [Delimiter], q)
  {
    var input := p + [Delimiter] + q;
    assert input[|p|] == Delimiter;
    var (line, rest) := ReadLine(input);
    assert line == input[..|line|];
    assert |line| == |p| + 1;
    assert input[..|p| + 1] == p + [Delimiter];
  }

  /** Round trip: a delimiter-free message framed in front of any further
      input is read back unchanged, and exactly the further input stays
      unread. */
  lemma RoundTrip(m: string, rest: string)
    requires IsLine(m)
    ensures NextMessage(Frame(m) + rest) == (m, rest)
  {
    ReadLineStopsAtFirstDelimiter(m, rest);
  }

  /** FIFO: reading as many messages as were framed yields those
      messages, in the order they were sent, and leaves whatever follows. */
  lemma {:induction false} Fifo(ms: seq<string>, rest: string)
    requires forall i :: 0 <= i < |ms| ==> IsLine(ms[i])
    ensures NextMessages(FrameAll(ms) + rest, |ms|) == (ms, rest)
  {
    if ms != [] {
      var tail := FrameAll(ms[1..]) + rest;
      assert FrameAll(ms) + rest == Frame(ms[0]) + tail;
      RoundTrip(ms[0], tail);
      Fifo(ms[1..], rest);
      assert |ms[1..]| == |ms| - 1;
      var later := NextMessages(tail, |ms| - 1);
      assert NextMessages(FrameAll(ms) + rest, |ms|) == ([ms[0]] + later.0, later.1);
      assert ms == [ms[0]] + ms[1..];
    } else {
      assert FrameAll(ms) + rest == rest;
    }
  }

  /** At end of input `read_line` delivers nothing and `pop` leaves the
      empty string alone, so `read_message` yields the empty message, and
      that is exactly what a genuinely received empty message yields. */
  lemma EndOfInputLooksLikeEmptyMessage(rest: string)
    ensures NextMessage([]) == ([], [])
    ensures NextMessage(Frame([]) + rest) == ([], rest)
  {
    RoundTrip([], rest);
  }

  /** Once the input is exhausted every further `read_message` again
      yields the empty message and consumes nothing: end of input is a
      fixed point, never an error. */
  lemma {:induction false} ReadsAtEndOfInput(k: nat)
    ensures NextMessages([], k) == (seq(k, i => ""), [])
  {
    if k == 0 {
      assert seq(k, i => "") == [];
    } else {
      ReadsAtEndOfInput(k - 1);
      assert NextMessage([]) == ([], []);
      var later := NextMessages([], k - 1);
      assert NextMessages([], k) == ([""] + later.0, later.1);
      assert seq(k, i => "") == [""] + seq(k - 1, i => "");
    }
  }

  /** A non-empty final line without a delimiter is consumed entirely and
      returned with its last character, which is message text, removed. */
  lemma UnterminatedTail(input: string)
    requires input != [] && IsLine(input)
    ensures NextMessage(input) == (input[..|input| - 1], [])
  {
  }

  /** The concrete case: the peer sends "ab" and closes; "a" is read. */
  lemma UnterminatedTailLosesLastChar()
    ensures NextMessage("ab") == ("a", [])
  {
    assert Delimiter !in "ab";
    UnterminatedTail("ab");
  }

  /** There is no escaping: a message holding a delimiter is read back as
      its part before the delimiter, and the part after it is left as a
      frame of its own. */
  lemma EmbeddedDelimiterSplits(m1: string, m2: string, rest: string)
    requires IsLine(m1)
    ensures NextMessage(Frame(m1 + [Delimiter] + m2) + rest) == (m1, Frame(m2) + rest)
  {
    var tail := Frame(m2) + rest;
    assert Frame(m1 + [Delimiter] + m2) == m1 + [Delimiter] + m2 + [Delimiter];
    assert m1 + [Delimiter] + m2 + [Delimiter] + rest == m1 + [Delimiter] + tail;
    ReadLineStopsAtFirstDelimiter(m1, tail);
  }

  /** The concrete case: sending "a\nb" puts on the wire exactly what
      sending "a" and then "b" does, so it is read as "a", then "b". */
  lemma NoEscapingExample()
    ensures Frame("a\nb") == FrameAll(["a", "b"])
    ensures NextMessages(Frame("a\nb"), 2) == (["a", "b"], [])
  {
    var ms := ["a", "b"];
    assert ms[1..] == ["b"] && ms[1..][1..] == [];
    assert FrameAll(ms) == Frame("a") + (Frame("b") + []);
    assert Frame("a\nb") == FrameAll(ms) + [];
    Fifo(ms, []);
  }
}
