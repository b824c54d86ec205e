/**
 The decoder as evidently intended: strip the delimiter only when the line
 ends with one, and report a clean end of input as a closed connection
 instead of as an empty message. It agrees with `read_message` on every
 complete line, so the round-trip and FIFO properties carry over.
 */
module StrictFraming {
  import opened Framing

  /** What one receive yields. */
  datatype Reception = Message(text: string) | Closed

  /** Removes a trailing delimiter, and nothing else. */
  function StripDelimiter(line: string): (r: string)
    ensures line != [] && line[|line| - 1] == Delimiter ==> r + [Delimiter] == line
    ensures line == [] || line[|line| - 1] != Delimiter ==> r == line
  {
    if line != [] && line[|line| - 1] == Delimiter then line[..|line| - 1] else line
  }

  /** The corrected `read_message` on the remaining input. Nothing is
      lost: a message consumes its text followed by one delimiter, or its
      text alone when it is the unterminated tail. */
  function NextReception(input: string): (r: (Reception, string))
    ensures input == [] ==> r == (Closed, [])
    ensures input != [] ==>
              r.0.Message? && IsLine(r.0.text) &&
              (input == r.0.text + [Delimiter] + r.1 || (input == r.0.text && r.1 == []))
  {
    if input == [] then (Closed, [])
    else
      var (line, rest) := ReadLine(input);
      (Message(StripDelimiter(line)), rest)
  }

  /** A closed connection is reported exactly at end of input, so it can
      no longer be mistaken for a received empty message. */
  lemma ClosedOnlyAtEnd(input: string)
    ensures NextReception(input).0 == Closed <==> input == []
    ensures NextReception(Frame([])).0 == Message([])
  {
    assert Frame([]) == [Delimiter];
  }

  /** The final line without a delimiter is returned whole. */
  lemma UnterminatedTailKept(input: string)
    requires input != [] && IsLine(input)
    ensures NextReception(input) == (Message(input), [])
  {
  }

  /** On a complete line the corrected decoder returns what `read_message`
      returns and leaves the same input unread. */
  lemma AgreesOnCompleteLines(input: string)
    requires Delimiter in input
    ensures NextReception(input) == (Message(NextMessage(input).0), NextMessage(input).1)
  {
  }
}
