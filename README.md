# Echo protocol: newline framing, verified

This project models the connection layer of a minimal line-oriented echo
protocol: `EchoProtocolConnection` in `echo-protocol/src/lib.rs`. A sender
writes a message, then one `'\n'`, then flushes. A receiver reads one line
with `read_line` and removes its last character with `String::pop`. The
server's per-connection step (read a message, send the same text back) is
modelled on top of it.

Layout:

- `framing.dfy` (module `Framing`): the framing as pure functions over
  character streams. `Frame` and `FrameAll` give what sending puts on the
  wire. `ReadLine` is the documented behaviour of `BufRead::read_line`,
  `Pop` is `String::pop`, and `NextMessage`/`NextMessages` give what one or
  more `read_message` calls return. The lemmas state the round trip, FIFO
  order, end of input, the unterminated tail and the lack of escaping.
- `connection.dfy` (module `Protocol`): the class `Connection`. The TCP
  socket is replaced by two streams. `incoming` is the data the peer sent
  and this end has not read; `incomingEnd` says whether the peer closed
  cleanly (`Eof`) or the stream failed (`Reset`) after it. `pending` is
  the buffered writer's contents and `outgoing` is what was handed to the
  socket. `SendMessage` and `ReadMessage` change these fields step by step
  and are proved against the functions of `Framing`.
- `server.dfy` (module `Server`): one pass of the server's per-connection
  loop (`EchoOnce`), the first `k` passes run on a connection
  (`EchoPasses`), and what they send back (`Echo`).
- `strict_framing.dfy` (module `StrictFraming`): the corrected decoder
  behind the two findings below.

Where the socket can fail, the model takes the failure as an input. For a
send, the caller names the step that fails (`SendFault`). For a read, the
failure is how the incoming stream ends (`StreamEnd.Reset`).

At end of input `read_line` returns what is left, and `String::pop` on an
empty string does nothing; the model follows this.

## Model

| member | source | states |
|---|---|---|
| `Framing.Frame` | echo-protocol/src/lib.rs:58-63 | a frame is the message followed by exactly one delimiter |
| `Framing.FrameAllSnoc` | echo-protocol/src/lib.rs:58-63 | each further send extends the wire by that message's frame, so successive sends produce `FrameAll` of the messages in order |
| `Framing.ReadLine` | echo-protocol/src/lib.rs:67 | `read_line` splits the input into a consumed line and an unread rest. If a delimiter is present, the line ends at the first delimiter and holds no other. Otherwise the whole input is consumed |
| `Framing.Pop` | echo-protocol/src/lib.rs:68 | `pop` removes the last character whatever it is, and leaves the empty string unchanged |
| `Framing.NextMessage` | echo-protocol/src/lib.rs:65-70 | a read never returns a delimiter, and at end of input it returns the empty message and consumes nothing |
| `Framing.ReadConsumesMessage` | echo-protocol/src/lib.rs:65-70 | a read of non-empty input consumes the returned message, which is a prefix of the input, plus exactly one more character |
| `Framing.NextMessagesSnoc` | echo-protocol/src/lib.rs:65-70 | one more read after k reads appends its message to those read so far and continues from where they stopped |
| `Framing.ReadLineStopsAtFirstDelimiter` | echo-protocol/src/lib.rs:67 | a delimiter-free prefix followed by a delimiter is read exactly up to that delimiter; everything after it stays unread |
| `Framing.RoundTrip` | echo-protocol/src/lib.rs:58-70 | reading `Frame(m) + rest` for a delimiter-free `m` returns `m` and leaves exactly `rest` |
| `Framing.Fifo` | echo-protocol/src/lib.rs:58-70 | reading k messages from the frames of k delimiter-free messages returns them in the order sent and leaves what follows |
| `Framing.EndOfInputLooksLikeEmptyMessage` | echo-protocol/src/lib.rs:66-69 | at end of input `read_message` succeeds with the empty message, the same result as a received empty message |
| `Framing.ReadsAtEndOfInput` | echo-protocol/src/lib.rs:65-70 | once input is exhausted, every further read yields the empty message and consumes nothing |
| `Framing.UnterminatedTail` | echo-protocol/src/lib.rs:67-68 | a non-empty final line without a delimiter is consumed entirely and returned without its last character |
| `Framing.UnterminatedTailLosesLastChar` | echo-protocol/src/lib.rs:67-68 | the peer sends `"ab"` and closes: `"a"` is read |
| `Framing.EmbeddedDelimiterSplits` | echo-protocol/src/lib.rs:58-70 | there is no escaping: a message with a delimiter is read back as its part before the delimiter, and the part after it stays as a frame of its own |
| `Framing.NoEscapingExample` | echo-protocol/src/lib.rs:58-70 | sending `"a\nb"` puts the same characters on the wire as sending `"a"` then `"b"`, and two reads return `"a"` and `"b"` |
| `Protocol.Connection.constructor` | echo-protocol/src/lib.rs:45-54 | a new connection has read nothing of the peer's stream, and its writer holds nothing and has sent nothing |
| `Protocol.Connection.SendMessage` | echo-protocol/src/lib.rs:58-63 | with no failure, the send succeeds, leaves nothing pending, and appends to the socket exactly the earlier pending data followed by `Frame(message)`. A failing step ends the call with its error and leaves the earlier steps' effects: nothing, the message without its delimiter, or the whole frame still pending |
| `Protocol.Connection.ReadMessage` | echo-protocol/src/lib.rs:65-70 | with a delimiter waiting, the read consumes exactly the first line and returns `NextMessage`. Without one, it consumes all remaining data. At a clean end it returns that data with its last character popped; after a stream failure it returns the read error |
| `Server.EchoOnce` | echo-server/src/main.rs:16-18 | a successful read consumes what `NextMessage` consumes. Then a fault-free send appends `Frame` of the message read (at a clean end, the unterminated tail with its last character popped, or an empty line). A failing send ends the pass with that send's error and the pending and outgoing data `SendMessage` leaves. A read failure consumes the rest and sends nothing |
| `Server.EchoPasses` | echo-server/src/main.rs:15-19 | k fault-free passes on a cleanly closing connection send exactly `Echo` of the input and leave what k reads leave |
| `Server.EchoFrames` | echo-server/src/main.rs:15-19 | when the peer sends the frames of delimiter-free messages and closes, that many passes send back exactly those frames and leave what followed them |
| `Server.EchoSnoc` | echo-server/src/main.rs:15-19 | one more pass extends what was sent by the frame of the next message read |
| `Server.EchoStream` | echo-server/src/main.rs:15-19 | fault-free passes over the frames of delimiter-free messages send back exactly those frames, in order |
| `Server.EchoAtEndOfInput` | echo-server/src/main.rs:15-19 | at a clean end of input each further pass sends one more empty line, so reading never stops the loop |
| `StrictFraming.StripDelimiter` | echo-protocol/src/lib.rs:68 | the corrected strip removes a trailing delimiter and leaves any other line unchanged |
| `StrictFraming.ClosedOnlyAtEnd` | echo-protocol/src/lib.rs:66-69 | the corrected decoder reports `Closed` exactly at end of input; a received empty message is a `Message` |
| `StrictFraming.NextReception` | echo-protocol/src/lib.rs:66-69 | the corrected decoder reports `Closed` at end of input. Otherwise it returns a delimiter-free message and consumes that message plus one delimiter, or the message alone when it is the unterminated tail; no character is dropped |
| `StrictFraming.UnterminatedTailKept` | echo-protocol/src/lib.rs:67-68 | the corrected decoder returns an unterminated final line whole |
| `StrictFraming.AgreesOnCompleteLines` | echo-protocol/src/lib.rs:65-70 | on a complete line the corrected decoder returns what `read_message` returns, so round trip and FIFO carry over |

## Findings

| source | as written | input that shows it | evidently intended | confidence | as-written member | corrected member |
|---|---|---|---|---|---|---|
| echo-protocol/src/lib.rs:67-68 | `pop` drops the last character even when `read_line` stopped at end of input without a delimiter | the peer sends `"ab"` and closes; `"a"` is read | remove the last character only when it is the delimiter | high (documented `read_line` and `pop` behaviour); not executed | `Framing.UnterminatedTailLosesLastChar` | `StrictFraming.UnterminatedTailKept` |
| echo-protocol/src/lib.rs:66-69 | at end of input `read_message` returns `Ok("")`, the same as a received empty line, so the server's loop (echo-server/src/main.rs:15-19) keeps sending empty lines until a write fails | empty remaining input versus remaining input `"\n"`: both yield `""` | report a closed connection at end of input | high; not executed | `Framing.EndOfInputLooksLikeEmptyMessage` | `StrictFraming.ClosedOnlyAtEnd` |

The `Connection` class keeps the as-written behaviour because it models
the source. `StrictFraming.AgreesOnCompleteLines` shows that the corrected
decoder differs from it only at the end of the stream.

## Left out

- Socket creation and duplication (`connect`, `TcpStream::connect`, `try_clone`, echo-protocol/src/lib.rs:26-54): foreign I/O. The constructor takes the peer's data and how it ends in place of the stream, and its connect and clone failures are not modelled.
- Protocol.Connection.SendMessage: assumes each `write` accepts the whole slice. The source ignores the returned count, so a partial write would silently drop characters. Buffer capacity, and writes that bypass the buffer, are not modelled either.
- Protocol.Connection.SendMessage: a failed flush is modelled as delivering nothing and keeping all pending characters. A real flush may hand a prefix to the socket before failing.
- Protocol.Connection.ReadMessage: a read failure can only happen once the data before it has no delimiter, and it then repeats on every later read. Failures in the middle of data, and `Interrupted` retries inside `read_line`, are not modelled.
- Protocol.Connection.ReadMessage: the model reads characters, not bytes. The UTF-8 validation in `read_line` and its `InvalidData` error are not modelled.
- Blocking: a read that would wait for more data is not modelled. `incoming` holds everything the peer will send.
- The server's accept loop, thread per connection, logging and `peer_addr().unwrap()` and the per-message `println!` (echo-server/src/main.rs:7-14, 17, 22-33): I/O and concurrency. The unbounded `loop` is modelled one pass at a time (`Server.EchoOnce`) and as its first `k` passes (`Server.EchoPasses`), because it need not terminate.
- Server.EchoPasses: covers only a peer that closes cleanly and sends that do not fail. A pass that fails ends the source's loop, and `Server.EchoOnce` states what such a pass leaves.
- The client (echo-client/src/main.rs): standard input and output handling. It also calls `new_and_connect_to`, which the library does not define (the library offers `connect`).
