# Verification of the IoT smart gateway

A Dafny model of the gateway's core and proofs about it: the HTTP/1.1 client and server
(`src/http`), the timer signal and session manager (`src/clib`), and the observation registry
of `src/http-server.cpp`. `dafny verify dfyconfig.toml` checks all of it.

## How it is built

Code that works by assignment is modelled by classes and methods with the program's loops,
and each such method is proved equal to a function of its inputs or of the old state. The
promises of the program are then theorems about those functions and about runs of them.

- Bytes are characters, strings and stream buffers are sequences of them. `Text.dfy` has the
  pieces of the C++ library the code calls (`getline`, `stoul`, `strtol`, `to_string`).
- The network is `BodyReader.ReadSome` and `Receive.SomeOf`: every read returns any non-empty
  front part of the bytes still to come. A stream is all the bytes that arrive before the
  connection ends, and `Closing` says whether that is by end of file or by an error. The
  specifications of the readers take the read-ahead as an argument, `offers`, and theorems range
  over all of them; a method states that its outcome is the one specified for some read-ahead, or
  records it in a ghost result.
- A reader that goes on from a completion handler by calling itself is a method that calls itself.
- Pointers of the signal's buffer are integers, null is 0, and `new` returns any address not in
  use. The draws of the random generator, clock reads and what devices answer are parameters.
- A multimap is the sequence of its fields in iteration or insertion order. Which of several fields
  of one name `find` returns is left open, as the standard leaves it: `find` is a parameter, and the
  theorems hold for every function that returns the value of some field of the name if there is one
  (`Messages.Finds`). All of them agree on a name if and only if its fields have at most one value
  (`Messages.FoundAlikeIff`), which the theorems about printed messages in chunks require of the
  framing fields.
- Concurrency is a state machine of atomic steps: each atomic operation of `ScopeRunner`, each
  mutex section and each completion of the send queue and the pool, each handler and each
  visited cell of the registry. Theorems range over all runs.

| file | what it covers |
|---|---|
| `BodySpec.dfy`, `Body.dfy` | chunked, length-delimited and close-delimited bodies on both sides |
| `SyncRequest.dfy` | joining delivered parts and settling the promise |
| `Receive.dfy` | `read` of both sides: reading up to the end of the head, parsing, choosing the body reader |
| `SignalSpec.dfy`, `Signal.dfy` | the slot allocator with its free list in the cells, `emit`, the destructor |
| `GatewaySpec.dfy`, `Gateway.dfy` | sessions, handle-to-slot map and timer under interleaving |
| `SessionManager.dfy`, `Sampling.dfy` | handle allocation, value history and sampling interval |
| `ScopeRunner.dfy`, `SendQueue.dfy`, `ConnectionPool.dfy` | the concurrency protocols |
| `Headers.dfy`, `Messages.dfy` | heads of requests and responses, printed and parsed |
| `Heads.dfy` | where a head ends on either side, and what parsing leaves of it |
| `EndToEnd.dfy` | printed messages through the whole of the other side |
| `Percent.dfy`, `QueryString.dfy`, `Attributes.dfy`, `HostPort.dfy` | the smaller serializer and parser pairs |
| `HeaderEnd.dfy` | the resumable search for the end of a header |

## What the code does that one might not expect

- Chunked decoding can depend on how the bytes were read. A chunk that arrives whole is taken in the
  same way for every read-ahead if and only if nothing can be read ahead, or its size line holds no
  bare LF and either the chunk or all that can be read ahead fits the room left in the body's buffer
  (`BodySpec.SameIffSteady`; for the data alone `BodySpec.SameDataIffPeriodic`). Where no 64-bit sum of
  sizes wraps around, that leaves the bare LF (`BodySpec.SteadyIffNoBareLf`). Two messages that end
  differently with two splittings each, one with a bare LF and one with a sum that wraps around, are
  `BodySpec.BareLfDependsOnReads` and `BodySpec.WrappedSizeDependsOnReads`; `Receive.ServerDependsOnReads`
  and `Receive.ClientDependsOnReads` have them behind any head that announces chunks.
- It can also depend on how much was read along with the head, as the buffer for size lines gets the
  larger of 18 bytes and what parsing the head left over. A line is read alike through two buffers if
  and only if it ends within the smaller, is unfinished in the smaller, or is too long for the larger
  (`BodySpec.SameLineIff`). Where each chunk on the way is steady and each line is read alike, the
  outcome is fixed by the stream, malformed streams included. A well-formed message that fits is
  received alike for every splitting if and only if no size line is longer than the smallest buffer
  there can be, or one is longer than the largest (`Receive.ServerMessageIsAlikeIff`,
  `Receive.ClientMessageIsAlikeIff`). A chunk with an extension of 16 or more characters arrives or
  not, as the reads have it: `Receive.LongExtensionDependsOnReads`.
- `streambuf::prepare` throws out of the handler exactly where the part of a chunk that was read ahead
  exceeds the room (`BodySpec.AbortedIffOverruns`, `BodySpec.ThrownIffOverruns`). On either side this takes
  a sum of sizes that wraps around, as with the size line `-1`, which `std::stoul` accepts. A chunk larger
  than the client's buffer does not do it: the head was read through that buffer, so no more than its size
  can have been read ahead (`Receive.ClientAbortsIff`). For a synchronous request the handlers run on a
  detached thread that catches nothing, so the process terminates.
- The CRLF behind the line that ends a chunked body is left on the connection unless it was read along,
  and what was read along is lost with the buffer. The next request on the connection is read whole if and
  only if just the CRLF was read along; with less, it begins with an empty line and is malformed
  (`Receive.NextRequest`). Each case occurs for every such message with
  short size lines (`Receive.AnyLoss`).
- A response that closes the connection and has no field `Connection: close` is handed over cut to what
  was read along with its head (`EndToEnd.ClosingResponseArrives`). A request without content is given
  what was read along, which is then missing from the next one (`EndToEnd.EmptyRequestArrives`).
- A body with Content-Length that arrives whole and fits is handed over as sent if and only if no more
  than it had been read along with the head and every header line has a colon
  (`Receive.ServerContentIsExact`, `Receive.ClientContentIsExact`).
  Bytes read beyond it are not cut off. Behind a line without a colon, parsing leaves the rest of the head
  in the buffer, while the missing bytes are counted from the end of the head: `EndToEnd.ColonlessExample`.
- The client finds the end of the head of a printed response if and only if the text of its last line,
  status line or field, ends in an even number of `\r` (`Heads.ResponseHeadEnds`). The server always finds
  the end of a printed request's head.
- `HeaderEndMatch` drops to zero on a second `\r`: it stops behind the first `\n\n`, or
  `\r\n\r\n` whose first `\r` ends a run of odd length, and nowhere else.
- A callback that connects during `emit` can use up the call count, so that a slot that is live
  throughout is not called (`SignalSpec.ConnectDuringEmitSkipsALiveSlot`). The early exit makes no
  difference if and only if a scan of all cells makes no more calls than there were live slots.
- A handle drawn again before its old callback has retired ends in an exception on the timer
  thread (`GatewaySpec.ReissuedHandle`). Adding a session keeps the registry in agreement if and
  only if a slot is free and the handle has no callback left, or neither.
- A clock set back by a second or more makes a sample due at once (`Sampling.ClockSetBack`).
- In the pool, `in_use` is reset before the mutex is taken, so another request can own the
  connection when the pruning loop of a failed one removes it from the pool
  (`ConnectionPool.PrunedFromUnderneath`); that request can then no longer reconnect
  (`ConnectionPool.LostNeverReconnects`). The other ways out of the pool are stopping the client and the
  request's own body ending with the connection (`ConnectionPool.LeavesPoolIff`). No connection
  is shared even so, and at most one idle connection remains for each prune still to come, plus one.

## Model

| member | source | states |
|---|---|---|
| Text.DigitValueIff | src/http/server_http.hpp:628 | the digits are those of the alphabets 0 to f and 0 to F, each with its position as value |
| Text.StoulReads | src/http/server_http.hpp:628 | behind white space, a sign and a prefix every numeral is read, in base ten or sixteen: to its number, to the difference to 2^64 behind a minus sign, and to an exception from 2^64 on |
| Text.StoulNeedsNumber | src/http/server_http.hpp:628 | nothing else is read |
| Text.PrintedIsRead | src/http/server_http.hpp:628 | every number below 2^64 printed with the hexadecimal digits of either case, or the decimal ones, is read as itself |
| Text.DecimalIsPrinted | src/http/client_http.hpp:277 | a printed length is the decimal numeral |
| Body.BodyReader.Chunked | src/http/server_http.hpp:595-606 | the line buffer takes over the bytes behind the header, with room for the larger of 18 and their number |
| Body.BodyReader.ReadUntilCrlf | src/http/client_http.hpp:688-690 | finds the first CRLF within the buffer's capacity of the stream, whatever the reads return |
| Body.BodyReader.ReadExactly | src/http/client_http.hpp:730-736 | takes exactly the next bytes of the stream, fewer only at its end or when the buffer is full |
| Body.BodyReader.TakeLine | src/http/server_http.hpp:622-625 | the text up to the first LF and how many transferred bytes lie behind it, none unless a bare LF precedes the CRLF |
| Body.BodyReader.NextSize | src/http/server_http.hpp:616-634 | every size line is read as specified, too long, unfinished and unparsable ones included; with a bare LF, how many bytes of it stay in the buffer; how much is buffered behind it |
| Body.BodyReader.TakeChunk | src/http/server_http.hpp:649-704 | the three branches do to buffer, body and socket what is specified of them, read-ahead, surplus bytes, a full buffer and the exception included |
| Body.BodyReader.ServerReadChunked | src/http/server_http.hpp:615-709 | for every stream and every splitting it terminates with the specified outcome for the read-ahead there was, body and what is left of the connection included |
| Body.BodyReader.ServerReadContent | src/http/server_http.hpp:580-593 | the same for a body with Content-Length, what parsing left and what had been read behind the head kept apart |
| Body.BodyReader.ClientReadChunked | src/http/client_http.hpp:688-778 | for every stream and every splitting the callback is called as specified for the read-ahead there was, or the handler is left by an exception as specified |
| Body.BodyReader.ContentRead | src/http/client_http.hpp:640-659 | one read of a body with known length and its handler, whatever the size of the buffer |
| BodySpec.PassGetsNowhere | src/http/client_http.hpp:646-651 | such a read leads back to where it began if and only if the buffer has size zero and bytes are expected |
| Body.BodyReader.ReadContent | src/http/client_http.hpp:640-659 | all of them: the parts delivered depend on the stream alone |
| Body.BodyReader.CloseRead | src/http/client_http.hpp:661-686 | one read of a body that ends with the connection, by end of file or by an error, and its handler |
| Body.BodyReader.ReadContentUntilClose | src/http/client_http.hpp:661-686 | all of them: the parts delivered and the final error depend on the stream and on how it ends |
| BodySpec.TakenAroundSurplus | src/http/server_http.hpp:649-704 | what the branches amount to for every read-ahead: data and CRLF are taken around the bytes a bare LF leaves over, which stay behind; or the data does not fit |
| BodySpec.TakenInOrder | src/http/server_http.hpp:649-704 | without a bare LF they are the bytes behind the size line, in order |
| BodySpec.SameIffSteady | src/http/server_http.hpp:649-704 | a chunk that arrives whole is taken in the same way for every read-ahead if and only if nothing can be read ahead, or no LF is bare and the chunk or the read-ahead fits |
| BodySpec.SameDataIffPeriodic | src/http/server_http.hpp:649-690 | its data is the same for every read-ahead if and only if the bytes behind the bare LF repeat with the number of bytes left over as period |
| BodySpec.SteadyIffNoBareLf | src/http/client_http.hpp:713-726 | where the chunk fits or the part is empty, and the line buffer is no larger than a part, a chunk is steady if and only if no LF is bare or nothing can be read ahead |
| BodySpec.SameLineIff | src/http/server_http.hpp:597-625 | a size line is read alike through two buffers if and only if it ends within the smaller, is unfinished in the smaller, or is too long for the larger |
| BodySpec.ServerReadsDoNotMatter | src/http/server_http.hpp:595-709 | if each chunk on the way is steady and each size line is read alike through buffers of all sizes in a range, the outcome is the same for every splitting, every read-ahead at the start and every capacity in the range, malformed streams included |
| BodySpec.ClientReadsDoNotMatter | src/http/client_http.hpp:582-594 | so are the calls on the client |
| BodySpec.ServerOverflowNeedsWrap | src/http/server_http.hpp:640-656 | past the limit check a chunk exceeds the room if and only if the 64-bit sum wraps around |
| BodySpec.ClientOverflowNeedsWrap | src/http/client_http.hpp:713-726 | so on the client, behind the check that flushes the part, if the buffer for size lines is no larger than a part |
| BodySpec.BareLfDependsOnReads | src/http/server_http.hpp:622-690 | for every limit, one message and two splittings of it, the first complete, the second malformed |
| BodySpec.WrappedSizeDependsOnReads | src/http/client_http.hpp:713-750 | one message with a size line of -1 and two splittings of it, on both sides: an exception out of the handler with one, the end of the connection with the other |
| BodySpec.AbortedIffOverruns | src/http/client_http.hpp:713-750 | an exception leaves the handler if and only if at some chunk on the way as much of it as has been read ahead exceeds the room in the response part |
| BodySpec.ThrownIffOverruns | src/http/server_http.hpp:640-656 | the same on the server |
| BodySpec.FittingSizesAreNotAborted | src/http/client_http.hpp:713-726 | no exception if no sum of sizes wraps around and each size read fits a part, or, whatever the sizes, the buffer for size lines is no larger than a part |
| BodySpec.ServerRoundTrip | src/http/server_http.hpp:615-709 | every chunked encoding by section 4.1 of RFC 7230 of every chunk list, split in every way, is decoded to the concatenated data with all that is behind the zero-size line left over, and refused exactly when it exceeds the limit |
| BodySpec.ServerRoundTripIff | src/http/server_http.hpp:597-709 | for every capacity of the line buffer: a body that fits is complete if and only if the buffer holds each size line, otherwise a line is not found |
| BodySpec.UnreadIsBehind | src/http/server_http.hpp:636-639 | of what is behind that line the connection keeps an end; the rest, no more than the line buffer holds, is lost with it |
| BodySpec.ClientRoundTrip | src/http/client_http.hpp:688-778 | on the client the delivered parts concatenate to the data, each fits the buffer, only the last is marked as the end |
| BodySpec.ClientRoundTripIff | src/http/client_http.hpp:584-778 | on the client: the body is delivered whole without an error if and only if the buffer holds each size line, otherwise a front part of it with an error at the end |
| BodySpec.ClientOnePart | src/http/client_http.hpp:713-726 | a body that fits the buffer is delivered in one call, whatever its chunks |
| BodySpec.ClientFlushesFirst | src/http/client_http.hpp:713-726 | a part behind which the next chunk does not fit is a call of its own |
| BodySpec.ServerCutOff | src/http/server_http.hpp:615-709 | a body in chunks is lost wherever the connection ends before the end of its last line, whatever the reads |
| BodySpec.ClientCutOff | src/http/client_http.hpp:688-778 | on the client all data that has arrived is delivered, and then the error |
| BodySpec.ServerMalformed | src/http/server_http.hpp:627-634 | behind any chunks a line without a number is malformed |
| BodySpec.ClientMalformed | src/http/client_http.hpp:700-707 | on the client the data before it is delivered, and then a protocol error |
| BodySpec.ContentDelivered | src/http/client_http.hpp:640-659 | a body of known length is delivered whole in fitting parts, only the last marked, and nothing more is read |
| BodySpec.CloseDelivered | src/http/client_http.hpp:661-686 | so is a body that ends with the connection; the last call reports success if and only if that is by end of file |
| BodySpec.ContentPartsAreFull | src/http/client_http.hpp:646-651 | all parts of a body of known length but the last fill the buffer, and the last is not empty |
| BodySpec.ClosePartsAreFull | src/http/client_http.hpp:673-679 | all parts of a body up to the end of the connection but the last fill the buffer, and the last does not |
| BodySpec.ContentCutOff | src/http/client_http.hpp:640-659 | a body of known length that does not arrive whole is delivered as far as it does, and then the error |
| BodySpec.ServerContentCutOff | src/http/server_http.hpp:573-591 | the server refuses it if announced above the limit, else gives it up |
| BodySpec.LengthDelivered | src/http/client_http.hpp:567-581 | the parts make up exactly the announced bytes behind the head if and only if parsing left nothing of the head and no more had been read |
| BodySpec.ServerContentDelivered | src/http/server_http.hpp:552-593 | the same on the server, unread bytes included; as many bytes as announced also where that is the size of its buffer |
| SyncRequest.SyncRequest.OnDelivery | src/http/client_http.hpp:436-462 | one callback: keeps, joins, settles or ignores, by the verdict on the parts so far |
| SyncRequest.SyncRequest.Deliver | src/http/client_http.hpp:436-462 | over all callbacks of a request the promise holds the verdict on the whole and is settled once, or not at all while the verdict is open |
| SyncRequest.WholeBodyIffItFits | src/http/client_http.hpp:440-461 | the caller gets the whole body if and only if it fits the buffer, else message_size |
| SyncRequest.FinalErrorFails | src/http/client_http.hpp:440-459 | an error of the last part reaches the promise if and only if the parts before it fitted together, else message_size does |
| SyncRequest.LastSettles | src/http/client_http.hpp:457-461 | fitting parts and a last one settle the promise |
| SyncRequest.PartialVerdict | src/http/client_http.hpp:440-455 | parts alone leave it open if and only if they fit together |
| SyncRequest.ChunkedSettles | src/http/client_http.hpp:688-778 | whatever the server sends and however it is read, the chunked reader makes one last call, or none if an exception leaves the handler |
| SyncRequest.ContentSettlesOnce | src/http/client_http.hpp:640-659 | the reader with a known length makes one last call |
| SyncRequest.CloseSettlesOnce | src/http/client_http.hpp:661-686 | so does the reader up to the end of the connection, however it ends |
| Receive.ServerSession.ReadHead | src/http/server_http.hpp:543 | finds the first CRLF CRLF within the capacity of the buffer, whatever the reads return |
| Receive.ServerSession.ReadBody | src/http/server_http.hpp:561-611 | chooses the body reader by the parsed fields; what the connection keeps |
| Receive.ServerSession.Read | src/http/server_http.hpp:538-612 | the whole of read: head, fields, body and what the connection keeps are those specified for the read-ahead there was, errors included |
| Receive.ServerReceives | src/http/server_http.hpp:552-612 | head, fields and what parsing leaves of the head do not depend on what is read along; nothing is left exactly if every header line has a colon |
| Receive.ServerContentIsExact | src/http/server_http.hpp:552-594 | a body with Content-Length that arrives whole and fits is handed over exactly, with what follows unread, if and only if no more had been read and every header line has a colon |
| Receive.ServerContentFails | src/http/server_http.hpp:562-591 | the other outcomes with a Content-Length: malformed without a number, refused above the limit, given up when cut off |
| Receive.ServerMessageIsSteady | src/http/server_http.hpp:538-709 | a request in chunks is received alike for every splitting if what follows its head is steady for all capacities that the first read can bring about |
| Receive.ServerMessageIsWhole | src/http/server_http.hpp:595-709 | a well-formed request in chunks is handed over whole, or refused above the limit, if each size line fits the larger of 18 and what was left over; else a line is not found |
| Receive.ServerMessageIsCutOff | src/http/server_http.hpp:595-709 | a request in chunks that is cut off is given up, whatever the reads |
| Receive.ServerMessageIsMalformed | src/http/server_http.hpp:595-709 | one with a line without a number is malformed, whatever the reads |
| Receive.ServerMessageIsAlikeIff | src/http/server_http.hpp:595-709 | such a request that fits is received alike for every splitting if and only if no size line exceeds the smallest of these capacities, or one exceeds the largest |
| Receive.LongExtensionDependsOnReads | src/http/server_http.hpp:597-616 | a valid encoding that both sides read whole if all of it was read along with the head, and fail on if nothing was |
| Receive.ServerDependsOnReads | src/http/server_http.hpp:595-709 | the two messages with a bare LF and with a size of -1, behind any head that announces chunks: two outcomes each |
| Receive.NextRequest | src/http/server_http.hpp:757-767 | behind a request in chunks the next one is read whole if and only if just the CRLF that follows the last line was read along; with less there is no request, with more its beginning is lost |
| Receive.AnyLoss | src/http/server_http.hpp:636-639 | for every such request some splitting loses just k of the bytes behind it, for each k there is room for |
| Receive.EmptyLineFirst | src/http/utility.hpp:257-285 | a connection that goes on with an empty line has no request |
| Receive.ClientSession.ReadHead | src/http/client_http.hpp:559-560 | finds the first header end within the capacity of the buffer with the resumable matcher |
| Receive.ClientSession.ReadBody | src/http/client_http.hpp:574-611 | chooses the body reader by version and fields; a Content-Length that is no number throws |
| Receive.ClientSession.Read | src/http/client_http.hpp:559-619 | the whole of read: the calls specified for the read-ahead there was, or a reconnect after a failed first read where one is allowed |
| Receive.ClientReceives | src/http/client_http.hpp:567-612 | what is received by the head alone, as on the server |
| Receive.NoRoomNoHead | src/http/client_http.hpp:559-619 | with a response buffer of size zero no head is found and no body reader is entered |
| Receive.ClientContentIsExact | src/http/client_http.hpp:567-581 | the parts delivered make up exactly the announced bytes if and only if no more had been read and every header line has a colon |
| Receive.ClientContentFails | src/http/client_http.hpp:574-581 | cut off, it is delivered as far as it arrives, and then the error; a length that is no number is an exception |
| Receive.ClientMessageIsSteady | src/http/client_http.hpp:582-778 | a response in chunks makes the same calls for every splitting if what follows its head is steady for all capacities that the first read can bring about |
| Receive.ClientMessageIsWhole | src/http/client_http.hpp:582-778 | a well-formed response in chunks that fit is delivered whole without an error if and only if each size line fits its buffer; else a front part of it and an error |
| Receive.ClientMessageIsCutOff | src/http/client_http.hpp:582-778 | a response in chunks that is cut off is delivered as far as it arrives, and then the error |
| Receive.ClientMessageIsMalformed | src/http/client_http.hpp:582-778 | one with a line without a number: the data before it, and a protocol error |
| Receive.LessIff | src/http/client_http.hpp:594 | the comparison of versions is the lexicographic order |
| Receive.OldVersions | src/http/client_http.hpp:594 | 1.0 and 0.9 come before 1.1; 1.1, 2 and 2.0 do not |
| Receive.ClientReadsUntilClose | src/http/client_http.hpp:594-596 | a response of a version before 1.1, or with Connection: close, without length and chunks, is delivered whole when the connection ends |
| Receive.ClientMessageIsAlikeIff | src/http/client_http.hpp:436-461 | a synchronous request for such a response that fits ends alike for every splitting under the same condition as on the server |
| Receive.LineBufferIsSmaller | src/http/client_http.hpp:582-594 | behind a head that announces chunks the buffer for size lines is never larger than the response buffer |
| Receive.ClientAbortsIff | src/http/client_http.hpp:582-778 | an exception leaves the handler of a response in chunks if and only if a chunk overruns its part, and never if no sum of sizes wraps around, however large the chunks |
| Receive.ClientDependsOnReads | src/http/client_http.hpp:713-750 | the message with a size of -1 behind any head that announces chunks: an exception or not |
| Receive.ResponseSettles | src/http/client_http.hpp:559-619 | whatever the server sends, however it is read and the connection ends: one last call, or none after an exception |
| Receive.ReconnectsIff | src/http/client_http.hpp:542-619 | a request starts again if and only if it may and was not written, or no header came to an end |
| Receive.Request | src/http/client_http.hpp:421-464 | over both connections of a request that reconnects, each made or not and written to or not, the promise is settled once by the verdict on all calls; or an exception leaves the handler and its unguarded thread, which terminates the process with the promise open if the parts fitted |
| SignalSpec.RunKeepsInv | src/clib/simple_signal.hpp:58-113 | over every run of connect and disconnect: the free list holds distinct cells of the buffer, at least one, none of them live, and sizes add up to the number of cells |
| SignalSpec.Partition | src/clib/simple_signal.hpp:22-24 | a cell is live exactly if it is not on the free list |
| SignalSpec.ConnectThrowsWhenFull | src/clib/simple_signal.hpp:87-92 | connect throws if and only if upper_limit slots are live, and then changes nothing; otherwise it returns a cell that was not live |
| SignalSpec.FreedSlotIsReusedSecond | src/clib/simple_signal.hpp:107-113 | a slot just freed is not returned by the next connect but by the one after it, unless the signal is full by then |
| SignalSpec.DisconnectTwice | src/clib/simple_signal.hpp:107-113 | over any run in which no connect returns the slot, disconnecting it again throws and changes nothing |
| SignalSpec.EarlyExitSkipsNothing | src/clib/simple_signal.hpp:116-126 | if callbacks only disconnect, stopping after the counted calls is the same as scanning every cell |
| SignalSpec.FullScanCalls | src/clib/simple_signal.hpp:116-126 | a full scan calls in address order exactly the slots no earlier call dropped, and leaves live those no call dropped |
| SignalSpec.EarlyExitIff | src/clib/simple_signal.hpp:116-126 | for arbitrary callbacks the loop equals a scan of all cells if and only if that scan makes no more calls than are left |
| SignalSpec.EmitIsFullScanIff | src/clib/simple_signal.hpp:116-126 | for emit: no more than there are live slots at its start |
| SignalSpec.EmitCallsEveryLiveSlotOnce | src/clib/simple_signal.hpp:116-126 | if callbacks only disconnect, emit itself calls exactly the slots no earlier call dropped, in address order |
| SignalSpec.ConnectedIsCalled | src/clib/simple_signal.hpp:87-126 | from the connect that returned its slot to a disconnect of it, over any run in between, every emission whose callbacks only disconnect calls a callback once |
| SignalSpec.ConnectDuringEmitSkipsALiveSlot | src/clib/simple_signal.hpp:116-126 | with a connect during emission a slot live throughout can be left out: a concrete case |
| Signal.CellIsLive | src/clib/simple_signal.hpp:22-24 | a cell holds a non-null word outside the buffer if and only if its slot is live |
| Signal.HeadIsLast | src/clib/simple_signal.hpp:88 | the head of the free list is never null, and holds null if and only if it is the last free cell |
| Signal.Signal.constructor | src/clib/simple_signal.hpp:58-66 | the cells form one null-ended free list of upper_limit + 1 cells |
| Signal.Signal.Connect | src/clib/simple_signal.hpp:87-92 | the buffer keeps representing the allocator state, which moves by the specified connect |
| Signal.Signal.Disconnect | src/clib/simple_signal.hpp:107-113 | the same for disconnect, for every handle whatever its value |
| Signal.Signal.Emit | src/clib/simple_signal.hpp:116-126 | makes the specified calls with the specified effect on the signal, callbacks connecting and disconnecting as they like |
| Signal.Signal.Destroy | src/clib/simple_signal.hpp:74-84 | deletes every allocated callback exactly once, the early exit included |
| SessionManager.UnusedHandles | src/clib/session_manager.hpp:28-33 | when the capacity guard passes at least two handles are unused |
| SessionManager.TwoChoices | src/clib/session_manager.hpp:61-66 | two different draws would end the loop |
| SessionManager.LoopEnds | src/clib/session_manager.hpp:64 | the draw loop ends on a draw sequence if and only if the sequence contains an unused handle |
| SessionManager.EarlierDrawsAreUsed | src/clib/session_manager.hpp:61-66 | the handle is the first draw that is not in use |
| SessionManager.SessionManager.Create | src/clib/session_manager.hpp:60-67 | throws exactly when full; else stores under the first unused draw, in range, and leaves the others unchanged |
| SessionManager.SessionManager.Get | src/clib/session_manager.hpp:69-71 | throws exactly when there is no such session |
| SessionManager.SessionManager.Remove | src/clib/session_manager.hpp:79-81 | removes that session and no other, throws exactly when there is none |
| SessionManager.LimitHolds | src/clib/session_manager.hpp:60-83 | over every run the count never exceeds the limit and handles stay in range |
| Sampling.Observable.AddValue | src/clib/observation_module.hpp:32 | appends to the history, dropping the oldest of fifty |
| Sampling.Observable.ClearValues | src/clib/observation_module.hpp:30 | empties the history and changes nothing else |
| Sampling.Observable.OnTimer | src/http-server.cpp:174-193 | samples if due, with 0 where the device gives no value, and then moves the time of the latest observation |
| Sampling.Observable.OnUpdate | src/http-server.cpp:230-235 | clears the history exactly when the parameter location changes |
| Sampling.Effect | src/http-server.cpp:173-235 | what a timer call and an update do to each field |
| Sampling.HistoryIsRecentSamples | src/http-server.cpp:173-235 | over every run the history is, in order, the last fifty due timer calls since the location changed, each with the time it read and the value the device answered, or 0 |
| Sampling.NamesAreLatest | src/http-server.cpp:230-235 | the names and the location are those of the latest update |
| Sampling.LatestIsDone | src/http-server.cpp:192 | the latest observation is the time read when the latest sample was done |
| Sampling.DueWhenElapsed | src/http-server.cpp:175-177 | with a clock that does not run backwards a sample is due exactly when the interval has passed |
| Sampling.SamplesAreSpaced | src/http-server.cpp:173-235 | over every such run any two due timer calls are at least the interval apart, across clears too, and so is the first from the start |
| Sampling.ClockSetBack | src/http-server.cpp:175-177 | with a clock set back by less than a second a sample is due only for the interval 0, by more exactly when the wrapped difference reaches the interval |
| GatewaySpec.AddKeepsAgreement | src/http-server.cpp:160-198 | adding a session keeps handles, slots and callbacks in agreement if and only if a slot is free exactly when the handle has no old callback |
| GatewaySpec.VisitKeepsAgreement | src/http-server.cpp:171-198 | a callback samples its session or retires exactly its own slot and handle, and throws nothing |
| GatewaySpec.TickKeepsAgreement | src/clib/simple_signal.hpp:116-126 | every step of an emission keeps the agreement and the set of sessions |
| GatewaySpec.SlotsRunOutFirst | src/clib/observation_module.hpp:39 | under agreement the limit on sessions is never what refuses an add |
| GatewaySpec.RunKeepsAgreement | src/http-server.cpp:160-250 | over every interleaving of adds, updates, removals and visits the registry agrees and no exception escapes |
| GatewaySpec.AgreementIsBijection | src/http-server.cpp:170-198 | agreement makes handle-to-slot a bijection onto the live slots, and each session's slot holds its own callback |
| GatewaySpec.RemovedCallbacksRetire | src/http-server.cpp:194-197 | every handle removed before an emission has lost its callback at its end, if nothing is added during it |
| GatewaySpec.FullTickAligns | src/http-server.cpp:194-197 | after a full emission without adds or removals the callback handles equal the session handles |
| GatewaySpec.SweepIsEmit | src/clib/simple_signal.hpp:116-126 | an uninterrupted emission of the registry, cell by cell, does to the signal what one call of emit does |
| GatewaySpec.SweepSamplesEach | src/http-server.cpp:171-198 | such an emission samples every session exactly once |
| GatewaySpec.SessionIsItsOwnRun | src/http-server.cpp:160-250 | over every run a session is what its own updates and the calls of callbacks for its handle have made of it, whatever else happens in between |
| GatewaySpec.SessionsChangeOnlyBy | src/http-server.cpp:160-254 | only adding below ten thousand and removing change which sessions there are; updates and removals are not found exactly without one |
| GatewaySpec.ReissuedHandle | src/http-server.cpp:170-198 | for every capacity from two on, a run of handlers and timer steps in which a handle is re-issued too early ends in an exception out of a callback |
| Gateway.Gateway.AddNewObservable | src/http-server.cpp:160-198 | the handler over session manager and signal is the specified step, exceptions included |
| Gateway.Gateway.UpdateObservable | src/http-server.cpp:228-241 | the same for update-observable, with 404 for an unknown handle |
| Gateway.Gateway.RemoveObservable | src/http-server.cpp:246-254 | the same for remove-observable |
| Gateway.Gateway.TimerCallback | src/http-server.cpp:171-198 | the timer callback is the specified visit of its slot |
| Gateway.Gateway.TimerStep | src/clib/global_timer.hpp:19-28 | one step of the emission over the signal's real cells is the specified one |
| ScopeRunner.NextKeepsInv | src/http/utility.hpp:456-476 | each load, compare-exchange and fetch-sub keeps: the counter is the number of locks held, or -1 with none |
| ScopeRunner.RunKeepsInv | src/http/utility.hpp:434-477 | the same over every schedule of any number of activities, with spurious failures; -1 is permanent |
| ScopeRunner.NoLockAfterStop | src/http/utility.hpp:468-476 | once any stop has returned, no lock is held then or ever after |
| ScopeRunner.AloneLocks | src/http/utility.hpp:456-466 | an undisturbed continue_lock returns after two steps, with a lock unless the runner is stopped |
| ScopeRunner.AloneStops | src/http/utility.hpp:468-476 | an undisturbed stop returns after three steps if no lock is held |
| ScopeRunner.Progress | src/http/utility.hpp:456-476 | a compare-exchange of stop that does not fail spuriously ends it exactly when no lock is held, and one of continue_lock takes the lock |
| SendQueue.Response.Send | src/http/server_http.hpp:130-139 | appends and starts a write exactly if the queue was empty: the protocol's send step |
| SendQueue.Response.OnWritten | src/http/server_http.hpp:77-108 | removes the head and starts the next, or empties the queue, and returns each callback owed once: the protocol's handler step |
| SendQueue.RunKeepsInv | src/http/server_http.hpp:75-139 | over every interleaving: a write is in flight exactly while the queue is not empty, one only and of its head; order and callbacks as below |
| SendQueue.HandlerFindsHead | src/http/server_http.hpp:83-88 | the handler of a write always finds its own buffer at the head of the queue |
| SendQueue.WireFollowsSends | src/http/server_http.hpp:75-139 | buffers reach the wire in send order, each at most once, the one of the dropped response last |
| SendQueue.AtRest | src/http/server_http.hpp:94-106 | when nothing is queued or about to run every callback has run exactly once, and without a failure every buffer is on the wire |
| SendQueue.Drains | src/http/server_http.hpp:75-108 | from every reachable state, failures before included, the queue drains and all callbacks run if nothing more is sent |
| SendQueue.NeverTwice | src/http/server_http.hpp:83-106 | no callback runs twice, failures and sends from callbacks included |
| ConnectionPool.Prune | src/http/client_http.hpp:246-264 | in any iteration order the loop keeps what is in use, drops the failed connection, and keeps exactly one idle one if there is any |
| ConnectionPool.RunKeepsInv | src/http/client_http.hpp:240-269 | over every interleaving the invariant of ownership, idle count and reconnects holds |
| ConnectionPool.NoSharing | src/http/client_http.hpp:467-499 | two unfinished requests never own the same connection, and each pooled one in use belongs to one of them |
| ConnectionPool.IdleAndReconnects | src/http/client_http.hpp:621-638 | at most one pooled connection is idle when no prune is pending, and no request reconnects twice |
| ConnectionPool.RunKeepsRetryOpen | src/http/client_http.hpp:486-638 | over every run an unfinished request's connection may be replaced if and only if it has not been, or the header has been read |
| ConnectionPool.FailReconnectsIff | src/http/client_http.hpp:612-638 | over every run an error before the header makes a request start over on a new pooled connection if and only if it has not done so, its connection is pooled and the error is no abort; otherwise it ends |
| ConnectionPool.RequestCompletes | src/http/client_http.hpp:240-269 | a request without an error can take all its steps, and leaves its connection pooled and idle |
| ConnectionPool.LostNeverReconnects | src/http/client_http.hpp:621-638 | over every run, a request whose connection has left the pool never reconnects |
| ConnectionPool.LeavesPoolIff | src/http/client_http.hpp:240-264 | a step takes an unfinished request's connection out of the pool if and only if it stops the client, ends the request's own body with the connection, or prunes for a failed request that had the connection before |
| ConnectionPool.LostByAStep | src/http/client_http.hpp:240-264 | over every run, a request found with its connection outside the pool has met such a step |
| ConnectionPool.PrunedFromUnderneath | src/http/client_http.hpp:240-264 | a run in which a failed request removes from the pool the connection another request has just taken |
| ConnectionPool.Client.GetConnection | src/http/client_http.hpp:467-499 | takes the first connection not in use in iteration order, else a new one, as the protocol's first step says |
| ConnectionPool.Client.Reconnect | src/http/client_http.hpp:621-638 | replaces the connection if it is still pooled, as the protocol says, else changes nothing |
| ConnectionPool.Client.FinishCallback | src/http/client_http.hpp:246-264 | the pruning section of the final callback is the protocol's last step |
| Headers.ParseLine | src/http/utility.hpp:173-177 | the field of a header line: value without leading spaces and without one trailing CR |
| Headers.LineMeaning | src/http/utility.hpp:172-177 | every header line, with and without CR, spaces and a value |
| Headers.Parse | src/http/utility.hpp:168-180 | the fields of the lines before the first without a colon, and what follows it |
| Headers.PrintedFieldsParse | src/http/utility.hpp:168-180 | one-line fields come back with their values' leading spaces removed |
| Headers.ParseLeaves | src/http/utility.hpp:168-180 | parsing leaves what is behind the head, alone if and only if every header line has a colon |
| Headers.RoundTrip | src/http/utility.hpp:168-180 | printed fields come back exactly, with the body left over, if and only if no name has a colon or LF and no value has an LF or a leading space |
| Heads.PrintedHeadEnds | src/http/server_http.hpp:543 | the first CRLF CRLF of printed lines is at their end |
| Heads.RequestHeadEnds | src/http/client_http.hpp:523-540 | so the server's delimiter ends the head of every printed request, whatever follows |
| Heads.PrintedHeadMatches | src/http/client_http.hpp:22-48 | the first header end of printed lines is at their end if and only if the last of them ends in an even number of CR, else there is none in them |
| Heads.HeadTextEnds | src/http/client_http.hpp:22-48 | so it is for every printed head, whatever follows |
| Heads.ResponseHeadEnds | src/http/server_http.hpp:147-158 | the same for every printed response, whatever follows |
| Heads.RequestLeaves | src/http/server_http.hpp:544-552 | what parsing leaves of a buffer whose head ends at a given position, and when that is only the bytes read along |
| Heads.ResponseLeaves | src/http/client_http.hpp:561-569 | the same on the client, for every header end it can find |
| Messages.LowerIff | src/http/utility.hpp:41-47 | names compare equal up to the case of the 26 letters |
| Messages.ScanTarget | src/http/utility.hpp:260-269 | finds the end of the target and the position behind its last question mark |
| Messages.FoundAlikeIff | src/http/utility.hpp:66 | what find returns is independent of the container if and only if the fields of the name have at most one value |
| Messages.ParseRequestLine | src/http/utility.hpp:257-285 | method, path, query and version of a request line, or failure |
| Messages.RequestLineMeaning | src/http/utility.hpp:257-285 | every line of method, target, HTTP/ and a version is one, whatever the version |
| Messages.RequestLineNeeds | src/http/utility.hpp:257-285 | no other line is |
| Messages.ParseRequest | src/http/utility.hpp:254-295 | the whole request head and what it leaves in the stream |
| Messages.WriteRequest | src/http/client_http.hpp:523-540 | prints the request line, Host, the fields, Content-Length where due, and the content |
| Messages.TargetNamesHost | src/http/client_http.hpp:524-528 | the target is the path, or for a proxy one from which host and port can be read back |
| Messages.LengthSentIff | src/http/client_http.hpp:272-278 | Host and the caller's fields are sent, and a length if and only if there is content, the caller gives no length and does not announce chunks |
| Messages.RequestRoundTrip | src/http/utility.hpp:254-295 | parsing a printed request returns method, version 1.1, the parts of the target, the fields sent, and leaves exactly the content and what follows |
| Messages.TargetRejoins | src/http/utility.hpp:262-277 | path and query rejoin at the last question mark to the printed target |
| Messages.AddedFieldsAreOk | src/http/client_http.hpp:271-281 | the fields the client adds never spoil the round trip |
| Messages.AddedLengthIsRead | src/http/client_http.hpp:271-279 | if the caller gives no length, the server finds one if and only if there is content without chunks, whichever field of a name either container returns, and it reads back as the content's size |
| Messages.ParseResponse | src/http/utility.hpp:309-327 | the whole response head and what it leaves in the stream |
| Messages.StatusLineMeaning | src/http/utility.hpp:312-322 | every line of five characters, a version, a space and a status is one, with or without CR |
| Messages.StatusLineNeeds | src/http/utility.hpp:312-322 | lines without a space, of fewer than six characters, or with nothing behind the first space are not; what a space before the sixth character means |
| Messages.WriteHeader | src/http/server_http.hpp:57-73 | prints the fields and a Content-Length exactly if none is given, the body is not chunked and the connection stays open |
| Messages.LengthAnsweredIff | src/http/server_http.hpp:57-70 | a length is added if and only if none is given, no chunks are announced in any case, and the connection stays open |
| Messages.FlagsAppend | src/http/server_http.hpp:61-65 | the chained flag tests miss no field |
| Messages.WriteResponse | src/http/server_http.hpp:153-158 | prints status line, header and content |
| Messages.ResponseRoundTrip | src/http/utility.hpp:309-327 | parsing a printed response returns version 1.1, the status, the fields, and leaves exactly the content and what follows |
| Messages.AnsweredLengthIsRead | src/http/server_http.hpp:69-70 | an added Content-Length is found by the client and is the size written |
| EndToEnd.RequestArrives | src/http/server_http.hpp:538-594 | a request with content, without a length of the caller's and without chunks, reaches the resource as it was sent, with Host and Content-Length added, for every splitting and other bytes following or not; what was read beyond the content is handed over with it |
| EndToEnd.RequestHeadFails | src/http/server_http.hpp:543-612 | a request cut off within its head is lost, one with a head longer than the buffer is not found |
| EndToEnd.EmptyRequestArrives | src/http/server_http.hpp:610-611 | a request without content is handed what was read along with its head, and the connection keeps the rest |
| EndToEnd.ChunkedRequestArrives | src/http/server_http.hpp:595-709 | a request with chunked content arrives with the concatenated data, refused exactly above the limit, if each size line fits the larger of 18 and the bytes read along with the head; else it is not found |
| EndToEnd.ResponseArrives | src/http/client_http.hpp:559-581 | a response with a length added, as printed, reaches the caller of a synchronous request whole, exactly if it fits, for every splitting; what was read beyond it comes with it |
| EndToEnd.ChunkedResponseArrives | src/http/client_http.hpp:583-594 | so does a response with chunked content, each chunk within the buffer, whose last head line ends in an even number of CR |
| EndToEnd.ResponseHeadFails | src/http/client_http.hpp:559-618 | a response cut off within its head, or with one longer than the buffer, is an error or a reconnect |
| EndToEnd.WrappedSizeArrives | src/http/client_http.hpp:713-750 | a printed response after which an exception leaves the handler or not, as the reads have it |
| EndToEnd.ClosingResponseArrives | src/http/client_http.hpp:594-612 | a response that closes the connection arrives whole with a field Connection: close, when the connection ends; without one it is cut to what was read along |
| EndToEnd.ColonlessLine | src/http/utility.hpp:172 | behind a header line without a colon the rest of the head is handed over in front of the content |
| EndToEnd.ColonlessExample | src/http/utility.hpp:172 | 28 bytes for a Content-Length of 20 |
| HostPort.ParseHostPort | src/http/client_http.hpp:501-518 | host without a colon and a sixteen-bit port, the default where no number follows |
| HostPort.PortMeaning | src/http/client_http.hpp:501-518 | a number behind the colon is cut to sixteen bits; without one, or without a colon, the default port is taken |
| HostPort.HostAloneIff | src/http/client_http.hpp:533-536 | the port is printed, in decimal, if and only if it is not the default |
| HostPort.RoundTrip | src/http/client_http.hpp:533-536 | the printed Host value parses back to host and port if and only if the host has no colon |
| Percent.EncodeValue | src/http/utility.hpp:72-86 | the loop computes the byte-wise encoding |
| Percent.DecodeValue | src/http/utility.hpp:89-108 | the loop computes the decoding, malformed triplets included |
| Percent.EncodeEmitsTriplets | src/http/utility.hpp:78-83 | encoding emits only unreserved characters and triplets of percent and two upper-case digits |
| Percent.DecodeEncode | src/http/utility.hpp:72-108 | decoding undoes encoding for every byte string |
| Percent.UnreservedIff | src/http/utility.hpp:78 | the characters left as they are, are those of section 2.3 of RFC 3986 |
| Percent.FormDecodes | src/http/utility.hpp:89-108 | plain characters, plus signs and triplets of either case decode in any mixture, and an unfinished triplet at the end stays |
| Percent.MalformedTriplets | src/http/utility.hpp:95-98 | what three malformed triplets decode to |
| QueryString.Create | src/http/utility.hpp:115-125 | the loop joins the encoded fields |
| QueryString.Parse | src/http/utility.hpp:128-162 | the position-tracking loop finds the fields of the pieces between ampersands, each split at its last equals sign |
| QueryString.ParsedNames | src/http/utility.hpp:128-162 | no parsed name is empty or has an ampersand |
| QueryString.RoundTrip | src/http/utility.hpp:115-162 | parsing the created query string returns the fields if and only if every name is non-empty and free of ampersands |
| QueryString.PieceMeaning | src/http/utility.hpp:137-158 | a piece without an equals sign is a name without a value, one with a value is split at its last equals sign, one without a name is nothing |
| QueryString.FieldsDistribute | src/http/utility.hpp:137-158 | an ampersand separates any two query strings |
| Attributes.Step | src/http/utility.hpp:194-223 | one step of the three-position machine finds what is specified and leaves the rest to find |
| Attributes.Finish | src/http/utility.hpp:224-233 | so does the code behind the loop |
| Attributes.Parse | src/http/utility.hpp:188-236 | the machine finds the specified attributes of every string |
| Attributes.ParsedNames | src/http/utility.hpp:188-236 | every parsed name has the form that survives printing |
| Attributes.RoundTrip | src/http/utility.hpp:188-236 | a list of bare and quoted encoded attributes is recovered exactly if and only if its names start with neither space nor semicolon and have no semicolon or equals sign behind the first character |
| Attributes.ValueAtFront | src/http/utility.hpp:207-231 | values without an opening quote, and quoted ones that end at a semicolon or not at all |
| Attributes.ValueMissing | src/http/utility.hpp:207-231 | an attribute without a value is nothing, and a quote alone is a value |
| HeaderEnd.StepTracksProgress | src/http/client_http.hpp:22-48 | the two counters are the progress towards each ending, and the automaton stops exactly at an ending |
| HeaderEnd.HeaderEndMatch.Match | src/http/client_http.hpp:20-50 | a call stops behind the first header end of all input so far, or consumes everything if there is none |
| HeaderEnd.MatchPieces | src/http/client_http.hpp:14-51 | the same for any number of calls |
| HeaderEnd.FirstEndIsUnique | src/http/client_http.hpp:14-51 | so every way of cutting the input gives the same position |
| HeaderEnd.EndIsPlain | src/http/client_http.hpp:28-33 | a match is just behind LF LF or CR LF CR LF |
| HeaderEnd.NeverRunsPast | src/http/client_http.hpp:35-42 | a match never lies behind LF LF, nor behind a CR LF CR LF whose first CR is not preceded by CR |
| HeaderEnd.EvenRunIsNoEnd | src/http/client_http.hpp:35-42 | CR CR LF CR LF is not taken for an end |

## Left out

- BodySpec.ServerReadsDoNotMatter: one direction over arbitrary streams; exact are the conditions chunk by chunk and line by line, and over whole messages for well-formed ones, as later bytes of a malformed one can hide a difference again.
- BodySpec.ClientReadsDoNotMatter: one direction, for the same reason.
- Body.BodyReader.ReadContent: requires a positive buffer size unless nothing is expected; the program enters it only behind a head, which takes a positive size (`Receive.NoRoomNoHead`).
- Receive.ClientSession.Read: takes as a parameter whether a failed first read may reconnect, which `ConnectionPool.dfy` decides.
- Body.BodyReader.ServerReadChunked: takes an error handler to be installed, as the gateway does (`src/http-server.cpp:378`); without one, a connection lost before the CRLF of a chunk makes the program throw (`src/http/server_http.hpp:676`, `695`).
- Sampling.SamplesAreSpaced: assumes a clock that does not run backwards, over fewer than 2^64 ticks.
- Gateway.Gateway.AddNewObservable: takes a validated request; JSON, regular expressions and responses are not modelled, and observables are values in the session map, as they are in the program's map.
- Gateway.Gateway.TimerCallback: uses a copy of the captured handle, which the program reads from a function object it has just deleted.
- Sockets, name resolution, TLS, timeouts and asio scheduling: replaced by arbitrary reads and completions.
- Unsynchronised memory access between timer and HTTP threads: connect, disconnect and each visit are atomic steps.
- Server-sent events: the client releases the connection while it still reads, so the pool's ownership does not cover them.
- Trailers of chunked bodies: both readers stop at the zero-size line.
- The signal's default callback, `connect_slot` and moves: thin wrappers of what is modelled.
- Keep-alive decisions, upgrades, resource matching and file serving of the server: library plumbing.
- Dates, status texts, `CaseInsensitiveHash`, crypto wrappers and CoAP: finite tables or foreign code.
