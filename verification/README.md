# Verified model of the rot13 line server and of the resumable send loop

The repository's two first-party programs with state are modelled here.

**The line server (`rot13/main.cpp`).** Bytes reach a connection in fragments of any size. Each time
some have arrived, `readcb` echoes every complete line through rot13. If the unterminated rest is
`MAX_LINE` bytes or longer, it echoes that too and adds an LF that was never received. What a client
gets back therefore depends on how its bytes were cut up, and the proofs say exactly how far.

- `Bytes.dfy`, `CharMap.dfy`, `Arithmetic.dfy`: line boundaries, the character map, quotients.
- `LineMachine.dfy`: the callback as a closed formula on buffer contents, and its runs over lists of
  fragments. The limit is a parameter; `MAX_LINE` is 16384.
- `Transcript.dfy`: a description of the possible answers that mentions no callback. The output is a
  list of pieces of received lines. Every run is of this form, and every list of this form is the
  answer of some run.
- `Accounting.dfy`: conservation of bytes, contents, and the cost of forced LFs.
- `Fragmentation.dfy`: the streams whose answer does not depend on fragmentation, exactly; the range
  of the number of flushes; and full determinism when the high watermark is honoured.
- `Cutting.dfy`: that determined answer in closed form, and the proof that no other exact cutting of
  a stream exists.
- `FlushCounts.dfy`: which numbers of flushes a stream can cause, and which streams cause none.
- `RoundTrip.dfy`: when the answer of one connection, sent through another, returns the stream.
- `Evbuffer.dfy`, `ReadCallback.dfy`: `readcb` as it runs, with loops that rewrite a fresh line array
  and one reused 1024-byte array in place, proved against the formula.
- `Server.dfy`: accept, delivery, callback, write and error events in any order over any number of
  connections, with the descriptors that `do_accept` admits.
- `Events.dfy`: for each event, when it can happen next in a run and what it changes, and the answers
  of the server in the source's own numbers.
- `ServerRuns.dfy`: which runs of the single-connection machine the server can have, the exact
  conditions lifted to whole server runs, and why the watermark has the value it has.
- `EventLoop.dfy`: the connections as objects, each method proved to be one step of that machine.

**The send loop (`client/client.cpp`).** `SendLoop.dfy` has the do-while loop over a byte array
against a socket that may fail, return 0, or take any part of a request, with the cap on calls as a
parameter (1000 in the client).

Bytes are 0 to 255, NUL included, since the server goes by the returned length.

Some readings of the code are worth knowing.

- The descriptor guard is `fd > FD_SETSIZE`, so the model admits a descriptor equal to FD_SETSIZE.
- The flush limit and the high watermark are separate parameters here; the source gives both the
  value `MAX_LINE`. Reading is paused while the input buffer is beyond the watermark that the
  connection was given on accept.
- The header comment on watermarks warns that an input buffer can overrun its high watermark, and
  one delivery may do so here. The theorems hold with overrun, except those that name `Capped`,
  `Within` or `Honours`, which are about runs without it.
- An answer that does not depend on fragmentation is not a law of the code for all streams.
  `ServedAlikeExactly` gives the condition over server runs. When it fails, `RunIsServed` gives two
  server runs that answer the stream differently. `DisagreementOverruns` shows that at least one of
  two such runs has overrun a watermark that is no higher than the limit.
- The round trip is not a law for all streams either, and needs no overrun to fail: a non-empty
  stream that does not end in LF never comes back. `ServedBackExactly` gives the condition for all runs together,
  `ServedBackHonoured` for each pair of runs whose first leg honours the watermark.
- Callbacks are not deferred in this code, but a connection is allowed to fail at any time, also
  while a callback is due. `LostOnError` covers both cases.

## Model

| member | source | states |
|---|---|---|
| `CharMap.Rot13Char` | rot13/main.cpp:24-35 | letters move half-way round their own alphabet, everything else is fixed |
| `CharMap.LettersMove` | rot13/main.cpp:29-34 | in ASCII numbers: exactly the letters change, and each stays a letter of its case |
| `CharMap.ToByteExactly` | rot13/main.cpp:24-35 | signed chars and bytes correspond one to one, negative chars being the bytes from 128 on |
| `CharMap.SignednessIrrelevant` | rot13/main.cpp:24-35 | a platform with signed chars maps every byte to the same byte |
| `CharMap.Rot13Involution` | rot13/main.cpp:24-35 | mapping a string twice gives it back |
| `CharMap.Rot13KeepsLf` | rot13/main.cpp:24-35 | the map neither makes nor removes LFs |
| `LineMachine.CallbackSettles` | rot13/main.cpp:48-67 | a callback leaves an LF-free rest shorter than the limit |
| `LineMachine.CallbackSettled` | rot13/main.cpp:48-67 | a callback without new bytes changes nothing |
| `LineMachine.CallbackResumes` | rot13/main.cpp:48-56 | after a callback without overflow, later bytes are handled as if it had not run |
| `LineMachine.OutputGrows` | rot13/main.cpp:51-52 | the output of a run is a prefix of the output of every longer run |
| `Transcript.RunIsExplained` | rot13/main.cpp:48-67 | every run: the output is a list of pieces of the received stream, each LF-free; a forced piece has `limit` bytes or more; stream = pieces + residue; forced pieces are the flushes |
| `Transcript.OutcomesExactly` | rot13/main.cpp:48-67 | a final state is reachable for a stream if and only if such a list of pieces explains it |
| `Transcript.PiecesOfLines` | rot13/main.cpp:48-67 | consecutive pieces joined up to each received LF are the received lines, the rest is the open end |
| `Transcript.LinesOfPieces` | rot13/main.cpp:48-67 | the output lines are the rot13 of the pieces, one for one |
| `Transcript.RunSplitsLines` | rot13/main.cpp:48-67 | both for every run: no received LF is lost or moved, and the residue completes the open line |
| `Accounting.Conservation` | rot13/main.cpp:48-67 | output + residue = received + flushes, in bytes |
| `Accounting.Overhead` | rot13/main.cpp:56-66 | every flush is paid for by `limit` bytes that are not LF, so output + residue is at most received + non-LF bytes / limit |
| `Accounting.ContentPreserved` | rot13/main.cpp:48-67 | without LFs, output followed by rot13 of the residue is rot13 of the stream, in order |
| `Accounting.UnflushedRun` | rot13/main.cpp:48-54 | a run without flush answers rot13 of the stream up to its last LF and keeps the rest |
| `Accounting.UnflushedExactly` | rot13/main.cpp:48-56 | a run never flushes if and only if the open line of the stream is shorter than the limit at every cut; its answer is then the one above |
| `Fragmentation.QuietRun` | rot13/main.cpp:48-67 | on a quiet stream every run ends as one callback on the whole stream does |
| `Fragmentation.IndependentExactly` | rot13/main.cpp:48-67 | all runs on a stream agree if and only if its terminated lines are shorter than the limit and its open end is not longer than it |
| `Fragmentation.CutDisagrees` | rot13/main.cpp:56-66 | cutting a stream where the open line has reached the limit, with an LF still to come, changes the answer |
| `Fragmentation.LongTailDisagrees` | rot13/main.cpp:56-66 | an open end longer than the limit has two runs that differ |
| `Fragmentation.CappedRunsAgree` | rot13/main.cpp:48-104 | runs whose input buffer never exceeds the high watermark agree on every stream, however long its lines |
| `Fragmentation.CappedFlushes` | rot13/main.cpp:56-66 | in such a run the flushes are line length / limit, added over all lines |
| `Fragmentation.CappedResidue` | rot13/main.cpp:56-66 | in such a run the residue is the last (length mod limit) bytes of the open line |
| `Fragmentation.SinglesCapped` | rot13/main.cpp:104 | every stream has such a run: delivery byte by byte |
| `Cutting.CappedPieces` | rot13/main.cpp:56-66 | in such a run every forced piece has exactly `limit` bytes and every other piece fewer |
| `Cutting.ExactIsUnique` | rot13/main.cpp:48-67 | a stream can be cut into such pieces and a short residue in one way only |
| `Cutting.CappedAnswer` | rot13/main.cpp:48-104 | such a run answers every line cut after every `limit` bytes, and keeps the rest of the open line |
| `Fragmentation.FlushRange` | rot13/main.cpp:56-66 | of all deliveries of a stream, all at once flushes least and byte by byte most, and the most is known exactly |
| `FlushCounts.FlushCountsExactly` | rot13/main.cpp:56-66 | the numbers of flushes that some delivery of a stream causes are exactly those from the least to the most |
| `FlushCounts.NeverFlushesExactly` | rot13/main.cpp:56-66 | no delivery of a stream takes the overflow branch if and only if all its lines, the open one too, are shorter than the limit |
| `RoundTrip.ReturnsUnflushed` | rot13/main.cpp:48-67 | for two given runs, the stream returns if and only if neither flushed and the first left nothing; the second never leaves anything |
| `RoundTrip.ReturnsExactly` | rot13/main.cpp:48-67 | for two given fragmentations, the stream returns if and only if it ends in LF and neither leg is cut where its open line has reached the limit |
| `RoundTrip.ReturnsAlwaysExactly` | rot13/main.cpp:48-67 | the stream returns under all fragmentations of both legs if and only if it is made of terminated lines shorter than the limit |
| `RoundTrip.CappedReturnsExactly` | rot13/main.cpp:48-104 | with the watermark honoured on the first leg, the same condition decides each single pair of fragmentations |
| `Evbuffers.Evbuffer.Add` | include/event2/buffer.h:327-336 | bytes go to the end of the queue |
| `Evbuffers.Evbuffer.Remove` | include/event2/buffer.h:339-351 | min(available, size) bytes leave the front, the destination behind them is untouched |
| `Evbuffers.Evbuffer.Readln` | include/event2/buffer.h:418-439 | the first line as a fresh NUL-terminated string without its LF, or null if and only if there is no LF |
| `ReadCallback.RotateInPlace` | rot13/main.cpp:49-50 | the character loop rewrites exactly the first n bytes |
| `ReadCallback.EchoLines` | rot13/main.cpp:48-54 | the line loop moves everything up to the last LF, in as many passes as there are lines, each of which shortens the input |
| `ReadCallback.EchoRest` | rot13/main.cpp:59-65 | for every chunk size the drain loop appends rot13 of the whole rest, in ceil(length / chunk) passes; no byte of an earlier chunk reaches the output |
| `ReadCallback.ReadCb` | rot13/main.cpp:37-68 | the callback does to the two buffers what the formula says |
| `Events.AcceptKeeps` | rot13/main.cpp:92-106 | accept can return any descriptor not in use; it becomes a connection if and only if it is from 0 to FD_SETSIZE, with empty buffers and the watermark |
| `Events.LiveDescriptors` | rot13/main.cpp:93-97 | in every run only such descriptors are connections |
| `Events.DeliverAppends` | include/event2/bufferevent.h:515-538 | bytes can arrive if and only if there are some and the input is not beyond the watermark; they go to its end and readcb is due |
| `Events.ReadCbAnswers` | rot13/main.cpp:37-68 | readcb runs if and only if it is due, and does to all that was received and echoed what the formula says |
| `Events.WriteSends` | rot13/main.cpp:105 | any part of the queued output, and no more, can go out next, and it is the next part of what was echoed |
| `Events.ErrorFrees` | rot13/main.cpp:70-84 | every live connection can fail at any time, and then exactly it is gone |
| `Events.OnlyAccept` | rot13/main.cpp:87-107 | nothing but an accept can happen on a descriptor without a connection |
| `Events.SourceWaits` | rot13/main.cpp:19-67 | in the source's numbers: text without byte 10 waits if it is shorter than 16384 bytes, and is echoed with a byte 10 if not |
| `Events.SourceAnswers` | rot13/main.cpp:48-54 | a line of any length that arrives with its byte 10 is answered by its rot13 and byte 10, and nothing is left |
| `Events.SourcePauses` | rot13/main.cpp:104 | reading goes on if and only if at most 16384 bytes wait |
| `Server.SessionsFit` | rot13/main.cpp:37-107 | every run of the server, any interleaving: a descriptor is live while its session is open, and its buffers are those of the single-connection machine on its own fragments |
| `Server.Isolation` | rot13/main.cpp:45-46 | leaving out the events of all other connections gives a possible run in which this connection is the same |
| `Server.ReuseStartsAfresh` | rot13/main.cpp:98-105 | whatever happened before a descriptor was accepted, its connection is the one that its own events from there on give on a new server |
| `Server.NoReadStall` | rot13/main.cpp:56-67 | a connection at or over the limit has a callback due, any callback takes it below the limit, and with a watermark of limit - 1 or more bytes can be delivered whenever none is due |
| `Server.NeverStallsExactly` | rot13/main.cpp:104 | in every run reading is paused only while a callback is due, if and only if limit <= high + 1 |
| `Server.LostOnError` | rot13/main.cpp:70-84 | in any state: the received bytes lost are those that no piece accounts for, an LF-free end shorter than the limit if and only if the unread ones are LF-free and the input is shorter than the limit, which holds when no callback is due; the output lost is the queued part; what was sent is a prefix of the answer |
| `Server.AnswerIsFunctionOfStream` | rot13/main.cpp:104 | with watermarks no higher than the limit honoured, two connections that received the same bytes are in the same state, on servers that may differ in watermark and descriptor bound |
| `ServerRuns.ScriptRuns` | rot13/main.cpp:37-107 | delivering fragments one by one, each followed by its callback, is a run of the server if and only if none is empty and none arrives while reading is paused; the connection then is in the state of the single-connection run |
| `ServerRuns.RunIsServed` | rot13/main.cpp:37-107 | where reading never stalls, every single-connection run is one of the server |
| `ServerRuns.ServedOutcomesExactly` | rot13/main.cpp:37-107 | on a server that never stalls, a stream can bring a connection to a state if and only if pieces explain it |
| `ServerRuns.ServedOutputGrows` | rot13/main.cpp:51-66 | what a live connection has sent, and what it has echoed, is a prefix of what it has later, whatever else happens |
| `ServerRuns.ServedAlikeExactly` | rot13/main.cpp:37-107 | on a server that never stalls, all connections of all runs answer a stream alike if and only if it is quiet |
| `ServerRuns.ServedAnswer` | rot13/main.cpp:48-104 | with the watermark honoured, the answer of every connection in every run, in closed form |
| `ServerRuns.ServedBackExactly` | rot13/main.cpp:37-107 | on a server that never stalls, an answer sent through any connection is the stream again, for all runs, if and only if the stream is made of terminated lines shorter than the limit |
| `ServerRuns.ServedBackHonoured` | rot13/main.cpp:104 | if the first leg honours a watermark no higher than the limit, each single round trip returns the stream if and only if the stream is made of terminated lines shorter than the limit |
| `ServerRuns.HonouringNeverStallsExactly` | rot13/main.cpp:104 | where no delivery may overrun the watermark, every connection without a callback due can have bytes delivered to it if and only if limit <= high |
| `ServerRuns.HonouringDeterminesExactly` | rot13/main.cpp:104 | where no delivery may overrun the watermark, the answer to every stream is determined if and only if high <= limit |
| `ServerRuns.WatermarkIsRight` | rot13/main.cpp:104 | both hold if and only if the watermark equals the flush limit, as in the source |
| `EventLoops.Bufferevent.constructor` | rot13/main.cpp:102 | a new connection has empty buffers of its own |
| `EventLoops.Bufferevent.RunReadCb` | rot13/main.cpp:37-68 | the callback with `MAX_LINE` and the 1024-byte array, on the object's buffers, with the passes of both loops |
| `EventLoops.EventLoop.DoAccept` | rot13/main.cpp:86-107 | the accept step: a descriptor from 0 to FD_SETSIZE becomes a fresh connection with the high watermark `MAX_LINE`, any other changes nothing |
| `EventLoops.EventLoop.Receive` | include/event2/bufferevent.h:515-538 | the delivery step, possible while the input is not beyond the watermark stored on the connection; all other connections are left alone |
| `EventLoops.EventLoop.RunReadCb` | rot13/main.cpp:37-68 | the callback step |
| `EventLoops.EventLoop.Transmit` | rot13/main.cpp:105 | the write step: the first n queued bytes are added to those sent |
| `EventLoops.EventLoop.RunErrorCb` | rot13/main.cpp:70-84 | the error step: the connection is gone, whatever the reason |
| `EventLoops.Dispatch` | rot13/main.cpp:149 | on every possible run of events the objects end in the state of the state machine |
| `SendLoop.Socket.Send` | client/client.cpp:26 | a call fails, returns 0, or takes a first part of what it is offered |
| `SendLoop.SendAll` | client/client.cpp:24-51 | the bytes taken are exactly the first `pos` of the message, at most `cap` calls; the loop stops at the first call that may end it, and a normal exit means a complete message or all calls used |
| `SendLoop.LastExactly` | client/client.cpp:45-51 | the call that the loop ends with: no earlier call returned 0 or completed the message, and it returns 0, completes the message, or is call number cap |
| `SendLoop.CallTakes` | client/client.cpp:26-30 | each call offers all that is left: pos grows by what the socket is willing to take of it, and stays on a failure |
| `SendLoop.ClientMessage` | client/client.cpp:21-23 | the message is sixteen hexadecimal digits that read 10000000 |
| `SendLoop.SendString` | client/client.cpp:21-51 | the loop from a 1024-byte buffer: a prefix of the message is taken in at most 1000 calls, all of it on a normal exit with calls to spare |
| `SendLoop.Progress` | client/client.cpp:24-51 | without zero results, pos is complete or at least calls - failures |
| `SendLoop.SluggishEnds` | client/client.cpp:24-51 | with failures + length over the cap, a socket that leaves the message incomplete |
| `SendLoop.ToleratesExactly` | client/client.cpp:24-51 | f failures never stop a transfer if and only if f + length <= cap |
| `SendLoop.ClientTolerates` | client/client.cpp:21-51 | the client's sixteen-byte message survives 984 failures and no more |

## Left out

- Evbuffers.Evbuffer.Add: never fails; allocation failure inside libevent is not modelled, nor is the release of a line.
- Evbuffers.Evbuffer.Remove: never returns -1, since nothing here freezes a buffer.
- Evbuffers.Evbuffer.Readln: returns null only when there is no LF; a failed allocation of the line is not modelled.
- ReadCallback.RotateInPlace: the index is unbounded; the source's `int i` against a `size_t n` would overflow on a line of 2^31 bytes.
- EventLoops.EventLoop.DoAccept: creating the bufferevent always succeeds; FD_SETSIZE is a parameter, since its header is not part of this model.
- SendLoop.SendAll: the socket is one on which nothing was sent before; the message bytes and length are parameters.
- Sockets, bind, listen and the order in which libevent dispatches events: any order of enabled events is allowed instead.
- Printing, and the reading of the reply at the end of the client.
- A joint claim on client and server: they use different ports.
- The thread, lock, semaphore, MySQL, log4cpp and Kafka files under `src/`: single calls into other libraries, or commented out; the thread life cycle needs a class header that is not part of this model.
