# A verified model of LUCP and its servers

LUCP is a small framed protocol between a log client and a log server; an FTP
server beside it hands out the logs. This project models, in Dafny, the parts of
the repository whose correctness is a matter of loops, buffers and interleavings,
and proves what they promise.

| files | what they model |
|---|---|
| `ByteOrder`, `Codec`, `Stream` | byte order, the frame format, streams of frames |
| `Transport`, `FrameIO`, `Net` | sending and receiving over partial reads and writes: first as functions of the socket's behaviour, then the buffers and loops of `lucp.c`, proved against them |
| `Retries` | a request sent again until it is answered |
| `Session`, `SessionLaws`, `SessionThread` | the server's session: one pass, every run, and the thread that executes it |
| `SessionConnection`, `SessionCompletion` | a run against its connection, and the runs that complete |
| `ClientScript`, `ClientDemo` | the client's script and the program that follows it |
| `Agreement`, `Completion` | client and server composed over two byte channels |
| `AcceptLoop` | the accept loop and the exiting threads around the shared counter |
| `Paths`, `CStrings`, `Luftpd`, `Normalize`, `Resolvers` | the two path resolvers and the clamped stack behind both |
| `RateLimit` | the hashed rate-limit table against a plain map |
| `Sequences` | facts about sequences |

How the surroundings enter the model:

* A socket is a finite script of read and write results (data of any size, a result
  of 0, EINTR, another error), followed by end of file for reads and by errors for
  writes. Statements range over all scripts, so over every fragmentation and every
  failing call.
* Clock readings, the shutdown flag, the dice of the simulated steps and the outcome
  of `select` are parameters, arbitrary at every use.
* `realpath` enters as its contract: the two paths it returns are canonical and
  shorter than `PATH_MAX`.
* A word in memory is the tuple of its bytes, for a little-endian and for a
  big-endian host.

Findings about the code:

* With the root directory `/`, `luftpd_resolve_path` turns away every current
  directory other than `/` itself, because the character after the one-character
  root is compared with a slash. `Luftpd.BaseCheckIsExact` states exactly which
  directories pass.
* A user path of 4096 components is within the length limit, but only the first
  4095 are looked at, so 4095 times `./` followed by `a` resolves to the root itself
  (`Luftpd.LastComponentIsLost`). The resolved path is the full walk of the user path
  exactly when it has fewer components or the last of them is `.`
  (`Luftpd.ResolvedIsFullWalk`).
* `..` at the root is a no-op in both resolvers, as their comments say. The
  assertions at `test/test.c:117-118` and `test/test2.c:237-239` expect a rejection;
  the model follows the code (`Paths.UpIsClamped`).
* The rate limiter keeps one address per bucket. Any other address on the same bucket
  makes it forget a grant, so the three-second rule can be broken
  (`RateLimit.EvictionGrantsEarly`). After its last grant an address is granted again
  exactly when three seconds have passed or another address has used the bucket since
  (`RateLimit.RuleIsExact`).
* A session that fails on the status of a message still renews its activity time;
  `SessionLaws.ActivityIsRecorded` names the passes that do.
* COMPLETED is not final: a pass that starts too late still turns it into ERROR
  (`SessionLaws.CompletedEnds`).

## Model

| member | source | states |
|---|---|---|
| ByteOrder.PackedBytesAreBigEndian | lucplib/lucp.c:30-59 | on a host of either byte order the converted 32- and 16-bit fields lie in memory most significant byte first |
| ByteOrder.LoadedBytesAreBigEndian | lucplib/lucp.c:49-59 | on either host, bytes loaded and converted are read most significant byte first |
| ByteOrder.CrossHost | lucplib/lucp.c:30-59 | a field written by a host of either order is read as the same value by a host of either order |
| Codec.DecodeOfEncode | lucplib/lucp.c:66-176 | unpacking a packed valid frame, whatever follows it, gives back the frame and consumes exactly its bytes |
| Codec.EncodeOfDecode | lucplib/lucp.c:118-176 | any frame unpacked is valid, and packing it again reproduces exactly the bytes consumed |
| Codec.DecodeStable | lucplib/lucp.c:118-176 | a positive count or a -1 is never changed by bytes that arrive later |
| Codec.IncompleteIsShort | lucplib/lucp.c:154-164 | "incomplete" is only ever said of fewer than 1024 bytes, and corruption only of a whole header |
| Codec.DecodeCharacterised | lucplib/lucp.c:118-176 | the verdict against the set of valid encodings: a frame is delivered iff the input starts with its encoding, and past the header input is incomplete iff it can still grow into a valid encoding |
| Codec.WireFormat | lucplib/lucp.c:118-176 | byte by byte: a header is corrupt exactly if it does not start with 'LUCP' or announces more than 1010 bytes of text, and every field of a frame is taken from its place |
| Stream.PrefixFree | lucplib/lucp.c:66-176 | if the bytes of one list of valid frames begin the bytes of another, the first list begins the second |
| Stream.UniquelyDecodable | lucplib/lucp.c:66-176 | two lists of valid frames with the same bytes are the same list |
| Stream.ParseOfEncodeAll | lucplib/lucp.c:118-176 | decoding a stream of encoded frames with any tail recovers the frames and goes on with the tail |
| Stream.ParseAccounts | lucplib/lucp.c:118-176 | decoding a stream accounts for every byte and stops only where no further frame can be taken |
| Stream.ParseGrows | lucplib/lucp.c:118-176 | later bytes only add frames, and none after a corrupt header |
| FrameIO.FrameStruct.constructor | lucplib/lucp.h:47-57 | a frame structure with room for 1010 bytes of text |
| FrameIO.PackHeader | lucplib/lucp.c:86-100 | the fourteen header bytes are stored field by field and nothing behind them is touched |
| FrameIO.Pack | lucplib/lucp.c:66-112 | -1 exactly for a buffer too small or a text too long, with the buffer untouched; otherwise the encoding overwrites the start of the buffer and nothing else, on either host |
| FrameIO.UnpackHeader | lucplib/lucp.c:139-152 | every header field is taken from its own bytes, on either host |
| FrameIO.Unpack | lucplib/lucp.c:118-176 | the return value and the stored frame are the decoder's verdict on the first buflen bytes; text bytes past the frame's length are kept |
| FrameIO.Make | lucplib/lucp.c:181-210 | magic 'LUCP', version 1.0 and the given fields; the text is the given one cut at 1010 bytes, or as many of the bytes already in the frame when no text is given; what lies behind it is kept |
| Transport.ReceiveAccounts | lucplib/lucp.c:287-357 | one receive call loses and invents no byte; only a failing read stops it without a frame and only a corrupt header of the stream itself makes it drop anything |
| Transport.ReceiveIsBounded | lucplib/lucp.c:316-356 | one receive call makes at most 1024 successful reads, fewer by what is already buffered |
| Transport.ChunksAreReceived | lucplib/lucp.c:295-356 | a call reads chunk by chunk until the bytes decide it, returns what it would for the same bytes already buffered, and leaves everything behind them unread |
| Transport.ReceiveLedger | lucplib/lucp.c:295-356 | over any calls, with errors and end of file anywhere, the bytes of the stream are the delivered frames and the dropped blocks in order, then what is still pending |
| Transport.Fifo | lucplib/lucp.c:287-357 | under any fragmentation and any failing reads, calls deliver exactly the frames of the stream in order, never a corruption error; each failing read costs at most one call |
| Transport.CorruptionIsInTheStream | lucplib/lucp.c:307-354 | for every chunking, the frames delivered before anything is dropped begin those of the reference decoder on the whole stream, and are all of them once something is dropped |
| Transport.CorruptionIsReported | lucplib/lucp.c:307-354 | something is dropped only if the reference decoder stops at a corrupt header, and always if so, after more calls than frames before that header and failing reads |
| Transport.WriteAllFills | lucplib/lucp.c:235-256 | interruptions and short writes never matter: what is written is what fits before the first failing or zero write, and all of it exactly when it fits |
| Transport.WriteAllTakes | lucplib/lucp.c:239-254 | writes are made one after the other, and none once everything is written |
| Transport.SendSucceedsIff | lucplib/lucp.c:261-282 | a send succeeds exactly for a packable frame that fits before the first failing write, and hands over what fits; an unpackable one touches nothing |
| Transport.SendManySucceedsIff | lucplib/lucp.c:261-282 | all of several sends succeed exactly if each frame is packable and fits what the sends before it left |
| Transport.SendManyBytes | lucplib/lucp.c:235-282 | successful sends put exactly the concatenated encodings on the wire, however the writes were split or interrupted |
| Transport.SendManyParts | lucplib/lucp.c:235-282 | of each frame sent a leading part goes out, all of it for every frame exactly when every send succeeds |
| Transport.EndToEnd | lucplib/lucp.c:235-357 | frames of successful sends are received exactly, in order and with nothing left over, by as many calls, for every split of writes and reads |
| Transport.SteadyEndToEnd | lucplib/lucp.c:235-357 | valid frames sent over a socket that never fails, with a write to spare for every byte, all go out and are all received, exactly and in order |
| Retries.RetryStopsAtAnswer | lucplib/lucp.c:375-419 | success ends with the first outcome that answers, after at most n attempts; failure means exactly n attempts and no answer; at most one receive call per attempt |
| Retries.RetryCopies | lucplib/lucp.c:375-382 | each attempt puts a leading part of the request on the wire, all of it when its send succeeds; when all do, between one and n whole copies, and n on failure |
| Retries.RetryReturnsFirstAnswer | lucplib/lucp.c:403-411 | on an inbound stream of frames success returns the first with the expected type and the request's sequence number and has consumed exactly the frames up to it; failure has consumed only frames that do not answer |
| Retries.RetrySucceedsIff | lucplib/lucp.c:375-419 | with successful sends, readable waits and no failing read, the request is answered exactly if the reply is among the next n frames |
| Retries.RetryReceivesWhenReadable | lucplib/lucp.c:378-414 | one receive call in each attempt whose send succeeded and whose wait found the socket readable, and none in any other |
| Retries.UnreadableReceivesNothing | lucplib/lucp.c:393-402 | when no wait finds the socket readable the call fails and leaves the inbound stream untouched, buffered replies included |
| Net.FullWrite | lucplib/lucp.c:235-256 | 0 exactly when everything was handed over; otherwise a leading part was |
| Net.NetCtx.constructor | lucplib/lucp.c:218-229 | a new context has nothing buffered and its ledger is empty |
| Net.NetCtx.Compact | lucplib/lucp.c:300-303 | the bytes behind the parsed frame are moved to the front, in order |
| Net.NetCtx.Fill | lucplib/lucp.c:318-337 | one read appends what the socket gives to the buffered bytes, and the history of bytes read stays accounted for |
| Net.NetCtx.TakeFrame | lucplib/lucp.c:296-313 | a parse of the buffer delivers a frame and keeps the rest, drops a corrupt buffer, or leaves an incomplete one as it is |
| Net.NetCtx.Recv | lucplib/lucp.c:287-357 | the reassembly loop ends, never overflows its 2048 bytes, offers every read at least 1025 of them, computes the one-call function, and keeps: all bytes ever read are the ledger of outcomes followed by the buffer |
| Net.NetCtx.Transmit | lucplib/lucp.c:261-282 | the encoding is handed over whole, or up to where the socket failed; an unpackable frame sends nothing |
| Net.NetCtx.SendWithRetries | lucplib/lucp.c:362-420 | the result, the reply, everything sent and every receive outcome are those of the retried request on values, for every behaviour of the socket and of select; on 0 the reply has the expected type and the request's sequence number |
| Net.NetCtx.TryOnce | lucplib/lucp.c:377-416 | one attempt sends, and receives exactly when the send succeeded and the wait found the socket readable; EINTR while waiting counts as readable |
| Session.IterateProgress | lucpd/src/lucpd.c:77-232 | each pass raises the rank of the phase, or uses up at least 14 bytes by ignoring a frame, or ends the loop; the rank never falls |
| SessionLaws.RunEnds | lucpd/src/lucpd.c:77-232 | on every finite inbound stream the session loop stops, and the run is one of the bounded ones |
| SessionLaws.RankNeverDecreases | lucpd/src/lucpd.c:19-28 | the rank of the phase never decreases along a run |
| SessionLaws.SessionDiscipline | lucpd/src/lucpd.c:77-232 | in every state of every run: no cloud-upload phase, at most one ACK_START then at most one NOTIFY_DONE, all with the upload request's sequence number; COMPLETED only after all three messages in order, every status a success, frames of other types ignored in between; the trace of a run in ERROR is that of the way it came, with the message or preparation whose version or status failed if one did |
| SessionLaws.ElapsedIsDifference | lucpd/src/lucpd.c:80-81 | the narrowing cast gives the difference of the readings modulo 2^32 in the range of an int, so the plain difference within 2^31 ms either way |
| SessionLaws.IdleSessionStops | lucpd/src/lucpd.c:79-85 | an idle session ends in ERROR in that same pass, from any phase, with nothing received or sent |
| SessionLaws.ActivityIsRecorded | lucpd/src/lucpd.c:110-214 | the activity time becomes the pass's second clock reading exactly when the pass starts in time and accepts an upload request, prepares the log or takes the awaited result, whatever its status; otherwise it is kept |
| SessionLaws.ErrorHasCause | lucpd/src/lucpd.c:77-232 | a run is in ERROR exactly if one of its passes timed out, got no frame from its receive call, met a wrong version, or met a failing status |
| SessionLaws.CompletedEnds | lucpd/src/lucpd.c:221-224 | a pass in COMPLETED ends the loop with nothing received or sent, and turns into ERROR exactly when it came too late |
| SessionConnection.TraceIsConnection | lucpd/src/lucpd.c:77-232 | in every state of every run the frames received are what the receive calls took from the connection and the outlet is where sending the traced frames, one by one, leaves it |
| SessionConnection.SessionInput | lucpd/src/lucpd.c:77-232 | on a stream of frames a session has received the leading ones in order, and the others are still pending |
| SessionConnection.SessionOutput | lucpd/src/lucpd.c:77-232 | while the socket takes two frames, every reply in the trace is on the wire, whole and in order, and nothing else |
| SessionCompletion.EveryStoryHappens | lucpd/src/lucpd.c:77-232 | the converse of the discipline: a stream with the three messages in order, ignored frames between them, in any pieces, with passes in time and a good die, makes the session complete with exactly that trace |
| Session.RepliesOnTheWire | lucpd/src/lucpd.c:98-156 | every frame the server can send, byte for byte, with its type, status and text |
| SessionThread.LucpSession.constructor | lucpd/src/lucpd.c:321-324 | a new session starts in INIT on an empty context |
| SessionThread.LucpSession.AwaitUploadRequest | lucpd/src/lucpd.c:89-127 | the INIT case in place: version check, acknowledgement, sequence number, or ERROR on a failed receive |
| SessionThread.LucpSession.PrepareLog | lucpd/src/lucpd.c:128-170 | the WAITING_UPLOAD_REQUEST case in place |
| SessionThread.LucpSession.AwaitResult | lucpd/src/lucpd.c:171-220 | the two result cases in place |
| SessionThread.LucpSession.Pass | lucpd/src/lucpd.c:77-232 | one pass of the loop updates the session, its context and the connection as the pure pass does |
| SessionThread.LucpSession.Loop | lucpd/src/lucpd.c:77-232 | the loop ends, for every behaviour of the surroundings, in the state of the pure run |
| ClientScript.RequestOnTheWire | demo/lucp_client_demo.c:73-78 | the 37 bytes of the client's request, header and text, one by one |
| ClientDemo.ResultsOnTheWire | demo/lucp_client_demo.c:32-48 | the result messages: types 4 and 5, status 0x20 and 0x21 with their reasons on failure, status 1 with the payload on success |
| ClientDemo.Client.Converse | demo/lucp_client_demo.c:76-135 | the request is always sent; the client stops early exactly at the wait or receive that gave nothing, the frame of the wrong type, the failing status or the failing login, and returns 1 then; the result messages are those of the dice; 0 exactly after all five steps; sent and received is what its context sent and received |
| Agreement.StepKeepsInv | demo/lucp_client_demo.c:76-131 | every action of either process keeps, per direction: taken, buffered, in flight and queued bytes are together the bytes of the frames sent (a beginning of them once a write failed); and both processes keep to their scripts |
| Agreement.TwoPartyAgreement | lucpd/src/lucpd.c:77-232 | in every interleaving, if the server is in COMPLETED the client had received ACK_START, then NOTIFY_DONE with status 1 and its own sequence number, and had sent a successful login and then a successful download result; each received exactly what the other sent |
| Agreement.NoSpuriousFrames | lucplib/lucp.c:287-357 | in every interleaving each side has received a leading part of what the other sent, and neither ever finds a corrupt header |
| Agreement.PassIsIterate | lucpd/src/lucpd.c:77-232 | every pass of the composed server, fed any chunks, whether it takes a frame, fails to, prepares the log or stops, is the pass of the session loop on a connection that delivers the same chunks: same session, events and left-over bytes, and the send hands over what fits of the queued reply |
| Completion.CompletionIsReachable | lucpd/src/lucpd.c:196-214 | some interleaving does reach COMPLETED, so the agreement is not empty |
| AcceptLoop.SessionLimit | lucpd/src/lucpd.c:297-329 | in every interleaving live sessions never exceed max_clients, and client_count is their number, less one while a new thread is not counted yet, so between -1 and max_clients |
| AcceptLoop.RejectionIsExact | lucpd/src/lucpd.c:312-318 | at the limit check a connection is turned away exactly when all places are taken |
| AcceptLoop.PlacesAreReused | lucpd/src/lucpd.c:297-333 | in every interleaving, a waiting loop gives the next connection a session if a place is free and changes nothing otherwise, and a session that ends frees its place |
| AcceptLoop.EveryLoadIsReachable | lucpd/src/lucpd.c:297-333 | every number of sessions up to max_clients can be served at once |
| AcceptLoop.CounterCanBeNegative | lucpd/src/lucpd.c:234-238 | the bound of -1 is reached by a thread that ends before it is counted |
| Paths.SplitConcat | luftpd/src/luftpd_utils.c:203-209 | the tokens of a path joined with a slash are the tokens of its parts |
| Paths.UpIsClamped | luftpd/src/luftpd_utils.c:233-260 | k times ".." removes the last k components and stops at the root |
| Paths.CanonicalIffNormal | test/test.c:11-44 | a path is canonical (leading slash, no empty, "." or ".." component, no trailing slash except the root) exactly when normalising leaves it unchanged |
| Paths.NormalIsCanonical | test/test.c:11-44 | every normal form is canonical, and normalising is idempotent |
| Paths.NormalOfJoin | test/test.c:57-71 | normalising a path appended to a normal form walks its components from where that form ended |
| CStrings.FindLastSlash | luftpd/src/luftpd_utils.c:245 | the last slash of the string in a buffer, or none |
| CStrings.NextToken | luftpd/src/luftpd_utils.c:204-209 | the next token and what is left to tokenise |
| Luftpd.BaseCheckIsExact | luftpd/src/luftpd_utils.c:142-157 | the base check admits exactly the root and the directories below it, except that under "/" it admits only "/" |
| Luftpd.ParentText | luftpd/src/luftpd_utils.c:244-258 | cutting at the last slash, or at the root, or not at all, is popping the stack clamped at the root, also for the root "/" |
| Luftpd.GoUp | luftpd/src/luftpd_utils.c:233-260 | the in-place ".." step pops the clamped stack; its prefix check never fails |
| Luftpd.GoDown | luftpd/src/luftpd_utils.c:261-282 | a component is pushed exactly when it fits |
| Luftpd.WalkComponents | luftpd/src/luftpd_utils.c:221-283 | the loop succeeds exactly when every push fits, and result_path is then the root joined with the walked stack |
| Luftpd.ResolveLexical | luftpd/src/luftpd_utils.c:142-290 | result_path, or the error, is that of the clamped walk from the chosen base, for every root, directory and user path |
| Luftpd.ErrorsAreExact | luftpd/src/luftpd_utils.c:142-200 | EACCES exactly for a directory that is neither the root nor below it (under "/", other than it); ENAMETOOLONG otherwise exactly for a user path of 8192 characters or a push that does not fit |
| Luftpd.ShortPathsResolve | luftpd/src/luftpd_utils.c:142-290 | any user path that fits behind its starting directory resolves to the full clamped walk, from the root if absolute, from the directory if not, also under the root "/" |
| Luftpd.AtMostOneIsLost | luftpd/src/luftpd_utils.c:203-209 | a user path within the length limit has at most 4096 components; all are considered exactly when there are fewer, else all but one, which is one character long |
| Luftpd.ResolvedIsFullWalk | luftpd/src/luftpd_utils.c:203-283 | a resolved path is the full clamped walk of the user path exactly when it has fewer than 4096 components or the last one is "." |
| Luftpd.LastComponentIsLost | luftpd/src/luftpd_utils.c:206-207 | a path of 4096 components whose last is never seen: it resolves to the root |
| Luftpd.ResolvedStaysInside | luftpd/src/luftpd_utils.c:285-290 | whatever the user path, a result is canonical and is the root or lies below it component by component |
| Normalize.PushComponents | test/test.c:21-30 | the component array holds the clamped walk of the tokens; -1 exactly when it would fill up |
| Normalize.RenderComponents | test/test.c:32-43 | the buffer holds the rendered stack; -1 exactly when it asks for more room |
| Normalize.NormalizePath | test/test.c:11-44 | succeeds exactly within its limits and leaves the normal form of the path held on entry, also when both arguments are the same buffer |
| Normalize.NormalizesIff | test/test.c:11-44 | success exactly for a path under 4096 characters with fewer than 2048 components left whose normal form and two more bytes fit, or which is the root; components pushed and popped on the way never matter |
| Normalize.NormalizesAtPathMax | test/test.c:16-30 | with a buffer of PATH_MAX only the two lengths decide, the component array never does |
| Resolvers.ResolveLocal | test/test.c:57-75 | the local path, or the error code, of steps 1 to 3, joining and normalising in one buffer |
| Resolvers.AbsLocalIsWalk | test/test.c:57-75 | the local path is the root followed by the clamped walk from the client's directory |
| Resolvers.AbsLocalIsExact | test/test.c:57-75 | the local path for every input: the root followed by the clamped walk, or -1 or -3, each exactly when a named length is exceeded |
| Resolvers.ShortPathsResolve | test/test.c:57-75 | every input whose three lengths add up to less than 4093 resolves |
| Resolvers.AcceptedFits | luftpd/src/luftpd_utils.c:267-272 | whatever resolve_path accepts also fits the limits of luftpd_resolve_path |
| Resolvers.ResolversAgree | luftpd/src/luftpd_utils.c:159-283 | for every canonical root but "/", every client directory and every user path resolve_path accepts, luftpd_resolve_path accepts it too and names the same path, up to the trailing slash of the root |
| Resolvers.ShortPathsAgree | luftpd/src/luftpd_utils.c:159-283 | for every such input both resolvers succeed, with the clamped walk under the root |
| RateLimit.HashFunction | lucpd/src/lucpd_utils.c:87-95 | the wrapping 32-bit loop computes the unbounded base-33 polynomial of the characters modulo 1024, for signed characters too |
| RateLimit.Limiter.Check | lucpd/src/lucpd_utils.c:98-135 | one call's verdict and the new contents of both arrays |
| RateLimit.LimiterIsExact | lucpd/src/lucpd_utils.c:111-132 | after any history a call is denied exactly when a per-address map, started afresh where another address last used the bucket, denies it |
| RateLimit.LimiterRefinesMap | lucpd/src/lucpd_utils.c:111-132 | for an address whose bucket no other address uses after its first call, the limiter is the per-address map |
| RateLimit.RuleIsExact | lucpd/src/lucpd_utils.c:111-132 | after its last grant an address is granted exactly if three seconds have passed or another address has used the bucket since |
| RateLimit.GrantsAreSpaced | lucpd/src/lucpd_utils.c:115-118 | consecutive grants with no other address on the bucket between them are at least three seconds apart |
| RateLimit.EvictionGrantsEarly | lucpd/src/lucpd_utils.c:125-131 | two hosts of one network that share a bucket break the rule: a grant after one second |
| RateLimit.LongAddressesAreNeverDenied | lucpd/src/lucpd_utils.c:128-129 | an address longer than a slot is never limited |

## Left out

- NULL-pointer guards: frames, contexts and buffers are non-null references; only the text of `lucp_frame_make` may be absent.
- Sockets, signals, logging, sleeping and reply formatting; `select` is a parameter, and no claim is made about delivery within a timeout.
- A read loop that meets EINTR forever: scripts are finite.
- Thread creation that fails: `pthread_create` is taken to succeed.
- Two-party model: the uninitialised payload of a successful step of the client is an arbitrary text; a client may close and a receive may fail at any time, which covers timeouts.
- `realpath` itself, symbolic links, the output buffer, and the checks on its result after `result_path`.
- Paths as tokens: `strtok` is modelled as returning copies of the tokens, so its rewriting of the scratch buffer, which nothing else reads, is not shown.
- Normalize.NormalizePath: a one-byte buffer with a path that normalises to the root is outside its precondition, since the source then stores a second byte.
- Normalize.RenderComponents: an empty stack needs a buffer of two bytes, for the same reason.
- RateLimit.LimiterIsExact: here and in RuleIsExact an address is assumed not to equal the first 15 characters of a longer one; a slot could not tell these apart.
- The mutex of the rate limiter: calls are taken one at a time.
- FTP command handlers, data connections, the shared client table, configuration loading and argument parsing.
