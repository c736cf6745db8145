# Verification model of the Geruest web server

A Dafny model of the parts of the server where a loop or a state machine must agree with a short specification
on unbounded input. Each component that changes state step by step is a class or a method with loops, proved
equal to a function of the old state; the properties are proved about that function.

- **HTTP message framing** (`HttpScan`, `HttpChunks`, `HttpFraming`, `HttpCuts`, `HttpFirstEnd`, `HttpAnyCut`,
  `HttpTwoEnds`, `HttpLengths`, `HttpReader`). A connection is the list of pieces its socket will deliver (an empty piece, or none
  left, is a read that fails). `HttpFraming.Next` is one call of the reader. The main results: every emitted message is
  complete and no byte is lost, on every stream; and for framed messages the cut into reads does not matter. It can
  matter where a bare LFLF or CRCR ends before CRLFCRLF (`HttpCuts.CutsDecide`, `HttpCuts.BareNewlinesDecide`); exactly
  when the end of the headers is the same for every cut is `HttpFirstEnd.EndExactly`, and exactly which messages are
  read first however they are cut is `HttpFirstEnd.FirstExactly`; runs of those are `HttpAnyCut.ServesFirsts`.
  What the header fields say of the body, as a client writes them, is in `HttpLengths`.
- **WebSocket** (`WsCodec`, `WsReader`, `WsFrames`, `WsMessages`, `WsWriteChain`). Frames and bytes are exact inverses; a
  fragmented message comes back whole, and whatever comes back was sent. The write chain is a state machine whose
  theorems hold in every interleaving; once disabled it can leave a writer waiting for ever, exactly as
  `WsWriteChain.RestIsCompleteExactly` says. The reserved control opcodes 11 to 15 are taken for data by the code, and
  a frame with a data opcode in the middle of a message starts a new one; the model does the same, and
  `WsMessages.MessageIsWholeExactly` says when that has happened.
- **JavaScript renaming** (`JsLexer`, `JsContext`, `JsLiterals`, `JsScope`, `JsScopeLemmas`, `JsScoping`, `JsPlan`,
  `JsWords`, `JsSites`, `JsNames`, `JsParser`, `JsRename`, `JsHoisting`) and the **literal encoders** (`StringLiteral`, `NumberExpression`). The error-tolerant
  parser ends on every input, keeps its scope discipline and misses no identifier outside skipped declaration patterns;
  the tokens are those of a lexical context told character by character, and strings and comments are kept;
  the plan is sound, only planned identifiers change, and a name keeps one spelling unless the tokens show a local declaration of
  it (`JsSites.DeclaredLocally`). A negative number is not preserved by the number encoder: its hexadecimal form is
  that of its 32 bits.
- **JSON** (`JsonText`, `JsonRoundTrip`, `JsonLayout`, `JsonExactly`, `JsonGrammar`, `JsonParser`). Printing then
  parsing is the identity on printable documents of any depth, in any layout; which values, keys and objects survive is stated exactly
  (`JsonRoundTrip.ValueSurvives`, `JsonRoundTrip.KeySurvives`, `JsonExactly.ObjectReadBackExactly`). `Diverges` is
  the result of a parse that never returns; exactly when that happens is `JsonText.NeverReturnsExactly`.
- **Routing** (`Wildcard`, `Languages`, `Redirects`, `Gates`). The wildcard matcher is the glob relation;
  redirects never cycle exactly without wildcard rules and without a language of two letters
  (`Redirects.NeverCyclesExactly`); resolution does not depend on the order of hash maps.
- **Stateful accounting** (`ServerMetrics`, `Caches`, `EmailLimiter`) and **Base64** (`Base64`).

`Chars`, `Numbers` and `StringOrder` hold shared vocabulary. Strings of the program are sequences of characters, payloads
sequences of bytes; sizes are natural numbers, and 32- and 64-bit wrap-around is written out where it matters.

## Model

| member | source | states |
|---|---|---|
| `HttpScan.Find` | src/data/HTTPRequest.cpp:134-162 | the first occurrence at or after a position, or proof that there is none (std::string::find) |
| `HttpScan.EqualsIgnoringSpace` | src/data/HTTPRequest.cpp:102-126 | true exactly when the two names agree without white space and case |
| `HttpScan.ParseHeaderPreflight` | src/data/HTTPRequest.cpp:164-200 | each of Expect, Content-Length and Transfer-Encoding is the first non-empty value of a header line so named |
| `HttpScan.HeaderHasToken` | src/data/HTTPRequest.hpp:157-199 | true exactly when some comma-separated part, trimmed and in lower case, is the token |
| `HttpScan.FindChunkedBodyEnd` | src/data/HTTPRequest.cpp:202-249 | the wrapping 64-bit scan loop ends and returns the unbounded scan, unless a wrapped sum comes out at a CRLF behind |
| `HttpScan.ResumeExactly` | src/data/HTTPRequest.cpp:240-247 | the next chunk is the same in 64-bit as in unbounded arithmetic exactly when the wrapped sum does not come out at a CRLF; if it does the scan resumes behind where it was, though there is no next chunk |
| `HttpScan.NextChunk` | src/data/HTTPRequest.cpp:240-247 | the bound and the CRLF after the data of a chunk, in 64-bit arithmetic |
| `HttpChunks.FoundFits` | src/data/HTTPRequest.cpp:202-249 | in bytes in which a body ends, shorter than 2^64, no sum comes out behind, on the whole or on any front |
| `HttpChunks.EncodingFits` | src/data/HTTPRequest.cpp:202-249 | nor on any encoding shorter than that, so that the scan loop returns where it ends |
| `HttpReader.EndedFits` | src/data/HTTPRequest.cpp:202-249 | so the reader may scan every front of bytes in which a chunked body ends |
| `HttpScan.FindStable` | src/data/HTTPRequest.cpp:134-162 | a found delimiter stays the first one when more bytes are appended |
| `HttpChunks.ChunkedExact` | src/data/HTTPRequest.cpp:202-249 | on any encoding (hexadecimal sizes of either case, leading zeros, extensions, trailers; section 7.1 of RFC 9112) at any offset and followed by anything, the scan returns exactly where the encoding ends |
| `HttpChunks.ChunkedIncomplete` | src/data/HTTPRequest.cpp:202-249 | on every strict prefix of an encoding no end is found |
| `HttpChunks.ChunkedStable` | src/data/HTTPRequest.cpp:202-249 | for any bytes, a found end does not move when more bytes arrive |
| `HttpChunks.TrailersEnd` | src/data/HTTPRequest.cpp:229-238 | the empty line after the trailer fields is the first CRLFCRLF |
| `HttpCuts.ChunkedCut` | src/data/HTTPRequest.cpp:202-249 | for any bytes, a found end is found in the bytes up to it alone |
| `HttpCuts.RequestIsFront` | src/handler/HttpFraming.cpp:116-251 | on every stream and every cut: an emitted message is complete (headers that really end there, body of exactly the announced length or chunked extent) and message plus what is kept is all the bytes there were |
| `HttpCuts.FrontUnique` | src/handler/HttpFraming.cpp:116-251 | no other complete message is a front of a stream that starts with a framed message |
| `HttpCuts.NextServes` | src/handler/HttpFraming.cpp:116-251 | a framed message at the front is read however it is cut; only a 100 Continue is sent, and only if expected |
| `HttpCuts.NextIs` | src/handler/HttpFraming.cpp:116-251 | one call returns exactly the framed message at the front and keeps exactly the rest, also on a socket that refuses writes unless the message expects 100 Continue |
| `HttpCuts.ServesExactly` | src/handler/HttpFraming.cpp:116-251 | framed messages come out one by one, however they are cut: all of them, or exactly as many as the request limit allows; a stream that then stops, inside a message or not, yields nothing more and ends as specified; a socket that refuses writes matters only if a message expects 100 Continue |
| `HttpCuts.EndsInside` | src/handler/HttpFraming.cpp:116-251 | a strict front of a framed message yields no request |
| `HttpCuts.CutsDoNotMatter` | src/handler/HttpFraming.cpp:116-251 | two connections that receive the same bytes in different pieces serve the same requests and end the same way, with or without a request limit, also when the stream stops inside a message |
| `HttpCuts.ChunkedIsFramed` | src/handler/HttpFraming.cpp:212-236 | headers announcing a chunked body followed by any encoding one buffer below 16 MiB are a framed message |
| `HttpCuts.FixedIsFramed` | src/handler/HttpFraming.cpp:210-250 | headers that end at the first CRLFCRLF without a bare delimiter before it, and a body of the announced length, are a framed message |
| `HttpCuts.NothingEarlier` | src/data/HTTPRequest.cpp:134-162 | no front of such headers splits |
| `HttpCuts.SmallestRequest` | src/handler/HttpFraming.cpp:116-251 | framed messages exist |
| `HttpCuts.HeadersStableExactly` | src/data/HTTPRequest.cpp:134-162 | for fronts of any length: the end of headers seen is the same however much is in memory exactly when no LFLF or CRCR ends before it |
| `HttpCuts.CutsDecide` | src/handler/HttpFraming.cpp:141-162 | where two ends of headers compete the cut decides which request comes first |
| `HttpFirstEnd.EndExactly` | src/handler/HttpFraming.cpp:141-162 | for every stream and every cut into reads of 1 to 8192 bytes: all connections find the same end of the headers exactly when the first end e is decided: beyond what any cut can read (more than 65536 + 8191), or at most 65536 and either a CRLFCRLF or followed, up to e + 8191, by no CRLFCRLF (and, for CRCR at e, by no LFLF) |
| `HttpFirstEnd.LittleIsKept` | src/handler/HttpFraming.cpp:240-251 | at most one buffer is kept for the next message, which is all that the theorems on cuts assume of a connection |
| `HttpFirstEnd.FirstExactly` | src/handler/HttpFraming.cpp:116-251 | a message whose headers end at a CRLFCRLF is read first from every stream that starts with it, however it is cut, exactly when its first end is within 65536 bytes and every front that can be in memory by then delimits this message, one buffer below the limit if chunked |
| `HttpFirstEnd.FramedExactly` | src/handler/HttpFraming.cpp:116-251 | where nothing ends before the CRLFCRLF those are exactly the framed messages |
| `HttpTwoEnds.TwoEndsOneMessage` | src/handler/HttpFraming.cpp:141-251 | a concrete message that is not framed, because LFLF ends before its CRLFCRLF, and is nevertheless read first however it is cut: from both ends the chunks end at the same place |
| `HttpAnyCut.ServesFirsts` | src/handler/HttpFraming.cpp:116-251 | messages that are each read first however they are cut, framed or not, come out one by one for every cut, as many as the request limit allows; a stream that stops inside one yields nothing more |
| `HttpAnyCut.FrontOfFirst` | src/handler/HttpFraming.cpp:116-251 | a strict front of such a message yields no request |
| `HttpAnyCut.FramedIsFirst` | src/handler/HttpFraming.cpp:116-251 | framed messages are such messages |
| `HttpAnyCut.NextMore` | src/handler/HttpFraming.cpp:116-251 | a message that is read is read the same when more pieces follow |
| `HttpCuts.BareNewlinesDecide` | src/handler/HttpFraming.cpp:141-162 | a concrete input of that kind: a bare LFLF before the CRLFCRLF |
| `HttpFraming.ReadHeadersEnds` | src/handler/HttpFraming.cpp:141-158 | the header loop loses no byte and ends with complete headers |
| `HttpFraming.ReadBodyEnds` | src/handler/HttpFraming.cpp:237-250 | the body loop loses no byte and ends with enough of them |
| `HttpFraming.ReadChunkedEnds` | src/handler/HttpFraming.cpp:212-236 | the chunked loop loses no byte and ends where the body ends |
| `HttpReader.Framing.ReadSocket` | src/handler/HttpFraming.cpp:61-95 | one read: at most the buffer size, the rest of the piece stays |
| `HttpReader.Framing.DiscardFromSocket` | src/handler/HttpFraming.cpp:101-114 | reads and drops exactly as many bytes as asked, or until a read fails |
| `HttpReader.Framing.FillHeaders` | src/handler/HttpFraming.cpp:141-158 | the header loop, with its 65536-byte limit, is the specified one |
| `HttpReader.Framing.FillChunked` | src/handler/HttpFraming.cpp:212-236 | the chunked loop, with its limit checked after each read, is the specified one |
| `HttpReader.Framing.PlanBody` | src/handler/HttpFraming.cpp:163-210 | how the body is delimited: a Content-Length with a non-digit is malformed; the decimal numeral of n is malformed from 2^64 on, too long above 16 MiB, otherwise chunked if the token says so and else fixed at n |
| `HttpLengths.LengthIsFramed` | src/handler/HttpFraming.cpp:175-185 | headers as a client writes them, names in any mixture of cases, white space around values, whose Content-Length is a decimal numeral of n (leading zeros or not), or that have none and n is 0, and that announce no chunks: with a body of exactly n bytes, up to 16 MiB, they are one framed message |
| `HttpLengths.ChunksDecide` | src/handler/HttpFraming.cpp:175-236 | where Transfer-Encoding lists chunked, alone or among other codings, the chunked extent ends the message, whatever length is announced as well |
| `HttpLengths.MessageIsRead` | src/handler/HttpFraming.cpp:116-251 | one call returns the bytes of such a message, keeps the bytes after it, and sends one 100 Continue exactly when the headers ask for it |
| `HttpLengths.NoNumberRefused` | src/handler/HttpFraming.cpp:175-183 | a Content-Length with a character that is no digit, or of 2^64 or more, gives Abort and one BadRequest, and no byte is read that was not read for the headers |
| `HttpLengths.TooLongRefused` | src/handler/HttpFraming.cpp:190-200 | a Content-Length above 16 MiB gives Abort and one BadRequest, and exactly so many bytes after the headers are dropped, or all there are |
| `HttpLengths.PlanIs` | src/handler/HttpFraming.cpp:160-210 | for such headers: fixed length, chunks, too long or malformed, in literal numbers |
| `HttpLengths.ExpectsExactly` | src/data/HTTPRequest.hpp:227-255 | the reader sees an expectation exactly when the first Expect value starts with 100-continue in any mixture of cases, ended by the end, a comma or white space |
| `HttpLengths.RenderSays` | src/data/HTTPRequest.cpp:164-200 | the preflight of written headers holds the first non-empty value of each of the three fields |
| `HttpLengths.RenderPlain` | src/data/HTTPRequest.cpp:134-162 | written headers end at their empty line and nowhere earlier |
| `HttpLengths.TokenListed` | src/data/HTTPRequest.hpp:157-199 | a value that lists a word between commas and white space, in any mixture of cases, holds it as a token; another word alone does not |
| `HttpLengths.LengthReads` | src/data/HTTPRequest.cpp:252-265 | a decimal numeral is read as its number if that fits 64 bits, and otherwise as none |
| `HttpLengths.HexReads` | src/data/HTTPRequest.cpp:202-249 | the hexadecimal numeral of a chunk size, in lower case, is read as its number |
| `HttpReader.Framing.ReadBodyBy` | src/handler/HttpFraming.cpp:180-251 | each way of delimiting a body: replies, bytes discarded or read, message and bytes kept |
| `HttpReader.Framing.ReadBodyOf` | src/handler/HttpFraming.cpp:160-251 | preflight and 100 Continue before the body: outcome and whole new state |
| `HttpReader.Framing.ReadNextRequest` | src/handler/HttpFraming.cpp:116-251 | one call: outcome and whole new state are those of the specification |
| `WsCodec.XorTwice` | src/server/WebSocket.cpp:82-86 | masking a byte twice gives it back |
| `WsCodec.XorIsExclusive` | src/server/WebSocket.cpp:82-86 | each bit of the combined byte is set exactly when the two bits differ |
| `WsCodec.XorOnly` | src/server/WebSocket.cpp:82-86 | and no other byte has those bits |
| `WsCodec.HelloFrames` | src/server/WebSocket.cpp:171-260 | the masked and the plain text frame with Hello of section 5.7 of RFC 6455, read and written |
| `WsFrames.BadControl` | src/server/WebSocket.cpp:654-661 | at any point of any message: a control frame in fragments or with more than 125 bytes closes the connection with 1002 and its reason; the close frame goes out if the socket takes one |
| `WsFrames.CloseArrives` | src/server/WebSocket.cpp:670-682 | a close frame is answered with its own code and reason, without a code with 1005 |
| `WsFrames.PingArrives` | src/server/WebSocket.cpp:663-669 | a ping is answered with a pong of the same payload, a pong with nothing, and reading goes on |
| `WsFrames.DataArrives` | src/server/WebSocket.cpp:684-705 | a text or binary frame starts a message, and is the whole message when final |
| `WsFrames.ContinuationArrives` | src/server/WebSocket.cpp:688-705 | a continuation within the limit goes on with the message or ends it |
| `WsFrames.BadContinuation` | src/server/WebSocket.cpp:688-697 | a continuation of nothing closes with 1002, one beyond the message limit with 1009 |
| `WsFrames.UnmaskedArrives` | src/server/WebSocket.cpp:622-625 | an unmasked frame closes with 1002 |
| `WsFrames.LargeArrives` | src/server/WebSocket.cpp:640-643 | a frame that announces more than the limit closes with 1009 before its payload is read |
| `WsCodec.UnmaskPayload` | src/server/WebSocket.cpp:82-86 | in place: each bit of each byte is flipped exactly where the key byte at its place modulo 4 has a one |
| `WsCodec.MaskedTwice` | src/server/WebSocket.cpp:82-86 | unmasking a masked payload gives the payload |
| `WsCodec.BigEndianAt` | src/server/WebSocket.cpp:194-200 | the byte left by each shift is the big-endian byte at that place |
| `WsCodec.EncodeServerFrame` | src/server/WebSocket.cpp:171-207 | the frame: first byte, shortest length form, payload |
| `WsCodec.EncodedReadsBack` | src/server/WebSocket.cpp:209-260 | every masked frame in any of the three length forms is read back with nothing after it touched |
| `WsCodec.ReadIsEncoded` | src/server/WebSocket.cpp:209-260 | whatever is read as a frame is the encoding of that frame |
| `WsReader.DecoderAgrees` | src/server/WebSocket.cpp:209-298 | the in-memory decoder and the connection reader agree: errors, close frames, and final frames that start a message |
| `WsReader.Connection.ReadLength` | src/server/WebSocket.cpp:627-638 | 7-, 16- and 64-bit lengths; the bytes consumed |
| `WsReader.Connection.ReadOne` | src/server/WebSocket.cpp:614-652 | one frame is read from the socket as from memory, or the input is used up |
| `WsReader.Connection.TakeControl` | src/server/WebSocket.cpp:654-682 | pings are answered, pongs ignored, close frames echoed, bad control frames refused |
| `WsReader.Connection.ReceiveNow` | src/server/WebSocket.cpp:608-707 | the read loop: message and whole new state are those of the specification |
| `WsReader.Connection.ReadMessageNow` | src/server/WebSocket.cpp:608-711 | also on a connection already closed |
| `WsReader.Connection.CloseNow` | src/server/WebSocket.cpp:518-541 | the close frame is written, then the connection is closed and writing disabled |
| `WsMessages.MessageComesBack` | src/server/WebSocket.cpp:608-707 | for any fragmentation, keys, length forms and interleaved pings and pongs: exactly those bytes are taken, the joined payload comes back with the first frame's type, the pings are answered in order |
| `WsMessages.PongsWritten` | src/server/WebSocket.cpp:663-666 | while the socket accepts them the answers are one pong per ping, in order |
| `WsMessages.PingsOfScript` | src/server/WebSocket.cpp:658-666 | the pings of a script fit in control frames |
| `WsMessages.DataWasSent` | src/server/WebSocket.cpp:608-707 | the converse, for every stream: a returned data message was said by the frames that exactly fill the bytes taken, restarts included |
| `WsMessages.MessageIsWholeExactly` | src/server/WebSocket.cpp:608-707 | the frames of a returned message are one properly fragmented message exactly when only one of them starts a message and the last is of no reserved control kind; then the joined payload is what comes back |
| `WsMessages.ReceiveKeeps` | src/server/WebSocket.cpp:608-709 | for every stream: returned payloads are at most max(maxFrameBytes, maxMessageBytes), input is only consumed, nothing written is lost |
| `WsMessages.ReadMessageKeeps` | src/server/WebSocket.cpp:516-524 | a close message is returned exactly when the connection is closed; a closed connection never opens again and gives the same answer |
| `WsMessages.ServerFrameUnique` | src/server/WebSocket.cpp:171-207 | a stream of server frames can be read in one way only |
| `WsWriteChain.StepSafe` | src/server/WebSocket.cpp:414-506 | every step keeps: one pump at most, pumping exactly while there is one, history is started, discarded and queued in that order, each item in exactly one place |
| `WsWriteChain.RunSafe` | src/server/WebSocket.cpp:414-506 | so does every interleaving |
| `WsWriteChain.ChainIsSafe` | src/server/WebSocket.cpp:414-506 | from the empty chain: one pump at most, frames sent and started are prefixes of the enqueue history, a non-empty queue with writing enabled has a live pump, no completion runs twice |
| `WsWriteChain.StepPlaces` | src/server/WebSocket.cpp:433-471 | items are only moved between mailbox, queue, write and completed, and only offers add one |
| `WsWriteChain.DisabledStartsNothing` | src/server/WebSocket.cpp:447-453 | once writing is disabled no write starts and nothing is enqueued, in any continuation |
| `WsWriteChain.StepInOrder` | src/server/WebSocket.cpp:433-471 | undisturbed steps keep the order of all items ever offered |
| `WsWriteChain.RunsEnd` | src/server/WebSocket.cpp:433-471 | without new offers a run is never longer than the work there was |
| `WsWriteChain.NotStuck` | src/server/WebSocket.cpp:414-471 | a chain that is not idle can go on |
| `WsWriteChain.RestIsComplete` | src/server/WebSocket.cpp:414-506 | an undisturbed chain at rest has sent and completed everything, in the order offered |
| `WsWriteChain.RestIsCompleteExactly` | src/server/WebSocket.cpp:414-506 | of a chain that was disabled and came to rest, everything offered is completed or dropped exactly when the queue was empty at that moment, or held one item and was disabled from outside with no write under way or one that then succeeded |
| `WsWriteChain.StrandedForever` | src/server/WebSocket.cpp:433-506 | with writing disabled and no pump, the writer of a queued frame waits for ever |
| `WsWriteChain.StaysStranded` | src/server/WebSocket.cpp:433-471 | the queue of such a chain never changes |
| `WsWriteChain.WriterStranded` | src/server/WebSocket.cpp:455-466 | a run that gets there: a write fails while a second writer is queued |
| `WsWriteChain.WriteChain.StartPump` | src/server/WebSocket.cpp:421-431 | a pump starts only if none runs and there is work; the step is the specified one |
| `WsWriteChain.WriteChain.EnqueueOnExecutor` | src/server/WebSocket.cpp:416-419 | the item joins the queue and a pump is started if needed; the step is the specified one |
| `WsWriteChain.WriteChain.Schedule` | src/server/WebSocket.cpp:473-506 | nothing happens once writing is disabled; otherwise the frame is posted; the step is the specified one and safety is kept |
| `WsWriteChain.WriteChain.RunPosted` | src/server/WebSocket.cpp:478-501 | posted work checks again before it enqueues; the step is the specified one and safety is kept |
| `WsWriteChain.WriteChain.PumpFromTop` | src/server/WebSocket.cpp:433-453 | empty queue, disabled writing, or the next write; the step is the specified one and safety is kept |
| `WsWriteChain.WriteChain.WriteEnds` | src/server/WebSocket.cpp:455-471 | success goes on, failure disables writing and ends the pump; the step is the specified one and safety is kept |
| `WsWriteChain.WriteChain.DisableWrites` | src/server/WebSocket.cpp:516-521 | writing is disabled; the step is the specified one and safety is kept |
| `JsLexer.TemplateInterpolationClose` | src/builders/JSObfuscatorScope.cpp:114-218 | the four-mode scan loop returns the matching brace of the interpolation, or none |
| `JsLexer.LexIsOk` | src/builders/JSObfuscatorScope.cpp:507-616 | for every text the tokens are non-empty, in bounds, in order, disjoint, and end with one end marker |
| `JsLexer.LexAll` | src/builders/JSObfuscatorScope.cpp:507-616 | the token loop ends on every text and gives the specified tokens |
| `JsContext.LexExactly` | src/builders/JSObfuscatorScope.cpp:507-616 | from what each character is part of (code, word, string with either quote, escape, line comment, block comment, literal), told character by character: the tokens are exactly the stretches from a code position that starts one to the next code position or the end |
| `JsContext.WordsExactly` | src/builders/JSObfuscatorScope.cpp:587-594 | the identifier tokens are exactly the whole words that start in code |
| `JsContext.QuotedIsString` | src/builders/JSObfuscatorScope.cpp:535-552 | a text between two quotes of one kind, every such quote and every backslash inside it escaped, is one string token when it starts in code, with either kind of quote |
| `JsContext.CommentsGiveNoToken` | src/builders/JSObfuscatorScope.cpp:516-533 | a comment of either kind that starts in code gives no token |
| `JsWords.OccursExactly` | src/builders/JSObfuscatorScope.cpp:733-770 | the occurrences that a plan may touch are exactly the whole words in code, those in the code of template interpolations included, at any depth |
| `JsWords.WordIsCode` | src/builders/JSObfuscatorScope.cpp:733-770 | every character of such a word is code |
| `JsWords.QuietIsNoCode` | src/builders/JSObfuscatorScope.cpp:516-552 | no character of a string or comment is |
| `JsLiterals.InterpolationCloses` | src/builders/JSObfuscatorScope.cpp:114-218 | an interpolation is closed by the brace after its code, whatever strings with either quote, comments, braces and nested templates with their own interpolations the code holds |
| `JsLiterals.TemplateEnds` | src/builders/JSObfuscatorScope.cpp:285-331 | a template ends at its backtick when an expression can end there or no other backtick follows, whatever its escapes and interpolations |
| `JsLiterals.TemplateIsToken` | src/builders/JSObfuscatorScope.cpp:554-563 | and is one token |
| `JsLiterals.TerminatorExactly` | src/builders/JSObfuscatorScope.cpp:248-283 | exactly when a backtick looks like the end of its template |
| `JsLiterals.StatementWordsExactly` | src/builders/JSObfuscatorScope.cpp:265-279 | the words that start a statement, as whole words |
| `JsLiterals.TicksPassed` | src/builders/JSObfuscatorScope.cpp:285-331 | two backticks in a row, and a closed template behind a backtick that does not look like the end, are passed over |
| `JsLiterals.RegexEnds` | src/builders/JSObfuscatorScope.cpp:40-76 | a regular expression ends at the first slash that is neither escaped nor in a class, flags included |
| `JsLiterals.RegexIsToken` | src/builders/JSObfuscatorScope.cpp:565-577 | where one may start it is one token |
| `JsLiterals.RegexStartsExactly` | src/builders/JSObfuscatorScope.cpp:20-112 | a regular expression may start exactly at the beginning, after an operator or opening bracket that is no ++ or --, and after certain whole words, white space aside |
| `JsLiterals.NumberEnds` | src/builders/JSObfuscatorScope.cpp:596-613 | a number ends after its hexadecimal digits, or after digits, dots and an exponent |
| `JsScoping.SpellingExactly` | src/builders/JSObfuscatorScope.cpp:660-685 | a new binding takes the first of 256 drawn spellings that no binding has, else its name and number; a preserved name keeps its spelling |
| `JsScoping.LetShadows` | src/builders/JSObfuscatorScope.cpp:792-808 | a let in an inner block shadows the outer name, other names stand for what they did, and after the block all do again |
| `JsScoping.VarShadows` | src/builders/JSObfuscatorScope.cpp:1004-1035 | so does a var in a function |
| `JsScoping.ReferenceSpelled` | src/builders/JSObfuscatorScope.cpp:810-844 | a reference is spelled like the binding its name stands for |
| `JsScoping.FreeReference` | src/builders/JSObfuscatorScope.cpp:810-844 | a name bound nowhere: external names stay, strict mode reports it, otherwise all its references share one new binding |
| `JsNames.ReferenceRightful` | src/builders/JSObfuscatorScope.cpp:810-844 | a reference never touches a member name, an object key, a reserved name or one with a leading underscore |
| `JsNames.MemberExactly` | src/builders/JSObfuscatorScope.cpp:810-844 | a member name is one after a dot, or after a question mark that follows a dot, white space aside |
| `JsNames.ExemptExactly` | src/builders/JSObfuscatorScope.cpp:810-826 | what is no reference: a reserved name, one with a leading underscore, a member name, an object key |
| `JsNames.KeyExactly` | src/builders/JSObfuscatorScope.cpp:381-407 | an object key is one between an opening brace or comma and a colon, blanks aside |
| `JsPlan.TemplateSpansOk` | src/builders/JSObfuscatorScope.cpp:733-770 | the identifiers found in the interpolations of a template are identifiers of the source, in order, disjoint, inside the template |
| `JsPlan.OccurrencesApart` | src/builders/JSObfuscatorScope.cpp:507-616 | two recorded occurrences are the same or do not overlap |
| `JsPlan.ReferenceAllGood` | src/builders/JSObfuscatorScope.cpp:733-770 | scanning a template settles every identifier in it and keeps the environments |
| `JsScopeLemmas.LookupRoot` | src/builders/JSObfuscatorScope.cpp:710-724 | a name declared in no local place is found in the root environment or not at all |
| `JsScopeLemmas.DeclareVarGood` | src/builders/JSObfuscatorScope.cpp:1004-1035 | a var declaration keeps one spelling per hoisted name |
| `JsScopeLemmas.DeclareHoistedGood` | src/builders/JSObfuscatorScope.cpp:772-790 | so does a function or class name |
| `JsScopeLemmas.DeclareLetGood` | src/builders/JSObfuscatorScope.cpp:792-808 | so does let, const, a parameter or a catch binding |
| `JsScopeLemmas.ReferenceGood` | src/builders/JSObfuscatorScope.cpp:810-844 | so does a reference, before or after the declaration, which binds an implicit global if need be |
| `JsScopeLemmas.ImplicitGood` | src/builders/JSObfuscatorScope.cpp:687-708 | an implicit global and a later root declaration share one binding |
| `JsScopeLemmas.ExitBlockGood` | src/builders/JSObfuscatorScope.cpp:1061-1072 | leaving a block restores the block stack and keeps one spelling |
| `JsScopeLemmas.LeaveFunctionGood` | src/builders/JSObfuscatorScope.cpp:1091-1143 | leaving a function restores the environment and keeps one spelling |
| `JsParser.Parser.MakeBinding` | src/builders/JSObfuscatorScope.cpp:660-685 | generated names are drawn until one is unused or the attempts are spent |
| `JsParser.Parser.Lookup` | src/builders/JSObfuscatorScope.cpp:710-724 | innermost block first, then hoisted names, then the parent environment |
| `JsParser.Parser.DeclareHoisted` | src/builders/JSObfuscatorScope.cpp:772-790 | the whole new state |
| `JsParser.Parser.DeclareLet` | src/builders/JSObfuscatorScope.cpp:792-808 | the whole new state |
| `JsParser.Parser.ReferenceIdent` | src/builders/JSObfuscatorScope.cpp:810-844 | the whole new state |
| `JsParser.Parser.ScanTemplateToken` | src/builders/JSObfuscatorScope.cpp:733-770 | all identifiers of all interpolations, to any depth, are resolved in order |
| `JsParser.Parser.SkipBalanced` | src/builders/JSObfuscatorScope.cpp:890-920 | stops past the bracket that closes the group, keeps the environments, misses no identifier passed over |
| `JsParser.Parser.SkipUntilTerminal` | src/builders/JSObfuscatorScope.cpp:922-1002 | stops exactly where specified (terminal outside brackets, end of a call with a block, closing brace of an enclosing block), closes no brace it did not open, misses no identifier passed over |
| `JsParser.Parser.ParseVarList` | src/builders/JSObfuscatorScope.cpp:1004-1035 | names are declared only in the list after the keyword, which ends at the first name without a comma, and every name of the list is then hoisted; only templates of the list are left unscanned |
| `JsParser.Parser.ParseLetList` | src/builders/JSObfuscatorScope.cpp:1037-1059 | the same for let and const; every name of the list that is not skipped is bound in the innermost block |
| `JsParser.Parser.ParseStatementListUntilRBrace` | src/builders/JSObfuscatorScope.cpp:1074-1081 | ends on every token list, cursor never back, same current environment |
| `JsParser.Parser.ParseBlock` | src/builders/JSObfuscatorScope.cpp:1083-1089 | the block stack is exactly as before |
| `JsParser.Parser.ParseFunctionAfterKeyword` | src/builders/JSObfuscatorScope.cpp:1091-1143 | the function's own name is hoisted unless it is skipped, and every enclosing environment is untouched but for that; parameters come from its own list |
| `JsParser.Parser.ParseBody` | src/builders/JSObfuscatorScope.cpp:1137-1140 | the body ends before any brace of an enclosing block is closed, unless the source goes astray |
| `JsParser.Parser.ParseForHeader` | src/builders/JSObfuscatorScope.cpp:1145-1157 | ends, cursor never back, same current environment |
| `JsParser.Parser.ParseCatch` | src/builders/JSObfuscatorScope.cpp:1229-1244 | the block stack is exactly as before |
| `JsParser.Parser.ParseStatement` | src/builders/JSObfuscatorScope.cpp:1159-1275 | ends on every token list, never moves the cursor back, makes progress, same current environment, outer environments untouched |
| `JsParser.Parser.ParseProgram` | src/builders/JSObfuscatorScope.cpp:1277-1290 | reaches the end of every token list with no identifier token missed |
| `JsNames.ReferenceExplains` | src/builders/JSObfuscatorScope.cpp:810-844 | a reference that is recorded is bound to a declared name, external, or reported in strict mode |
| `JsNames.LookupFinds` | src/builders/JSObfuscatorScope.cpp:710-724 | a name that is found is declared somewhere in the source |
| `JsRename.SortUnique` | src/builders/JSObfuscatorScope.cpp:1466-1469 | in order, each name once, with the same members |
| `JsRename.SortSpans` | src/builders/JSObfuscatorScope.cpp:1451-1456 | sorted, with the same members |
| `JsRename.Merge` | src/builders/JSObfuscatorScope.cpp:1457-1464 | one rename per occurrence, none lost |
| `JsRename.ComputeScopedRenames` | src/builders/JSObfuscatorScope.cpp:1426-1471 | the plan is sound (every span an identifier token of the source or of a template interpolation, in order, disjoint), misses no identifier outside skipped declaration patterns, and gives every eligible name declared in no block, catch, parameter list or open function body one spelling everywhere; in strict mode each planned name is declared in the source, external or reported, and what is reported is not external and stands in the source; member names, object keys and reserved names are planned only where they are the name of a declaration |
| `JsRename.ApplyPlan` | src/builders/JSObfuscator.cpp:895-906 | replacing from right to left in place is one simultaneous substitution |
| `JsRename.SubstituteFrom` | src/builders/JSObfuscator.cpp:895-906 | text before the first planned span is kept |
| `JsRename.SubstituteIdentity` | src/builders/JSObfuscator.cpp:895-906 | text between planned spans is kept |
| `JsRename.MangleNames` | src/builders/JSObfuscator.cpp:866-907 | the text has the new spelling at each planned identifier and the source's characters everywhere else, for such a plan; only whole words of code are planned, and the characters of strings and comments are kept in their places; in strict mode only when every planned name is declared in the source or external, otherwise names that are not are reported |
| `JsRename.SubstituteOnlyRenames` | src/builders/JSObfuscator.cpp:895-906 | every character outside the planned spans is kept, moved by the renames before it, and nothing else is added |
| `JsRename.KeywordsAre` | src/builders/JSObfuscatorScope.cpp:1159-1275 | the words that are never names |
| `JsHoisting.LateFunction` | src/builders/JSObfuscatorScope.cpp:772-790 | in g();function f(){}function g(){} the name g is declared in no local scope |
| `JsHoisting.LateFunctionOnce` | src/builders/JSObfuscatorScope.cpp:1426-1471 | so the call and the later declaration of g are renamed alike |
| `JsHoisting.VarReadLater` | src/builders/JSObfuscatorScope.cpp:1037-1059 | in var a=1;const b=a; the name a is declared in no local scope, although it stands after const |
| `JsSites.BodyGoesOn` | src/builders/JSObfuscatorScope.cpp:1074-1143 | what closes no brace that it did not open stays in the body of the function it is in |
| `JsSites.SteadyBlock` | src/builders/JSObfuscatorScope.cpp:1083-1089 | a block from its opening to its closing brace closes nothing else |
| `StringLiteral.EncodeStringLiteral` | src/builders/JSObfuscator.cpp:1082-1149 | the byte loop gives the specified escapes |
| `StringLiteral.DecodePoint` | src/builders/JSObfuscator.cpp:1105-1132 | the continuation loop takes the specified bytes |
| `StringLiteral.MeaningKept` | src/builders/JSObfuscator.cpp:1082-1149 | for every valid UTF-8 text (section 3 of RFC 3629) the output, evaluated as a string literal (section 12.9.4 of ECMA-262), is its UTF-16 code units, surrogate pairs included |
| `StringLiteral.AlwaysALiteral` | src/builders/JSObfuscator.cpp:1082-1149 | whatever the bytes, valid or not, the output is one complete literal |
| `StringLiteral.OneByte` | src/builders/JSObfuscator.cpp:1082-1149 | which ASCII characters are copied, and how the others are written |
| `StringLiteral.UnitsBack` | src/builders/JSObfuscator.cpp:1134-1143 | the code units of a code point give it back: a single one, or a high and a low surrogate |
| `StringLiteral.Utf8Examples` | src/builders/JSObfuscator.cpp:1105-1132 | the examples of section 7 of RFC 3629 |
| `StringLiteral.CutShort` | src/builders/JSObfuscator.cpp:1105-1132 | a sequence cut short stands for the bits that are there, a stray continuation byte for itself |
| `StringLiteral.PointBack` | src/builders/JSObfuscator.cpp:1105-1132 | the bytes of a code point are decoded back and no more is taken |
| `NumberExpression.CreateNumberExpression` | src/builders/JSObfuscator.cpp:1151-1202 | for every strategy the expression evaluates to the number's 32 bits, hence to the number exactly when it is not negative; and which of the four forms is written |
| `NumberExpression.BitTest` | src/builders/JSObfuscator.cpp:1178-1188 | the test on num and num-1 finds exactly the powers of two |
| `JsonText.NeverReturnsExactly` | src/parser/JSONParser.cpp:290-340 | parsing never returns exactly for a top-level array in which, at any element position and to any depth, something that is neither a bracket nor a comma starts no value; texts that do not start with a bracket always return |
| `JsonText.SomeNeverReturn` | src/parser/JSONParser.cpp:290-340 | concrete texts of that kind: [1,x and [[x]] |
| `JsonRoundTrip.ReadBack` | src/parser/JSONParser.cpp:1030-1112 | for every printable document, to any depth: parsing what is printed gives the same keys in order, the same data and elements, and no error |
| `JsonLayout.LayoutReadBack` | src/parser/JSONParser.cpp:110-113 | the same for every layout of the text, with any blanks, tabs, newlines and carriage returns around every token, at every depth of arrays |
| `JsonLayout.PrintIsLayout` | src/parser/JSONParser.cpp:1030-1112 | the print itself is one of these layouts |
| `JsonLayout.ChildLayoutBack` | src/parser/JSONParser.cpp:515-521 | a child stored in any layout is recovered by getObject, from any layout of the document |
| `JsonLayout.ChildrenLayoutBack` | src/parser/JSONParser.cpp:523-597 | children stored in any layout are recovered by getArrayOfJSON |
| `JsonLayout.SkipWsExactly` | src/parser/JSONParser.cpp:110-113 | exactly the leading blanks, tabs, newlines and carriage returns are passed over |
| `JsonLayout.OtherStart` | src/parser/JSONParser.cpp:342-417 | any other character before the document is refused with its error |
| `JsonLayout.OtherEnd` | src/parser/JSONParser.cpp:342-417 | any other character after the document gives the error for trailing data |
| `JsonLayout.OtherKey` | src/parser/JSONParser.cpp:342-417 | any other character where a key should stand ends the object with its error |
| `JsonLayout.OtherColon` | src/parser/JSONParser.cpp:342-417 | any other character where the colon should stand ends the object with its error |
| `JsonGrammar.NumberLiteralExactly` | src/parser/JSONParser.cpp:12-60 | the number scan accepts exactly the grammar of section 6 of RFC 8259 |
| `JsonGrammar.EscapedMeans` | src/security/Security.cpp:48-75 | for any text, control characters included, what is printed between quotes is a string of section 7 of RFC 8259 that stands for the text |
| `Chars.HexDigitsAre` | src/security/Security.cpp:48-75 | the hexadecimal digits written and read, in both cases |
| `JsonExactly.ObjectReadBackExactly` | src/parser/JSONParser.cpp:1030-1088 | an object as the setters build it comes back from its own text exactly when every key and every value survives |
| `JsonExactly.ValueDiffers` | src/parser/JSONParser.cpp:144-288 | a value that does not survive is read as another value |
| `JsonExactly.KeyDiffers` | src/parser/JSONParser.cpp:115-142 | a key with a quote or backslash is read as another key |
| `JsonRoundTrip.ChildReadBack` | src/parser/JSONParser.cpp:515-521 | getObject recovers a child stored under a key |
| `JsonRoundTrip.ChildrenReadBack` | src/parser/JSONParser.cpp:771-789 | getArrayOfJSON recovers the children stored under a key |
| `JsonRoundTrip.StorePrintable` | src/parser/JSONParser.cpp:864-869 | storing a printable value keeps a document printable |
| `JsonRoundTrip.SplitReadBack` | src/parser/JSONParser.cpp:523-597 | splitting a printed array gives the texts of its elements |
| `JsonRoundTrip.ParseAllReadBack` | src/parser/JSONParser.cpp:771-789 | parsing each of them gives the elements |
| `JsonRoundTrip.PrintedBalanced` | src/parser/JSONParser.cpp:1030-1112 | what is printed is balanced outside strings, so it can be nested |
| `JsonRoundTrip.ValueSurvives` | src/parser/JSONParser.cpp:144-288 | exactly which values are read back unchanged after printing: a value that starts with a bracket when its own kind of bracket is closed by its last character and not before; any other when it has no control character and is no number with an exponent |
| `JsonRoundTrip.NestedExactly` | src/parser/JSONParser.cpp:200-259 | the nested reader takes exactly the value under that condition |
| `JsonRoundTrip.KeySurvives` | src/parser/JSONParser.cpp:115-142 | a printed key is read back exactly when it has no quote and no backslash |
| `JsonRoundTrip.ValueReads` | src/parser/JSONParser.cpp:261-288 | a printed value followed by a separator is read back, and only it is consumed |
| `JsonRoundTrip.EscapedReads` | src/security/Security.cpp:48-75 | reading undoes escaping on text without control characters |
| `JsonRoundTrip.NestedReads` | src/parser/JSONParser.cpp:200-259 | the nested readers take exactly one balanced value |
| `JsonParser.JSONParser.ReadQuoted` | src/parser/JSONParser.cpp:115-171 | keys and strings: the specified value, and exactly what follows it is left |
| `JsonParser.JSONParser.ReadNumber` | src/parser/JSONParser.cpp:173-188 | sign, digits and points |
| `JsonParser.JSONParser.ReadNested` | src/parser/JSONParser.cpp:200-259 | the bracket-counting loop with its string and escape flags |
| `JsonParser.JSONParser.ReadData` | src/parser/JSONParser.cpp:261-288 | dispatch on the first character |
| `JsonParser.JSONParser.ParseArray` | src/parser/JSONParser.cpp:290-340 | the element loop, or proof that it never ends |
| `JsonParser.JSONParser.ParseFields` | src/parser/JSONParser.cpp:342-417 | the member loop |
| `JsonParser.JSONParser.ParseJSON` | src/parser/JSONParser.cpp:342-417 | keys, data, elements and error, or proof that it never ends |
| `JsonParser.PrintObject` | src/parser/JSONParser.cpp:1030-1088 | the printing loop gives the specified text |
| `JsonParser.PrintArray` | src/parser/JSONParser.cpp:1090-1112 | the same for arrays |
| `JsonParser.ParseArrayString` | src/parser/JSONParser.cpp:523-597 | the splitting loop gives the specified pieces |
| `Wildcard.MatchWildcard` | src/data/WildcardMatch.cpp:7-39 | the recursive star-collapsing matcher decides exactly whether some texts for the stars give the path |
| `Wildcard.GlobTwoStars` | src/data/WildcardMatch.cpp:12-16 | collapsing stars does not change what matches |
| `Wildcard.MatchesWildcardPattern` | src/data/WildcardMatch.cpp:43-48 | equality without a star, otherwise the glob relation on the texts up to the first NUL |
| `Wildcard.AcceptsIsGlob` | src/data/WildcardMatch.cpp:43-48 | on NUL-free strings that is the glob relation |
| `Wildcard.CutAtNul` | src/data/WildcardMatch.cpp:43-48 | what comes before the first NUL |
| `Wildcard.ExtractWildcardCapture` | src/data/WildcardMatch.cpp:50-76 | returns a capture, or proves that there is none |
| `Wildcard.CaptureExactly` | src/data/WildcardMatch.cpp:50-76 | with one star there is a capture exactly when the path matches |
| `Wildcard.CaptureRoundTrip` | src/data/WildcardMatch.cpp:50-93 | a path has a capture exactly when applying the capture gives the path, and the capture is unique |
| `Wildcard.ApplyWildcardCapture` | src/data/WildcardMatch.cpp:78-93 | every star is replaced by the capture |
| `Languages.StripAndBack` | src/data/LanguageConfig.cpp:87-128 | taking the language off a path and localizing the rest for it gives the path back, exactly when something follows that is neither another language nor looks external |
| `Languages.PrefixExactly` | src/data/LanguageConfig.cpp:22-46 | the language of a path is a configured one of two letters between the first slash and the next one or the end |
| `Languages.PrefixStands` | src/data/LanguageConfig.cpp:87-128 | the language in front of a path comes off, alone it leaves the root, and exactly targets inside the site that name no language take it on |
| `Languages.ExternalExactly` | src/data/WildcardMatch.cpp:95-98 | external targets are those that start with http://, https:// or // |
| `Redirects.UnderLanguage` | src/data/RouteRegistry.cpp:202-234 | a path with a language in front for which nothing stands is answered as the path without it, with the target under the same language |
| `Redirects.WildcardUnderLanguage` | src/data/RouteRegistry.cpp:146-234 | so a wildcard rule answers it with what stands for its star put into the target, under the language and with its status |
| `Redirects.PutStores` | src/data/RouteRegistry.cpp:48-53 | a stored rule is the only one for its pattern and the others stay |
| `Redirects.LanguagesCanCycle` | src/data/RouteRegistry.cpp:40-72 | with any language of two letters: two accepted exact rules that lead round in a cycle |
| `Redirects.WildcardsCanCycle` | src/data/RouteRegistry.cpp:40-72 | with wildcards, whatever the languages: an accepted exact rule and an accepted wildcard rule that do |
| `Redirects.NeverCyclesExactly` | src/data/RouteRegistry.cpp:40-72 | whatever rules are added, redirects never cycle exactly when there are no wildcard rules and no language of two letters, which are the only ones a path can name |
| `Redirects.NeverCycles` | src/data/RouteRegistry.cpp:40-72 | with exact rules and no language that a path can name, after any sequence of added, overwritten and refused rules, following internal redirects from any path never comes back |
| `Redirects.AddKeepsAcyclic` | src/data/RouteRegistry.cpp:40-72 | one call keeps that, also when it refuses and erases |
| `Redirects.EmptyIsAcyclic` | src/data/RouteRegistry.cpp:40-72 | the empty table has no cycle, whatever the languages |
| `Redirects.LongChains` | src/data/RouteRegistry.cpp:175-200 | accepted rules can nevertheless form chains of any length, beyond the 32-hop probe |
| `Redirects.MetAgain` | src/data/RouteRegistry.cpp:181-183 | a path met twice means that 32 hops can be followed |
| `Redirects.FindMatchingWildcardRedirect` | src/data/RouteRegistry.cpp:146-173 | the loop finds the longest pattern that fires, the first of those, and its substituted target in the language of the request |
| `Redirects.RouteRegistry.FindMatchingRedirect` | src/data/RouteRegistry.cpp:202-234 | the answer of the first of four stages that has one: the exact rule of the path, the chosen wildcard rule for it, and the two for the path without its language; target localized, own status, and none exactly when none of the four answers |
| `Redirects.RouteRegistry.HasRedirectLoop` | src/data/RouteRegistry.cpp:175-200 | true exactly when 32 hops can be followed |
| `Redirects.RouteRegistry.AddRedirectRule` | src/data/RouteRegistry.cpp:40-72 | refused exactly for empty arguments or a probe of 32 hops; the rule stored with status 301 or 302, an erased one gone, the others as before |
| `Gates.BestUnique` | src/data/GateRegistry.cpp:19-41 | there is at most one best pattern, so no enumeration order can matter |
| `Gates.BestExactly` | src/data/GateRegistry.cpp:19-41 | the best pattern is the longest that accepts the path, and of those the one smaller at the first place where they differ |
| `Gates.BestExtends` | src/data/GateRegistry.cpp:29-38 | one more entry: the loop's comparison keeps the best so far |
| `Gates.FindBestWildcardRuleMatch` | src/data/GateRegistry.cpp:19-41 | in any order of entries: the rule of the longest accepted pattern, lexicographically first among equals |
| `Gates.FindBestWildcardGate` | src/data/GateRegistry.cpp:98-130 | the same over asynchronous and synchronous rules; the asynchronous one wins on the same pattern |
| `Gates.FindMatching` | src/data/RouteRegistry.cpp:84-144 | the rule of the path, of the best pattern for it, and the two for the path without its language: the first that there is, and none exactly when there is none of the four |
| `Gates.FindMatchingRoute` | src/data/RouteRegistry.cpp:236-246 | the same for the canonical form of the path |
| `Gates.CanonicalRequestPath` | src/data/ServerTypes.hpp:72-82 | slashes at the end go, then .html or .htm |
| `Gates.SlashesGo` | src/data/ServerTypes.hpp:72-82 | however many slashes stand at the end, they do not matter |
| `Gates.CanonicalKeeps` | src/data/ServerTypes.hpp:72-82 | a path with neither slash nor extension at its end is its own canonical form |
| `Gates.CanonicalForms` | src/data/ServerTypes.hpp:68-82 | a page answers under its name, with either extension, and with slashes at the end |
| `Gates.GateRegistry.FindResolvedGate` | src/data/GateRegistry.cpp:70-96 | the same for gates, on the canonical path, asynchronous before synchronous in every stage |
| `Gates.GateRegistry.AddGate` | src/data/GateRegistry.cpp:132-139 | refused exactly without path or handler; stored by kind of path |
| `Gates.GateRegistry.RemoveGate` | src/data/GateRegistry.cpp:149-159 | both kinds are removed, nothing else |
| `ServerMetrics.RollingHourIsExact` | src/data/ServerMetrics.cpp:69-85 | for any history of non-decreasing minutes from 1 on, the sums at a minute are what was recorded in the 60 minutes ending there exactly when none of those minutes saw 2^32 or more |
| `ServerMetrics.WindowIsKept` | src/data/ServerMetrics.cpp:182-203 | for any such history the sums are those of the 32-bit counters of the 60 minutes |
| `ServerMetrics.RollingFillIsExact` | src/data/ServerMetrics.cpp:182-203 | the queue fill summed over the hour is what was recorded in its 60 minutes (over the real numbers) |
| `ServerMetrics.BucketsHold` | src/data/ServerMetrics.cpp:69-85 | each reused bucket holds exactly the last minute recorded in it |
| `ServerMetrics.RankByCounting` | src/data/ServerMetrics.cpp:233-254 | of the values at most k are below the one of rank k and more than k are not above it |
| `ServerMetrics.RelevantExactly` | src/data/ServerMetrics.cpp:233-254 | the samples of the window are those not older than its start |
| `ServerMetrics.RingPush` | src/data/ServerMetrics.cpp:149-157 | recording pushes out the oldest sample once the ring is full |
| `ServerMetrics.ImportedRing` | src/data/ServerMetrics.cpp:333-349 | importing what was saved gives the same samples in the same order |
| `ServerMetrics.Metrics.WriteBuckets` | src/data/ServerMetrics.cpp:69-85 | the bucket of the minute is restarted if stale and takes the amounts and the fill; the others stay |
| `ServerMetrics.Metrics.GetWindowMetricsHour` | src/data/ServerMetrics.cpp:182-203 | the sums over the buckets in the hour and the average fill, 0 if there is none |
| `ServerMetrics.Metrics.RecordLatency` | src/data/ServerMetrics.cpp:149-157 | the last 10000 samples in order |
| `ServerMetrics.Metrics.SavedSamples` | src/data/ServerMetrics.cpp:419-436 | the samples are saved oldest first |
| `ServerMetrics.Metrics.ImportMetrics` | src/data/ServerMetrics.cpp:283-349 | another version, not 60 buckets, a count over the capacity or not that of the samples is refused and changes nothing; otherwise totals, uptime, buckets and ring are those that were saved |
| `ServerMetrics.Metrics.SaveMetrics` | src/data/ServerMetrics.cpp:374-437 | what is saved is accepted when imported, and holds the uptime of all sessions, the totals, the buckets and the samples oldest first |
| `ServerMetrics.Metrics.GetLatencyStats` | src/data/ServerMetrics.cpp:233-254 | elements of rank 50, 95 and 99 per cent of the samples in the window, also by counting how many are below and how many not above, in order and in milliseconds; zeros if there are none |
| `Caches.MakeRoomDropsOldest` | src/data/DevAssetCache.cpp:46-54 | exactly the oldest entries leave, one at a time, and none that did not have to |
| `Caches.PutStores` | src/data/DevAssetCache.cpp:32-72 | an admitted image is stored, newest, and the total is within the current limit; others keep their data or are gone |
| `Caches.PutExactly` | src/data/DevAssetCache.cpp:32-72 | exactly what is left: the entries after the oldest ones that had to go while the old entry of the key still counted, without that entry, and then the new one |
| `Caches.CachedIsLast` | src/data/DevAssetCache.cpp:32-100 | after any puts, limit changes and clears, a cached image is the last one admitted under its key |
| `Caches.RemoveKeeps` | src/data/DevAssetCache.cpp:56-66 | replacing an entry keeps queue, keys and counter consistent |
| `Caches.DevAssetCache.PutWebP` | src/data/DevAssetCache.cpp:32-72 | the whole new state; queue duplicate-free with exactly the cached keys, counter the sum of sizes; the state stays that of the run of all operations so far |
| `Caches.DevAssetCache.GetWebP` | src/data/DevAssetCache.cpp:79-87 | for a key in the queue, after any operations: the data last admitted under it since the last clear; nothing for any other key |
| `Caches.SumTakes` | src/data/TextResponseCache.cpp:47-51 | any entry can be taken out of the total first |
| `Caches.TextResponseCache.Lookup` | src/data/TextResponseCache.cpp:15-38 | a hit exactly for an enabled cache, a present key and the same readable file time; it is the last admitted payload; otherwise the entry is dropped |
| `Caches.TextResponseCache.Store` | src/data/TextResponseCache.cpp:40-66 | whatever the victims: the new entry is stored, the total is within max(maxTotalBytes, maxEntryBytes), others are unchanged or gone |
| `EmailLimiter.LimiterHolds` | src/email/EmailSender.cpp:196-256 | over any run with clean-ups: accepted requests spanning less than the tracking duration number at most max(1, maxPerIP) |
| `EmailLimiter.SpacedExactly` | src/email/EmailSender.cpp:196-256 | consecutive accepted requests keep the minimum interval in every run exactly when it is at most 0 or at most 2D+1 |
| `EmailLimiter.ForgottenTooSoon` | src/email/EmailSender.cpp:237-256 | otherwise a request, a clean-up and a request is a run that breaks it |
| `EmailLimiter.StepGood` | src/email/EmailSender.cpp:196-256 | each request and each clean-up keeps what that needs |
| `EmailLimiter.DecisionExactly` | src/email/EmailSender.cpp:196-256 | after any run with clean-ups a request is accepted exactly when its address has no record, or the minimum interval has passed since its last accepted one and the streak of accepted requests is shorter than the limit or the tracking duration has passed |
| `EmailLimiter.CleanupInvisibleExactly` | src/email/EmailSender.cpp:237-256 | a clean-up can never be noticed exactly when the minimum interval is at most 0 or at most 2D+1 |
| `EmailLimiter.SpamProtection.CheckAndUpdate` | src/email/EmailSender.cpp:196-235 | decision and new record of the address, written out; other addresses unchanged |
| `EmailLimiter.SpamProtection.CleanupOldRecords` | src/email/EmailSender.cpp:237-256 | exactly the stale records go, in any order of visiting |
| `Base64.Base64Encode` | src/security/Base64.hpp:22-53 | the shifting loop gives the specified characters (section 4 of RFC 4648) |
| `Base64.Base64Decode` | src/security/Base64.hpp:55-87 | the loop decodes the digits before the first equals sign |
| `Base64.RoundTrip` | src/security/Base64.hpp:22-87 | decoding undoes encoding, for every byte string |
| `Base64.Alphabet` | src/security/Base64.hpp:11-20 | the alphabet of section 4 of RFC 4648 |
| `Base64.QuadIsNumber` | src/security/Base64.hpp:22-53 | four digits to the base 64 are the number that three bytes are to the base 256 |
| `Base64.TestVectors` | src/security/Base64.hpp:22-53 | the test vectors of section 10 of RFC 4648 for one, two, three and six bytes |
| `Base64.EncodedLength` | src/security/Base64.hpp:22-53 | the length is four times the number of groups of three, rounded up |
| `Base64.ForeignIgnored` | src/security/Base64.hpp:65-71 | inserting a character outside the alphabet other than the equals sign changes nothing |

## Left out

- HttpScan.FindChunkedBodyEnd: not for bytes in which a chunk size makes the 64-bit sum come out at a CRLF behind (the exact case is `HttpScan.ResumeExactly`), nor at the last two positions below 2^64; no body ends in such bytes (`HttpChunks.FoundFits`).
- HttpReader.Framing.ReadNextRequest: carries the same condition, from the end of headers that announce a chunked body on.
- HttpReader.Framing.ReadBodyOf: carries the same condition.
- HttpReader.Framing.ReadBodyBy: carries the same condition for a chunked body.
- HttpReader.Framing.FillChunked: carries the same condition.
- HttpCuts.CutsDoNotMatter: on a socket that refuses writes, for messages that do not expect 100 Continue; the outcome of each failed write is in `HttpReader.Framing.ReadBodyOf`.
- HttpCuts.HeadersStableExactly: about all fronts of a stream; what reads of at most 8192 bytes can tell apart is the subject of `HttpFirstEnd.EndExactly`.
- HttpFirstEnd.FirstExactly: for messages whose headers hold a CRLFCRLF; without one the bytes after the message take part in finding the end of its headers.
- WsMessages.MessageComesBack: about one reader without other coroutines closing the connection during a read.
- WsReader.Connection.ReadMessageNow: a write succeeds or fails at once; waiting for its completion is the subject of `WsWriteChain`, where the writer of a frame can wait for ever on a disabled chain (`WsWriteChain.StrandedForever`).
- WsWriteChain.RestIsComplete: for chains that are neither disabled nor hit by a failed write; the others are in `WsWriteChain.RestIsCompleteExactly`.
- JsRename.ComputeScopedRenames: reserved words, preserved names and generated names are inputs; the collectors that gather preserved names from directives and quoted keys, and the list of preserved top-level names, are not modelled.
- JsRename.ComputeScopedRenames: one direction only: a name may keep one spelling although the tokens show a local declaration of it. A function body counts as open until its brace is closed, and to the end of the program once the parser may have gone astray in it (`JsSites.Astray`: a try, catch or finally without its block, an optional catch binding left out among them, or a closing brace or parenthesis at the place of a declared name). A template inside a skipped declaration pattern is not scanned, as in the code.
- JsRename.MangleNames: not that the renamed program behaves like the original one; the parser is heuristic, and generated names are not guaranteed distinct from preserved ones.
- StringLiteral.MeaningKept: is about the encoder of one string; the pass that feeds it raw escape text is not modelled.
- JsonRoundTrip.ReadBack: for printable documents; that nothing else comes back is proved for objects (`JsonExactly.ObjectReadBackExactly`), not for arrays of documents.
- Redirects.NeverCycles: for exact rules and languages that no path can name; in every other configuration the probe accepts rules that cycle (`Redirects.NeverCyclesExactly`).
- Redirects.FindMatchingWildcardRedirect: among patterns of the same length the original takes the first in hash-map order; the model takes the first of a given enumeration order.
- Gates.GateRegistry.AddGate: one family of gates stands for page gates and route gates, which share the code; the redirect target of a page gate is part of the rule.
- ServerMetrics.RollingFillIsExact: the rounding of 32-bit floating-point sums is not modelled; nor is the average per hour of uptime.
- ServerMetrics.Metrics.ImportMetrics: the JSON text in between, with its defaults for missing fields and its signed 64-bit totals, is not modelled.
- ServerMetrics.Metrics.SaveMetrics: the same.
- EmailLimiter.LimiterHolds: twice the tracking duration is computed without the overflow of a 32-bit int.
- Caches.TextResponseCache.Store: file times are parameters.
- Sockets, coroutines, timers, threads, files, logging, databases, SMTP, compression, image conversion and SHA-1: foreign code or plumbing.
- Simple registries (users, protected pages, CORS lists, settings): easy map updates.
- Parsing of a complete request (request line, query, form fields, cookies): separate from framing.
