# lambda: byte-stream state machines and codecs

A Dafny model of the parts of the lambda HTTP library that turn bytes into meaning and back: the
HTTP/1.1 connection pipeline, the WebSocket endpoint behind an upgrade, SHA-1, JSON, and the codecs of
URLs, query strings, Base64 and basic authentication. Each operation that works step by step is a
method with its loops, proved against a function of its input or of the old state; what the program is
for is then proved about those functions, for every input and every run. `dafny verify dfyconfig.toml`
checks all of it.

The network is a `Net.Connection`: a field `unread` of which a read returns a prefix of any length up
to the size asked for, or nothing, and an `output` that a write appends to. A read that comes back empty
while the peer has more to send (a timeout or a reset) is counted in the ghost field `stalls`. Whether that
can happen is a property of the connection: on one that is `reliable` no read does it, and every method that
reads promises that `stalls` stays as it is. Statements about whole runs are either safety statements for
every network, or say what is reached when `stalls` does not grow, and so always on a reliable one. A
request handler is a `Serve.Handler`: what it does next may depend
on the request, on the number of the request and on all that its calls returned or threw; it may catch
what they throw, go on, and throw itself.

| files | what they model |
|---|---|
| Bytes, OrderedMap, Values | characters as bytes, `std::map` as a sorted list, the normalising multimap |
| Net, Stream | the connection, the state kept between requests, the readers of bodies |
| HeadText, HeadParser, HeadReader | request lines and headers; one whole-buffer reading of a head, and the chunked reader that refines it |
| ResponseWriter, ResponseHeaders | the deferred, announced and streaming modes of one response, and what its reader finds in the head |
| Serve, Pipelining, ClientRequests | the keep-alive loop, what it makes of well-formed pipelined requests, and which requests those are |
| WsFrames, Websocket, Handover | frames as bytes with a reference decoder, the endpoint that cuts frames out of chunks, and its handshake with the HTTP reader before it |
| Sha1, Sha1Example | FIPS 180-4, the streaming class that refines it, and the digest of "abc" computed by it |
| JsonStringify, JsonParse, JsonStrings, JsonLayout, JsonScan, JsonRoundTrip, JsonExact, JsonCost, JsonKept, JsonWritten | the printer, the parser over index ranges, what one makes of the other's output with and without blanks, and how a string has to be written for the parser |
| UrlEncode, SearchParams, Url, UrlRoundTrip | percent-encoding, query strings, URLs |
| Base64, BasicAuth | Base64 against RFC 4648, and the credentials carried by it |
| KnownAnswers | names and worked examples of the standards |

The main results, by component:

- WebSocket: frames sent below 2^31 bytes arrive in order however the reads split them, and unchanged
  exactly when the masks inside each fragmented message agree, and so always if no message is fragmented
  (`Websocket.ReceiveSent`), the upgrade request in front of them included (`Handover.UpgradeAndReceive`).
- HTTP: a head found in chunks is the head of the whole wire (`HeadReader.ReadRequestHead`); a sequence
  of response calls succeeds exactly if it is legal, and then leaves one head and one body
  (`ResponseWriter.Respond`), whose end can be told exactly if no more was announced than written
  (`ResponseWriter.FramedIff`); the exchanges of a connection are the requests of its wire, in order, for
  every handler, and every way in which the loop can end is tied to its cause (`Serve.ServeConn`,
  `Pipelining.ServePipelined`); what a client prints with any of the nine methods is what the handler sees
  (`ClientRequests.ServeClients`); every header of a response is told (`ResponseHeaders.AskedHeader`), and
  the one that says whether the connection goes on agrees with the loop; body bytes are conserved
  (`Stream.ReadThenDiscard`).
- SHA-1: the streaming class computes pad-then-fold (`Sha1.Sha1.Digest`), piece by piece or at once, and
  pad-then-fold gives the digest of the standard's example (`Sha1Example.AbcDigest`).
- JSON: for every tree whose texts have no quote and no backslash at the end, whatever brackets its strings
  and keys hold and floats included, printing and parsing is lossless exactly if the comma splitter cuts
  between the printed items and nowhere else, and a few values are absent (`JsonKept.KeptIff`); for balanced
  keys the cuts are right exactly if the strings balance (`JsonExact.JsonRoundTripIff`), and what parsing
  makes of the printed text, errors included, is computed (`JsonRoundTrip.ParseText`); for a lone string the
  condition is exact without exception (`JsonStrings.StringRoundTripIff`). Blanks between the parts of such a
  text make no difference (`JsonRoundTrip.BlanksIgnored`), and strings with quotes, which the printer cannot
  print, are read if they are written as the parser wants them (`JsonWritten.StringsRead`). On any input at all
  the comma splitter tiles its range (`JsonParse.RangesTile`).
- Codecs: each round trip holds if and only if a stated condition on the input does
  (`SearchParams.ParamsRoundTripIff`, `UrlRoundTrip.UrlRoundTripIff`, `Base64.Base64RoundTripIff`,
  `BasicAuth.BasicAuthRoundTripIff`, `HeadParser.HeaderRoundTripIff`).

Where the code departs from its intent the model follows the code, and an if-and-only-if lemma says
where it meets the intent: 64-bit frame lengths from 2^31 on (`PaylenRoundTripIff`), the non-minimal
length form at 65535 (`PaylenMinimalIff`), reused masks (`FramesRoundTripIff`), paths emptied by a
query (`PathKeptIff`), headers without a space behind their colon (`HeaderFiledIff`, with the input of
`TightLengthDropped` and what it does to a request in `TightLengthMisread`), responses that announce more than they write (`FramedIff`, with the input of
`ShortBodyUnframed`), a discard that reads once (`DiscardCompleteIff`, `lost` in `ServeConn`, and
`ShortDiscardServesBody`), the text hashed for a handshake (`AcceptKeyNotStandard`),
one-character tokens (`TrimmedIsStrippedIff`), hosts lost behind credentials, which
http/test_url.cpp:44-60 expects to be kept (`HostKeptIff`, `PrintedCredentialsRead`), and in JSON brackets
inside strings and keys, `false`, empty arrays, empty keys, backslashes, escape characters, integers after a
point and floats before one (`JsonRoundTripIff`, `KeptIff`), blanks in an empty array (`BlankArrayIff`) and
strings that begin with a quote (`WrittenReads`). Where the C++ has no
defined behaviour the answer is `Undefined`, `None` or an error: over-wide shifts of a frame length, and
Base64 input that is empty or leaves two or three symbols over; `AuthUndefinedIff` says which
authorization headers carry such input.

## Model

| member | source | states |
|---|---|---|
| `Websocket.ReceiveSent` | ws/websocket.cpp:220-329 | A peer's frames below 2^31 bytes, masked or not and split into reads in any way, are delivered in order by repeated `next`; after any number of calls what was delivered is a prefix, and enough calls on a network that does not stall, a reliable one always, deliver all; it equals what was sent iff every fragment that is not the last of its message is masked like the first one as far as its payload reaches, and so whenever no message is fragmented, whatever the masks |
| `Handover.UpgradeAndReceive` | ws/websocket.cpp:16-329 | On a wire of one well-formed upgrade request and frames right behind it, split into reads in any way, what is delivered is a prefix of the frames; when nothing stalls, on a reliable network always, the peer gets the switch of protocols and the frames arrive as above, whether they were read along with the head or later |
| `Websocket.Receive` | ws/websocket.cpp:241-329 | Frames delivered so far and frames still to be decoded from the pending bytes make up the decoding of the whole stream; enough calls on a network that does not stall, a reliable one always, deliver all |
| `Websocket.Websocket.Next` | ws/websocket.cpp:241-329 | One call delivers exactly the reference decoder's first frame and consumes exactly its bytes, or leaves the pending bytes and the fragment state as they were; a call that delivers nothing reduced the source, met a stall, or found an incomplete stream; it fails only where the decoder finds the stream broken |
| `Websocket.Websocket.Payload` | ws/websocket.cpp:267-328 | With a parsed header, the payload comes out of the buffer or out of buffer and source together, unmasked, and nothing is kept or dropped on the side |
| `Websocket.Websocket.Collect` | ws/websocket.cpp:278-292 | Although raw reads ignore their size while bytes are left over from the HTTP head, the read for the rest of a payload never returns more than asked for; either exactly the payload is taken, or nothing is lost |
| `Websocket.Websocket.Finish` | ws/websocket.cpp:294-328 | The fragment state is entered by a first fragment, kept by the next and left by a final frame, and the payload is unmasked, inside a message with the first fragment's mask |
| `Websocket.Websocket.constructor` | ws/websocket.cpp:16 | The endpoint starts open, outside any fragmented message, and its pending bytes are exactly those the connection had buffered or not yet read |
| `Websocket.Accept` | ws/websocket.cpp:16-47 | The constructor takes the connection over iff the request is a GET with an upgrade to websocket and a nonempty key, no head was written before and the connection is open: the 101 head goes out, and no byte behind the request is lost; otherwise it throws, and a request that does not ask for a WebSocket has been answered with an error as far as that is possible |
| `Websocket.AcceptableIff` | ws/websocket.cpp:18-36 | A request asks for a WebSocket iff it is a GET whose last upgrade header is `websocket` but for case and blanks, with a key of more than one character |
| `Websocket.RejectionTells` | ws/websocket.cpp:18-24 | Another method is answered with 405, a GET without these headers with 400, each with its message |
| `Websocket.SwitchRendered` | ws/websocket.cpp:43-46 | The answer that switches protocols, to the byte |
| `Websocket.AnswerKey` | ws/websocket.cpp:38-41 | The accept key is the Base64 text of the SHA-1 hash of the GUID and the client key |
| `Websocket.AcceptKeyIs` | ws/websocket.cpp:32-41 | The key is trimmed and lowered and stands behind the GUID |
| `Websocket.OctetsRead` | ws/websocket.cpp:39-40 | The bytes of a text, place by place, and back |
| `Websocket.AcceptKeyNotStandard` | ws/websocket.cpp:32-41 | For no acceptable key is the text hashed the one of section 4.2.2 of RFC 6455 |
| `Websocket.RejectionLegal` | ws/websocket.cpp:18-24 | Before any head, the calls that reject a handshake are legal whatever headers were edited, and write the length they announce |
| `Websocket.SwitchProtocols` | ws/websocket.cpp:43-46 | Switching fails iff a head was written before or the connection is closed; otherwise the output gains exactly the 101 head with the three headers set on top of those there before, the stream is in raw mode and the writer passes data through |
| `Websocket.UpgradeIsSet` | ws/websocket.cpp:43-45 | The headers set by the handshake are recognised as an upgrade, whatever headers were there before |
| `Websocket.UpgradeDrafted` | ws/websocket.cpp:43-46 | The calls that accept a handshake throw exactly after an earlier head, whatever headers were edited, and otherwise ask for the 101 head with nothing behind it |
| `Websocket.Websocket.Write` | ws/websocket.cpp:220-239 | The write fails iff the endpoint or the connection is closed, and then leaves the output alone; otherwise the output gains exactly the frame's unmasked encoding |
| `Websocket.Websocket.Close` | ws/websocket.cpp:331-355 | Closing fails iff the endpoint or the connection is closed already; otherwise a close frame with the reason code, high byte first, is printed and the endpoint is closed |
| `Websocket.WriteAll` | ws/websocket.cpp:220-239 | Written frames stand one after another on the wire; writing them succeeds iff there are none or neither endpoint nor connection is closed |
| `WsFrames.FramesRoundTripIff` | ws/websocket.cpp:294-326 | Decoding the concatenated encodings of masked or unmasked frames gives the frames back iff every frame that is not final agrees in its key with the first frame since the last final one, on as many of the four key bytes as it has data |
| `WsFrames.FinalFrameArrives` | ws/websocket.cpp:310-326 | Whatever fragments came before, a final frame with any mask or none is delivered as it was sent and ends the message |
| `WsFrames.FirstFragmentArrives` | ws/websocket.cpp:296-302 | The first fragment of a message is delivered as it was sent, and its opcode and mask are kept |
| `WsFrames.LaterFragmentArrivesIff` | ws/websocket.cpp:303-305 | A later fragment that is not the last keeps the state, and is delivered as it was sent iff its own key bytes are the kept ones, as far as its payload reaches |
| `WsFrames.FragmentAt` | ws/websocket.cpp:294-326 | At any place of a stream, a fragment that is not the last arrives masked with its own key and that of the first fragment of its message |
| `WsFrames.WholeMessagesArrive` | ws/websocket.cpp:310-326 | Messages of one frame each are decoded to what was sent, each with a mask of its own or none |
| `WsFrames.ArrivalsFaithfulIff` | ws/websocket.cpp:294-326 | The same for what arrives of each frame |
| `WsFrames.PrintedFramesRoundTrip` | ws/websocket.cpp:220-239 | Whatever frames below 2^31 bytes `write` prints, decoding their bytes gives them back |
| `WsFrames.DecodedWire` | ws/websocket.cpp:164-202 | Decoding a concatenation of encoded frames yields one arrival per frame, in order, and leaves nothing over |
| `WsFrames.MaskedTwiceIff` | ws/websocket.cpp:320-326 | Masking with one key and unmasking with another restores a payload iff the keys agree on as many bytes as it has |
| `WsFrames.HeaderOfEncoded` | ws/websocket.cpp:164-202 | The header parser reads back flag, opcode, size and mask of an encoded frame and stops exactly behind its header |
| `WsFrames.HeaderFields` | ws/websocket.cpp:164-202 | Which bits and bytes of any decided header are the final flag, the opcode, the length, the mask bit and the key |
| `WsFrames.RefusedIff` | ws/websocket.cpp:171-179 | Two bytes are refused iff a reserved bit is set or the opcode is none of the six |
| `KnownAnswers.UnmaskedText` | ws/websocket.cpp:220-239 | The bytes of the unmasked, fragmented and ping examples of section 5.7 of RFC 6455 |
| `KnownAnswers.MaskedText` | ws/websocket.cpp:126-141 | The head bytes of its masked examples, for any key |
| `KnownAnswers.LongFrames` | ws/websocket.cpp:59-82 | The head bytes of its examples of 256 bytes and 64 KiB, and a close frame with code 1000 |
| `WsFrames.HeaderStable` | ws/websocket.cpp:164-202 | A decided header is not changed by more bytes |
| `WsFrames.HeaderDecided` | ws/websocket.cpp:250-252 | Fourteen bytes always decide a header, so the check for a clogged buffer never fires |
| `WsFrames.PaylenRoundTripIff` | ws/websocket.cpp:59-124 | `unpack_paylen` returns the packed size and advances by exactly the length bytes iff the size is below 2^31 |
| `WsFrames.LongLengthRoundTripIff` | ws/websocket.cpp:107-121 | Among 64-bit lengths exactly those below 2^31 survive the shifts of a promoted `int` |
| `WsFrames.PaylenMinimalIff` | ws/websocket.cpp:59-82 | The printed length is the minimal form of section 5.2 of RFC 6455 iff it is not 65535 |
| `WsFrames.PackPaylen` | ws/websocket.cpp:59-82 | The length bytes are the specified ones, big-endian |
| `WsFrames.UnpackPaylen` | ws/websocket.cpp:84-124 | The length is read as specified, missing bytes and over-wide shifts included |
| `WsFrames.UnpackMask` | ws/websocket.cpp:126-141 | The mask is the next four bytes, if they are there |
| `WsFrames.ParseFrame` | ws/websocket.cpp:164-202 | Header, error or incompleteness as the specification decides |
| `WsFrames.Unmask` | ws/websocket.cpp:320-326 | The in-place loop applies the repeating key to every byte |
| `Bytes.XorNatBit` | ws/websocket.cpp:320-326 | The exclusive or of a data and a key byte has a bit set exactly where their bits differ |
| `HeadReader.ReadRequestHead` | server/pipeline_h1_rx.cpp:201-275 | For any buffered bytes and any chunking, a head that is returned is the first head of the wire and exactly its bytes are consumed; on an error nothing is; a head is refused for its size only if the limit is reached before it is complete or found bad; at most the limit and one chunk are read; otherwise only a stall, which a reliable network does not have, or a closed connection keeps a head from its reader |
| `HeadReader.ResumeFindsSame` | server/pipeline_h1_rx.cpp:216-218 | Searching from the resume position finds the same line break as searching from the line's first byte |
| `HeadReader.ResumeAtLastByte` | server/pipeline_h1_rx.cpp:244-246 | One byte before the old end of the buffer is a valid resume position, even when that is one before the line itself and when CR and LF come in different chunks |
| `HeadReader.AwaitLine` | server/pipeline_h1_rx.cpp:216-249 | Waiting for a line loses nothing, respects the read limit, and finds the first line break |
| `HeadReader.ReadChunk` | server/pipeline_h1_rx.cpp:219-249 | One more chunk keeps the resume position valid; an empty buffer wraps the position to none |
| `HeadReader.HandleLine` | server/pipeline_h1_rx.cpp:251-275 | A complete line takes the reading of the head one step on, refuses it, or ends it behind the line, and does the same to every front of the wire that reaches behind the line |
| `HeadReader.TakeLine` | server/pipeline_h1_rx.cpp:255-275 | The first line is the request line, a line of at most two characters is the last, any other is a header |
| `HeadParser.ScanStable` | server/pipeline_h1_rx.cpp:214-275 | A head found or refused in a prefix is found or refused the same in every extension |
| `HeadParser.ScanEnough` | server/pipeline_h1_rx.cpp:214-275 | A head of the whole wire is found in every prefix that reaches its end |
| `HeadParser.HeaderRoundTripIff` | server/pipeline_h1_rx.cpp:156-184 | A printed header is parsed back iff its key does not start with a space and holds no colon before a space, and its value is not empty and does not start with a space |
| `HeadParser.HeaderFiledIff` | server/pipeline_h1_rx.cpp:156-184 | A line files a header iff, after spaces, a nonempty key stands before its first colon with a space behind it, and a nonempty value behind that and more spaces; key and value are just these |
| `HeadParser.TightLengthDropped` | server/pipeline_h1_rx.cpp:166 | A length written without the space, which HTTP does not ask for, files nothing |
| `Pipelining.TightLengthMisread` | server/pipeline_h1_rx.cpp:156-184 | A request with such a length is read as one without a body, so that the next head is read from its body |
| `HeadParser.ScanBlock` | server/pipeline_h1_rx.cpp:251-275 | Scanning a block of printed headers appends them in order and stops at the empty line |
| `HeadParser.PathKeptIff` | server/pipeline_h1_rx.cpp:43-69 | The path of a request target survives iff no question mark stands before the fragment, or nothing stands before the mark |
| `HeadParser.TargetReads` | server/pipeline_h1_rx.cpp:43-69 | A target is its path and fragment, or with a query its query and fragment alone |
| `HeadParser.FindLine` | server/pipeline_h1_rx.cpp:32-41 | The loop finds the first CRLF at or after the start |
| `HeadParser.FindSpace` | server/pipeline_h1_rx.cpp:10-19 | The loop finds the first space |
| `HeadParser.FindToken` | server/pipeline_h1_rx.cpp:21-30 | The loop finds the first character that is not a space |
| `HeadParser.RequestLineReads` | server/pipeline_h1_rx.cpp:96-154 | However its tokens are spaced, a line of three is judged by method, target and version in this order |
| `HeadParser.ShortLineReads` | server/pipeline_h1_rx.cpp:96-154 | Which error a line gets that has fewer tokens, or a bad first or second one |
| `HeadParser.VersionIff` | server/pipeline_h1_rx.cpp:71-94 | The version is 1.0 or 1.1 of HTTP, in letters of either case |
| `HeadParser.AcceptedIsShaped` | server/pipeline_h1_rx.cpp:96-154 | Only a line of that shape is accepted |
| `HeadParser.MethodOfIff` | http/method.cpp:16-52 | A text names a method iff it is the method's name, letter case included |
| `KnownAnswers.MethodNames` | http/method.cpp:6-26 | The nine names |
| `KnownAnswers.DecimalText` | server/pipeline_h1_tx.cpp:134-148 | Lengths and status codes are written in base ten |
| `HeadParser.ParseRequestUrl` | server/pipeline_h1_rx.cpp:43-69 | Fragment first, then query, then path, failing where the query cannot be decoded |
| `HeadParser.ReadRequestLine` | server/pipeline_h1_rx.cpp:96-154 | Method, target and version, or the first error in the order of the checks |
| `HeadParser.SplitHeader` | server/pipeline_h1_rx.cpp:156-184 | Key and value of a line, or nothing for a line that is dropped |
| `HeadParser.ParseHeader` | server/pipeline_h1_rx.cpp:156-184 | The headers gain exactly the pair of the line, filed under its normal key |
| `Pipelining.HeadRoundTrip` | server/pipeline_h1_tx.cpp:76-121 | Splitting a printed head into lines and parsing those after the status line rebuilds the same multimap, with the order of each key's values |
| `ResponseWriter.WriteHead` | server/pipeline_h1_tx.cpp:76-121 | The output gains the status line, one line per header and value, and the empty line; an unknown status writes nothing |
| `ResponseWriter.Respond` | server/pipeline_h1_tx.cpp:123-284 | Any header edits, heads and writes followed by a flush succeed iff they are legal, and then leave exactly one head and one body in the output: the status of the first head or 200, the headers edited before it and completed, and all data with its exact length, the announced number of its first bytes, or all data up to the end of the connection; without a head or a write it is 200 with length zero; what its headers are is said by `ResponseHeaders.AskedHeader` |
| `ResponseHeaders.AskedHeader` | server/pipeline_h1_tx.cpp:170-206 | Every header of a response with a head: what the handler set is kept; otherwise connection is `keep-alive` or `close` as the connection is kept or not, server is `maddsua/l3`, cache-control is `no-cache`, the date is the date, and the length is that of the body; upgrades and event streams have no length |
| `ResponseHeaders.HeadersAt` | server/pipeline_h1_tx.cpp:154-156 | The headers the handler set are what its edits before the head leave: the last value set and those appended since, or none after a deletion |
| `ResponseHeaders.AnswerHeader` | server/pipeline_h1_tx.cpp:190-206 | Both together for edits, a status and one body |
| `ResponseHeaders.TokenTells` | server/pipeline_h1_tx.cpp:191-193 | Without a connection header of its own a head tells the client exactly whether the connection goes on |
| `ResponseHeaders.AskedBody` | server/pipeline_h1_tx.cpp:240-279 | The body is all the data, or as much of it as was announced |
| `ResponseHeaders.AskedNothing` | server/pipeline_h1_tx.cpp:129-132 | Without a head or data the answer is an empty 200 with length 0 and the headers that were set |
| `ResponseHeaders.DataFirst` | server/pipeline_h1_tx.cpp:228-232 | Data before any head is the body of a 200 |
| `ResponseHeaders.StreamingIff` | server/pipeline_h1_tx.cpp:170-184 | A head upgrades, or streams events, iff the word stands in the last connection header, or content type, in letters of either case |
| `ResponseHeaders.HeadFitsIff` | server/pipeline_h1_tx.cpp:207-226 | When a first head can be sent on an open connection, by its length and status |
| `ResponseHeaders.EarlyIs` | server/pipeline_h1_tx.cpp:207-226 | What has gone out before the flush: nothing iff no length was given and nothing upgrades or streams |
| `ResponseHeaders.PlainAnswer` | server/pipeline_h1_tx.cpp:134-148 | A status and one body are answered with these five headers |
| `ResponseHeaders.PlainRendered` | server/pipeline_h1_tx.cpp:76-121 | That answer, to the byte |
| `ResponseWriter.LegalIff` | server/pipeline_h1_tx.cpp:123-284 | Calls are legal, with no head after a head or data and a first head of known status and readable length, iff none of them throws and neither does the flush |
| `ResponseWriter.FramedIff` | server/pipeline_h1_tx.cpp:123-148 | The end of an answer can be told by its reader iff no length is announced or at most as much as was written |
| `ResponseWriter.ShortBodyUnframed` | server/pipeline_h1_tx.cpp:240-279 | Announcing ten bytes and writing five is legal, and leaves five bytes under a length of ten on a connection that is kept alive |
| `ResponseWriter.Apply` | server/pipeline_h1_tx.cpp:162-284 | One call throws on an open connection iff the specification says so, and leaves the writer where the specification says, thrown or not, so that a handler may catch and go on |
| `ResponseWriter.ApplyAll` | server/pipeline_h1_tx.cpp:162-284 | Calls in order all succeed iff none of them is one that throws |
| `ResponseWriter.Finish` | server/pipeline_h1_tx.cpp:123-148 | After any calls, thrown ones passed over, the flush completes exactly the reply they ask for; it throws iff a deferred head has no known status, and then nothing of the response is in the output |
| `ResponseWriter.EarlyText` | server/pipeline_h1_tx.cpp:162-284 | Before the flush the output holds nothing of a deferred response, and all of the reply otherwise |
| `ResponseWriter.HeadlessText` | server/pipeline_h1_tx.cpp:207-284 | When the head could not be sent and the handler went on, the output holds its later data without a head |
| `ResponseWriter.AllWritten` | server/pipeline_h1_tx.cpp:228-284 | When the head can be sent, no data is lost to calls that throw |
| `ResponseWriter.AnsweredReply` | server/pipeline_h1_tx.cpp:123-284 | Whatever was thrown and caught on the way, calls that lead to a head that can be sent are answered with the response they ask for, and it is framed iff they write enough |
| `ResponseWriter.FinalAsked` | server/pipeline_h1_tx.cpp:162-284 | The writer's state after any calls, thrown ones passed over, determines exactly the response those calls ask for |
| `ResponseWriter.AnswerLegal` | server/pipeline_h1_tx.cpp:134-145 | A known status and one body, after edits that announce nothing, are legal and answered with that status, that body and its exact length |
| `ResponseWriter.ResponseWriter.Flush` | server/pipeline_h1_tx.cpp:123-148 | The output since the response began is exactly the final response; an unknown deferred status makes it fail and writes nothing |
| `ResponseWriter.ResponseWriter.WriteHeader` | server/pipeline_h1_tx.cpp:162-226 | A second head is refused and changes nothing; a first one succeeds iff its length can be read and it is deferred or has a known status and an open connection; an upgrade or an event stream switches keep-alive off and drops the length; the mode is deferred without a length, announced with one, streamed otherwise |
| `ResponseWriter.ResponseWriter.SendOrDefer` | server/pipeline_h1_tx.cpp:207-226 | The head is kept back iff no length is given and the response does not stream |
| `ResponseWriter.ResponseWriter.FlagModes` | server/pipeline_h1_tx.cpp:170-188 | Upgrades set raw mode and clear the pending body, event streams set streaming, both end keep-alive |
| `ResponseWriter.ResponseWriter.Write` | server/pipeline_h1_tx.cpp:228-284 | Data is kept, cut at the announced length, or passed through, and the response stays consistent with all data written; without a head one of status 200 is sent first; it fails iff that head cannot be sent or the connection is closed while data would have to go out, and an error after the head changes nothing |
| `ResponseWriter.ResponseWriter.WriteBody` | server/pipeline_h1_tx.cpp:234-284 | The same once the head is decided: it fails iff the connection is closed, the response is not deferred and not all announced bytes are written |
| `ResponseWriter.AcceptedMore` | server/pipeline_h1_tx.cpp:240-279 | Cutting each write at what is still announced lets through exactly the announced prefix of all data |
| `ResponseWriter.PreparedLength` | server/pipeline_h1_tx.cpp:170-206 | Completing the headers keeps the announced length, except that upgrades and event streams lose it |
| `ResponseWriter.LengthAfterSet` | server/pipeline_h1_tx.cpp:130-139 | The length set at the end is the one a reader of the headers finds |
| `Stream.ReadThenDiscard` | server/pipeline_h1_rx.cpp:335-383 | After any sequence of reads and the discard, bytes read, bytes dropped and bytes pending add up to the content length; what was read and dropped is the front of the wire; with nothing pending the stream stands at the body's end |
| `Stream.RequestBodyReader.Read` | server/pipeline_h1_rx.cpp:357-383 | The pending counter follows the bytes returned and never wraps; nothing is lost or repeated; a read of unknown length is one read of at most 128 KiB; raw reads empty the buffer whatever their size |
| `Stream.GrantedIs` | server/pipeline_h1_rx.cpp:357-383 | A read of no size or of unknown length is granted 128 KiB |
| `Stream.ReadRequestBody` | server/pipeline_h1_rx.cpp:292-321 | At most the chunk size and at most the remaining body is returned; while bytes are buffered, as many of them as allowed and none from the network; the rest stays in order |
| `Stream.ReadRawBody` | server/pipeline_h1_rx.cpp:323-333 | The whole buffer is handed out at once, or else one bounded read |
| `Stream.DiscardUnreadBody` | server/pipeline_h1_rx.cpp:335-351 | The dropped bytes are the front of the source and reduce the counter by their number; what is not buffered is asked of the network, which gives some of it or stalls; raw streams are left alone |
| `Stream.DiscardCompleteIff` | server/pipeline_h1_rx.cpp:341-350 | The discard is complete whatever the network returns iff the rest of the body is buffered already |
| `Pipelining.ShortDiscardServesBody` | server/pipeline_h1_rx.cpp:341-350 | A discard may stop where a request stands inside the body, and then that is the next request and not what follows the body |
| `Serve.ServeConn` | server/pipeline_h1.cpp:10-52 | For every handler and network the exchanges are the requests of the wire in order, each with the calls its handler makes, and the output is their replies, followed by that to a head that could not be read or by what went out before an exception; the loop ends iff an exchange asks to close, upgrades or streams events, or where no head can be read, the connection ends or an exception is thrown, and it throws iff a query cannot be decoded, the handler raises or its status is unknown; only a body neither read nor buffered makes the discard lose the boundary; answers are framed iff enough was written; when nothing stalls, on a reliable network always, a draining handler reads every body whole and loses nothing; where the handler set no connection header, every answer says `keep-alive` but the one behind which the loop ends |
| `Serve.ServeRequest` | server/pipeline_h1.cpp:54-120 | Either the exchange is the first request of the waiting bytes, the output gains exactly its reply, the stream stands behind the bytes of the body that were read, and keep-alive stays on iff the request did not ask to close and the response neither upgraded nor streamed; or what stopped it is told: a bad, oversized, incomplete or absent head, an exception, or a connection that ended at an empty read |
| `Serve.BodyLengthIs` | server/pipeline_h1.cpp:84-88 | POST, PUT, PATCH and CONNECT have a body of the length told last, the other five methods none whatever length is told |
| `Bytes.StrtoulReads` | server/pipeline_h1_rx.cpp:282-290 | The length is read behind blanks and a sign as far as its digits go, saturates, and wraps below zero |
| `Bytes.StrtoulRefuses` | server/pipeline_h1_rx.cpp:282-290 | Without digits there is no number |
| `Serve.LacksLengthIff` | server/pipeline_h1.cpp:90-91 | A request gets 411 iff it is of those four methods and has a content type and no content length |
| `Serve.LastingIff` | server/pipeline_h1.cpp:102-106 | An exchange ends the connection iff its handler was reached and the last connection header of the request holds `close`, or its response upgrades or streams |
| `Serve.Answer` | server/pipeline_h1.cpp:83-119 | A parsed request is answered by the handler, or with 411 when it has a type but no length; it throws iff the handler raises or the status is unknown |
| `Serve.AskLength` | server/pipeline_h1.cpp:90-100 | The 411 answer goes out complete, never throws, and leaves the body pending and keep-alive as it was |
| `Serve.LengthAnswer` | server/pipeline_h1.cpp:90-100 | The calls of the 411 answer are legal and write what they announce, and their response has that status and message |
| `Serve.LengthTold` | server/pipeline_h1.cpp:93-96 | Its status is 411 and this its message |
| `Serve.LengthHeaders` | server/pipeline_h1.cpp:93-96 | It is plain text, and says whether the connection is kept |
| `Serve.Refuse` | server/pipeline_h1.cpp:60-81 | A head that cannot be read is answered with the status and the message of its error, framed, or with nothing after a timeout, and the connection is closed; it throws iff the query could not be decoded |
| `Serve.RefusalAsked` | server/pipeline_h1.cpp:72-75 | The calls that answer an error are legal, and their response is framed, plain text, says `close` and has its status and message |
| `Serve.RefusedTells` | server/pipeline_h1.cpp:60-81 | A head that is too big is answered with 431, a malformed one with 400 and one of five messages, and a connection that is gone or silent, or an exception, with nothing |
| `Serve.Play` | server/pipeline_h1.cpp:108-117 | Any handler at all, catching or not, makes exactly the calls it decides on from what it saw; it reads a prefix of the body, its calls throw exactly where the specification says, keep-alive ends iff it leaves plain HTTP, and only an empty read closes the connection |
| `Serve.Step` | server/pipeline_h1.cpp:108-117 | The same for one call: the bytes read are the next of the body, and an empty read of an unfinished body means that there is no more, or a stall |
| `Serve.RunHandler` | server/pipeline_h1.cpp:102-119 | The reply to the handler's calls is flushed and the counters match the bytes it read; it throws iff the handler raises or its status is unknown, and then only what was not deferred has gone out; it ends early iff the connection closed at an empty read |
| `Serve.Turn` | server/pipeline_h1.cpp:29-32 | One turn of the loop discards the old body and serves the next request, and makes progress; the discard falls short only of a body neither read nor buffered, and the turn throws iff the request does |
| `Serve.Discard` | server/pipeline_h1_rx.cpp:335-351 | The discard moves towards the next head without passing it, and falls short only of bytes not yet buffered |
| `Serve.FollowsOneMore` | server/pipeline_h1.cpp:29-32 | Exchanges compose: a log that follows the wire, continued by one that follows the rest, follows the wire |
| `Serve.RequestAttempted` | server/pipeline_h1_rx.cpp:214-249 | A request with a head within the limit always reaches its handler or its 411, unless the network goes silent, which a reliable one does not |
| `Serve.AllFramed` | server/pipeline_h1_tx.cpp:123-148 | In every log the replies to answered exchanges are the responses asked for, and framed iff as much was written as announced |
| `Serve.DrainerDrains` | server/pipeline_h1_rx.cpp:357-383 | A handler that reads until it has the whole body or finds nothing more is a draining one, so that what is said of those applies |
| `Pipelining.ServePipelined` | server/pipeline_h1.cpp:29-120 | On a wire of well-formed requests the exchanges are the first of them, head by head and body by body, unless a discard fell short of a body neither read nor buffered; when nothing stalls, on a reliable network always, the loop ends behind the last, at an exchange that does not let it go on, or at a request whose handler raised or upgraded, and a draining handler sees every body whole; which requests are well formed is said by `ClientRequests.ClientRequestWellFormed` |
| `Pipelining.StoppedInWire` | server/pipeline_h1_rx.cpp:214-249 | In a stream of well-formed requests no head is refused: the loop stops behind the last, or at the first not listed for its handler's sake or for a silent network |
| `Pipelining.FollowsRequests` | server/pipeline_h1_rx.cpp:201-351 | A log that follows a stream of well-formed requests lists exactly the first of them and leaves exactly the others |
| `Pipelining.RequestScans` | server/pipeline_h1_rx.cpp:201-280 | A printed request is read back as its request line and headers, and its head ends where it was printed to end |
| `ClientRequests.ClientRequestWellFormed` | server/pipeline_h1_rx.cpp:96-290 | A request printed with any of the nine methods, any target and clean headers, and for the four methods with a body with that body's length, is well formed iff its head is within the limit |
| `ClientRequests.ServeClients` | server/pipeline_h1.cpp:29-120 | What a client prints on one connection is what the handler sees, request by request: method, target, headers, and of each body the beginning, or with a draining handler on a network that does not stall all of it; then nothing is lost, and a loop that ends for want of a head has served every request |
| `ClientRequests.LineParses` | server/pipeline_h1_rx.cpp:96-154 | A printed request line is read back as its method and target |
| `ClientRequests.LineIsPlain` | server/pipeline_h1_rx.cpp:269-274 | A printed request line, which the code also hands to the header parser, is dropped there |
| `ClientRequests.LengthCounts` | server/pipeline_h1.cpp:84-88 | For POST, PUT, PATCH and CONNECT, any target and any headers before it, the content length printed last is the length of the body; the other five methods have no body whatever their headers announce |
| `Net.Connection.Read` | net/tcp_conn.cpp:55-84 | A read returns a prefix of the unread bytes of at most the size given; an empty one with bytes outstanding is a stall, and does not happen on a reliable network |
| `Net.Connection.Write` | net/tcp_conn.cpp:86-105 | A write appends all its data to the output |
| `Sha1.Sha1.Update` | hash/sha1.cpp:79-94 | The message grows by the input, with whole blocks folded into the state and the tail in the buffer |
| `Sha1.Sha1.Push` | hash/sha1.cpp:81-91 | The same for one byte |
| `Sha1.Sha1.FoldFull` | hash/sha1.cpp:86-90 | A full buffer is folded, the counter grows by 512 and the buffer starts anew |
| `Sha1.Sha1.Digest` | hash/sha1.cpp:96-151 | Both padding branches return the pad-then-fold hash of FIPS 180-4 of everything updated; that it is that hash is witnessed by `Sha1Example.AbcDigest` |
| `Sha1Example.AbcDigest` | hash/sha1.cpp:64-151 | The digest of "abc", as FIPS 180-4 gives it, by way of the 80 words and 80 rounds of its block |
| `Sha1.ConstantsAreRoots` | hash/sha1.cpp:73-76 | The round constants are the integral parts of 2^30 times the square roots of 2, 3, 5 and 10 |
| `Sha1.LengthBytesRead` | hash/sha1.cpp:129-136 | The eight length bytes, most significant first, make the number they were made of |
| `Sha1.WordOfItsBytes` | hash/sha1.cpp:139-149 | A word is made of the four bytes it is output as |
| `Sha1.Sha1.Pad` | hash/sha1.cpp:100-125 | After the padding the state lacks only the last block: what waits in the buffer up to the length, and the length |
| `Sha1.Sha1.RunRounds` | hash/sha1.cpp:38-55 | The eighty rounds over the shifting words are those of the standard |
| `Sha1.Sha1.Transform` | hash/sha1.cpp:16-60 | The state becomes the compression of the old state with the buffer, as in section 6.1.2 of FIPS 180-4, with the constants of `Sha1.ConstantsAreRoots` |
| `Sha1.Sha1.MakeSchedule` | hash/sha1.cpp:20-31 | The 80 words are the message schedule of the standard |
| `Sha1.Sha1.PutLength` | hash/sha1.cpp:127-136 | The last eight bytes are the bit count, most significant first |
| `Sha1.Sha1.Output` | hash/sha1.cpp:139-149 | The bytes of the five words, most significant first |
| `Sha1.RoundWordIs` | hash/sha1.cpp:40-48 | The four branches of a round compute the standard's functions and constants |
| `Sha1.RoundsStep` | hash/sha1.cpp:38-55 | Shifting the five words is one round of the standard |
| `Sha1.PaddedOneBlock` | hash/sha1.cpp:103-110 | With fewer than 56 bytes waiting the padded message ends in one block, the buffer as it is filled |
| `Sha1.PaddedTwoBlocks` | hash/sha1.cpp:112-125 | Otherwise it ends in two |
| `Sha1.ZeroCountIsLeast` | hash/sha1.cpp:103-125 | The padding uses the least number of zero bytes, as section 5.1.1 of FIPS 180-4 asks |
| `Sha1.FoldConcat` | hash/sha1.cpp:79-94 | Folding whole blocks in two parts is folding them at once |
| `Sha1.InPieces` | hash/sha1.cpp:79-94 | Two updates hash like one with the concatenation |
| `Sha1.Text` | hash/sha1.cpp:154-156 | The hash of a text |
| `JsonExact.JsonRoundTripIff` | json/parse.cpp:25-291 | For every tree with sorted objects, balanced keys, texts that have no quote and no backslash at the end, and floats in figures, printing and parsing gives the value back iff the brackets in every string but the last one printed balance, there is no `false`, no undefined, no empty array, no empty key, no string with a backslash or an escape character, no integer after a printed point and no float that is trimmed or before any point, and the text is within the size limit |
| `JsonKept.KeptIff` | json/parse.cpp:25-291 | For every tree with sorted objects and with texts, keys and tokens that have no quote and put no backslash before one, floats and unbalanced keys included, printing and parsing gives the value back iff at every array and object the splitter cuts between the printed items and nowhere else, there is no `false`, no undefined, no empty array, no empty key, no string with a backslash or an escape character, no integer after a printed point and no float that is trimmed, not a number or before any point, and the text is within the size limit; for undefined properties among unbalanced keys see below |
| `JsonKept.Back` | json/parse.cpp:39-74 | The same for a value printed anywhere in a buffer |
| `JsonKept.EntriesExact` | json/parse.cpp:207-259 | If reading the ranges of a printed object gives its entries, no range was passed over and no entry replaced, and the ranges are where the entries were printed |
| `JsonKept.TilesExact` | json/parse.cpp:85-120 | Ranges that tile joined texts, none lighter than its text, are where the texts are |
| `JsonKept.RangesMoved` | json/parse.cpp:76-125 | The splitter looks at nothing outside its range |
| `JsonKept.LoneEntryKept` | json/parse.cpp:207-259 | An object of one integer comes back whatever brackets its key holds |
| `JsonKept.LastKeyMisleads` | json/parse.cpp:85-120 | A bracket in the last key can make a comma of its value a cut, so that the object does not come back although every string balances |
| `JsonCost.ParsedCost` | json/parse.cpp:39-291 | On any buffer without a quote behind a backslash, what a range is read as prints no longer than the range, but for one character if the range leaves a quote open |
| `JsonCost.PutsCost` | json/parse.cpp:207-259 | The same for the entries put into an object; an entry that is replaced is lost weight |
| `JsonExact.Exact` | json/parse.cpp:39-291 | A printed value is parsed without error only from a range that ends with it, or behind it if a number or an empty container is printed last; and only if the splitter was misled by none of its strings |
| `JsonExact.NetZero` | json/parse.cpp:85-114 | A printed value after which the splitter's counters are as before has no unbalanced string |
| `JsonExact.CutThere` | json/parse.cpp:116-119 | A range that reaches the end of a whole text before a comma is cut there |
| `JsonExact.ParseNamed` | json/parse.cpp:231-251 | Whatever is parsed has no empty key |
| `JsonRoundTrip.ParseText` | json/stringify.cpp:19-121 | For the trees with balanced strings, floats included, exactly what parsing the printed text returns, errors included |
| `JsonRoundTrip.BlanksIgnored` | json/parse.cpp:41-273 | Such a value printed with any blanks before and after itself, its items, its keys, its colons and its values parses like its printed text, within the size limit |
| `JsonRoundTrip.ParseSpaced` | json/parse.cpp:25-273 | What it parses as, errors included |
| `JsonRoundTrip.BlankArrayIff` | json/parse.cpp:261-273 | An array without items is read iff there are no blanks in it |
| `JsonRoundTrip.BlankEntry` | json/parse.cpp:207-259 | An object without entries is read with any blanks in it |
| `JsonRoundTrip.ReadsBack` | json/parse.cpp:39-74 | Wherever the text of such a value stands in a buffer, with any blanks before and after it and its items, keys and colons, parsing its range returns that |
| `JsonRoundTrip.ItemsRead` | json/parse.cpp:261-273 | The comma splitter finds exactly the printed items |
| `JsonRoundTrip.EntriesRead` | json/parse.cpp:207-259 | The splitter and the key scan find exactly the printed entries, and entries without a key are passed over |
| `JsonScan.RangesSkip` | json/parse.cpp:85-120 | The splitter's counters follow the brackets and quotes of the text alone |
| `JsonScan.TextPasses` | json/stringify.cpp:64-115 | The splitter makes no cut inside a printed value whose strings balance, and its counters come out as they went in; the last string may be unbalanced if nothing follows |
| `JsonScan.SpacedPasses` | json/parse.cpp:85-120 | The same for the value printed with any blanks |
| `JsonRoundTrip.ReparsedIff` | json/parse.cpp:275-291 | What comes back is the value itself iff the value is faithful |
| `JsonRoundTrip.KeyReads` | json/parse.cpp:215-249 | The key scan returns the printed key and the start of its value |
| `JsonRoundTrip.SpacedKeyReads` | json/parse.cpp:215-249 | The same with blanks before the key and its colon, and for keys with quotes behind backslashes, which are taken as they stand; an entry without a key or a value is passed over |
| `JsonRoundTrip.EntryPassedOver` | json/parse.cpp:215-249 | So is one without a colon |
| `JsonRoundTrip.IntReads` | json/parse.cpp:196-205 | A printed 64-bit integer is read back, or as a float after a point anywhere before it |
| `JsonParse.IntOfIs` | json/parse.cpp:196-205 | Digits are read as far as they go, and a number out of 64 bits is refused |
| `JsonRoundTrip.FloatReads` | json/parse.cpp:196-205 | A printed float is read back without its trimmed zeros, and as an integer if neither it nor anything before it has a point |
| `JsonParse.LiteralOfIs` | json/parse.cpp:275-291 | `true` and `null` are read, `false` is too long, and everything else is refused |
| `JsonStrings.UnescapedEscaped` | json/stringify.cpp:9-17 | Escapes of line feeds and tabs are undone; an escape character comes back as a carriage return |
| `JsonStrings.UnescapedIff` | json/stringify.cpp:64-82 | Without quotes, resolving the printed escapes gives a text back iff it has no backslash and no escape character |
| `JsonStrings.StringRoundTripIff` | json/parse.cpp:127-194 | Any string at all comes back iff it has no quote, backslash or escape character and its text is within the limit |
| `JsonWritten.WrittenReads` | json/parse.cpp:127-194 | A string written with two backslashes before every quote, backslash, line feed, carriage return and tab is read back, unless it begins with a quote |
| `JsonWritten.WrittenPasses` | json/parse.cpp:85-120 | The splitter passes over such a string, quotes included, if its brackets balance and it does not end with a backslash |
| `JsonWritten.StringsRead` | json/parse.cpp:85-273 | An array of such strings is read back |
| `JsonParse.EscapeReads` | json/parse.cpp:145-191 | Two backslashes and one of five letters are one character, and other letters are refused |
| `JsonParse.LoneBackslash` | json/parse.cpp:145-191 | One backslash is refused, and two at the end of a string escape the quote that closes it |
| `JsonStrings.UnescapedCost` | json/parse.cpp:145-191 | Resolving escapes never yields text that would print longer, and pays for every backslash |
| `JsonStrings.QuoteRefused` | json/stringify.cpp:14 | The printer's escape of a quote is one the parser refuses |
| `JsonParse.RangesTile` | json/parse.cpp:76-125 | On any input the entries tile the range with exactly one comma between neighbours, and the cuts are exactly the commas outside all scopes |
| `JsonParse.TilesUnique` | json/parse.cpp:76-125 | These two properties determine the entries |
| `JsonParse.GetObjectEntries` | json/parse.cpp:76-125 | The loop with its wrapping `size_t` counters computes those entries |
| `JsonParse.WrappedIsZero` | json/parse.cpp:116 | Within the size limit a counter that wrapped below zero is never mistaken for zero |
| `JsonParse.ParseString` | json/parse.cpp:127-194 | Bounds, unescaped quotes and escapes are judged as specified, in the order of the code |
| `JsonParse.UnescapeContent` | json/parse.cpp:142-191 | The loop resolves each escape of two backslashes and a letter |
| `JsonParse.FindKey` | json/parse.cpp:215-249 | The key scan returns the first quoted text and what follows its colon |
| `JsonParse.TrimRange` | json/parse.cpp:41-53 | The two loops leave out the blanks before and behind a value; what that means for parsing is said by `BlanksDropped` |
| `JsonParse.BlanksDropped` | json/parse.cpp:41-53 | In any buffer, spaces, tabs, line feeds, vertical tabs, form feeds and carriage returns around a value do not change what its range is read as |
| `JsonParse.BlanksRefused` | json/parse.cpp:41-73 | A range of blanks alone is an error |
| `JsonParse.ReadRange` | json/parse.cpp:39-74 | The recursive parser with its loops computes the specified value for any range, and terminates |
| `JsonParse.ReadArray` | json/parse.cpp:261-273 | One value per entry, up to the first error |
| `JsonParse.ReadObject` | json/parse.cpp:207-259 | One entry per key found, later keys replacing earlier ones, up to the first error |
| `JsonParse.ReadJson` | json/parse.cpp:25-37 | The parser with its size limit and its refusal of nothing computes the specified value for any buffer; what that is on printed and on spaced text is said by `ParseText` and `BlanksIgnored` |
| `JsonParse.ParseLimits` | json/parse.cpp:25-37 | 2^32 bytes and more are too large, no bytes are no value, and all else is what its range is read as |
| `JsonStringify.Stringify` | json/stringify.cpp:19-121 | The recursive printer with its loops prints the specified text |
| `JsonStringify.EscapeString` | json/stringify.cpp:64-82 | Each character is printed as it is or as its replacement |
| `JsonStringify.EscapedIs` | json/stringify.cpp:9-17 | Which characters are printed as two backslashes and a letter, or behind one, and that all others are printed as they are |
| `JsonStringify.LiteralTexts` | json/stringify.cpp:60-121 | The texts of the literals and of empty containers |
| `JsonStringify.TrimFloat` | json/stringify.cpp:26-59 | The zeros that end a fraction are dropped, and a point that ends it |
| `JsonStringify.FloatTextIs` | json/stringify.cpp:26-59 | A whole part, a fraction that does not end with a zero, and zeros are printed without these, and without the point if there is no fraction |
| `SearchParams.ParamsRoundTripIff` | http/url_search_params.cpp:7-63 | For every multimap the operations can reach, printing and parsing is lossless iff no value is empty |
| `SearchParams.ParamsOfPrinted` | http/url_search_params.cpp:7-63 | Parsing a printed query keeps exactly the pairs that have a value |
| `SearchParams.TokenRoundTrip` | http/url_search_params.cpp:12-32 | A printed pair is split and decoded into itself |
| `SearchParams.TokenFiled` | http/url_search_params.cpp:12-32 | A key and a value with a `=` between are decoded and filed |
| `SearchParams.TokenIgnored` | http/url_search_params.cpp:12-32 | A token without one, or with nothing before or behind it, is ignored, whatever it holds |
| `SearchParams.QueryReads` | http/url_search_params.cpp:34-43 | The tokens stand between ampersands and are filed in order, up to the first that throws |
| `SearchParams.FromString` | http/url_search_params.cpp:7-43 | The constructor files the tokens in order, or throws where decoding does |
| `SearchParams.ParseToken` | http/url_search_params.cpp:12-32 | One token is filed, ignored, or throws |
| `SearchParams.ToString` | http/url_search_params.cpp:45-63 | One pair per value, joined by ampersands |
| `UrlEncode.DecodedEncoded` | http/url_encode.cpp:28-70 | Decoding undoes encoding for every byte string |
| `UrlEncode.EncodedIs` | http/url_encode.cpp:3-46 | Which characters are printed as they are, and the two digits of the others |
| `UrlEncode.EscapeReads` | http/url_encode.cpp:48-70 | What any two characters behind a percent sign, or fewer, stand for, and when the conversion throws |
| `UrlEncode.DecodedPlain` | http/url_encode.cpp:48-70 | Text without percent signs is decoded as it is, plus signs too |
| `UrlEncode.EncodedIsPlain` | http/url_encode.cpp:28-46 | Encoded text has none of the separators of a query or a URL |
| `UrlEncode.EncodeUriComponent` | http/url_encode.cpp:28-46 | The loop computes the specified encoding |
| `UrlEncode.DecodeUriComponent` | http/url_encode.cpp:48-70 | The loop computes the specified decoding, or fails where a conversion throws |
| `Values.NormalizedIdempotent` | http/values.cpp:133-182 | Normalising a key again changes nothing, and a normal key has at least two characters |
| `Values.TrimmedIsStrippedIff` | http/values.cpp:133-168 | Trimming removes just the outer blanks iff what remains is not a single character |
| `Values.TrimmedIs` | http/values.cpp:133-168 | Blanks around a token do not matter, and a single character is lost |
| `Values.LoweredIff` | http/values.cpp:170-182 | Two tokens are lowered alike iff they differ in nothing but the case of letters |
| `Values.TrimSpace` | http/values.cpp:133-168 | The two index loops compute the trimmed text |
| `Values.ResetCase` | http/values.cpp:170-182 | The in-place loop computes the normal key |
| `Values.Values.Has` | http/values.cpp:27-35 | A key is present iff it has values |
| `Values.Values.Get` | http/values.cpp:37-55 | The last value filed under the key, or nothing |
| `Values.Values.GetAll` | http/values.cpp:57-74 | All values filed under the key |
| `Values.Values.Set` | http/values.cpp:76-84 | One value replaces all under the normal key; the multimap stays valid |
| `Values.Values.Append` | http/values.cpp:86-100 | The value goes behind those under the normal key; the multimap stays valid |
| `Values.Values.Del` | http/values.cpp:102-110 | The normal key is removed; the multimap stays valid |
| `Values.Values.List` | http/values.cpp:112-123 | One pair per value, keys ascending, values in order |
| `Values.AllOfAfterSet` | http/values.cpp:76-84 | Keys that normalise alike are one key, and other keys are left alone |
| `Values.AllOfAfterAppend` | http/values.cpp:86-100 | The same for appending |
| `Values.AllOfAfterDel` | http/values.cpp:102-110 | The same for deleting |
| `Values.Rebuilt` | http/values.cpp:86-123 | Listing a multimap and appending the pairs to an empty one rebuilds it |
| `OrderedMap.LessIff` | http/values.cpp:112-123 | Keys are ordered by the first byte in which they differ, a beginning before what it begins |
| `OrderedMap.PutBetween` | http/values.cpp:76-100 | A new key goes between the smaller and the greater ones |
| `UrlRoundTrip.UrlRoundTripIff` | http/url.cpp:8-152 | Printing and parsing gives a URL back iff it has no user, a plain path from a slash on, a fragment with its mark, no empty search value, and a normal host without slash or at-sign after a normal scheme, or no host, no scheme and no scheme mark |
| `UrlRoundTrip.UrlReads` | http/url.cpp:8-152 | For such a URL, exactly what parsing the printed text returns |
| `UrlRoundTrip.UrlShape` | http/url.cpp:8-106 | What parsing any URL guarantees about its parts |
| `UrlRoundTrip.HostKeptIff` | http/url.cpp:66-82 | The host meant by the authority is found iff there are no credentials or no host |
| `UrlRoundTrip.AuthorityReads` | http/url.cpp:8-82 | What stands between scheme and path is the host, or credentials and a host that is lost |
| `UrlRoundTrip.UserReads` | http/url.cpp:33-64 | User and password stand before the first at-sign with the first colon between them, and are not decoded |
| `UrlRoundTrip.UserAlone` | http/url.cpp:33-64 | A user without a password has at least two characters, and a password without a user is nothing |
| `UrlRoundTrip.PrintedCredentialsRead` | http/url.cpp:8-152 | A URL printed with credentials comes back with them encoded and without its host |
| `UrlRoundTrip.HashAdded` | http/url.cpp:143-149 | A fragment without its mark is printed with one |
| `UrlRoundTrip.TailReads` | http/url.cpp:84-105 | Path, query and fragment are taken apart where they were put together |
| `UrlRoundTrip.TailIs` | http/url.cpp:84-105 | Any path, query and fragment are taken apart where they stand, or the query throws |
| `UrlRoundTrip.FrontReads` | http/url.cpp:10-26 | Scheme and host are taken apart where they were put together |
| `Url.Parse` | http/url.cpp:8-106 | The constructor's index scans fill in the specified parts, or throw |
| `Url.ParseTail` | http/url.cpp:84-105 | Fragment, then query, then path |
| `Url.ParseAuthority` | http/url.cpp:66-82 | Credentials and host |
| `Url.ParseCredentials` | http/url.cpp:33-64 | User and password, a user alone, or nothing |
| `Url.Url.ToString` | http/url.cpp:108-152 | The printed text of the parts |
| `Base64.Base64RoundTripIff` | base64/base64.cpp:53-148 | Decoding encoded bytes gives them back iff there are any |
| `Base64.TriplesOfEncoded` | base64/base64.cpp:61-65 | The decoded groups are the bytes and the zero bytes that filled the last group, as many as there are padding signs |
| `Base64.EncodedLength` | base64/base64.cpp:114-148 | Encoded text has four symbols for every three bytes begun |
| `Base64.EncodedValid` | base64/base64.cpp:5-14 | Encoded text is valid |
| `Base64.AlphabetIs` | base64/base64.cpp:99-100 | The 64 symbols in their order |
| `Base64.ValidSymbolIff` | base64/base64.cpp:5-14 | Valid characters are these symbols and the padding sign; anything else stands for zero bits |
| `Base64.LeftOver` | base64/base64.cpp:67-84 | One symbol left over makes a byte of its own |
| `KnownAnswers.Foobar` | base64/base64.cpp:114-148 | An example of section 10 of RFC 4648 |
| `KnownAnswers.Padded` | base64/base64.cpp:131-146 | What one and two bytes left over are encoded as |
| `Base64.EncIsSymbols` | base64/base64.cpp:102-112 | Shifts, masks and exclusive ors compute the four 6-bit parts of a 24-bit group |
| `Base64.DecIsTriple` | base64/base64.cpp:44-51 | The table, shifts and exclusive ors compute the three bytes of a group |
| `Base64.Encode` | base64/base64.cpp:114-148 | The index loop and the tail compute the encoding of section 4 of RFC 4648 |
| `Base64.Decode` | base64/base64.cpp:53-96 | The index loop, the tail and the padding count compute the specified decoding, outside-the-buffer cases marked |
| `Base64.Valid` | base64/base64.cpp:5-14 | True iff every character is a symbol or a padding sign |
| `BasicAuth.BasicAuthRoundTripIff` | http/basic_auth.cpp:7-68 | The header made of a user and a password gives both back iff the user is not empty and has no colon |
| `BasicAuth.AuthReads` | http/basic_auth.cpp:13-46 | The scheme is `basic` in letters of either case, with any number of spaces behind it; any other holds no credentials |
| `BasicAuth.NoToken` | http/basic_auth.cpp:13-30 | Neither does a header with nothing behind its spaces |
| `BasicAuth.AuthUndefinedIff` | base64/base64.cpp:67-84 | A header makes decoding leave its buffers iff its scheme is basic and its token is valid and leaves two or three symbols over |
| `BasicAuth.ParseBasicAuth` | http/basic_auth.cpp:7-68 | Scheme, token and pair are found as specified, or nothing |
| `BasicAuth.ReadToken` | http/basic_auth.cpp:43-67 | A token is validated, decoded and split at its first colon |

## Left out

- Sockets, listener, threads, timeouts, logging and debug output: only the contracts of a connection's read, write and close remain, and nothing interrupts a loop from outside (`ctx.done()`).
- Net.Connection.Read: read errors other than a timeout or a disconnect, which throw, do not happen.
- Net.Connection.Write: sends that fail or are cut short while the connection is open do not happen.
- Static files, MIME table, page generator, server-sent events and cookies: file system, or weaker copies of what is here.
- The status table beyond the codes in use: a `Status` carries its reason phrase, if the table has one for it; the clock behind the `date` header is a parameter.
- `merge_url_components`, at the end of reading a head (scheme, host, credentials and default path of a request's URL): heads are compared by their request target and headers.
- Websocket.Websocket.constructor: takes over only once protocols are switched; the check of the request and its outcomes are in `Websocket.Accept`, since a Dafny constructor cannot fail.
- The WebSocket destructor's close frame.
- The overloads of `Websocket::write` for a text and for bytes, which write one final frame of that opcode.
- WebSocket lengths whose bytes are shifted by 32 bits or more are `Undefined` unless the byte is zero, for which the shift is taken to give zero.
- JSON floats: `std::to_string` and `stold` are library code, so a float carries its token, and whether `stold` would refuse the token is not modelled.
- JsonExact.JsonRoundTripIff: unbalanced keys and floats not printed in figures are outside, and covered by `JsonKept.KeptIff`.
- JsonRoundTrip.BlanksIgnored: for the trees whose strings and keys do not mislead the splitter; an empty array is printed without blanks, since with them it is refused.
- JsonKept.KeptIff: trees with a quote in a string or key, or with a backslash at its end, are outside; some of them do come back (a key with a backslash before a quote, say), and for a lone string the exact condition is `JsonStrings.StringRoundTripIff`. So are undefined properties in a tree with unbalanced keys or with floats not in figures, and float tokens with a quote, a backslash or a delimiter in front, none of which the library prints.
- `URL::href`, which prints a part of what `to_string` prints.
- Serve.Play: handlers that never end, and those that depend on more than the request, its number on the connection and what their own calls returned.
- Serve.ServeConn: what has gone out before an exception or a disconnect is told while the connection is open; on a closed one only that the replies before it are there.
- read_all and text of a request body: one read of at most 128 KiB, which `Stream.RequestBodyReader.Read` covers.
- HeadReader.ReadRequestHead: `merge_url_components` is left out; the reader's single loop is written as a loop over lines with `AwaitLine` inside, which keeps `chunker_seek` for just one line.
- Copies and moves of multimaps; `Headers` and `URLSearchParams` are the same class here.
- Sha1.Sha1.Update: the `size_t` bit counter is modelled modulo 2^64, and so is the length in the padding, which the standard defines below 2^64 bits only.
- Base64.Decode: reads and writes outside the buffers are answered by `None`, not simulated.
- Websocket.Websocket.Close: reason codes are those of the enumeration, below 2^15.
