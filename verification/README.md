# Touché, verified

Touché is a synchronous HTTP/1.x engine. This project models the byte-level path of one connection
and proves what it does, for all inputs:

- `QueueProtocol.dfy` is the read queue that pipelined requests share, as a transition system over
  all interleavings of any number of threads; `ReadQueue.dfy` has its objects, with every operation
  shown to be steps of that system.
- `ChunkedCodec.dfy` is the chunked transfer coding (section 7.1 of RFC 9112), writer and reader.
- `Head.dfy` holds header fields, the typed lookups, and the text of message heads. `Framing.dfy`,
  `Requests.dfy` and `Responses.dfy` write and parse messages: how the writer chooses an encoding,
  what the parser makes of the head (section 6.3 of RFC 9112), and when the two agree. `Lookups.dfy`
  says what the lookups mean of the fields themselves, `Peers.dfy` what becomes of heads that other
  implementations write, and what is accepted at all, `Trailers.dfy` what is sent of trailers.
- `Content.dfy` says what the three views of a body (bytes, reader, chunks) yield; `Bodies.dfy` has
  the objects that deliver them.
- `Serving.dfy` is the connection loop as a function from the input of a connection to the events of
  its run (section 9.3 of RFC 9112, section 10.1.1 of RFC 9110), with the client's half of the
  persistence decision. `Expectations.dfy` and `Persistence.dfy` state of every run what becomes of
  expectations, and of the connection after each answer, in terms of what was received and sent.
  `ServeLoop.dfy` is the loop itself, on the read queue, the body objects and the buffered writer;
  `Clients.dfy` is the client and its pool.
- `Pipelining.dfy` composes them: whole sessions of pipelined requests, and the server's answers as
  the client reads them. `Conversing.dfy` puts the client's pool and the server on one connection.
- `Bytes.dfy` and `Streams.dfy` supply byte strings, numerals, and the two ends of a connection.

An input is a byte sequence with a position and a function that says how many bytes a read finds
ready there, so every pattern of short reads is covered. Each method with a loop or a state is proved
against a function on values, and the properties are proved about those functions.

## Where the code falls short

These are behaviours of the code as it is; each has a lemma or a contract that says exactly when it
occurs.

- An HTTP/1.0 request with `transfer-encoding: chunked` and a known length is sent with that length
  but read in chunks (`Requests.RequestFramingAgreement`, `Requests.ChunkedHttp10RequestDisagrees`).
- A data chunk of length zero is written as the end of the body (`ChunkedCodec.ChunkedRoundTrip`).
- An error among the chunks of a body makes `into_bytes` fail, but ends the chunk and reader views
  silently; the reader even passes over an error in first place (`Content.ErrorsEndSilently`). So a
  message with such a body goes out cut short, and is read back as complete.
- `into_chunks` on a reader takes more than the declared length (`Content.OverReadBound`,
  `Content.ChunkViewDiffers`), on a connection the beginning of the next request
  (`ServeLoop.ChunksTakeTheNext`). With the errors above, this is all that keeps what is sent from
  being the body (`Framing.DeliveredIsBody`); the round trips give their bodies in both forms.
- Reading an iterator body into an empty buffer loses the rest of it (`Bodies.BodyReader.Read`).
- Input that ends inside a head is accepted, with the fields whose lines are complete, as soon as it
  has the start line without its line end (`Requests.CutRequest`), or the status code
  (`Responses.CutResponse`); only a small body that the fields announce makes it fail.
- An empty line that ends in CRLF, behind a line that ends in a line feed alone, is not recognized as
  the end of a head: the scan goes on, and the head takes the bytes of the body with it
  (`Peers.PeerRequest`, `Peers.PeerResponse`: if and only if). Two empty lines in front of a request
  end its head before it begins, but for a line feed alone with CRLF behind it
  (`Peers.TooManyEmptyLines`).
- When an HTTP/1.1 request asks to close and the service's response does not say so, the server
  closes and the client keeps the connection (`Serving.PersistenceOverRun`, with the run of a request
  in `Pipelining.ClosedButKept`).
- Behind a chunked body the parser leaves the trailer lines and the final empty line. The empty line
  is absorbed by the next head, or makes the session end in an error; trailers are taken for a
  request, which is malformed (`Pipelining.PipelinedRoundTrip`, `Pipelining.PipelineIsReceived`).

## Model

| member | source | states |
|---|---|---|
| QueueProtocol.FifoSlicing | src/read_queue.rs:33-102 | in every reachable state the bytes consumed through the handles, in enqueue order, are the consumed prefix of the stream, and a handle with the reader has only dropped handles before it |
| QueueProtocol.TokenConservation | src/read_queue.rs:33-102 | the reader is in exactly one place until the queue and all handles are gone, then in none |
| QueueProtocol.ReceiveNeverFails | src/read_queue.rs:53-97 | a handle without the reader has it in its channel or has a live sender, so no `recv().unwrap()` panics |
| QueueProtocol.OldestCanMove | src/read_queue.rs:49-102 | the oldest live handle can read or drop without waiting |
| QueueProtocol.WaitsForPredecessor | src/read_queue.rs:53-58 | a blocked handle waits for its immediate predecessor only, which is alive, so waiting has no cycle |
| QueueProtocol.DropsTerminate | src/read_queue.rs:89-101 | however the dropping threads interleave they take a fixed number of steps, at most three a handle, and stop only when every handle is dropped |
| QueueProtocol.ExclusiveUpgrade | src/server.rs:534-537 | once the last handle and the queue are dropped no handle lives and the reader is nowhere |
| ReadQueue.ReadQueue.Enqueue | src/read_queue.rs:33-46 | is the protocol's enqueue step and keeps the links between handles and channels |
| ReadQueue.QueuedReader.Receive | src/read_queue.rs:53-57 | a waiting handle becomes current with the one reader, as the protocol's receive step; where the source blocks, that is exactly when the protocol says the handle must wait, it changes nothing |
| ReadQueue.QueuedReader.Read | src/read_queue.rs:49-61 | delivers the next bytes of the shared reader, as receive and consume steps, or must wait |
| ReadQueue.QueuedReader.FillBuf | src/read_queue.rs:64-74 | shows what is ready and consumes nothing, or must wait |
| ReadQueue.QueuedReader.Consume | src/read_queue.rs:76-86 | advances the shared reader, as receive and consume steps, or must wait |
| ReadQueue.QueuedReader.Drop | src/read_queue.rs:89-101 | is the run of the protocol's drop steps to the end, or to where it waits for the reader; from there it can be resumed; a handle already dropped stays as it is |
| ReadQueue.ReadQueue.DropQueue | src/server.rs:536-536 | destroys a reader that is waiting in the queue |
| Streams.ByteStream.ReadUntilLf | src/request.rs:43-43 | takes everything through the first line feed, whatever the sizes of the reads |
| Streams.ByteStream.ReadExact | src/request.rs:98-98 | takes exactly so many bytes, or fails with the input used up |
| ChunkedCodec.SizeLineRoundTrip | src/request.rs:204-204 | the size line of any 64-bit length is read back |
| ChunkedCodec.SizeLineInAnyCase | src/request.rs:241-245 | so is one whose letters are in upper case |
| ChunkedCodec.SizeLines | src/request.rs:241-254 | exactly these lines are accepted, as the number that their digits are: at most sixteen hexadecimal digits, then blanks, then an extension, which is ignored |
| ChunkedCodec.TooManyDigits | src/request.rs:253-253 | more than sixteen digits are refused, whatever follows |
| ChunkedCodec.ChunkedReader.Next | src/request.rs:233-255 | returns and takes what the value-level step says |
| ChunkedCodec.DecodeEncoded | src/request.rs:233-255 | decoding the writer's output yields the chunks before the first empty one and stops right behind the `0` size line |
| ChunkedCodec.ChunkedRoundTrip | src/response.rs:185-209 | all chunks come back and exactly what followed is left, if and only if no chunk is empty |
| ChunkedCodec.TruncationSafety | src/request.rs:236-254 | cutting an encoding at any byte yields exactly the chunks whose data is complete |
| ChunkedCodec.NextChunk | src/request.rs:233-255 | one iteration takes a byte at least when it yields a chunk, and never an empty one |
| Head.RequestHeadRoundTrip | src/request.rs:58-86 | a written request head is parsed back, also behind a left over empty line |
| Head.ResponseHeadRoundTrip | src/response.rs:52-75 | a written response head is parsed back, also behind a left over empty line |
| Head.TooManyFields | src/request.rs:58-60 | more fields than there is room for are refused |
| Head.HeadEndOfHead | src/request.rs:42-52 | the scan stops at the end of the head, whatever follows |
| Framing.ReadHead | src/request.rs:40-52 | the scan's loop takes exactly the head |
| Framing.TakeBody | src/request.rs:88-105 | the body object for a framing: small bodies buffered, the others left on the stream |
| Framing.DeliveredIsBody | src/response.rs:176-211 | what a writer sends of a body is the body, in whatever steps its bytes arrive, if and only if it has no error and a chunked writer finds no more than its declared length |
| Framing.PayloadRoundTrip | src/response.rs:176-211 | a parser that agrees on the framing gets back what was sent of the body, which is all of an intact one, and leaves what followed it |
| Framing.WriteItems | src/response.rs:188-200 | writes the chunks of the data items and collects the trailers, which are those of `Trailers.TrailersAreSent` |
| Trailers.TrailersAreSent | src/response.rs:186-207 | a body sent in chunks is read back as its data items in order, up to an error, and the lines behind the last chunk parse as fields in which each name has the values of the last item with that name, and no others |
| Lookups.ListHasMembers | src/server.rs:465-475 | a lookup in a list finds exactly what stands between two commas, with blanks around it |
| Lookups.HasOptionMeans | src/server.rs:465-475 | a connection option is one that some `connection` field lists |
| Lookups.CodingMeans | src/request.rs:88-91 | a message is chunked if and only if the first member of its first transfer coding says so |
| Lookups.DeclaredMeans | src/request.rs:94-94 | a length is declared if and only if there is a field for it and all such fields are numerals of that one 64-bit number |
| Lookups.ByteClasses | src/request.rs:58-60 | the bytes of names and of values |
| Peers.FramingMeans | src/response.rs:77-100 | what the fields say of the body, with each error: a coding before a length, and for responses the end of the connection |
| Peers.PeerRequest | src/request.rs:42-105 | a request is parsed by what its head says however that is written: names in any case, blanks and tabs around values, lines that end in a line feed alone, empty lines in front; the one exception is exact |
| Peers.PeerResponse | src/response.rs:37-97 | the same for a response |
| Peers.TooManyEmptyLines | src/request.rs:42-64 | the empty lines in front of a head that make a request be refused are all but those |
| Peers.AcceptedRequest | src/request.rs:58-105 | whatever is accepted has a method, a target, a version and at most 64 fields that are well formed, and a framing; and written again, its head is parsed back |
| Peers.AcceptedResponse | src/response.rs:52-97 | the same for a response, with a code of three digits |
| Framing.WritePayload | src/request.rs:190-223 | writes the body by encoding, and fails exactly when a small body does |
| Requests.ReceiveRequest | src/request.rs:34-108 | parses the head and makes the body, with every error |
| Requests.SendRequest | src/request.rs:111-226 | writes the head and the body with the chosen encoding, or refuses |
| Requests.SentLengthIsTrue | src/request.rs:133-183 | a length sent is the one declared and that of the body; a request is refused exactly if it declares another, cannot say where it ends, or has another version; and goes out in chunks exactly if it asks to or nothing else is known |
| Requests.RequestFramingAgreement | src/request.rs:137-169 | the parser picks the framing the writer chose if and only if a condition on the request's fields holds |
| Requests.ChunkedHttp10RequestDisagrees | src/request.rs:137-160 | a request on which the two disagree |
| Requests.RequestRoundTrip | src/request.rs:111-226 | parsing a written request and reading its body gives both back, the body as sent and, if intact, as it was, and leaves what followed |
| Requests.CutRequest | src/request.rs:42-105 | a request head cut at any byte is accepted, with the fields whose lines are complete, if and only if its start line lacks no more than the line end, those fields are not refused, and they announce no small body |
| Responses.ReceiveResponse | src/response.rs:31-103 | parses the head and makes the body, with every error |
| Responses.SendResponse | src/response.rs:106-226 | writes the response and tells the outcome, or refuses |
| Responses.SentLengthIsTrue | src/response.rs:122-166 | the same for a response, which is refused exactly for a wrong length, and runs to the end of the connection, saying so, exactly if nothing else is known and it is the last or goes to HTTP/1.0 |
| Responses.ResponseFramingAgreement | src/response.rs:134-166 | the parser picks the framing the writer chose if and only if a condition on the response's fields holds |
| Responses.CloseIsWritten | src/response.rs:157-159 | the outcome is to close exactly when the written head says so; a close-delimited response always does |
| Responses.ResponseRoundTrip | src/response.rs:77-100 | parsing a written response and reading its body gives both back, the body as sent and, if intact, as it was; close-delimited ones to the end of the connection |
| Responses.CutResponse | src/response.rs:37-97 | a response head cut at any byte is accepted, with the fields whose lines are complete, if and only if it has the status code, those fields are not refused, and they announce no small body |
| Content.ThreeViewsAgree | src/body.rs:149-208 | the three views of an error-free body give the same bytes; for a reader, when the source has at most its declared length |
| Content.ChunkViewDiffers | src/body.rs:379-391 | for any longer source there is a pattern of reads on which the chunk view gives more |
| Content.OverReadBound | src/body.rs:379-403 | the chunk view is a prefix of the source that reaches the length and passes it by less than one read; chunks have 1 to 8192 bytes, as many as are ready |
| Content.ChunksCoverBytes | src/body.rs:186-190 | what `into_bytes` returns is a prefix of the joined chunks |
| Content.ErrorsEndSilently | src/body.rs:153-185 | with an error among the items, which view fails and where the others end |
| Bodies.ItemSource.Next | src/body.rs:114-123 | delivers the pending items one by one, and stands behind the body at the first None |
| Bodies.ItemReader.Read | src/body.rs:304-314 | delivers consecutive bytes, nothing only at the end, and leaves the iterator alone after it; loses everything when given an empty buffer |
| Bodies.BodyReader.Read | src/body.rs:297-317 | delivers the next bytes of any body, and into a non-empty buffer none only at the end; an empty buffer costs an iterator body the rest |
| Bodies.BodyReader.CopyTo | src/response.rs:183-183 | copies every remaining byte, whatever the sizes of the reads |
| Bodies.ChunkIterator.Next | src/body.rs:368-406 | yields the chunk view item by item and is fused; at its end the connection stands behind all that was read |
| Bodies.Body.IntoReader | src/body.rs:149-170 | the reader will deliver the reader view of the body |
| Bodies.Body.IntoBytes | src/body.rs:172-197 | gives the bytes and leaves the connection behind the body |
| Bodies.Body.IntoChunks | src/body.rs:199-208 | the iterator will yield the chunk view of the body |
| Bodies.Body.Drop | src/body.rs:211-224 | drains a reader and nothing else |
| Serving.NothingAfterClose | src/server.rs:530-541 | a request is parsed only behind responses that are fixed-length or chunked, say nothing of closing and upgrade nothing |
| Serving.ResponsesInOrder | src/server.rs:460-545 | final responses leave in request order, one for each request of a run that ends well; a request is followed by an interim or declining response exactly when it expects one, and an interim response by the final one |
| Expectations.ExpectationsAreMet | src/server.rs:486-510 | in every run, a request that expects 100-continue is followed by an interim response and then by the call of the service if and only if the service says 100; with any other status it is declined and the loop waits for the next request; a request that expects nothing is followed by the call |
| Expectations.CalledForItsRequest | src/server.rs:486-510 | the service is called for nothing else |
| Expectations.StatusesAreRead | src/server.rs:492-506 | what is written for an expectation is parsed as a response of exactly the status that the service gave, HTTP/1.1 and without a body |
| Persistence.AnswersEndTheRun | src/server.rs:471-541 | in every run, an answer to an HTTP/1.0 request whose `connection` fields do not list `keep-alive` says close; and the run ends with an answer if and only if it upgrades, says close as sent, or its request wants no more |
| Persistence.OldClientsAreTold | src/server.rs:514-517 | whoever parses the answer to such a request finds close in it, and the run has ended |
| Persistence.AnswersAreDated | src/server.rs:519-522 | every answer is sent with exactly one date, the service's own if it gives one |
| Persistence.AnswersHaveBodies | src/server.rs:524-530 | the answer to HEAD, and to CONNECT if it is no success, is its head alone; any other is read back with its body |
| Persistence.ClientDecides | src/client.rs:124-136 | the client closes exactly when the response lists close, and upgrades exactly on status 101 without it |
| Serving.FixUpCorrects | src/server.rs:512-522 | a corrected response has its request's version and a date, and says close to an HTTP/1.0 client that did not ask to persist, as `Persistence.AnswersEndTheRun` has it of the fields; no other field changes |
| Serving.PersistenceAgreement | src/client.rs:124-136 | server and client agree on whether the connection goes on if and only if it is not the case that an HTTP/1.1 request asks to close and the service's response does not say so |
| Serving.PersistenceOverRun | src/server.rs:480-541 | the same for every response of every run, with or without a body, that the client accepts; and that it does accept those written in full |
| ServeLoop.UseBody | src/body.rs:165-224 | dropped, taken as bytes or read, a body leaves the connection exactly where its framing ends |
| ServeLoop.TakeChunks | src/body.rs:199-208 | taken as chunks, it yields the chunk view and leaves the connection behind all that was read |
| ServeLoop.ChunksTakeTheNext | src/body.rs:379-391 | for a body read by its length that is at least its end, and for some pattern of reads, whenever anything follows the body, beyond it |
| ServeLoop.Reply | src/server.rs:508-541 | calls the service, corrects its response, writes it, and tells whether the loop goes on with all flushed |
| ServeLoop.ParseNext | src/server.rs:461-462 | parses through the last handle, which a buffered body drops and another keeps |
| ServeLoop.Upgrade | src/server.rs:534-538 | drops the reader and the queue before the handler, which requires that nothing else lives |
| ServeLoop.Round | src/server.rs:460-545 | one round of the loop does what the run does on that request |
| ServeLoop.Serve | src/server.rs:454-548 | the output, the calls of the service and the end are those of the run the input determines; it waits for a request as often as that run has requests, and once more if none comes, and nothing is unflushed at any of these times, nor at the end |
| Clients.SendOn | src/client.rs:105-139 | the request goes out, the response is parsed, and its head decides the outcome |
| Clients.Client.Request | src/client.rs:39-73 | the request goes out with the host set, the reply is the parse of the connection's input, and the connection returns to the pool exactly when the response keeps it alive, and to the caller when it upgrades |
| Clients.HostIsSent | src/client.rs:57-58 | what a server parses from such a request has the host of its authority and no other, and all else as the writer sends it for the caller's request |
| Pipelining.PipelinedRoundTrip | src/request.rs:34-226 | any pipeline of written requests is received in order, heads and bodies, up to and including the first with trailers, which end the session in an error; without trailers it ends in an error only behind a chunked body |
| Pipelining.PipelineIsReceived | src/request.rs:34-226 | a pipeline is received in full if and only if no request before the last has trailers, and intact bodies are received as they were |
| Pipelining.EndToEnd | src/server.rs:454-548 | reading the server's output gives the service's statuses and bodies in request order, up to and including the first closing one: the bodies as sent, and if all are intact, the bodies themselves |
| Pipelining.AnswersDoNotWait | src/server.rs:532-532 | what the server writes on the first requests of a pipeline is the beginning of what it writes on all of it |
| Pipelining.EchoIsPlain | src/client.rs:160-164 | the hypotheses of the end-to-end theorem hold for a service that answers with the body received |
| Pipelining.EchoRoundTrip | src/client.rs:153-190 | the client of an echo server gets back the bodies it sent, all of them, in order |
| Pipelining.ClosedButKept | src/server.rs:480-531 | on a request to the echo server that asks to close, the server answers and closes, and the client that parses the answer keeps the connection |
| Pipelining.ClosingRequest | src/server.rs:480-484 | `GET / HTTP/1.1` with `connection: close` is such a request |
| Conversing.Converse | src/client.rs:39-73 | a client that asks for one thing after the other over its pool gets what the service gives, up to and including the first closing answer, and sends a first part of the requests, none but the last unanswered |
| Conversing.EchoConverses | src/client.rs:155-190 | to the echo server any requests that do not ask to close can be sent so, and each is answered with its own body |

## Left out

- The grammars of the `http`, `headers` and `httparse` crates: heads, fields and lookups are concrete functions with the same limits (64 fields, 16 hexadecimal digits, 64-bit lengths, leading empty lines), but lines are split before they are checked, a `Content-Length` is digits only, and a transfer coding counts as chunked when its first member is `chunked`.
- The order in which a `HeaderMap` is iterated: fields keep the order of insertion.
- Sockets, TLS, timeouts, the thread pool and the server builder; errors of the transport other than the end of the input.
- The read-ahead of a `BufReader` that is discarded between two requests of a client.
- ReadQueue.QueuedReader.Receive: does not block; it and the operations built on it return where the source blocks, and are called again. That the reader does arrive is proved of the interleavings in `QueueProtocol.dfy`.
- The decoders of `Expect` and `Date` are taken to accept exactly one value of the field, and that of `Content-Length` several equal ones.
- Pipelining.EchoIsPlain: the service of the cited test passes the body of the request on; here it answers with the bytes received, as one chunk if they came in chunks.
- Pipelining.EchoRoundTrip: all requests are sent before the answers are read; `Conversing.Converse` has the calls of the cited test, one after the other.
- Conversing.Converse: takes the server's output on all the requests as what the connection delivers; that each answer is there without the next request is `Pipelining.AnswersDoNotWait`.
- Panics while a handle is held, and handles that are leaked.
- The buffered-body conversions of strings, slices and `Bytes`, and the formatting of dates: the clock is a parameter of the service.
- A service that writes its response while the request body is still being read: the model's service takes the body first.
- A reader or chunk iterator that is abandoned half way, and a chunked body dropped unread, leave bytes on the connection: the run follows the code, and the end-to-end theorem asks that chunked bodies be read.
- The body that a CONNECT or HEAD response leaves out is modelled in the run, and persistence is proved for such responses too; the end-to-end theorems exclude those methods, as they do expectations and upgrades.
