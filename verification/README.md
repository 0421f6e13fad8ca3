# go-network-lab: verified models

A Dafny model of the protocol code in go-network-lab, and proofs about it. It models

- the raw HTTP/1.1 server (`internal/rawhttp`): the buffered request reader over a stream that
  may be fragmented in any way, the header and chunked-body syntax, and the pipelined
  connection loop (a subset of sections 2.2, 3, 6.3, 7.1 and 9.3 of RFC 9112);
- the DNS client (`internal/dns`): names with compression pointers, the message decoder and
  query encoder, response validation, address extraction and the lookup's choice among
  datagrams (sections 2.3.4, 3.1, 4.1 and 4.2.2 of RFC 1035);
- the job queue and the connection limiter (`load/backpressure/queue/server`,
  `load/protection/connections/server`) as interleaving transition systems;
- the UDP request protocol (`udp/protocol`): retrying clients, a caching server and a network
  that loses, duplicates and reorders datagrams;
- the length-prefixed frames of `protocol` and of DNS over TCP.

Code that changes things step by step is a class or a method with loops and is proved equal to
a specification function: for the request reader, to a parse of "buffered bytes followed by the
bytes still to come", so its result cannot depend on how the stream is cut into reads. What the
specification functions mean is then proved against definitions that do not mention them: a
printer of well-formed requests, the unfolding of a compressed name, a tiling of the message by
the bytes of its fields. `dafny verify dfyconfig.toml` checks everything.

| file | content |
|---|---|
| Bytes.dfy | byte strings; the parts of `bytes`, `strings` and `strconv` that are called |
| Streams.dfy | a reader with arbitrary fragmentation, a writer with arbitrary short writes |
| HttpGrammar.dfy, HttpReader.dfy, HttpLaws.dfy, HttpServer.dfy | the HTTP server |
| Frames.dfy | length-prefixed frames |
| DnsName.dfy, DnsMessage.dfy, DnsLaws.dfy, DnsReach.dfy, DnsLookup.dfy, DnsAnswer.dfy | the DNS client |
| Counting.dfy, JobQueue.dfy, SlotLimiter.dfy | the two admission protocols |
| UdpExchange.dfy, UdpWitness.dfy | requests over UDP, and an encoding and a run that meet the assumptions |

## Model

| member | source | states |
|---|---|---|
| HttpReader.RequestReader.Fill | internal/rawhttp/parser.go:33-35 | bytes that arrive with an error are kept and the error is deferred; the stream seen as buffer plus unread bytes does not change |
| HttpReader.RequestReader.ReadBytes | internal/rawhttp/framing.go:49-68 | exactly `size` bytes are consumed under every fragmentation, following bytes stay; a stream that ends early is an unexpected EOF or the transport's error |
| HttpReader.RequestReader.ReadChunkLine | internal/rawhttp/framing.go:70-88 | the text up to the first CRLF of the whole stream, wherever reads split it |
| HttpReader.RequestReader.ReadChunk | internal/rawhttp/framing.go:93-115 | one chunk: result, error kind and leftover depend only on the bytes |
| HttpReader.RequestReader.ReadChunkedBody | internal/rawhttp/framing.go:90-121 | the loop over an accumulating body equals the recursive parse of the stream, with the same leftover in every case |
| HttpReader.RequestReader.ReadBody | internal/rawhttp/framing.go:20-46 | the framing headers select the body format, in the code's order of checks |
| HttpReader.RequestReader.FindHead | internal/rawhttp/parser.go:18-41 | the blank line found is the first of the whole stream; the 8192-byte decision depends only on the bytes; no read asks past the header budget and the buffer does not grow past it |
| HttpReader.ReadHead | internal/rawhttp/parser.go:42-69 | the header block is checked in the code's order: counts, line lengths, request line, fields |
| HttpReader.RequestReader.ReadRequest | internal/rawhttp/parser.go:17-77 | fragmentation independence: request or error kind, and the bytes left, are those of a parse of the concatenated stream |
| HttpLaws.ChunkedIff | internal/rawhttp/framing.go:90-121 | a chunked body is accepted with a given result and leftover exactly when the stream begins with an encoding of it: any hex case and leading zeros, nonempty chunks, total at most the largest int |
| HttpLaws.AgreedLengthIff | internal/rawhttp/framing.go:32-44 | repeated Content-Length values are accepted exactly when all are the same non-negative number |
| HttpLaws.ChunkedCodingIff | internal/rawhttp/framing.go:21-26 | for all field values, Transfer-Encoding must hold the single word chunked in any case, with U+212A for k as EqualFold folds it; chunked twice is refused |
| HttpLaws.HostIff | internal/rawhttp/request.go:16-25 | a request needs exactly one Host field and its trimmed value must not be blank |
| HttpLaws.FieldsComplete | internal/rawhttp/parser.go:59-69 | the header map lists, under each lower-case name, the trimmed values of its fields in order, after what was there before |
| HttpLaws.HeadComplete | internal/rawhttp/parser.go:42-69 | every header block printed from a valid method, target and field list within the limits is accepted with exactly that content |
| HttpLaws.HeadSound | internal/rawhttp/parser.go:42-69 | every accepted header block is such a print |
| HttpLaws.BlankLineEndsBlock | internal/rawhttp/parser.go:19-21 | for lines that are not empty and hold no CR, the first blank line is the end of the block |
| HttpLaws.HeaderLines | internal/rawhttp/parser.go:21-42 | the split lines joined with CRLF are the block, and no line after the first is empty |
| HttpLaws.EveryHeaderLineIsKept | internal/rawhttp/parser.go:42-69 | the map's total number of values is the number of header lines, at most 100 |
| HttpLaws.RequestIff | internal/rawhttp/parser.go:17-77 | a stream is accepted as request `q` with leftover `rest` exactly when it is a well-formed request saying `q` followed by `rest` |
| HttpLaws.RequestExtends | internal/rawhttp/parser.go:70-77 | later bytes and the way the stream ends do not change an accepted request; they are left for the next one |
| HttpLaws.RequestCut | internal/rawhttp/parser.go:27-32 | a request cut anywhere gives EOF if nothing of it came and unexpected EOF otherwise, never a shorter request |
| HttpServer.ShouldClose | internal/rawhttp/request.go:37-50 | the nested loops find a close token exactly when there is one among all tokens of all Connection values |
| HttpServer.WriteResponse | internal/rawhttp/response.go:8-25 | the whole reply is written through short writes; after a failure, a prefix of it |
| HttpServer.HandleConnection | internal/rawhttp/server.go:11-56 | what is written is a prefix of the replies to the stream, and all of them when the writer makes progress and does not fail |
| HttpServer.EndOfStreamIff | internal/rawhttp/server.go:18-35 | the quiet end happens exactly when the stream ends cleanly with no bytes left between requests |
| HttpServer.ConnectionAnswers | internal/rawhttp/server.go:16-55 | well-formed requests up to the first that closes are answered in order; without one the remainder gets one 400, or nothing at a clean end |
| HttpServer.EveryStreamIsPipelined | internal/rawhttp/server.go:16-55 | every stream is such requests and a remainder, so the previous statement covers all inputs |
| HttpServer.ReplyReadBack | internal/rawhttp/response.go:13 | a client that finds the first blank line and takes Content-Length bytes recovers status, body and close flag, even if the body holds blank lines |
| HttpServer.ServedRepliesReadBack | internal/rawhttp/server.go:37-55 | the written stream reads back as exactly the list of replies |
| Bytes.TrimSpaceIff | internal/rawhttp/request.go:21 | TrimSpace gives the empty string exactly for texts of white-space characters, Unicode ones included |
| Bytes.TrimTakes | internal/rawhttp/parser.go:68 | trimming a value takes off spaces and tabs only and leaves none at the ends |
| Bytes.AtoiIff | internal/rawhttp/framing.go:35 | a text is read as an integer exactly when it is an optional sign, any zeros and the decimal numeral, in the range of int |
| Streams.Source.ReadFull | internal/rawhttp/framing.go:60-65 | io.ReadFull fills the rest of a buffer from any fragmentation and fails only when the stream is too short |
| Streams.Sink.WriteAll | protocol/protocol.go:104-116 | everything is written whatever the short writes; a failure leaves a prefix written |
| Frames.WriteFrame | protocol/protocol.go:41-58 | one frame is written; a payload over 1 MiB is refused with nothing written |
| Frames.ReadFrame | protocol/protocol.go:61-78 | result and leftover depend only on the bytes; an oversized frame is refused with its payload unread |
| Frames.FrameIff | protocol/protocol.go:61-78 | a payload is read exactly when the stream begins with its frame |
| Frames.FramesReadBack | protocol/protocol.go:41-78 | any list of messages written as frames is read back as the same list with an exact leftover |
| Frames.FrameCut | protocol/protocol.go:63-73 | the error of a frame cut after k bytes: EOF before the header and right after it, unexpected EOF elsewhere |
| Frames.ExchangeTcp | internal/dns/tcp.go:31-67 | the query is written with its length; the reply is the parse of the stream; an oversized query touches nothing |
| Frames.DnsFrameIff | internal/dns/tcp.go:51-62 | a DNS message is received exactly when it is framed and has 12 to 65535 bytes |
| DnsName.DecodeName | internal/dns/name.go:11-61 | the loop equals the walk of the name, with the saved end offset, and stops within 144 turns |
| DnsName.NameIff | internal/dns/name.go:11-61 | a name is decoded exactly when its unfolding reaches a zero byte in bounds with at most 16 pointers and 255 bytes; labels and end offset are those of the unfolding |
| DnsName.CycleRejected | internal/dns/name.go:39-44 | a name that runs into a cycle, with or without labels in it, is rejected |
| DnsName.NameExtends | internal/dns/name.go:19-26 | a decoded name lies in the message and does not depend on bytes after it |
| DnsName.EncodeName | internal/dns/encode.go:22-57 | the encoder's loop equals its specification, with its first error |
| DnsName.NameWireIff | internal/dns/encode.go:22-57 | exactly which names can be encoded |
| DnsName.NameRoundTrip | internal/dns/encode.go:22-57 | an encoded name, anywhere in a message, is decoded as the name without one trailing dot and ends where the encoding ends |
| DnsName.ReencodesIff | internal/dns/name.go:28 | a decoded name survives encoding and decoding exactly when no piece between its dots is empty |
| DnsLaws.QuestionIff | internal/dns/question.go:9-28 | a question is decoded exactly when a name stands at the offset followed by the bytes of QTYPE and QCLASS, up to the next offset |
| DnsLaws.RecordIff | internal/dns/record.go:23-56 | a record is decoded exactly when a name stands at the offset followed by the bytes of TYPE, CLASS, TTL, RDLENGTH and that many bytes of RDATA |
| DnsLaws.ItemErrorIff | internal/dns/record.go:23-56 | a failed question or record reports the name's own error, or exactly the field in which the message ends |
| DnsLaws.HeaderIff | internal/dns/decode.go:40-55 | a header is read exactly when the message begins with its twelve bytes |
| DnsMessage.DecodeRecords | internal/dns/record.go:9-20 | the loop equals the section's specification; the first failing record decides the error |
| DnsMessage.DecodeMessage | internal/dns/decode.go:10-38 | the four sections are decoded one after the other with one threaded offset |
| DnsMessage.EncodeHeader | internal/dns/encode.go:9-20 | six big-endian fields written in place |
| DnsMessage.EncodeQuestion | internal/dns/encode.go:59-82 | name, QTYPE and QCLASS written into one buffer |
| DnsMessage.EncodeQuery | internal/dns/encode.go:84-107 | a recursive query with one question |
| DnsMessage.FlagMasks | internal/dns/decode.go:57-75 | the arithmetic readings of the QR, TC and RCODE masks are the bit operations |
| DnsLaws.MessageIff | internal/dns/decode.go:10-38 | a message is decoded exactly when its bytes are the header's and then, without gaps, those of as many questions and records as the header announces |
| DnsLaws.MessageSizes | internal/dns/record.go:9-56 | section lengths equal the header counts, RDATA lengths hold, and every question takes 5 and every record 11 bytes |
| DnsLaws.MessageExtends | internal/dns/decode.go:10-38 | bytes after a message change nothing, although pointers may lead anywhere |
| DnsReach.PrefixIff | internal/dns/decode.go:10-38 | a prefix of a message is accepted exactly when it covers the furthest byte that an item or one of its pointers leads to, then with the same result; nothing shorter than the message is accepted |
| DnsReach.EndIsNotReach | internal/dns/name.go:43 | a message whose pointer leads past its end is refused without the bytes it leads to |
| DnsLookup.EqualQuestionNames | internal/dns/validate.go:36-55 | the byte loop decides equality up to ASCII case and one trailing dot |
| DnsLookup.ValidationIff | internal/dns/validate.go:10-34 | a decoded response passes exactly when its bytes are the ID, the QR bit, one question announced and that question after the header, up to letter case and one trailing dot of its name; the check of the question list's length never decides |
| DnsLookup.ExtractARecords | internal/dns/extract.go:10-25 | the loop equals its specification, with no partial result |
| DnsLookup.AddressesIff | internal/dns/extract.go:15-23 | all matching records' data in order exactly when all are well formed, otherwise the first malformed match |
| DnsLookup.LookupA | internal/dns/lookup.go:24-95 | the outcome is a function of the datagrams, cut to the 65535-byte buffer, and of the frame on the TCP stream; one query is sent; the same query goes framed over TCP exactly once if the deciding datagram is truncated and otherwise never |
| DnsLookup.IndecisiveIgnored | internal/dns/lookup.go:63-72 | a datagram with another ID, or a decodable one that does not answer, can be inserted or removed anywhere |
| DnsLookup.DecisiveSettles | internal/dns/lookup.go:51-94 | the first decisive datagram settles the lookup whatever follows |
| DnsLookup.TruncatedMeansTcp | internal/dns/lookup.go:73-90 | after a truncated reply the outcome is that of the TCP exchange, independent of the reply's answers and RCODE |
| DnsLookup.AddressesAreTrusted | internal/dns/lookup.go:70-94 | addresses come only from a message with the query's ID and question, QR set, TC clear and RCODE 0 |
| DnsAnswer.QueryRoundTrip | internal/dns/encode.go:84-107 | an encoded query is decoded, to its last byte, as the one question it asks |
| DnsAnswer.ResponseDecodes | internal/dns/decode.go:10-38 | the echoed query with new flags and A records behind pointers is decoded, to its last byte, to what it was made from; each address takes 16 bytes |
| DnsAnswer.AnswerRoundTrip | internal/dns/lookup.go:66-94 | for every ID, encodable name, flags with QR and up to 65535 addresses the response decodes, validates and yields exactly the addresses in order; complete and successful, both as a datagram and over TCP |
| DnsAnswer.LookupRoundTrip | internal/dns/lookup.go:49-94 | behind any indecisive datagrams, a complete response gives the lookup exactly its addresses if and only if it fits the 65535-byte buffer |
| DnsAnswer.TcpRoundTrip | internal/dns/lookup.go:73-94 | a truncated answer followed by the complete one framed on the TCP stream gives exactly the complete answer's addresses |
| JobQueue.InvStep | load/backpressure/queue/server/main.go:53-96 | every step of every goroutine keeps the invariant |
| JobQueue.Accounting | load/backpressure/queue/server/main.go:53-96 | in every reachable state the counters agree up to the handlers between two updates; the queue stays within capacity; replies do not exceed completions; Waiting is 0 under reject |
| JobQueue.CompletedBehindQueuedIff | load/backpressure/queue/server/main.go:76-80 | exactly when Completed is not ahead of Queued |
| JobQueue.CompletedMayLeadQueued | load/backpressure/queue/server/main.go:76-93 | a run in which Completed is ahead of Queued |
| JobQueue.EachJobInOnePlace | load/backpressure/queue/server/main.go:63-95 | every job is in exactly one of: before its send, refused, queued, at the worker, closed |
| JobQueue.SubmissionOrder | load/backpressure/queue/server/main.go:89-96 | jobs complete in the order they were sent and no Done channel is closed twice |
| JobQueue.RepliesAreOwn | load/backpressure/queue/server/main.go:82-85 | DONE is written only for the handler's own completed job, once |
| JobQueue.RefusedIsNeverProcessed | load/backpressure/queue/server/main.go:64-74 | a refused job never reaches the queue, the worker or a DONE |
| JobQueue.NoDeadlock | load/backpressure/queue/server/main.go:77-82 | a blocked or waiting handler can go on or the worker can |
| JobQueue.SentJobIsClosed | load/backpressure/queue/server/main.go:89-96 | in every run a sent job is closed after exactly as many worker steps as its place in the line demands, whatever the handlers do |
| SlotLimiter.InvStep | load/protection/connections/server/main.go:39-66 | every step of the accept loop and the handlers keeps the invariant |
| SlotLimiter.Safety | load/protection/connections/server/main.go:28-66 | occupied slots are the reservations not yet released, at most the maximum, and active connections are among them |
| SlotLimiter.ReleaseNeverBlocks | load/protection/connections/server/main.go:62-66 | the deferred receive from the slot channel can always proceed |
| SlotLimiter.TurnedAwayIff | load/protection/connections/server/main.go:46-57 | a connection is turned away exactly when handlers hold all slots at that moment |
| SlotLimiter.SlotsDrain | load/protection/connections/server/main.go:61-66 | from every state the handlers alone can give all their slots back |
| UdpExchange.RequestHandler.Handle | udp/protocol/server/handler.go:27-48 | the cache, the clock calls and the result after any datagram |
| UdpExchange.InvStep | udp/protocol/server/handler.go:27-48 | every step of clients, server and network keeps the invariant |
| UdpExchange.AtMostOnce | udp/protocol/server/handler.go:32-46 | with any encoding and any clients, each client address and ID is executed at most once in every run, with one clock call for each TIME |
| UdpExchange.OneAnswer | udp/protocol/server/handler.go:33-35 | with any encoding and any clients, all responses ever emitted for a request are equal and the cache only grows |
| UdpExchange.RejectedAreInert | udp/protocol/server/handler.go:28-31 | leaving out of any run the arrival and every serving of rejected datagrams gives a run to the same cache, executions, responses, clock calls and clients |
| UdpExchange.ClientsSucceed | udp/protocol/client/main.go:36-65 | a client sends at most twice, never stops on a bad response, and what it receives passes ValidateFor and is the one cached response |
| UdpExchange.ClientCanSucceed | udp/protocol/client/main.go:36-65 | from every reachable state a client with an attempt left can go on to success |
| UdpWitness.SomeClientSucceeds | udp/protocol/client/main.go:36-65 | under a fixed-width encoding that meets the assumptions there is a run after which a client is done |
| UdpWitness.FixedWidthIsLawful | udp/protocol/protocol.go:14-23 | the assumptions about the encoding can be met by one that carries every 64-bit ID |

## Left out

- HttpReader.RequestReader.ReadRequest: with an error the source also returns what it has parsed so far; the connection handler ignores that, and so does the model.
- HttpServer.HandleConnection: after a failed write only the written bytes are described, not how much of the input was read; printing the request is left out.
- DnsLookup.LookupA: the random ID is an input, and deadlines, contexts and failures of the UDP socket before the query is sent are left out: receiving ends in one error, and a TCP connection is accepted or not.
- UdpExchange.ClientsSucceed: assumes that the JSON encoding reads back the server's responses and the client's request and that these fit 1024 bytes (UdpWitness has an encoding that does), and that nobody else sends from a client's address.
- Allocation is total: a Content-Length or chunk size too large for memory is not modelled as a failure.
- JSON encoding and decoding are arbitrary functions; `protocol.Request.Validate` and `ErrorResponse` are left out as easy members.
- JobQueue, SlotLimiter and the clients and network of UdpExchange are transition systems over values rather than objects: goroutines and channels have no Dafny counterpart. The queue's capacity is positive, as in the source.
- Sleeping, tickers, reports, read and write deadlines, and failures of Accept.
- TLS, HTTP/2, WebSocket, gRPC, the echo and framing demonstrations and the load generators.
- The clock's text is an arbitrary short printable string; RFC 3339 formatting is not modelled.
