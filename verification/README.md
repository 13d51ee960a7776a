# A verified model of rust-dpdk-net

rust-dpdk-net runs TCP/IP in user space: DPDK moves packets, smoltcp speaks the
protocols, and the repository's own code does what lies between them and the
applications. This project models that code in Dafny and proves what it is for.
Everything the code does not own (the NIC, smoltcp, the channels, the header
grammar, the peer) is an environment that may do anything its interface allows,
so each result holds for every fragmentation, every interleaving and every
failure of that environment. Where a result is about one course of events (a
loss, a panic), the environment follows an explicit plan, and a method of the model
carries that course out.

## What is modelled

**HTTP/1.1** (`Bytes`, `HttpSpec`, `HttpLaws`, `Wire`, `HttpParser`, `HttpServer`,
`Kimojio`, `HttpResponse`, `RawClient`). `HttpSpec` reads a request from a byte string, and
`HttpServer.Serve` a whole keep-alive connection; `HttpLaws` says what these mean
for the peer, in terms of the bytes it sends. The parser is a class over an
in-place buffer and a socket that returns arbitrary fragments. Its state stands
for `buf[..len] + unread`, and every method computes the function of `HttpSpec`
on that string and leaves exactly what follows. So what a connection handles
and writes depends on the bytes alone, not on how they arrive. Both servers
share the parser model; they differ in how a body is filled past the buffer
(`Filling`) and in the connection loop. The socket's fragmentation is a plan of
read sizes; what the kimojio loop throws away depends on it, and for which
streams it can throw anything away is proved exactly. The printer and the
benchmark client's framer are proved to be inverse.

**Sockets** (`SocketModel`, `SocketSteps`, `SocketSafety`, `SocketLaws`,
`SocketReactor`). A
slot table with reused indices is shared by streams, listeners, UDP sockets and
the orphan list. Each holder has a claim that names the very socket it was
given. The invariant is one equation between multisets: the claims held are the
occupied slots. It is kept by every step of every run, so no lookup fails, no
slot has two owners, and cleanup takes no slot from a live owner. `SocketLaws` says
what each step gives its caller: how many sockets, in which state, and how long a
dropped one keeps its slot. `ReactorInner`
models the code, with the table and the orphan list updated in place; each of
its methods is proved to be the step it implements.

**ARP sharing** (`ArpShare`, `ArpCache`, `Launch`). The cache as a protocol of
atomic steps (load, store, bump; read version, snapshot, inject, give up or
finish) under sequential consistency, the frames on the wire, and the launch
loop that makes queue 0 the only producer. The device's injection is proved to
be a run of these steps, with other threads acting between its two reads.

**Device** (`PacketBuffers`, `Device`, `DeviceRuns`). `DpdkDevice` between its NIC
queue, the memory pool that all queues share, and the stack: where every packet
buffer is, in which order frames leave and are delivered, and when a call loses
a frame, gives up or panics.

**Bridge** (`Bridge`, `UdpPeek`, `RoundRobin`). The relay of a TCP connection and
the stream on the OS thread, as methods that are atomic steps of either side;
the UDP receive side with its peek slot; worker selection, ephemeral ports and
the RSS redirection table.

**Echo** (`Echo`). The echo client and server over two byte pipes.

## Findings

- The kimojio loop empties its buffer after each request. It drops bytes under
  some fragmentation if and only if some request that keeps the connection open
  is followed by something and is chunked, or ends before the end of the buffer
  that its header filled (`Kimojio.LosesNothing`, `Kimojio.LosesSomething`). Two
  whole requests of at most 1024 bytes that arrive in one read lose the second
  (`Kimojio.PairInOneRead`); a client that waits for each reply loses nothing
  (`Kimojio.ServeWaitingClient`).
- Giving each queue to exactly one lcore depends on exactly one lcore being the
  main one (`Launch.EachQueueOnce`).
- The transmit token of `receive` is without room exactly when the batch is full
  and the NIC takes nothing of it. Its `consume` then panics exactly when a buffer is
  still to be had, because the buffer is allocated first; otherwise the frame is
  lost (`Device.DpdkDevice.Receive`, `Device.DpdkDevice.ConsumeTx`). A run reaches
  the panic (`DeviceRuns.ReachesPanic`).
- An injection completes exactly when the entries of the snapshot fit in the free
  places of the batch and in the buffers to be had. While the map has more than 64
  entries, no sequence of calls of the device ever records a version
  (`Device.DpdkDevice.InjectFromSharedCache`, `DeviceRuns.NeverCatchesUp`).
- The echo client stops sending for good once all that was queued is sent. Data
  given to it after that is never sent, and it can still complete exactly when
  there was none (`Echo.System.Run`, `Echo.System.LetThrough`, `Echo.Stuck`). Data
  given after completion makes `verify_echo` fail (`Echo.System.VerifyEcho`).

Two comments of the source disagree with its code, and the model follows the
code: injected frames are popped first because the batch is a stack, not because
it is FIFO (`dpdk-net/src/device/dpdk_device.rs:155`), and the ephemeral port
allocator does not track ports in use
(`dpdk-net-util/src/bridge/worker.rs:104`).

## Model

| member | source | states |
|---|---|---|
| HttpSpec.ParseRequestRest | dpdk-net-test/src/app/custom_http.rs:193-219 | a request consumes a non-empty prefix of the stream and leaves exactly the suffix after it |
| HttpSpec.ParseRequestExtend | dpdk-net-test/src/app/custom_http.rs:193-219 | a request complete in `s` is the same request in `s + t`, with `t` added to what is left, however the stream ends |
| HttpSpec.ReadChunkedRest | dpdk-net-test/src/app/custom_http.rs:324-349 | a decoded chunked body leaves a suffix of the stream |
| HttpSpec.ReadChunkedExtend | dpdk-net-test/src/app/custom_http.rs:324-349 | bytes after a complete chunked body do not change it |
| HttpSpec.ChunkedRoundTrip | dpdk-net-test/src/app/custom_http.rs:324-397 | for every split into non-empty chunks, every spelling of the sizes, every extension and every suffix, decoding returns the body and leaves the suffix (section 7.1 of RFC 9112) |
| HttpSpec.ChunkOf | dpdk-net-test/src/app/custom_http.rs:328-333 | every piece of data has a well-formed chunk, so the round trip covers every split of every body |
| HttpSpec.ReadLineOf | dpdk-net-test/src/app/custom_http.rs:352-378 | a line ended by CR LF is read back without its line end |
| HttpLaws.LastFieldWins | dpdk-net-test/src/app/custom_http.rs:243-252 | of fields with one name, in any case, the last gives the value |
| HttpLaws.OnlyFieldNames | dpdk-net-test/src/app/custom_http.rs:243-252 | a name is in the map if and only if some field has it |
| HttpLaws.SizeSpelled | dpdk-net-test/src/app/custom_http.rs:328-333 | blanks around a chunk size, the case of its digits and an extension after it do not change the size read |
| HttpLaws.TooLong | dpdk-net-test/src/app/custom_http.rs:122-129 | a length that does not fit in 64 bits counts as none |
| HttpLaws.ConvertExactly | dpdk-net-test/src/app/custom_http.rs:222-274 | a header is accepted if and only if its method, version and fields are valid, and then method, URI, version and fields are those sent |
| HttpLaws.FixedRoundTrip | dpdk-net-test/src/app/custom_http.rs:292-302 | a body whose decimal length is announced is read back exactly, and what follows it is left |
| HttpLaws.FixedTruncated | dpdk-net-test/src/app/custom_http.rs:297-321 | a body shorter than announced is a closed connection, or a read error |
| HttpLaws.ChunkedNamed | dpdk-net-test/src/app/custom_http.rs:132-138 | the word chunked in the Transfer-Encoding field, in any case and among other codings, makes the body chunked |
| HttpLaws.ChunkedOnlyNamed | dpdk-net-test/src/app/custom_http.rs:132-138 | a body is chunked only if that word occurs in that field |
| HttpLaws.ChunkedFirst | dpdk-net-test/src/app/custom_http.rs:292-302 | a chunked body is decoded as such, whatever the Content-Length beside it says (section 6.3 of RFC 9112) |
| HttpLaws.NoBody | dpdk-net-test/src/app/custom_http.rs:292-302 | with neither field, or with a Content-Length that is no number, the body is empty and every byte after the header is left |
| HttpLaws.UnreadableFields | dpdk-net-test/src/app/custom_http.rs:122-149 | a field with a byte that is no visible ASCII, space or tab counts as absent for the body, and as a close for the connection |
| HttpLaws.ChunkedFailLeaves | dpdk-net-test/src/app/custom_http.rs:324-349 | a chunked body that cannot be read leaves nothing, except after a malformed size line, which leaves exactly what follows that line |
| HttpLaws.FixedRequest | dpdk-net-test/src/app/custom_http.rs:193-219 | header, body of the announced length and anything after: parsing returns this header and body and leaves exactly what follows |
| HttpLaws.ChunkedRequest | dpdk-net-test/src/app/custom_http.rs:193-219 | the same for a header that says chunked and every chunked encoding of the body |
| HttpParser.HttpParser.ReadMore | dpdk-net-test/src/app/custom_http.rs:277-289 | the capacity stays 1024 doubled at most to 65536, the slice offered is never empty so zero is the end of the stream, only a full 64 KiB buffer is refused, and the unconsumed stream is unchanged |
| HttpParser.HttpParser.ParseHeaders | dpdk-net-test/src/app/custom_http.rs:222-274 | under every fragmentation the verdict is that of one parse of the first 65536 unconsumed bytes, and nothing is consumed |
| HttpParser.HttpParser.ReadExactBytes | dpdk-net-test/src/app/custom_http.rs:305-321 | exactly the next n bytes, first from the buffer and then from the reader, or the end-of-stream error with nothing left |
| HttpParser.HttpParser.FillExact | dpdk-net-test/src/app/custom_http.rs:381-397 | the next n unread bytes in one slice, whatever the fragments |
| HttpParser.HttpParser.FillPieces | dpdk-net-test/src/app/kimojio_server.rs:423-447 | the same bytes gathered in pieces of at most 8192 |
| HttpParser.HttpParser.ReadLineBytes | dpdk-net-test/src/app/custom_http.rs:352-378 | the bytes up to the first line feed of the stream, even when the line is longer than the buffer; it never reports headers too large |
| HttpParser.LineFound | dpdk-net-test/src/app/custom_http.rs:352-378 | a line whose start left the buffer earlier still ends at the first line feed |
| HttpParser.HttpParser.ReadOneChunk | dpdk-net-test/src/app/custom_http.rs:328-347 | one chunk with its framing, and exactly the bytes after it left |
| HttpParser.HttpParser.ReadChunkedBody | dpdk-net-test/src/app/custom_http.rs:324-349 | the decoded body of the stream, terminating because each chunk shortens it, or the error; in both cases exactly which bytes are left |
| HttpParser.HttpParser.ReadRequestBody | dpdk-net-test/src/app/custom_http.rs:292-302 | chunked before Content-Length before no body |
| HttpParser.HttpParser.ParseOneRequest | dpdk-net-test/src/app/custom_http.rs:193-219 | under every fragmentation the request, clean close or error is that of the pure parser, what is left is exactly what follows the request, and how much of that is buffered follows from the buffer and the plan |
| HttpParser.HttpParser.Reset | dpdk-net-test/src/app/kimojio_server.rs:450-452 | a reset drops exactly the buffered bytes |
| HttpParser.BodiesAgree | dpdk-net-test/src/app/kimojio_server.rs:329-447 | the two parsers, on the same stream fragmented differently, both return the body or error of the pure reader and leave the same bytes, on every outcome |
| HttpServer.Exchange | dpdk-net-test/src/app/custom_http.rs:546-600 | one turn: a reply for the next request, 400 for a malformed one, silence for a truncated one, and whether the connection goes on |
| HttpServer.HandleConnection | dpdk-net-test/src/app/custom_http.rs:533-601 | under every fragmentation the requests handled, the bytes written and the result are those of the whole stream; only if a write failed, a prefix of them |
| HttpServer.PipelineConcat | dpdk-net-test/src/app/custom_http.rs:545-600 | streams of whole requests sent back to back are served as the one and then the other (section 9.3.2 of RFC 9112) |
| HttpServer.PipelineAll | dpdk-net-test/src/app/custom_http.rs:545-600 | any number of pipelined messages yields exactly their requests, in order, each once |
| HttpLaws.KeepAliveExactly | dpdk-net-test/src/app/custom_http.rs:141-149 | the connection is kept if and only if the Connection field is keep-alive in any case, or there is none and the version is 1.1 |
| HttpLaws.StaysExactly | dpdk-net-test/src/app/custom_http.rs:545-600 | after a request that asks to stay the handler's response goes out unchanged and the connection goes on with the bytes after it; after any other request nothing more is handled |
| HttpLaws.ClosingReply | dpdk-net-test/src/app/custom_http.rs:583-600 | the reply to a last request is the handler's, except that close is its only Connection value, which is printed |
| HttpLaws.RefusalsAnswered | dpdk-net-test/src/app/custom_http.rs:546-580 | a stream that starts with no request: a malformed one is answered by HTTP/1.1 400 with connection: close, an exhausted or truncated one by nothing |
| HttpServer.ServeWaitingClient | dpdk-net-test/src/app/custom_http.rs:533-601 | a client that sends each message only after the previous reply has every message answered at once, in order, without a byte of a later one |
| HttpServer.ClosedIsEmpty | dpdk-net-test/src/app/custom_http.rs:256-260 | only an exhausted stream reads as a clean close |
| HttpServer.TooLargeExactly | dpdk-net-test/src/app/custom_http.rs:277-284 | a request is refused as too large if and only if the first 65536 unconsumed bytes hold no complete header |
| HttpServer.BodyNeverTooLarge | dpdk-net-test/src/app/custom_http.rs:292-397 | no body, chunk line or trailer ever raises that error |
| HttpServer.SetHeader | dpdk-net-test/src/app/custom_http.rs:584-589 | after the insertion the name has the one value, and the other fields are untouched and in order |
| Kimojio.ExchangeAndReset | dpdk-net-test/src/app/kimojio_server.rs:544-587 | one turn and the reset: exactly the buffered bytes after the request are dropped |
| Kimojio.HandleHttpConnection | dpdk-net-test/src/app/kimojio_server.rs:531-588 | the connection is the one in which each reset drops what the parser had buffered then; a lossless stream loses nothing under any plan, any other loses bytes under the plan that is slow up to its mark, and one read of everything loses all that follows the first request |
| Kimojio.ZeroDrops | dpdk-net-test/src/app/kimojio_server.rs:585-586 | resets that drop nothing leave the custom server's outcome |
| Kimojio.LosesNothing | dpdk-net-test/src/app/kimojio_server.rs:531-588 | on a lossless stream, under every fragmentation, no byte is dropped and the outcome is the custom server's; only if a write failed, a prefix of it |
| Kimojio.LosesSomething | dpdk-net-test/src/app/kimojio_server.rs:531-588 | on every other stream there is a fragmentation under which bytes are dropped |
| Kimojio.OneRead | dpdk-net-test/src/app/kimojio_server.rs:531-588 | a stream of at most 1024 bytes in one read has only its first request handled and all that follows dropped, which is the custom server's outcome if and only if nothing follows |
| Kimojio.PairInOneRead | dpdk-net-test/src/app/kimojio_server.rs:585-586 | two whole requests in one such read: the second is dropped whole and not handled |
| Kimojio.ServeWaitingClient | dpdk-net-test/src/app/kimojio_server.rs:531-588 | a client that sends each message only after the previous reply has every message handled and answered, in order, with nothing dropped |
| HttpResponse.SerializeResponse | dpdk-net-test/src/app/kimojio_server.rs:482-516 | what the printer appends piece by piece is the head lines, a blank line and the body, with a Content-Length only when the handler set none |
| HttpResponse.FindHeaderEnd | tests/dpdk-bench-client/src/raw_client.rs:215-222 | the position just past the first blank line, or none when there is no blank line |
| HttpResponse.FieldLineIs | tests/dpdk-bench-client/src/raw_client.rs:226-236 | only a field named Content-Length prints a line that the framer takes for one |
| HttpResponse.LengthLineIs | tests/dpdk-bench-client/src/raw_client.rs:226-236 | the printed Content-Length line is read back as the number printed |
| HttpResponse.NoEarlyTerminator | tests/dpdk-bench-client/src/raw_client.rs:215-222 | a printed head has no blank line before its own |
| HttpResponse.FramerRoundTrip | tests/dpdk-bench-client/src/raw_client.rs:215-236 | for every printable response without its own Content-Length, whatever follows it, the framer finds exactly the body start and the body length (section 6.3 of RFC 9112) |
| HttpResponse.FramerOwnLength | tests/dpdk-bench-client/src/raw_client.rs:215-236 | when the handler set Content-Length itself, the framer reads that value, the first if there are several, and finds the body start |
| HttpResponse.StatusReadBack | dpdk-net-test/src/app/kimojio_server.rs:486-492 | the printed response starts with the name of its version and its status in decimal, which read back as the status |
| HttpResponse.LengthPrintedOnce | dpdk-net-test/src/app/kimojio_server.rs:494-507 | no Content-Length is printed beside the handler's own, and exactly one when it set none |
| RawClient.EnoughIsComplete | tests/dpdk-bench-client/src/raw_client.rs:140-158 | the loop's stopping test holds exactly when the bytes so far end a response |
| RawClient.Client.ReadResponse | tests/dpdk-bench-client/src/raw_client.rs:121-187 | the bytes read end a response, or the stream is exhausted and ends none; no read is made once the bytes so far end a response, so the client never waits for more |
| RawClient.StopsAtTheEnd | tests/dpdk-bench-client/src/raw_client.rs:131-184 | a prefix of a printed response and what follows it ends a response if and only if it holds the whole printed response |
| RawClient.ReadPrinted | tests/dpdk-bench-client/src/raw_client.rs:121-187 | reading a printed response under any fragmentation takes at least the whole of it, precisely the whole when nothing follows, and whatever follows makes no read once the whole is in |
| SocketModel.OccupiedCount | dpdk-net/src/runtime/reactor.rs:90-104 | a claim counts once if its slot holds that very socket and otherwise not at all |
| SocketModel.OwnedHolds | dpdk-net/src/socket/tcp.rs:145-185 | every held handle is an occupied slot with the very socket and kind its holder was given, so `get` cannot panic |
| SocketModel.OneOwner | dpdk-net/src/socket/tcp.rs:259-284 | no slot has two owners |
| SocketSafety.ConnectInv | dpdk-net/src/socket/tcp.rs:33-60 | connecting keeps the partition, and a refused connect leaks no slot |
| SocketSafety.BindInv | dpdk-net/src/socket/tcp.rs:321-360 | binding adds as many listening sockets as the backlog, at least one, all owned by the listener |
| SocketSafety.BindUdpInv | dpdk-net/src/socket/udp.rs:35-62 | binding UDP keeps the partition; a refused port leaks no slot |
| SocketSafety.AcceptInv | dpdk-net/src/socket/tcp.rs:426-477 | accepting never panics, moves one socket from the listener to a stream and replaces it, so the backlog keeps its size |
| SocketSafety.CloseInv | dpdk-net/src/socket/tcp.rs:204-228 | closing keeps the partition |
| SocketSafety.DropStreamInv | dpdk-net/src/socket/tcp.rs:259-284 | dropping a stream never panics and either frees its slot or hands it to the orphan list |
| SocketSafety.DropListenerInv | dpdk-net/src/socket/tcp.rs:400-413 | dropping a listener frees exactly its backlog |
| SocketSafety.DropUdpInv | dpdk-net/src/socket/udp.rs:109-116 | dropping a UDP socket frees exactly its slot |
| SocketSafety.WindingStays | dpdk-net/src/runtime/reactor.rs:87-104 | the network never brings a closing socket back to life (section 3.3.2 of RFC 9293) |
| SocketSafety.CleanupInv | dpdk-net/src/runtime/reactor.rs:90-104 | cleanup never panics, empties exactly the slots of Closed and TimeWait orphans, keeps the other orphans in order and touches no live owner's slot |
| SocketSafety.StepInv | dpdk-net/src/socket/tcp.rs:33-504 | every step of every task and of the reactor keeps the partition and does not panic |
| SocketSafety.EveryRunSafe | dpdk-net/src/socket/tcp.rs:33-504 | from the empty table no run, in any interleaving, panics or breaks the partition |
| SocketSafety.OccupiedOwned | dpdk-net/src/runtime/reactor.rs:90-104 | every occupied slot has exactly one owner, who was given the very socket in it, so none leaks |
| SocketSafety.Isolated | dpdk-net/src/socket/tcp.rs:33-504 | no step but a pass over the network changes a socket other than those of the object it works on, whichever of the step kinds it is |
| SocketSafety.BetweenEgress | dpdk-net/src/runtime/reactor.rs:199-240 | along a run without an egress pass, how many packets and yields its start and end phases allow |
| SocketSafety.EgressToEgress | dpdk-net/src/runtime/reactor.rs:199-240 | between consecutive egress passes at most max(1, batch size) packets are ingested, with exactly one yield |
| SocketSafety.FlushedBeforeCleanup | dpdk-net/src/runtime/reactor.rs:224-234 | cleanup empties only slots of orphans that have seen an egress pass |
| SocketSafety.OnlyEgressFlushes | dpdk-net/src/socket/tcp.rs:272-282 | no step but an egress pass marks an orphan as flushed |
| SocketSafety.OrphanWaitsForEgress | dpdk-net/src/socket/tcp.rs:272-282 | along every run without an egress pass, a newly orphaned socket keeps its slot |
| SocketLaws.ConnectGives | dpdk-net/src/socket/tcp.rs:33-60 | an accepted connect gives one new stream, whose socket is new and in SynSent; a refused one changes nothing |
| SocketLaws.BindGives | dpdk-net/src/socket/tcp.rs:321-360 | a backlog of n gives max(1, n) new sockets, all in Listen; port 0 gives nothing |
| SocketLaws.BindUdpGives | dpdk-net/src/socket/udp.rs:35-62 | one new UDP socket, or nothing for port 0 |
| SocketLaws.AcceptGives | dpdk-net/src/socket/tcp.rs:426-477 | the first established socket of the backlog becomes a stream, still established, and a new listening socket has exactly its place; without one nothing changes |
| SocketLaws.CloseGives | dpdk-net/src/socket/tcp.rs:204-228 | which state the stream's socket has after a close: one that may still send gets to send its FIN |
| SocketLaws.AbortGives | dpdk-net/src/socket/tcp.rs:136-140 | an aborted stream keeps its slot, Closed |
| SocketLaws.DropGives | dpdk-net/src/socket/tcp.rs:259-284 | a dropped stream that is Closed or in TimeWait frees its slot; any other keeps its slot and joins the orphans, closing as before or aborted |
| SocketLaws.DropListenerGives | dpdk-net/src/socket/tcp.rs:400-413 | every slot of the backlog is free, whatever its state |
| SocketLaws.DropUdpGives | dpdk-net/src/socket/udp.rs:109-116 | the slot is free and the socket is no longer held |
| SocketLaws.DroppedWaits | dpdk-net/src/socket/tcp.rs:272-282 | along every run without an egress pass after the drop of a live stream, its socket keeps its slot, closing or aborted, and an aborted one stays Closed |
| SocketLaws.NetworkOnly | dpdk-net/src/runtime/reactor.rs:199-240 | no packet opens a connection or closes our side of one, and none brings a closed socket back (section 3.3.2 of RFC 9293) |
| SocketReactor.ReactorInner.Connect | dpdk-net/src/socket/tcp.rs:33-60 | does the connect step on the table |
| SocketReactor.ReactorInner.BindWithBacklog | dpdk-net/src/socket/tcp.rs:321-360 | the loop adds the whole backlog, or nothing for port 0 |
| SocketReactor.ReactorInner.Accept | dpdk-net/src/socket/tcp.rs:426-504 | a stream if and only if some backlog socket is established, the error if and only if all are dead, and the backlog keeps its size |
| SocketReactor.ReactorInner.DropStream | dpdk-net/src/socket/tcp.rs:259-284 | does the drop step; every lookup hits the stream's own socket |
| SocketReactor.ReactorInner.DropListener | dpdk-net/src/socket/tcp.rs:400-413 | the loop removes exactly the backlog |
| SocketReactor.ReactorInner.DropUdp | dpdk-net/src/socket/udp.rs:109-116 | removes exactly the socket |
| SocketReactor.ReactorInner.CleanupOrphaned | dpdk-net/src/runtime/reactor.rs:90-104 | the in-place retain is the cleanup step |
| SocketReactor.ReactorInner.Turn | dpdk-net/src/runtime/reactor.rs:199-240 | one turn is a run: start, polls, one egress pass, one cleanup; polling goes on until there is no packet or max(1, batch size) were taken; only flushed orphans are left |
| ArpShare.StepInv | dpdk-net/src/device/arp_cache.rs:84-108 | every producer and consumer step keeps the version's promise about the map |
| ArpShare.UpToDate | dpdk-net/src/device/dpdk_device.rs:157-200 | over all interleavings, with the producer not between store and bump, a consumer at the current version has last injected exactly the current map |
| ArpShare.FastPathIsSafe | dpdk-net/src/device/dpdk_device.rs:171-176 | a consumer whose injected entries differ from the map does not take the fast path |
| ArpShare.GiveUpRetries | dpdk-net/src/device/dpdk_device.rs:191-197 | a partly failed injection never advances the last version, so the next call retries |
| ArpShare.AttemptSucceeds | dpdk-net/src/device/dpdk_device.rs:178-200 | one undisturbed injection, in any order of the entries, brings a consumer up to date |
| ArpCache.ParsesExactly | dpdk-net/src/device/arp_cache.rs:149-175 | the parser answers an entry if and only if the frame is laid out as an ARP reply that carries that address and MAC |
| ArpCache.BuildArpReply | dpdk-net/src/device/arp_cache.rs:191-220 | filling the buffer in place gives the reply frame |
| ArpCache.ArpRoundTrip | dpdk-net/src/device/arp_cache.rs:149-220 | what is injected is read back as the very entry of the cache |
| ArpCache.ReplyAddressed | dpdk-net/src/device/arp_cache.rs:191-220 | the frame has 42 bytes, is addressed to our MAC from the peer's, is an Ethernet ARP reply for IPv4, and has the peer as sender and us as target |
| ArpShare.SharedArpCache.Insert | dpdk-net/src/device/arp_cache.rs:84-108 | an insertion is the run load, store, bump: the entry is set and the version bumped, even for an unchanged entry |
| ArpCache.LearnedLast | dpdk-net/src/device/dpdk_device.rs:134-143 | after a batch each address has the MAC of its last reply in the batch |
| ArpCache.LearnedOthers | dpdk-net/src/device/dpdk_device.rs:134-143 | an address without a reply in the batch keeps its entry or stays unknown |
| ArpCache.RepliesCounted | dpdk-net/src/device/dpdk_device.rs:134-143 | the replies counted are the frames of the batch that parse as one |
| Launch.Run | dpdk-net-util/src/app.rs:232-274 | the launch loop starts the worker queues in order and the main queue last |
| Launch.EachQueueOnce | dpdk-net-util/src/app.rs:232-274 | each queue runs on exactly one lcore if and only if exactly one lcore is the main one |
| Launch.OneProducer | dpdk-net-util/src/app.rs:232-274 | so queue 0, the only writer of the ARP cache, runs once |
| Device.DpdkDevice.EachBufferOnce | dpdk-net/src/device/dpdk_device.rs:125-330 | every buffer is the pool's or one queue's, and a queue's buffer is in exactly one of receive ring, transmit ring, receive batch, transmit batch and tokens |
| PacketBuffers.OthersKeep | dpdk-net-util/src/app.rs:235-262 | what one queue does with the shared pool leaves every other queue its buffers |
| DeviceRuns.Neighbours | dpdk-net-util/src/app.rs:235-262 | a device's receive leaves a second device on the same pool its buffers and batches |
| Device.DpdkDevice.Tx | dpdk-net/src/api/rte/queue.rs:119-147 | the NIC takes over a prefix of at most 64 buffers and exactly those leave the batch |
| Device.DpdkDevice.FlushTx | dpdk-net/src/device/dpdk_device.rs:206-210 | frames handed over followed by the batch stay the pushed frames, in order; no buffer is lost |
| Device.DpdkDevice.Refill | dpdk-net/src/api/rte/queue.rs:45-72 | a new burst enters an empty batch in arrival order |
| Device.DpdkDevice.PollRx | dpdk-net/src/device/dpdk_device.rs:125-146 | the transmit batch is flushed as far as the NIC takes it, a burst is taken only into an empty batch, and queue 0 learns exactly its ARP replies |
| Device.DpdkDevice.InjectFromSharedCache | dpdk-net/src/device/dpdk_device.rs:157-200 | the call is a run of the sharing protocol, version first and snapshot after whatever others did; it injects as many entries as there are free places and buffers, and records the version if and only if that is all of them |
| DeviceRuns.NeverCatchesUp | dpdk-net/src/device/dpdk_device.rs:183-199 | while the map has more than 64 entries, no sequence of receives, token uses, injections, arrivals and transmissions records a version; the device's log shows that the steps were taken |
| Device.DpdkDevice.InjectRxPacket | dpdk-net/src/device/dpdk_device.rs:222-235 | a copy of the frame joins the batch if and only if there is room, a buffer is to be had and the frame fits in it; otherwise nothing changes |
| Device.DpdkDevice.Receive | dpdk-net/src/device/dpdk_device.rs:248-266 | the batch is flushed, refilled and injected at its back, each exactly as far as the NIC and the pool allow, and the packet at the back is delivered; the transmit token lacks room if and only if the batch was full and the NIC takes nothing |
| Device.DpdkDevice.Transmit | dpdk-net/src/device/dpdk_device.rs:268-289 | a full batch is flushed; a token if and only if the batch was not full or the NIC takes something |
| Device.DpdkDevice.ConsumeTx | dpdk-net/src/device/dpdk_device.rs:304-330 | the frame is lost if and only if no buffer is to be had, the call panics if and only if one is and the batch is full, and otherwise the frame is queued; buffers are conserved |
| DeviceRuns.ReachesPanic | dpdk-net/src/device/dpdk_device.rs:256-322 | a run whose log is 256 queued frames, an arrival, a receive and a panicking token, from a fresh device whose NIC once takes nothing |
| Device.DpdkDevice.ConsumeRx | dpdk-net/src/device/dpdk_device.rs:256-257 | a consumed receive token returns its buffer to the pool |
| Device.DeliveredOnce | dpdk-net/src/device/dpdk_device.rs:125-266 | every received or injected frame is in the batch or delivered, once |
| Device.HistoryPop | dpdk-net/src/device/dpdk_device.rs:256-262 | popping from the back keeps hardware bursts in order: none is delivered before an earlier one |
| Bridge.Connection.RelayReceive | dpdk-net-util/src/bridge/worker.rs:270-282 | bytes taken from TCP join those still to be delivered, in order |
| Bridge.Connection.RelaySendUp | dpdk-net-util/src/bridge/worker.rs:272-287 | a message waits for room or joins the channel, and after a final one the relay leaves; with the OS side gone it ends |
| Bridge.Connection.RelayTakeDown | dpdk-net-util/src/bridge/worker.rs:290-299 | the next buffer in order, or the end when the OS side is gone |
| Bridge.Connection.RelayWrite | dpdk-net-util/src/bridge/worker.rs:293-296 | bytes accepted by TCP stay a prefix of the bytes offered, in order and without repetition; after the whole buffer the relay serves again, otherwise it goes on with the rest |
| Bridge.Connection.RelayWritesAll | dpdk-net-util/src/bridge/worker.rs:290-299 | with the stream open and TCP taking everything, all that is queued is written: TCP has accepted exactly what was offered, nothing is left, and the relay goes on serving |
| Bridge.Connection.EndsForAReason | dpdk-net-util/src/bridge/worker.rs:258-308 | the relay stops serving writes only after a close or a dropped stream, an end of input, or an error |
| Bridge.Connection.PollRead | dpdk-net-util/src/bridge/stream.rs:44-77 | a poll returns as much of the leftovers or of the next chunk as fits; across any run bytes read are a prefix of the bytes the relay took; at the first zero for a non-empty buffer they are all of them, and no later poll returns data or an error; a poll fails exactly when the next message is an error |
| Bridge.Connection.PollWrite | dpdk-net-util/src/bridge/stream.rs:81-103 | a buffer is accepted whole or not at all; pending exactly when the channel is full and the relay alive |
| Bridge.Connection.PollClose | dpdk-net-util/src/bridge/stream.rs:110-117 | the close signal is sent, and neither direction's order is disturbed |
| Bridge.Send | dpdk-net/src/socket/tcp.rs:101-108 | the loop goes on until the socket has all bytes, once and in order, or fails, and it fails only then; every ready poll shortens the remainder |
| UdpPeek.RxState.Arrive | dpdk-net-util/src/bridge/worker.rs:333-343 | a full channel drops the new datagram and keeps the old ones |
| UdpPeek.RxState.RecvFrom | dpdk-net-util/src/bridge/udp.rs:76-178 | every form of receive delivers the channel's datagrams in order, each once, cut to exactly the buffer's size if longer, whatever was peeked; it fails only when none is left and the relay has ended |
| UdpPeek.RxState.PollRecvReady | dpdk-net-util/src/bridge/udp.rs:198-218 | peeking changes no receive; ready if and only if a receive would get a datagram |
| UdpPeek.RxState.ReadyThenReceive | dpdk-net-util/src/bridge/udp.rs:198-218 | ready if and only if a datagram is pending; then arrivals and even the relay's end leave the next receive its datagram |
| RoundRobin.WorkerRegistry.Select | dpdk-net-util/src/bridge/worker.rs:58-65 | the worker at the counter modulo the number of workers; no worker, no count |
| RoundRobin.WorkerRegistry.SelectRounds | dpdk-net-util/src/bridge/worker.rs:58-65 | any k*n consecutive selections over n workers choose each exactly k times |
| RoundRobin.EphemeralPorts.AllocateMany | dpdk-net-util/src/bridge/worker.rs:109-124 | consecutive allocations walk the range 49152 to 65535 and wrap; two agree if and only if a multiple of 16384 lies between them, so any 16384 in a row are pairwise distinct |
| RoundRobin.Nic.ConfigureRssReta | dpdk-net/src/api/rte/eth.rs:561-593 | for every table size entry i is set to i mod n |
| RoundRobin.Nic.QueryRssReta | dpdk-net/src/api/rte/eth.rs:619-653 | the query returns the table, entry for entry, and nothing more |
| RoundRobin.RetaBalanced | dpdk-net/src/api/rte/eth.rs:557-593 | each queue gets the floor of the average number of entries, and the first few one more |
| Echo.System.Send | dpdk-net-test/src/manual/tcp_echo.rs:320-323 | queued data extends what must be echoed and disturbs nothing under way |
| Echo.System.ServerProcess | dpdk-net-test/src/manual/tcp_echo.rs:146-202 | exactly the bytes the socket gives are taken and a prefix of the pending ones is echoed, so that while the connection lives every sent byte is in one place, in order; when it ends the pending bytes are forgotten; bytes received are bytes sent, pending or forgotten |
| Echo.System.ClientProcess | dpdk-net-test/src/manual/tcp_echo.rs:338-401 | the client only moves forward through its states, sends nothing once it has stopped sending, and completes if and only if exactly the data sent came back |
| Echo.System.Run | dpdk-net-test/src/manual/tcp_echo.rs:338-401 | whatever happens after it stopped sending, a client that was given more data never completes; the log shows that all of it happened |
| Echo.System.LetThrough | dpdk-net-test/src/manual/tcp_echo.rs:338-401 | once everything under way came back, a waiting client is complete if and only if it was given no more data |
| Echo.Stuck | dpdk-net-test/src/manual/tcp_echo.rs:320-401 | one byte in time and one too late: the client never completes |
| Echo.System.VerifyEcho | dpdk-net-test/src/manual/tcp_echo.rs:326-333 | true if and only if all data came back; at completion, if and only if nothing was queued since |

## Left out

- The grammar of `httparse` and the checks of the `http` crate are parameters. They are assumed stable: a verdict other than partial does not change with more input, a complete header is a non-empty prefix, and it is complete as soon as that prefix is there.
- Text outside ASCII: lossy UTF-8 of header values, Unicode white space in `trim`, and canonical header names.
- Allocation failure and capacity overflow for announced lengths that exceed memory.
- Kimojio.HandleHttpConnection: each drop is what the parser had buffered at that reset, as the socket's log records it, and at most 65536 bytes; for a plan that is neither paced nor empty it is not given as a function of the plan.
- Kimojio.LosesSomething: is about bytes. Lost bytes need not show in the outcome, for instance when megabytes that are no header follow; `OneRead` and `PairInOneRead` show the loss of requests.
- HttpResponse.FramerRoundTrip: covers ASCII fields without a line break, as the http crate builds them, and responses without their own Content-Length; `FramerOwnLength` covers the others.
- RawClient.ReadPrinted: when more bytes follow the response the client may read some of them; it sends one request at a time.
- SocketSafety.EveryRunSafe: smoltcp enters as the relation `NetMay` on connection states; sequence numbers, buffers, timers and its own handle checks are not modelled. Ports other than 0 always bind.
- SocketSafety.AcceptInv: counts a missing backlog slot as a panic even where the search would stop before it, which only makes the claim stronger.
- Wakers, the executor and every liveness property that depends on scheduling, such as `wait_ready` being notified.
- ArpShare.UpToDate: assumes sequential consistency and an unbounded version, where the code loads the version relaxed and the counter wraps at 64 bits.
- ArpShare.UpToDate: speaks of what was injected; smoltcp processes a batch last in first out and may see a stale frame after a newer one.
- Device.DpdkDevice.InjectFromSharedCache: the device always has a shared cache and its own addresses; without them the code skips the call.
- Device.DpdkDevice.Arrival: the NIC takes a buffer from the pool when a packet arrives; descriptors filled in advance are not modelled.
- Launch.Run: queue numbers are unbounded, where the code truncates them to 16 bits.
- Bridge.Connection.RelayClose: makes no claim that queued writes are sent; the close signal may overtake them, as in the code.
- UdpPeek.RxState.RecvFrom: one method stands for the three receive forms; waiting and tokio's scheduling budget, which can delay a ready poll, are not modelled. The send side has no state of its own.
- RoundRobin.WorkerRegistry.Select: the counter does not wrap at 64 bits, after which one round would be uneven.
- Echo.System.ServerProcess: follows one client's connection; listening again and the next client are outside the system.
- Accept and UDP relay loops of the bridge, its handle and commands: only easy members.
- DPDK bindings, lcore threads, memory pools, Ethernet configuration other than the RSS table: thin wrappers over C.
- Adapters for hyper, axum, tonic, quinn and TLS, the HTTP client and its pool, benchmark statistics, scripts and the archive.
