# KrpcPlus: a verified model

This project models the byte-level core and the concurrent cores of the KrpcPlus RPC framework in Dafny and proves
properties of them. `dafny verify dfyconfig.toml` verifies everything.

What is modelled:

- `NoncontiguousBuffer.dfy`: the chained byte buffer, as a class over a chain of blocks with the flat byte sequence it
  stands for.
- `FixedHeader.dfy`, `LegacyCodec.dfy`, `XRpcCodec.dfy`, `ServerCodec.dfy`: both wire formats on either host byte
  order, all decode and encode operations with their error codes, their 16- and 32-bit truncations and wrap-around,
  and protocol detection. Each operation is a method over the buffer, proved equal to a function on byte sequences;
  the laws (round trips, locality, prefix stability) are lemmas about those functions.
- `RpcServer.dfy`, `Streams.dfy`: the server's parse and dispatch loop, and its laws over whole streams and any chunking.
- `RpcChannel.dfy`, `EndToEnd.dfy`, `EndToEndRuns.dfy`: exact reads under short reads and interruptions, one call of the
  client, and the two sides together over every interleaving, in which other connections take part in the choice of the
  server's codec; the methods' contracts as paths of that system, and runs that go wrong.
- `Reactor.dfy`, `FdOwnership.dfy`: the reactor tool's scan of the poll array, its hand-off of connections and its
  partial-write loop; ownership of descriptors over every interleaving.
- `RuntimeStats.dfy`, `Percentiles.dfy`, `PercentileReader.dfy`: `Record` as atomic steps of any number of threads; the
  percentiles of the values loaded; and the reading of the statistics, load by load, between those steps.
- `RouteTable.dfy`, `LoadBalancer.dfy`: copy-on-write publication of the route table, the cached host lookup, and
  round-robin tickets.

Modelling conventions:

- Generated Protobuf code is a parameter: `HeaderFormat` holds the serialise and parse functions of one header type.
  Round trips assume `RoundTripsAt` for the headers in question only. `Streams.TableWireSends` shows that the
  assumption can be met for any list of requests at once.
- Sockets, the kernel, ZooKeeper and clocks are inputs: scripts of answers for `recv` and `writev`, fetched node
  lists, durations. A script that has run out reports the end of the stream or an error.
- Durations are exact reals and percentile ranks exact fractions.
- Some methods take ghost parameters that only carry proof data; some predicates have an explicit trigger that keeps
  a recursive definition out of their callers' proofs.

## What the code does where one might expect otherwise

- The Legacy server never checks that the header ends inside the frame (src/codec/legacy_codec.cc:63-85). A frame
  whose header does not fit is read from the bytes behind it, so what it means depends on how TCP cut the stream.
  `Streams.LegacySplitExactly` and `LegacyCodec.DecodeIsLocalExactly` prove that `HeaderFits` is the exact condition
  for this, over all header formats; `Streams.SplitMatters` gives an eight-byte frame that fails it.
- The XRpc encoders truncate the header size to 16 bits and check the limit on a truncated total
  (src/codec/xrpc_codec.cc:232-240, :293-300). `XRpcCodec.RequestRoundTripExactly` and `ReplyRoundTripExactly` give the
  exact condition under which an encoded message can be read back; `WideHeadersAreLost` gives messages that cannot.
  Splitting the function name recovers the method exactly when it has no slash.
- The documents describe protocol detection per connection; the code keeps one codec for the whole server
  (src/include/xrpc/rpc/server.h:44, src/rpc/server.cc:115-119) and looks at the first chunk only.
  `Streams.ServedExactly`, `ServerCodecs.DetectsXRpcExactly` and `Streams.FreshServerTakesExactly` say exactly what is
  then served and recognised.
- The Legacy encoder sends requests over the frame limit, which the server rejects. The length of one with about
  1.26 GB begins with the two bytes of the XRpc magic (`EndToEndRuns.HugeRequestIsTakenForXRpc`).
  `EndToEnd.DetectedAsXRpcExactly` and `SetsXRpcExactly` say exactly when a Legacy request turns a fresh server to XRpc;
  without such a request, and unless another connection does it, the server never speaks XRpc (`EndToEnd.StaysLegacy`).
  While it does, no Legacy request sent to it is answered (`EndToEnd.XRpcNeverAnswers`).
- The codec is tested and set by four I/O threads without a lock (src/rpc/server.cc:69, :115-117), so a thread that found
  none earlier can overwrite the codec in use; the codec is final only once no such thread is left
  (`EndToEnd.SettledForever`, `EndToEndRuns.XRpcIsOverwritten`). Calls stay paired with their responses all the same,
  unless an XRpc codec is overwritten while it serves a request that spells the magic; then they need not
  (`EndToEnd.FifoPairing`, `EndToEndRuns.DisturbedMispairs`).
- The server reads an XRpc one-way message without its variable header (src/codec/xrpc_codec.cc:196-198), so it has no
  names and runs nothing (`Streams.OneWayIsNotServed`).
- The XRpc client copies the converted fixed header back into the frame before decoding it
  (src/rpc/channel.cc:168-178). On a little-endian host no XRpc call is ever answered
  (`RpcChannels.XRpcEnding`, `RpcChannels.CopyBackExactly`).
- A channel keeps the service and method names of its first call for all later calls (src/rpc/channel.cc:57-61);
  `EndToEnd.FirstNamesForever` proves that a request names the method called exactly when that is the method of the
  first call, and `EndToEndRuns.WrongMethodAnswers` is a run in which a call gets the other method's response.
- Responses carry request id 0 (src/rpc/server.cc:206-209), and nothing compares ids. `EndToEnd.FifoPairing` proves
  that pairing holds all the same.
- Percentiles are computed from loads at different moments. A quantile that the scan does not reach is reported as 0.
  `PercentileReaders.AllFoundExactly` says exactly, for every run, when all are found, and
  `PercentileReaders.SureToFindExactly` from which states they are found however the run goes on;
  `NotFoundWhileInFlight` and `FoundAllTheSame` are runs on either side. The ranks are rounded down, so after a single
  call they are 0 and all three quantiles are reported as 0.05 ms, whatever the call took
  (`Percentiles.RankPositiveExactly`, `SingleCallIsFirstBucket`, `PercentileReaders.SingleCallReads`).
- A reactor worker closes a descriptor before it drops its entry, so accept can hand the same number to another worker
  in between: `FdOwnership.NumberInTwoArrays` is such a run, `FdOwnership.InTwoOnlyWhileLeaving` proves that there is
  no other way. No open descriptor is ever held twice (`FdOwnership.OwnedOnceOrClosed`).
- A comment on the histogram speaks of 200 buckets up to 20 ms; the code has 300 up to 30 ms
  (src/include/xrpc/monitor/runtime_stats.h:54-57).

## Model

| member | source | states |
|---|---|---|
| `NoncontiguousBuffers.NoncontiguousBuffer.Append` | src/codec/noncontiguous_buffer.cc:6-30 | the flat contents grow by the data at the end, by at most one more block, and the chain keeps its shape |
| `NoncontiguousBuffers.NoncontiguousBuffer.Peek` | src/codec/noncontiguous_buffer.cc:32-52 | exactly the slice of length min(len, readable - offset) is copied across block boundaries; the rest of the caller's memory and the buffer stay |
| `NoncontiguousBuffers.CopyOut` | src/codec/noncontiguous_buffer.cc:39-50 | the loop over the blocks copies the requested slice of the flat contents |
| `NoncontiguousBuffers.NoncontiguousBuffer.Skip` | src/codec/noncontiguous_buffer.cc:54-72 | a prefix of the flat contents is dropped, all of it if it is short |
| `NoncontiguousBuffers.NoncontiguousBuffer.ToString` | src/codec/noncontiguous_buffer.cc:74-79 | the whole contents |
| `NoncontiguousBuffers.FragmentationBound` | src/codec/noncontiguous_buffer.cc:10-29 | a chain with the reachable shape has at most 2 + readable/4096 blocks |
| `NoncontiguousBuffers.BufferRefinement` | src/codec/noncontiguous_buffer.cc:6-72 | for every run of operations: only the front block has an offset, inner blocks are full, the chain equals one flat byte sequence, and the block count is bounded |
| `FixedHeaders.FixedHeader.HToN` | src/include/xrpc/codec/xrpc_codec.h:80-85 | on either host the struct's memory becomes the big-endian wire bytes of the old fields |
| `FixedHeaders.FixedHeader.NToH` | src/include/xrpc/codec/xrpc_codec.h:87-92 | the fields become those that the struct's memory said in wire order |
| `FixedHeaders.HeaderAtWireBytes` | src/codec/xrpc_codec.cc:67-93 | reading the wire bytes field by field gives back every field of the header, on either host |
| `LegacyCodec.CheckAndPick` | src/codec/legacy_codec.cc:24-50 | the verdict is the function Pick of the contents, whose laws are below |
| `LegacyCodec.ZeroCopyDecode` | src/codec/legacy_codec.cc:52-91 | code, message and remaining contents are the function Decode, for every input, including wrapped lengths |
| `LegacyCodec.ZeroCopyEncodeReply` | src/codec/legacy_codec.cc:93-106 | the response frame is appended |
| `LegacyCodec.ZeroCopyEncode` | src/codec/legacy_codec.cc:112-143 | the request frame is appended, or nothing when the header cannot be serialised |
| `LegacyCodec.ZeroCopyDecodeReply` | src/codec/legacy_codec.cc:145-169 | code, message and remaining contents are the function DecodeReply |
| `LegacyCodec.PickIsPrefixStable` | src/codec/legacy_codec.cc:24-50 | a verdict other than "incomplete" never changes as bytes arrive; a frame has 8 bytes or more and lies inside the buffer |
| `LegacyCodec.DecodeIsLocal` | src/codec/legacy_codec.cc:52-91 | decoding a frame whose header fits ignores the bytes behind it and consumes exactly the frame |
| `LegacyCodec.DecodeIsLocalExactly` | src/codec/legacy_codec.cc:63-85 | under all header formats a complete frame means the same whatever follows it, if and only if its header fits |
| `LegacyCodec.OversizedHeaderExists` | src/codec/legacy_codec.cc:63-85 | there is a complete frame whose header does not fit, and whose meaning depends on the bytes behind it |
| `LegacyCodec.PickOfFrame` | src/codec/legacy_codec.cc:128-139 | the server takes a whole encoded request if and only if it is within the frame limit |
| `LegacyCodec.RequestRoundTrip` | src/codec/legacy_codec.cc:112-143 | the server decodes an encoded request to the client's names, sizes and body, and leaves what follows |
| `LegacyCodec.ReplyRoundTrip` | src/codec/legacy_codec.cc:93-106 | the client decodes an encoded response to its body, or rejects it exactly when it is over the limit |
| `XRpcCodec.PeekFixedHeader` | src/codec/xrpc_codec.cc:67-93 | the fields of the header at the front, or "incomplete" and the old fields |
| `XRpcCodec.CheckAndPick` | src/codec/xrpc_codec.cc:99-132 | the verdict is the function Pick of the contents |
| `XRpcCodec.ZeroCopyDecode` | src/codec/xrpc_codec.cc:134-206 | code, message and remaining contents are the function Decode, for every message type and every error |
| `XRpcCodec.ZeroCopyEncodeReply` | src/codec/xrpc_codec.cc:208-251 | the response frame is appended, or nothing together with the error code |
| `XRpcCodec.ZeroCopyEncode` | src/codec/xrpc_codec.cc:257-309 | the request frame is appended, or nothing together with the error code |
| `XRpcCodec.ZeroCopyDecodeReply` | src/codec/xrpc_codec.cc:311-363 | code, message and remaining contents are the function DecodeReply |
| `XRpcCodec.PickIsPrefixStable` | src/codec/xrpc_codec.cc:99-132 | a verdict other than "incomplete" never changes as bytes arrive; a frame has 16 bytes or more and lies inside the buffer |
| `XRpcCodec.DecodeIsLocal` | src/codec/xrpc_codec.cc:134-206 | decoding any complete frame ignores the bytes behind it and consumes exactly the frame |
| `XRpcCodec.RequestRoundTrip` | src/codec/xrpc_codec.cc:257-309 | the server decodes an encoded request to every field with context defaults filled in, a one-way message to its body and stream fields, and leaves what follows |
| `XRpcCodec.RequestRoundTripExactly` | src/codec/xrpc_codec.cc:288-300 | an encoded request or one-way message is read back if and only if its header is under 65536 bytes and the true total within the limit |
| `XRpcCodec.NamesRecoveredExactly` | src/codec/xrpc_codec.cc:176-181 | the split of the joined function name recovers service and method if and only if the method has no slash |
| `XRpcCodec.ReplyRoundTrip` | src/codec/xrpc_codec.cc:208-251 | the client decodes an encoded response to every field and leaves what follows |
| `XRpcCodec.ReplyRoundTripExactly` | src/codec/xrpc_codec.cc:208-251 | the client recovers every field of an encoded response if and only if its header is under 65536 bytes and the true total within the limit |
| `XRpcCodec.WideHeadersAreLost` | src/codec/xrpc_codec.cc:232-240 | on either host a request and a response are encoded without error and not read back |
| `ServerCodecs.CreateServerCodec` | src/codec/codec_factory.cc:17-30 | the codec is chosen by the function Detect of the contents |
| `ServerCodecs.DetectsXRpcExactly` | src/codec/codec_factory.cc:17-30 | a stream beginning with an XRpc frame is recognised if and only if the first chunk has at least two bytes |
| `ServerCodecs.MissedXRpcIsRejected` | src/codec/legacy_codec.cc:36-39 | an XRpc stream taken for Legacy is rejected as oversized |
| `ServerCodecs.DetectsLegacy` | src/codec/codec_factory.cc:17-30 | a stream beginning with a Legacy frame within the limit is never taken for XRpc, whatever the size of the first chunk |
| `ServerCodecs.MissedLegacyIsRejected` | src/codec/xrpc_codec.cc:99-114 | a Legacy frame met by the XRpc codec is rejected for its magic, or held back while short |
| `ServerCodecs.ServerCodec.DecodeConsumesPick` | src/rpc/server.cc:130-152 | a successful decode skips exactly the size that CheckAndPick returned, for both codecs and every input |
| `RpcServers.RpcServer.OnMessage` | src/rpc/server.cc:111-195 | fixes the codec by the first bytes; decodes and dispatches the messages of Drain, keeps its residue, sends the replies in order, and shuts down exactly on its failure |
| `RpcServers.RpcServer.Serve` | src/rpc/server.cc:154-193 | the method is called and answered exactly when service and method are registered and the body parses |
| `RpcServers.RpcServer.SendRpcResponse` | src/rpc/server.cc:198-222 | the encoded response is sent, or nothing when it cannot be serialised or encoded |
| `Streams.DrainInTwoSteps` | src/rpc/server.cc:125-152 | draining a prefix and then its residue with the rest is draining it all |
| `Streams.FailureSticks` | src/rpc/server.cc:135-150 | once a connection is given up, every later call gives it up again and decodes nothing |
| `Streams.ChunkingIndependence` | src/rpc/server.cc:125-152 | for every split into chunks: same messages, same residue, same error verdict as one call on the concatenation |
| `Streams.ChunkingFromStart` | src/rpc/server.cc:125-152 | the same from a fresh connection, without any condition for XRpc |
| `Streams.ReceiveChunks` | src/rpc/server.cc:64-66 | calling OnMessage for each arriving chunk leaves the server, the buffer and the connection as the stream and the codec determine, for every split; a fresh server takes its codec from the first chunk |
| `Streams.LegacySplitExactly` | src/rpc/server.cc:125-152 | splitting a Legacy stream behind a frame is immaterial under all header formats if and only if the frame's header fits |
| `Streams.SplitMatters` | src/rpc/server.cc:125-152 | there is a complete frame behind which a split changes what is decoded |
| `Streams.DrainedInFrames` | src/rpc/server.cc:125-152 | the buffer is split into one complete frame for each message and the residue; no byte is lost |
| `Streams.StreamRoundTrip` | src/rpc/server.cc:125-152 | the concatenated encodings of any list of requests are read back as that list, with nothing left over |
| `Streams.AnyChunkingDelivers` | src/rpc/server.cc:125-152 | however the network cuts them, exactly the requests sent are decoded |
| `Streams.ServedExactly` | src/rpc/server.cc:114-119 | a server whose codec is set reads a connection's requests if and only if they are of that protocol |
| `Streams.FreshServerTakesExactly` | src/rpc/server.cc:114-119 | a fresh server reads every chunking of a Legacy stream, and one of an XRpc stream if and only if the first chunk has two bytes or more |
| `Streams.OneWayIsNotServed` | src/codec/xrpc_codec.cc:196-198 | a one-way message is decoded, and neither run nor answered unless a service with an empty name is registered |
| `RpcChannels.RecvExact` | src/rpc/channel.cc:31-43 | the next bytes of the stream, exactly as many as asked unless end of stream or an error is reported |
| `RpcChannels.ShortReadsComplete` | src/rpc/channel.cc:31-43 | short reads and EINTR never make an exact read fail |
| `RpcChannels.LegacyArrivalIsOneFrame` | src/rpc/channel.cc:189-215 | reading a Legacy response consumes exactly one response frame, which always decodes |
| `RpcChannels.CopyBackExactly` | src/rpc/channel.cc:168-178 | copying the converted header back is harmless on a big-endian host and gives an invalid magic on a little-endian one |
| `RpcChannels.RpcChannel.CallMethod` | src/rpc/channel.cc:46-246 | at every exit: connection closed, or nothing sent and read, or one whole request frame sent and one whole response frame consumed; which one, the status, the response and the names sent |
| `RpcChannels.RpcChannel.Exchange` | src/rpc/channel.cc:144-245 | every failure after the request is encoded closes the connection; success consumes one response frame |
| `RpcChannels.LegacyEnding` | src/rpc/channel.cc:189-245 | a Legacy call is answered if and only if a whole response within the limit arrives and its body parses, and then with that body |
| `RpcChannels.XRpcEnding` | src/rpc/channel.cc:159-245 | on a little-endian host no XRpc call is answered; on a big-endian one the frame is decoded as it arrived |
| `EndToEnd.FifoPairing` | src/rpc/channel.cc:118-246 | over every run, with requests over the frame limit, servers of either protocol and other connections setting the codec at any moment: each successful call gets the response to its own request, in order, and without failures the k-th answer is that of the k-th request; the one condition is that an XRpc codec is not overwritten while it serves a request that spells the magic |
| `EndToEnd.FinishesExactly` | src/rpc/server.cc:154-194 | if the codec is not overwritten, with nothing in flight and the server at rest: a waiting call can finish if and only if the server speaks Legacy, the request is within the limit and its method produced a response within the limit |
| `EndToEnd.FirstNamesForever` | src/rpc/channel.cc:57-61 | over every run each request carries the names of the channel's first call, failed or not; they are those of the method called if and only if the first call named that method |
| `EndToEnd.AnsweredByFirst` | src/rpc/channel.cc:57-61 | every answer is what the first call's method makes of the request |
| `EndToEndRuns.WrongMethodAnswers` | src/rpc/channel.cc:57-61 | there is a run of two successful calls in which the second gets the response of a method it did not call |
| `EndToEndRuns.CallCompletes` | src/rpc/channel.cc:118-246 | from every idle connected state in which the server does not speak XRpc, a call within the limits can run to its answer |
| `EndToEnd.XRpcNeverAnswers` | src/rpc/server.cc:115-119 | no request of a Legacy channel issued while the server speaks XRpc is answered as long as it does |
| `EndToEnd.StaysLegacy` | src/codec/codec_factory.cc:17-30 | if no request spells the magic and no other connection sets XRpc, the server never speaks XRpc, however the requests are cut |
| `EndToEnd.DetectedAsXRpcExactly` | src/codec/codec_factory.cc:17-30 | the first bytes of a Legacy request are detected as XRpc if and only if there are two of them and its length begins with the magic |
| `EndToEnd.SetsXRpcExactly` | src/rpc/server.cc:115-119 | in every reachable state the channel sets an XRpc codec if and only if two bytes of a request whose length begins with the magic are in the buffer |
| `EndToEnd.SettledForever` | src/rpc/server.cc:115-119 | once the codec is set and no thread is left that found none, it never changes |
| `EndToEndRuns.HugeRequestIsTakenForXRpc` | src/codec/legacy_codec.cc:128-139 | there is a request under 2 GB whose frame is detected as XRpc |
| `EndToEndRuns.AnsweredIsFinish` | src/rpc/channel.cc:189-215 | CallMethod reads to the end of the first whole response frame and never beyond |
| `EndToEndRuns.CallBegins` | src/rpc/channel.cc:57-158 | every outcome of CallMethod up to the sending of the request is a path of the step system |
| `EndToEndRuns.CallEnds` | src/rpc/channel.cc:159-246 | whatever recv answers, what CallMethod makes of the arriving bytes is a path to the end of the first response frame, or the failing step |
| `EndToEndRuns.OnMessageIsAPath` | src/rpc/server.cc:111-195 | what OnMessage is proved to do is a path of single codec accesses |
| `EndToEndRuns.XRpcIsOverwritten` | src/rpc/server.cc:115-119 | there is a run in which a late thread overwrites an XRpc codec and a Legacy call is then answered |
| `EndToEndRuns.DisturbedMispairs` | src/rpc/server.cc:115-222 | there is a run in which a request that spells the magic is served as XRpc, the codec is overwritten, and the call gets the response of a method it did not name |
| `Reactor.ScanReady` | tools/mini_server_reactor.cc:190-217 | every ready entry is visited exactly once; survivors and closed entries together are the old entries; those closed are exactly the failed ones |
| `Reactor.NoneReady` | tools/mini_server_reactor.cc:190 | when the ready count reaches zero, stopping skips no entry |
| `Reactor.AdoptNewFds` | tools/mini_server_reactor.cc:164-177 | new connections are taken in order up to the capacity, the others closed |
| `Reactor.AdjustIov` | tools/mini_server_reactor.cc:129-144 | after n accepted bytes the two buffers hold exactly the rest |
| `Reactor.SendResponse` | tools/mini_server_reactor.cc:109-146 | the bytes accepted are always a prefix of length and body, and all of it exactly on success |
| `FdOwnership.StepKeepsOwned` | tools/mini_server_reactor.cc:158-222 | every step of the accepting thread or a worker keeps each descriptor owned once or closed |
| `FdOwnership.OwnedOnceOrClosed` | tools/mini_server_reactor.cc:158-222 | over every interleaving of single closes, removals and adoptions: an accepted descriptor is open in exactly one queue or array of one worker, or closed |
| `FdOwnership.InTwoOnlyWhileLeaving` | tools/mini_server_reactor.cc:195-214 | a number is in the memory of two workers only while one of them has closed or taken it and not yet dropped it |
| `FdOwnership.NumberInTwoArrays` | tools/mini_server_reactor.cc:195-200 | there is a run in which accept reuses a number whose entry is still in another worker's array |
| `FdOwnership.ScanIsAPath` | tools/mini_server_reactor.cc:190-217 | what ScanReady ensures is a path of closes, each followed by the removal of its entry |
| `FdOwnership.AdoptionIsAPath` | tools/mini_server_reactor.cc:164-177 | what AdoptNewFds ensures is a path of single adoptions under the mutex |
| `FdOwnership.CapacityAndBalance` | tools/mini_server_reactor.cc:269-300 | arrays never exceed their capacity; hand-offs to two workers differ by at most one |
| `RuntimeStats.CountsConserved` | src/monitor/runtime_stats.cc:22-44 | in every reachable state: count minus histogram sum is the number of calls in flight, the total is that of all counted calls but for what is still owed, and each bucket counts the completed calls of its range |
| `RuntimeStats.MaxIsMax` | src/monitor/runtime_stats.cc:29-35 | the maximum never decreases, is 0 or a recorded duration, and at least every completed one, even with spurious failures |
| `RuntimeStats.StepKeepsConserved` | src/monitor/runtime_stats.cc:22-44 | every atomic step of any thread keeps counts and totals conserved |
| `Percentiles.ComputePercentiles` | src/monitor/runtime_stats.cc:46-86 | for any values the loads return, each reported quantile is the midpoint of the first bucket whose cumulative count reaches its rank; the early exit loses none |
| `PercentileReaders.AllFoundExactly` | src/monitor/runtime_stats.cc:46-86 | over every interleaving of loads and Record steps, for every percentile up to the 99th: it is found if and only if the calls in flight at the load of the count are no more than the samples above its rank and the calls completed before their bucket is loaded; with the 99th all three are found, in order |
| `PercentileReaders.SureToFindExactly` | src/monitor/runtime_stats.cc:46-86 | once the count is loaded, a percentile is found however the run goes on, if and only if the calls in flight are no more than the samples above its rank |
| `PercentileReaders.ReportIsSeen` | src/monitor/runtime_stats.cc:63-85 | what the method reports for the values loaded is what the interleaved reader has seen; the 99th percentile is 0 exactly when it is not found |
| `PercentileReaders.QuantileBracket` | src/monitor/runtime_stats.cc:63-84 | in every run a reported quantile of rank 1 or more lies between the samples of its rank among the calls completed at the load of the count and among those completed at the end; one of rank 0 is the middle of the first bucket |
| `PercentileReaders.NotFoundWhileInFlight` | src/monitor/runtime_stats.cc:46-86 | there is a run with nothing in flight before the reading in which the 99th percentile is reported as 0 |
| `PercentileReaders.FoundAllTheSame` | src/monitor/runtime_stats.cc:46-86 | there is a run with too many calls in flight at the load of the count in which all are found |
| `Percentiles.QuantileBucket` | src/monitor/runtime_stats.cc:63-84 | the bucket found is that of the sample of this rank in sorted order, and the first one for rank 0 |
| `PercentileReaders.QuantileError` | src/monitor/runtime_stats.cc:46-86 | with no call in flight at the load of the count and none completed during the scan: a quantile of rank 1 or more is within half a bucket of its sample if and only if that is in 0 to 30 ms; one of rank 0 is 0.05 ms |
| `Percentiles.RankPositiveExactly` | src/monitor/runtime_stats.cc:58-60 | the ranks are at least 1 if and only if there are two calls or more |
| `Percentiles.SingleCallIsFirstBucket` | src/monitor/runtime_stats.cc:58-84 | after a single call all three quantiles are reported as 0.05 ms, for every histogram |
| `PercentileReaders.SingleCallReads` | src/monitor/runtime_stats.cc:46-86 | the same over every interleaving, however long the call takes |
| `RouteTables.NoUpdateIsLost` | src/registry/route_manager.cc:17-32 | in every interleaving the current table holds, for every path, what was last published for it |
| `RouteTables.ReadsAreLinear` | src/registry/route_manager.cc:6-15 | every read is a lookup in one published version, although updates may come between load and lookup; a read that begins after another is finished, or of the same reader, never sees an earlier version |
| `RouteTables.StepKeepsThread` | src/registry/route_manager.cc:25-31 | every step keeps: the critical section is held by one thread, and its copy is of the current version |
| `RouteTables.CacheThrough` | src/rpc/channel.cc:279-327 | the host chosen is in the list of a version no older than the query's first read, or absence is reported for a stated reason |
| `LoadBalancers.RoundRobinLoadBalancer.Select` | src/registry/load_balancer.cc:3-10 | the node of the next ticket, and the counter advanced with wrap-around |
| `LoadBalancers.SelectAll` | src/registry/load_balancer.cc:3-10 | a sequence of calls of Select returns the nodes of the draws that the fairness laws speak of |
| `LoadBalancers.FairWithoutWrap` | src/registry/load_balancer.cc:3-10 | over any m selections by any threads each index is drawn m/n times, rounded down or up |
| `LoadBalancers.FairAcrossWrap` | src/registry/load_balancer.cc:3-10 | across one wrap of the counter two indexes differ by at most 2 |

## Left out

- Protobuf itself: header and body formats are parameters; running out of memory for a header length near 4 GB is not modelled.
- ProtocolMessage: its fields are kept in one record that the codecs replace, not as nineteen separate variables.
- `recv` buffers and `frame_buf` in the client are values, not caller memory.
- Partial sends of the client: `send` either fails or takes the whole frame, as src/rpc/channel.cc:151 assumes.
- EndToEnd.FifoPairing: requests whose frame is under 4 GB, because beyond that the length field wraps; Legacy channels only, because an XRpc response is never accepted on a little-endian host; business methods as functions of the request body.
- Overwriting the codec frees the object that another thread may be using: the model replaces one codec by another in a single step.
- Other connections act in the end-to-end system only by testing and setting the codec.
- Handlers that answer later than in the call: `done` is taken to run inside CallMethod of the service.
- Reading the request in the reactor tool's ProcessOneRequest: it drops bytes already read when the socket runs dry; only its outcome and its write loop are modelled.
- Descriptors still queued when a worker exits: they stay owned, the code does not close them.
- The mutex around QueryServiceHost: the model allows more interleavings without it. A null ZooKeeper client is not modelled.
- Splitting the chosen host into address and port, and connecting: the address found and the outcome are inputs of CallMethod.
- How fresh a published node list is: it is fetched before the lock is taken.
- Memory orders weaker than one atomic action at a time.
- The overflow of the reactor's `int` round-robin counter, and durations too large for the integer casts.
- Floating-point rounding of percentile ranks and averages.
- RandomLoadBalancer, configuration, application, controller, logging, reports, benchmarks and examples.
