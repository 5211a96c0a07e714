# Verified model of the entrouter-line relay

entrouter-line relays packets between nodes: every node keeps a matrix of smoothed round-trip times, runs
Dijkstra over it for each payload it forwards, and protects each tunnel with blocks of erasure-coded shards.
This project models that core in Dafny and proves what it achieves, from one field multiplication up to whole
runs of the mesh. `dafny verify dfyconfig.toml` checks all of it.

## Main results

- **Routing.** Every search of the heap loop, with lazy deletion, early exit and saturation, whatever the order of
  edges and of ties, returns a path exactly when one of finite cost exists, and then a cheapest one without
  repeated nodes; ranked alternatives are each cheapest through their own first hop, and the best of them costs
  what the next hop costs (`Search`, `Router`).
- **Hop by hop.** When relays route by the same weights, what a payload has cost plus what remains is its source's
  distance. What searches may answer, over all orders of edges and of ties, is exactly the cheapest routes without
  repeats that reach each node from the first of its best predecessors to be expanded (`Answers`). So their answers
  can bring a payload back to a relay, and go on for ever, exactly when the weights have an answer ring, a closed walk
  of weight 0 off the destination at each node of which a search may answer the next; positive weights have none, some
  matrix has one, and cheapest routes that leave such a walk at two nodes are needed for it but not enough
  (`Delivery`, `FreeRings`, `Ties`).
- **Erasure code.** The laws the codec asks of its library hold of Reed-Solomon over the field of 256 elements,
  built here from bit-vectors: the field laws, interpolation over any field, and then recovery from any n of the
  n + k shards (`GaloisField`, `Interpolation`, `ReedSolomon`).
- **Links.** Over every run of a channel that loses, repeats and reorders shards, with expiry, the receiver
  yields only whole emitted batches; the n-th distinct shard of a block yields its batch unless the flush timer
  finds the block 500 ms old before; n arrivals pay for one yield; at most one yield without repeated shards exactly
  when there is less parity than data (`FecBlocks`, `FecRuns`). 16-bit ids do what unbounded ones do in every run
  exactly when at most 65536 blocks are numbered or a block is a single data shard, and in every run that lets an id
  rest until the timer has cleared it (`FecWraps`).
- **Mesh.** In every run whose links let ids rest like that, whatever the routers answer and however their matrices
  differ and change, everything any node ever delivers is a message injected for that node, byte for byte; if all
  route by the same matrix it came at the least cost (`Mesh`). Over Reed-Solomon links it holds of all runs exactly
  when blocks are one data shard each: with more, some run whose ids come round too soon delivers a message that
  nobody injected (`Corruption`). From every reachable state, for every choice of the routers' answers, a message can
  be injected and delivered wherever those answers lead it, exactly when its data and the destination's name have at
  most 1386 bytes together (`Sizes`, `Progress`); and they lead to every reachable node over one matrix without an
  answer ring, and to every answered peer over a prober's own matrix. The `Forwarder` class injects, routes, receives
  and goes through its flush timer's turns by steps of that mesh (`NodeSteps`).
- **Measurement.** The EWMA's hull, its distance from the exact mean, its dead band and its rate of convergence from
  both sides; which probes are pending, and the matrix of a prober, as functions of the pings and pongs alone; the
  loss tracker against its history, and when the sequence-gap loop's records are right, whatever packets fail
  (`Ewma`, `Probing`, `LossTracking`).
- **Edge and bytes.** A read of the TCP edge is injected whole, in order and as one flow, unless a chunk is refused
  (`TcpEdge`). Every header and shard is fixed byte by byte, a receiver's answer to any bytes at all, and the names
  that decode (`Layouts`, `Utf8`).

Instants and durations are whole nanoseconds passed as parameters. Everything the program takes from a clock, a
socket or the iteration order of a map is a parameter or a nondeterministic choice. `hide` statements in proofs
only keep definitions out of sight of the solver.

## Where the code and its documentation differ

The model follows the code.

- `README.md:33` promises multi-hop routes. The only writer of a node's matrix is its own prober, so the matrix is
  a star around the node, and the router's answer is always the direct edge (`Probing.ProbedRoutesAreDirect`).
  What is proved of payloads in the mesh holds with such matrices too; the results about costs and returns say what
  routing would do if nodes exchanged measurements.
- `src/edge/tcp_split.rs:30-33` says a 1400-byte chunk stays under the limit, counting 5 bytes of wire header.
  The header has 11 bytes, and any read of more than 1386 bytes less the destination's name loses a whole block
  (`Wire.ReadSurvives`, `Wire.BlockFits`), and no message that large is delivered
  (`Progress.DeliverableExactly`). The QUIC edge does not cut its reads at all (`src/edge/quic_acceptor.rs:98-102`),
  so the same bound applies to them uncut.
- `README.md:32` describes redundancy that follows measured loss. The loss tracker is only fed by
  `receive_loop`, which nothing in the repository calls; the forwarder's configuration is fixed. Where it is fed,
  one reordered packet is recorded as nearly 2^64 losses (`LossTracking.OneLatePacketFloodsWindow`).
- `src/mesh/latency_matrix.rs:17` likens the smoothing to TCP's (section 2 of RFC 6298). The smoothing constant
  is the same; the deviation uses that constant too and starts at zero, unlike the RFC's.
- `next_hop` adds up untruncated times but chooses by truncated microseconds, so it may be up to 999 ns a hop
  from the best (`Router.SubMicrosecondRegret`), and for every number of hops it is on some matrix
  (`Ties.RegretIsMet`).

## Model

| member | source | states |
|---|---|---|
| Search.TurnKeeps | src/mesh/router.rs:120-141 | one turn of the loop, with any of the cheapest entries and any order of edges, keeps the invariant: walks, heap and finality of settled nodes |
| Search.SearchedIsFound | src/mesh/router.rs:107-141 | every search of the step relation ends with the least cost to the target, and a walk without repeats of exactly that cost if it is finite |
| Search.Run | src/mesh/router.rs:107-141 | terminates and is such a search; the target's final distance is a lower bound of every walk's saturated cost, and if it is finite some walk costs exactly that, which `prev` spells out, whatever the node list and the order of heap ties |
| Search.FrontierBound | src/mesh/router.rs:120-141 | no walk costs less than the frontier unless it ends inside the settled nodes |
| Search.PoppedIsOptimal | src/mesh/router.rs:120-126 | the entry popped first for an unexpanded node carries the least cost of any walk to it, so stale entries and the early exit are harmless |
| Search.RelaxKeeps | src/mesh/router.rs:131-139 | an improving edge never touches a settled node, zero weights included, and keeps tree, heap and closure |
| Search.Backtrack | src/mesh/router.rs:143-156 | the unguarded walk over `prev` terminates and gives the reached walk backwards, or nothing exactly for an unreached target |
| Router.AnswerIsBest | src/mesh/router.rs:103-157 | whatever path some search may end with is a cheapest one, below 2^64 - 1, without repeats |
| Answers.AnswersExactly | src/mesh/router.rs:103-157 | a path is what some search over the matrix may end with exactly when it is a cheapest one of finite cost without repeats, and no node of it is reached as cheaply from a predecessor that is nearer to the start, or as near and further up the path |
| Router.MeshRouter.Dijkstra | src/mesh/router.rs:103-157 | a path exactly when some walk costs less than 2^64 - 1, and then a cheapest one without repeats, as some search ends with |
| Router.MeshRouter.NextHop | src/mesh/router.rs:63-77 | a route exactly for another node reachable at finite cost; it is a best route with its second node as next hop and its untruncated time |
| Router.MeshRouter.PathCost | src/mesh/router.rs:228-236 | the sum of the untruncated times of the path's edges |
| Router.MeshRouter.DijkstraVia | src/mesh/router.rs:160-226 | an entry exactly when the first edge exists and some walk through it is finite (or it ends there); the entry is cheapest among all walks through that edge |
| Router.SortByRtt | src/mesh/router.rs:97 | a sorted permutation that keeps next hops distinct |
| Router.MeshRouter.TopPaths | src/mesh/router.rs:80-100 | a ranking: distinct next hops, ascending, each best through its hop, at most n, and nothing omitted is cheaper than what is kept |
| Router.BestAlternativeAgreesWithNextHop | src/mesh/router.rs:80-100 | the first ranked entry costs exactly what the next-hop route costs |
| Router.SubMicrosecondRegret | src/mesh/router.rs:131 | the chosen route's true time is within 999 ns a hop of every other route's, and of its own truncated cost |
| Ties.RegretIsMet | src/mesh/router.rs:131 | for every n of 1 or more (below 2^63) a matrix over which a search answers a route of n hops that is exactly 999 ns a hop slower than another route |
| Matrix.LatencyMatrix.Update | src/mesh/latency_matrix.rs:52-77 | exactly one entry changes: time and jitter move an eighth of the way, to the sample and to its distance from the old time, cut to whole microseconds; a first sample is stored as it is |
| Matrix.WeightIsLowBits | src/mesh/router.rs:131 | a weight is below 2^64 and differs from the whole microseconds by a multiple of 2^64 |
| Matrix.LatencyMatrix.AllEdges | src/mesh/latency_matrix.rs:92-100 | every entry once, in some order |
| Matrix.LatencyMatrix.Nodes | src/mesh/latency_matrix.rs:103-111 | exactly the ends of the tracked paths |
| Ewma.StaysInHull | src/mesh/latency_matrix.rs:52-77 | after any history the smoothed time lies between the least and greatest sample, and jitter never exceeds their difference |
| Ewma.TracksMean | src/mesh/latency_matrix.rs:52-77 | after any history the stored time is at most 7 us below the exact weighted mean with constant 0.125, and never above it |
| Ewma.DeadBand | src/mesh/latency_matrix.rs:57-66 | a repeated sample leaves the value unchanged exactly if the value is 0 to 7 us below it |
| Ewma.DecaysFromAbove | src/mesh/latency_matrix.rs:57-66 | from above, n steps shrink the excess by the factor (7/8)^n, give or take 7 us for rounding down, never below the sample, and it reaches 0 |
| Ewma.ClimbsFromBelow | src/mesh/latency_matrix.rs:57-66 | from below, n steps leave at least (7/8)^n of the shortfall, and at most that of what is beyond 7 us, and the value stops exactly 7 us short |
| Ewma.SteadyIsTracked | src/mesh/latency_matrix.rs:52-77 | the repeated step is what the stored entry goes through |
| Delivery.NextHopMayHop | src/mesh/router.rs:63-77 | every answer of the router is the second node of a cheapest route without repeats |
| Delivery.TrailConserves | src/relay/forwarder.rs:144-192 | the cost of a trail of next hops plus the remaining distance is the source's distance |
| Delivery.RevisitIsFree | src/relay/forwarder.rs:144-192 | a trail that returns to a node did so along edges of total weight 0 |
| Delivery.HopByHopDelivery | src/relay/forwarder.rs:144-192 | with positive weights a trail repeats no node, is no longer than the distance allows, and on arrival has cost exactly the distance |
| Delivery.TrailGoesOn | src/relay/forwarder.rs:144-192 | until it arrives a trail can go on, by any answer of the router, and there is one |
| Delivery.ArrivedTrail | src/relay/forwarder.rs:144-192 | a trail that has arrived cost exactly the least cost from its source, weights of 0 included |
| FreeRings.ReturnsExactly | src/relay/forwarder.rs:144-192 | the answers of searches over one matrix may bring a payload back to a relay exactly when its weights have an answer ring: a closed walk of weight 0, off the destination, at each node of which an answer goes by the next one |
| FreeRings.EndlessExactly | src/relay/forwarder.rs:144-192 | searches may pass a payload on for any number of hops without its arriving exactly when there is an answer ring |
| FreeRings.TrailIsShort | src/relay/forwarder.rs:144-192 | without an answer ring no trail of answers repeats a node or is longer than there are nodes |
| FreeRings.AnswerRingIsFree | src/relay/forwarder.rs:144-192 | cheapest routes without repeats leave an answer ring for good at two of its nodes |
| FreeRings.PositiveHasNoRing | src/relay/forwarder.rs:144-192 | positive weights have no answer ring, and no free ring |
| Ties.ZeroWeightsMayLoop | src/mesh/router.rs:120-141 | a matrix with a free pair of relays, and for each of the two a search over it that answers the other, so that a payload comes back |
| Ties.FreeRingMayNotTurn | src/mesh/router.rs:120-141 | a free ring is not enough: weights that have one and no answer ring, since the search strictly prefers the predecessor expanded first |
| Delivery.SampledWeightsArePositive | src/mesh/latency_matrix.rs:52-77 | samples of at least 1 us make every weight positive |
| Probing.Prober.CreatePing | src/mesh/probe.rs:72-82 | the new pending table, with probes of 10 s and more gone, the wrapped id, and the id's bytes |
| Probing.Prober.HandlePong | src/mesh/probe.rs:52-69 | a pending probe is consumed and recorded in both directions; anything else changes nothing |
| Probing.PendingExactly | src/mesh/probe.rs:52-82 | in every unwrapped run a probe is pending exactly if it was sent, no pong since was for it, and no ping since came 10 s later or more; and it is held with its peer and the instant it was sent |
| Probing.EchoNamesProbe | src/mesh/probe.rs:56-84 | the echo of a probe's payload is a pong for that probe |
| Probing.AnsweredOnce | src/mesh/probe.rs:58-70 | no probe is answered twice |
| Probing.ProbeRun | src/mesh/probe.rs:52-82 | in every unwrapped run the matrix is a symmetric star, and each peer's entry is what the intervals between its probes and the pongs that answered them, read off the events, make of it in their order |
| Probing.MeasuredTime | src/mesh/probe.rs:52-82 | each stored time lies between the least and the greatest such interval, in whole microseconds, jitter within their difference, with one sample for each |
| Probing.StarRoute | src/mesh/router.rs:63-77 | over a star the best route is the direct edge |
| Probing.ProbedRoutesAreDirect | src/mesh/probe.rs:52-82 | a prober's own matrix has an entry for a node exactly when some pong answered a probe of it, and routes to it directly |
| GaloisField.NoShortPeriod | src/relay/fec.rs:67-78 | no power of x from the 1st to the 254th is 1, so its 255 powers are distinct |
| GaloisField.Gf256IsAField | src/relay/fec.rs:67-78 | bytes under exclusive or and the polynomial product are a field |
| Interpolation.InterpolateUnique | src/relay/fec.rs:15-20 | over any field, interpolating n points of a polynomial with n coefficients gives that polynomial back |
| ReedSolomon.RebuildIsLawful | src/relay/fec.rs:83-98 | any n shards of a codeword give all n + k; fewer give an error |
| ReedSolomon.MixtureRebuilds | src/relay/fec.rs:83-98 | shard 0 of one block and shards 2 to n of another give a shard 1 that differs from the second block's exactly in the bytes where the two shards 0 differ |
| ReedSolomon.ReedSolomonIsLawful | src/relay/fec.rs:67-99 | the code meets every law the codec assumes |
| FecCodec.ShardHeaderRoundTrip | src/relay/fec_codec.rs:46-77 | a shard header is decoded as it was encoded, with the shard behind it |
| FecCodec.FecSender.Submit | src/relay/fec_codec.rs:102-111 | buffers, or emits exactly the frames of the full batch under the next id |
| FecCodec.FecSender.FlushPartial | src/relay/fec_codec.rs:114-119 | emits exactly the frames of a nonempty partial batch |
| FecCodec.FecSender.Flush | src/relay/fec_codec.rs:126-193 | length prefixes, padding, parity and headers of every frame; the buffer is empty and the id advances modulo 65536 |
| FecCodec.PaddedShards | src/relay/fec_codec.rs:130-156 | the n data shards: prefixed payloads padded to the longest, then zeros |
| FecCodec.PendingBlock.Insert | src/relay/fec_codec.rs:220-231 | one slot filled and counted once; repeated or out-of-range shards change nothing |
| FecCodec.PendingBlock.Reconstruct | src/relay/fec_codec.rs:234-267 | the unpacked payloads, nothing, or the panic on refused shard counts |
| FecCodec.FecReceiver.ReceiveShard | src/relay/fec_codec.rs:283-301 | the new map of blocks and the outcome, for every byte string, malformed ones included |
| FecCodec.FecReceiver.ExpireOld | src/relay/fec_codec.rs:304-317 | exactly the blocks begun less than the limit in milliseconds ago stay, counted in nanoseconds |
| FecBlocks.UnpackDataShards | src/relay/fec_codec.rs:246-263 | padding bytes and padding shards never leak |
| FecBlocks.KeptAllExact | src/relay/fec_codec.rs:126-156 | a batch comes back byte for byte exactly when every payload has 1 to 65535 bytes |
| FecBlocks.BlockRoundTrip | src/relay/fec_codec.rs:234-267 | any n or more shards of a block reconstruct its batch; fewer reconstruct nothing |
| FecBlocks.FrameIsAccepted | src/relay/fec_codec.rs:164-190 | an emitted frame is taken as its shard of its block, header casts included, for all counts up to 256 |
| FecSending.SenderConserves | src/relay/fec_codec.rs:102-193 | emitted batches followed by the buffer are the submitted sequence; ids count up modulo 65536 |
| FecRuns.DeliverEffect | src/relay/fec_codec.rs:283-301 | the exact effect of one arrival on held shards and outputs |
| FecRuns.RunSound | src/relay/fec_codec.rs:283-317 | in every run each yield is exactly one emitted batch, in order and unmixed |
| FecRuns.NthDistinctShardYields | src/relay/fec_codec.rs:283-317 | unless the flush timer fires 500,000,000 ns or more after a shard of the block arrived, the n-th distinct shard yields the batch and nothing does before |
| FecRuns.EmissionBound | src/relay/fec_codec.rs:289-298 | n times the yields of a block, plus the shards held, is at most its arrivals |
| FecRuns.AtMostOnceExactly | src/relay/fec_codec.rs:289-298 | without repeated shards no block is yielded twice, exactly when there is less parity than data |
| FecWraps.WrappingRefines | src/relay/fec_codec.rs:289-298 | 16-bit ids give the outputs of unbounded ids as long as no held block meets a shard of another with its id |
| FecWraps.CleanGapsSuffice | src/relay/fec_codec.rs:289-317 | it is enough that between shards of different blocks with one id the timer fires 500 ms or more after the first |
| FecWraps.TimerLeavesExactly | src/relay/forwarder.rs:263-267 | a firing of the timer leaves a receiver exactly the half-filled blocks begun less than 500,000,000 ns ago, as they are |
| FecWraps.SoundBeforeWrap | src/relay/fec_codec.rs:128 | for up to 65536 blocks, or single-shard blocks, no condition on the run is needed |
| FecWraps.WrapExactly | src/relay/fec_codec.rs:289-298 | in every run the outputs of 16-bit ids are those of unbounded ones exactly when at most 65536 blocks are numbered or a block is one data shard, whatever the payloads |
| FecWraps.LeftoverMixesBlocks | src/relay/fec_codec.rs:289-298 | a shard left over from 65536 blocks ago, with shards of the same length, makes the receiver yield one payload of the old block and the rest of the new |
| LossTracking.TiersAreMonotone | src/relay/fec.rs:31-54 | redundancy never falls as loss rises, and every tier is accepted with less parity than data |
| LossTracking.TiersMatchLoss | src/relay/fec.rs:31-54 | each tier has the overhead its band is documented with, 10 to 40 times the loss between 0.5 and 5 percent, and covers the expected losses of a block exactly up to 40 percent |
| LossTracking.LossTracker.Record | src/relay/fec.rs:117-127 | the ring holds the last records of the longer history and the counter their losses |
| LossTracking.LossTracker.CountIsLosses | src/relay/fec.rs:117-131 | the counter is the number of losses among the last records, so never above the window |
| LossTracking.RecordKeeps | src/relay/fec.rs:117-127 | overwriting the oldest slot advances the window by one record and the count exactly |
| LossTracking.LossTracker.OnPacket | src/relay/tunnel.rs:139-170 | the records one packet causes; the gap loop terminates |
| LossTracking.LossTracker.ReceiveLoop | src/relay/tunnel.rs:120-171 | the records of a whole run of packets, truncated and undecryptable ones among them |
| LossTracking.LossTracker.RecommendedConfig | src/relay/fec.rs:129-136 | the tier of the losses among the last records |
| LossTracking.LoopIsExactly | src/relay/tunnel.rs:139-170 | the records of any packets are the received/missing indicator exactly when numbers strictly increase and no packet is truncated or undecryptable; each failure and each missing number is one loss |
| LossTracking.ExactIffInOrder | src/relay/tunnel.rs:145-151 | the records are the received/missing indicator exactly when sequence numbers strictly increase |
| LossTracking.OneLatePacketFloodsWindow | src/relay/tunnel.rs:145-151 | one late packet fills all but the last slot of the window with losses, and the heaviest tier is recommended |
| RelayHeader.DecodeOfEncode | src/relay/forwarder.rs:285-309 | a header round-trips exactly when the name has at most 255 bytes |
| RelayHeader.EncodeOfDecode | src/relay/forwarder.rs:285-309 | whatever decodes is re-encoded to the same bytes |
| Utf8.ValidExactly | src/relay/forwarder.rs:306 | a name is accepted exactly if it is the UTF-8 encoding of scalar values (section 3 of RFC 3629) |
| Layouts.RelayLayout | src/relay/forwarder.rs:285-294 | the bytes of a relay payload: flow id, least byte first, length of the name, name, data |
| Layouts.SealedLayout | src/relay/wire.rs:44-48 | the bytes of a frame: type, sequence number and length of the ciphertext, least byte first, ciphertext |
| Layouts.ShardFrameLayout | src/relay/fec_codec.rs:159-193 | the bytes of a shard's header: block id, index, both counts, the payload's length for data and 0 for parity, under packet type 1 or 2 |
| Layouts.DataShardLayout | src/relay/fec_codec.rs:130-156 | the bytes of a data shard: length and payload, if it has one, then zeros |
| Layouts.IntakeExactly | src/relay/fec_codec.rs:220-301 | what a receiver makes of any byte string: fewer than 7 bytes do nothing, others concern one block, whose counts its first shard fixed; and it panics exactly on completing a block whose counts the library refuses |
| Layouts.RecoveredExactly | src/relay/fec_codec.rs:246-263 | a payload comes out of recovered shards exactly if it is what some data shard says, its length being neither 0 nor more than what follows |
| Layouts.HeldBlocksAreFilling | src/relay/fec_codec.rs:283-317 | in every run on whatever bytes a receiver holds no block that has the shards it needs, and counts them right |
| Wire.HeaderRoundTrip | src/relay/wire.rs:44-58 | a frame header is decoded as it was encoded, the length modulo 65536 |
| Wire.Tunnel.Send | src/relay/tunnel.rs:57-72 | the sealed frame under the next sequence number |
| Wire.FrameFits | src/relay/tunnel.rs:194-241 | a packet goes through intact exactly when its payload has at most 1400 bytes, whatever follows it in the datagram |
| Wire.BlockFits | src/relay/fec_codec.rs:145-151 | a block's frames go through all or none, exactly when every payload has at most 1391 bytes |
| Wire.ChunksJoin | src/edge/tcp_split.rs:126 | the chunks of a read, put together, are the read; none is empty and all but the last have exactly 1400 bytes |
| Wire.ReadSurvives | src/edge/tcp_split.rs:120-137 | a read's chunks all fit exactly when it and the name have at most 1386 bytes together |
| TcpEdge.SendRead | src/edge/tcp_split.rs:126-131 | sends the chunks in order until one is refused, and leaves the forwarder as that many messages do |
| TcpEdge.SendingIsMeshRun | src/edge/tcp_split.rs:126-131 | sending chunks is as many inject steps of the mesh |
| TcpEdge.ReadIsInjected | src/edge/tcp_split.rs:126-131 | the messages a read injects are of one flow and destination, and their data in order is the read, or a prefix of it when a chunk was refused |
| TcpEdge.ReadDeliverableExactly | src/edge/tcp_split.rs:120-137 | after any run, where the answers lead, every message of a read can be delivered exactly when read and name have at most 1386 bytes together |
| Wire.SplitForFec | src/relay/tunnel.rs:76-93 | n equal shards, of the least length that holds the data, that are the data followed by zeros |
| PeerTables.SenderTable.Submit | src/relay/forwarder.rs:195-197 | one peer's sender takes the payload; no other changes |
| PeerTables.ReceiverTable.ReceiveShard | src/relay/forwarder.rs:121-123 | one peer's receiver takes the shard; no other changes |
| Forwarding.Forwarder.AddTunnel | src/relay/forwarder.rs:95-103 | the tunnel is added, and FEC state only for a new peer |
| Forwarding.Forwarder.ForwardTo | src/relay/forwarder.rs:179-215 | which error or hop, and the payload unchanged into the hop's sender or tunnel |
| Forwarding.WithoutFecOrTunnel | src/relay/forwarder.rs:205-211 | a payload for a peer without FEC state goes out as one data packet, and a flush without a tunnel empties the sender and sends nothing |
| Forwarding.Forwarder.RouteData | src/relay/forwarder.rs:144-164 | delivers here, forwards, or drops a payload without a header |
| Forwarding.Forwarder.HandleShard | src/relay/forwarder.rs:119-133 | reassembles, then routes every payload of a completed block in order |
| Forwarding.Forwarder.HandleInbound | src/relay/forwarder.rs:106-141 | every arm: pong, probe answer, shard, or nothing |
| Forwarding.Forwarder.FlushFec | src/relay/forwarder.rs:247-268 | every sender flushed once, every receiver expired at 500 ms |
| NodeSteps.HandOverIsForward | src/relay/forwarder.rs:194-212 | what goes to the tunnel is the frames of the block the link gained, in order, with their types, under its number modulo 65536 |
| NodeSteps.InjectionIsMeshStep | src/relay/forwarder.rs:168-215 | `send_to_node` is one inject step of the mesh |
| NodeSteps.RoutingIsMeshStep | src/relay/forwarder.rs:144-215 | one routed payload of the class is one route step of the mesh, by the node's own present matrix |
| NodeSteps.FlushIsMeshStep | src/relay/forwarder.rs:249-262 | one sender's turn of the flush timer is one flush step |
| NodeSteps.FlushingIsMeshRun | src/relay/forwarder.rs:249-262 | flushing all senders, in any order, is as many flush steps |
| NodeSteps.TimerIsMeshRun | src/relay/forwarder.rs:247-268 | the whole turn of the flush timer, every sender and then every receiver at one reading of the clock, is a run of the mesh that delivers nothing and leaves the senders and receivers that the class's method does |
| NodeSteps.TimePasses | src/relay/forwarder.rs:304-317 | time that passes at a node is a run of ticks on its links, after which the node's clock and theirs agree again |
| NodeSteps.ReceiptIsMeshStep | src/relay/forwarder.rs:119-123 | a shard's frame leaves receiver and arrivals as the delivery step of its link does |
| NodeSteps.HandlingIsMeshRun | src/relay/forwarder.rs:119-133 | handling a shard is that step and then one route step for each payload, in order, with the same deliveries |
| Mesh.NextHop | src/relay/forwarder.rs:159-163 | a forwarded payload keeps its bytes and extends its trail, whatever hop is chosen |
| Mesh.ApplyKeeps | src/relay/forwarder.rs:106-268 | every step of every node, whatever its router answers, keeps all payloads on course and all links sound |
| Mesh.MeshDeliversWhatWasSent | src/relay/forwarder.rs:106-268 | end-to-end safety over every clean run, that is every run in which the timer clears a block id on each link before it comes up again: a delivery is an injected message for that node, byte for byte, at the end of a trail of tunnels the routers chose |
| Corruption.OnlyInjectedExactly | src/relay/fec_codec.rs:126-301 | over Reed-Solomon links, every delivery of every run of every mesh is of an injected message exactly when blocks are one data shard each: otherwise a leftover shard and the shards of a later block under its id rebuild a payload with its header in order and its data changed |
| Mesh.RunBeforeWrapIsClean | src/relay/fec_codec.rs:126-128 | runs in which no link has numbered more than 65536 blocks are clean |
| Mesh.DeliveredAtLeastCost | src/relay/forwarder.rs:106-268 | when all routers answer as searches over one matrix may, it came at the least cost, and without repeats unless there is an answer ring |
| Sizes.RunKeepsSizes | src/relay/fec_codec.rs:234-267 | in every run, clean or not, no arrival or delivery is larger than can be carried, 1391 bytes a payload or 1386 of name and data, since reconstruction lengthens nothing |
| Progress.PayloadGetsThrough | src/relay/fec_codec.rs:102-301 | a payload of 1 to 1391 bytes handed to an empty sender can be brought across its link alone, whatever the receiver holds |
| Progress.InjectionCanBeDelivered | src/relay/forwarder.rs:166-215 | from any state with well-formed links a small enough message can be injected and delivered anew, by the given answers alone, wherever they lead it |
| Progress.DeliverableExactly | src/relay/tunnel.rs:194-215 | after any run, where the answers lead it, a message can be delivered exactly when data and name have at most 1386 bytes together |
| Progress.SameWeightsLead | src/relay/forwarder.rs:144-192 | over one matrix without an answer ring, every choice among what searches answer leads to every reachable node |
| Progress.ProbedPeersLead | src/mesh/probe.rs:52-82 | over a prober's own matrix the answer leads to the peer at once |

## Left out

- Sockets, tasks, channels and their back-pressure, TLS and QUIC: the channel between nodes is modelled as losing,
  repeating and reordering, the local delivery channel as never closing.
- Interleavings inside one route query: each query sees one snapshot of the matrix.
- `src/admin.rs`, `src/config.rs`, `src/main.rs`, benches and deployment scripts.
- Key handling and the cipher: taken as an interface with the laws in `Wire.SealLaw`; `Wire.SealingExists` shows
  only that the laws are consistent.
- The erasure-code library's own tables and matrix: the code here is the evaluation form of Reed-Solomon over the
  same field size, which meets the same laws; the library's source is not part of this model.
- Flow-id allocation, dispatch of deliveries to client connections, and TCP stream order, which the relay does not
  restore.
- Order of arrival between blocks: no order is promised, and none is claimed.
- Ewma.StaysInHull: the smoothing is exact integer arithmetic, which is what the `f64` computation gives below
  2^50 us; above that the rounding of `f64` is not modelled.
- Router.MeshRouter.PathCost: durations are unbounded, so the panic of `Duration` addition beyond 2^64 seconds is
  not modelled.
- Search.Run: the source writes the search loop and the backward walk twice, in `dijkstra` and `dijkstra_via`; the
  model has each once, with the start and its cost as parameters.
- FecCodec.PendingBlock.Reconstruct: the panic on shard counts the library refuses is an outcome, and what the
  process does after it is not modelled.
- Mesh.MeshDeliversWhatWasSent: holds of clean runs (`Mesh.Clean`), as all runs are until the block ids wrap;
  `Corruption.OnlyInjectedExactly` says that it does not hold of all runs with two data shards or more.
  Names of more than 255 bytes, which the header cuts (`RelayHeader.DecodeOfEncode`), are not injected.
- Answers.AnswersExactly: a search may list the edges and break ties in any order, as the source leaves both to a
  hash map's iteration and a heap; which order a given run of the program has is not modelled.
- Progress.DeliverableExactly: says that delivery stays possible, not that a lossy channel brings it about.
- Forwarding.Forwarder.FlushFec: packets are listed in the order they are handed to tunnels; the order in which
  spawned tasks send them is left to the channel.
