# tri-net: verified core

A Dafny model of the parts of tri-net that carry its guarantees, with proofs.
`dafny verify dfyconfig.toml` checks everything.

tri-net is a mesh node. Each link has a ratcheting authenticated session with a
sliding replay window. A router forwards packets hop by hop, using a link metric
(ETX), learned path routes and a ranked pair of next hops per destination. Below
it sit a BPSK symbol modem and a 16-bit float (GF16) FFT datapath, and beside it
a few small kernels: HELLO beacons, a CRC, a nibble run-length coder and a
fixed-point moving average.

| file | what it is |
|---|---|
| `Replay`, `Session`, `SecureNet`, `Cadence`, `Secrecy` | the replay window, one session end, any number of session pairs over a hostile transport, when a session rekeys, and forward secrecy of the ratchet |
| `Wire`, `Forward`, `Mesh`, `Delivery` | the header, one node's reaction to a packet or frame, whole runs of a mesh, and what a mesh does deliver |
| `Etx`, `Routing`, `LoopFree` | the link metric, the neighbour table, and loop freedom of learned routes |
| `Failover`, `MeshRouter` | next-hop selection and failover as a relation, and the router object that refines it |
| `Fft`, `Dft` | the in-place transform, and what it computes over a ring |
| `Gf16`, `PhiDot` | the number format and the dot product |
| `Modem`, `Preamble` | the symbol core, and where it takes a frame to start |
| `Hello`, `Crc16`, `Rle`, `Ewma` | the kernels |
| `Widths`, `Words`, `Bytes`, `Reals` | machine integers, bits of words, big-endian bytes, products of reals |

How the parts fit: a class or a method with loops is proved equal to a
specification function on values (`ReplayWindow` to `Fresh` and `Record`,
`Session` to `SealStep` and `OpenStep`, `MeshRouter` to `Forward` and
`Failover`). The theorems about whole runs are about state machines built from
those same functions; `Forward.HandleLocal` says that a router working on its
own sessions computes its node's part of a mesh step.

## What is idealised

- HKDF (section 2.3 of RFC 5869) is a free term algebra. ChaCha20-Poly1305
  (section 2.8 of RFC 8439) is an ideal cipher: a ciphertext opens under exactly
  the key, nonce and associated data it was made with, and none is forged.
- The transport may lose, duplicate, reorder and alter anything else: headers,
  epochs, counters. Routing tables may say anything at any time in `Mesh`, where
  delivered counters are below 2^56; counters that were sealed always are.
- Metrics, samples and GF16 intermediates are exact reals (plus infinity). The
  floating-point exponent estimate of `frexp` is any integer off by at most one.
- The window is the scheme of section 3.4.3 of RFC 4303.
- The FFT is for 2 to 2^32 elements: indices are 32-bit words in the code.

## Findings

- The nonce keeps 7 of the counter's 8 bytes. Sealed counters never get that
  high, but the 8-byte counter on the wire is not otherwise checked. A frame
  that was opened, under any counter, never opens again under a counter below
  2^56 (`OpenedAtMostOnce`); it does under one 2^56 higher
  (`HighCounterReopens`). `ReopensIff` gives the exact condition, after any
  events in between: same end, header, ratchet step and epoch, and a fresh
  counter of at least 2^56 that is congruent modulo 2^56.
- The comment on the feasibility check says that it prevents loops, citing
  section 3.7 of RFC 8966; the condition itself is section 3.5.1. The check
  alone does not: two neighbours of a node that meet, advertise the true cost of
  their links to it and heed each other form one
  (`FeasibilityAloneAllowsLoop`, a run from the empty tables). A run stays free
  of loops if and only if no accepted finite advert comes from a sender that
  already routes through its receiver (`LoopFreeIff`). That holds whenever
  direct neighbours of a destination install no learned route to it
  (`DisciplineSuffices`, `NeverRevisits`).
- `learn_route` is commented as refusing routes to ourselves; it refuses routes
  whose destination is the next hop. A route to the router's own id is learned,
  though never used (`OwnRouteIsLearned`).
- `force_dead` does nothing to a linked peer that was never observed: `next_hop`
  still answers it (`ForceDeadNeedsObservation`), and its first HELLO interval
  leaves it alive whether heard or not (`OneHelloRevives`).
- The fallback of `recompute_ranked_hops` to live direct links is never taken in a
  run from an empty router (`FallbackUnreachable`).
- A peer that does not ratchet along opens the first 2^20 frames and none after
  (`LockStepNeeded`).
- The run-length coder is lossy for words with more than four runs
  (`ExactIffFourRuns`).
- The modem's noise margin of 5/13 per part cannot be raised
  (`NoiseBoundIsSharp`). Of the CRC's 17-bit bursts exactly the generator
  polynomial itself goes unnoticed, at any position of any message
  (`SeventeenBitBurst`).
- `bit_reverse` shifts a 32-bit word by 32 minus the number of index bits, which
  is a shift within the word if and only if there are two elements or more
  (`ShiftFits`). The FFT is modelled from two elements on.

## Model

| member | source | states |
|---|---|---|
| `Fft.RevInvolution` | src/gf16.rs:304-313 | reversing the low bits of an index twice gives the index back |
| `Fft.RevShift` | src/gf16.rs:304-313 | reversing a whole word and shifting it down reverses just the low bits |
| `Fft.ShiftFits` | src/gf16.rs:304-313 | the shift amount is below 32 if and only if there are two elements or more |
| `Fft.ReversedIndex` | src/gf16.rs:304-313 | the reverse-and-shift of the code is the reversal of the index's low bits |
| `Fft.BitReversedAt` | src/gf16.rs:304-313 | the recursive even/odd shuffle puts element rev(k) at place k |
| `Fft.BitReverse` | src/gf16.rs:304-313 | the scatter loop produces exactly that shuffle, in a fresh array |
| `Fft.BlockButterflies` | src/gf16.rs:329-336 | the innermost loop replaces a block by its butterflies, computed from the old contents, and nothing else |
| `Fft.AdvanceStage` | src/gf16.rs:328-338 | a turn of the middle loop leaves the outcome of the stage unchanged |
| `Fft.RunBlocks` | src/gf16.rs:327-338 | the middle loop finishes the stage it started |
| `Fft.RunStage` | src/gf16.rs:326-338 | in place, the array becomes the stage of its old contents |
| `Fft.StagesJoin` | src/gf16.rs:320-342 | on two arrays side by side the stages run separately until the last joins them |
| `Fft.StagesAreRecursion` | src/gf16.rs:320-342 | bit reversal and the stage schedule equal the recursive even/odd FFT, operation for operation |
| `Fft.Transform` | src/gf16.rs:320-342 | the whole loop nest returns the recursive FFT, for any interpretation of the complex operations and twiddles |
| `Dft.PolySplit` | src/gf16.rs:320-342 | P(z) = E(z^2) + z O(z^2) in any commutative ring |
| `Dft.ButterflyEvaluates` | src/gf16.rs:330-336 | a butterfly turns half values at w^2 into whole values at w and -w |
| `Dft.RecFftEvaluates` | src/gf16.rs:320-342 | output k is the input polynomial at the k-th power of the root |
| `Dft.RecFftIsDft` | src/gf16.rs:320-342 | output k is the naive DFT sum |
| `Dft.TransformComputesDft` | src/gf16.rs:320-342 | the loop nest computes the naive DFT sum at every index, over any commutative ring with suitable roots |
| `Replay.FreshByMaximum` | src/crypto.rs:488-517 | freshness is: above the maximum, or within 63 of it and never accepted |
| `Replay.SlideMirror` | src/crypto.rs:495-503 | sliding and setting bit 0 keeps the bitmap a mirror of the accepted set |
| `Replay.MarkMirror` | src/crypto.rs:504-516 | the mask test is membership, and setting the bit keeps the mirror |
| `Replay.ReplayWindow.constructor` | src/crypto.rs:479-487 | a new window has accepted nothing |
| `Replay.ReplayWindow.CheckAndSet` | src/crypto.rs:488-517 | accepts exactly the fresh counters and records exactly those; the bitmap refines the set of accepted counters |
| `Replay.AtMostOnce` | src/crypto.rs:488-517 | over every arrival sequence no counter is accepted twice |
| `Replay.FirstArrivalAccepted` | src/crypto.rs:488-517 | a first arrival is accepted if and only if nothing 64 or more ahead came before it |
| `Replay.ExactlyOnceIffInTime` | src/crypto.rs:488-517 | every counter is accepted exactly once if and only if no first arrival is late |
| `Session.KeyInjective` | src/crypto.rs:321-367 | keys of different sessions or ratchet steps never coincide |
| `Session.NonceInjective` | src/crypto.rs:459-466 | nonces coincide if and only if direction, epoch and counter modulo 2^56 do |
| `Session.NonceParts` | src/crypto.rs:459-466 | the nonce is the direction byte, the epoch and the low seven counter bytes, in that order |
| `Session.PrefixRoundTrip` | src/crypto.rs:402-420 | the epoch and counter that `open` reads are those `seal` wrote |
| `Session.Session.FromShared` | src/crypto.rs:321-338 | a new session is at ratchet step 0, counter 0, with an empty window |
| `Session.Session.Ratchet` | src/crypto.rs:353-367 | the chain and key move to the next step, the epoch wraps at 2^32, counter and window restart |
| `Session.Session.Seal` | src/crypto.rs:376-407 | state and answer are those of the seal specification: refuse at the hard cap, rekey at the interval, else encrypt under the next counter |
| `Session.Session.Open` | src/crypto.rs:415-442 | state and answer are those of the open specification: short, unauthentic and replayed frames change nothing |
| `SecureNet.SealIsNext` | src/crypto.rs:376-407 | in a reachable state `seal` succeeds, with a counter of its key never used before |
| `SecureNet.StepKeepsInv` | src/crypto.rs:353-442 | every seal, ratchet and open, at any end, keeps the session invariant |
| `SecureNet.NonceNeverReused` | src/crypto.rs:321-466 | in every interleaving no (key, nonce) pair encrypts twice, epoch wrap included |
| `SecureNet.KeyBudget` | src/crypto.rs:39-57 | the counter never exceeds 2^20, no key seals more than 2^20 frames, and `RekeyRequired` is unreachable |
| `SecureNet.OpenExact` | src/crypto.rs:415-442 | `open` returns a plaintext if and only if the peer sealed it under this header at the receiver's ratchet step and the counter is fresh |
| `SecureNet.OpenSpends` | src/crypto.rs:415-442 | a successful open uses up a sealed frame, under a counter below 2^56 one that was not used up before |
| `SecureNet.SpentOpens` | src/crypto.rs:415-442 | a used-up frame opens exactly under a matching fresh counter of at least 2^56 |
| `SecureNet.OpenedAtMostOnce` | src/crypto.rs:415-442 | whatever happens in between, at either end, a frame opened under any counter does not open again under one below 2^56 |
| `SecureNet.ReopensIff` | src/crypto.rs:415-442 | after any events since a frame was opened, it opens again if and only if end, header, ratchet step and epoch are the same and the counter is fresh, at least 2^56 and congruent modulo 2^56 |
| `SecureNet.HighCounterReopens` | src/crypto.rs:459-466 | a prefix counter 2^56 higher does open it again |
| `SecureNet.RefusalReasons` | src/crypto.rs:415-442 | a frame is refused as short exactly when it is, as replayed only where an empty window would take it, as unauthentic whatever the window; none changes the session |
| `SecureNet.SecondTimeIsReplay` | src/crypto.rs:435-441 | a frame just opened is refused as a replay, with no effect |
| `SecureNet.RejectedHasNoEffect` | src/crypto.rs:415-442 | deleting all frames that fail authentication from any run changes no other answer and no state |
| `Secrecy.ChainDerivable` | src/crypto.rs:353-367 | from the chain and AEAD keys in hand, a chain key can be computed if and only if its session is captured and it is not from an earlier ratchet step |
| `Secrecy.ForwardSecrecy` | src/crypto.rs:4-10 | so can an AEAD key: no key of an earlier step is derivable, every later one of the captured session is |
| `Cadence.FrameCadence` | src/crypto.rs:376-407 | a session that only seals writes epoch (i / 2^20) mod 2^32 and counter i mod 2^20 on frame i, under the key of ratchet step i / 2^20, and never refuses |
| `Cadence.RefusesAtCap` | src/crypto.rs:376-383 | `seal` refuses exactly from a counter of 2^24 on, and then changes nothing |
| `Cadence.LockStepNeeded` | src/crypto.rs:344-367 | a peer that never ratchets, given every frame once and in order, opens exactly the first 2^20 |
| `Wire.ToBytes` | src/wire.rs:73-80 | the byte-by-byte fill is the field layout |
| `Wire.ParseEncode` | src/wire.rs:82-99 | parsing inverts encoding, with any bytes appended |
| `Wire.EncodeParse` | src/wire.rs:82-99 | what parses starts with the encoding of what it parsed to |
| `Wire.EncodeInjective` | src/wire.rs:73-80 | different headers have different bytes |
| `Wire.ParseAccepts` | src/wire.rs:82-99 | exactly 11 bytes or more with version 1 and kind 0 or 1 parse |
| `Wire.Layout` | gen/rust/wire.rs:36-54 | version, kind, source, destination and hop budget stand at bytes 0, 1, 2, 6 and 10 |
| `Forward.RouteLocal` | src/router.rs:428-442 | sealing toward a next hop depends on and changes only the node's own sessions |
| `Forward.DispatchLocal` | src/router.rs:395-424 | so does acting on an opened frame |
| `Forward.HandleLocal` | src/router.rs:380-424 | a router working on its own sessions computes its node's part of the mesh step |
| `Forward.HelloNamesNeighbour` | src/router.rs:400-406 | a beacon is dropped as spoofed if and only if its source is not the neighbour it came from |
| `Forward.UnopenedReasons` | src/router.rs:380-398 | short frames, unknown links and refused frames are dropped for that reason, with no effect |
| `Mesh.DispatchData` | src/router.rs:395-424 | an opened data frame is delivered at its destination, dropped at hop budget 0, else forwarded with one hop less and the same source, destination and payload |
| `Mesh.UnopenedIsNoOp` | src/router.rs:380-398 | a frame that does not open leaves the whole mesh as it was |
| `Mesh.OpenedIsPending` | src/router.rs:380-398 | a frame that opens was not opened before and carries its packet's payload |
| `Mesh.ReceiveKeeps` | src/router.rs:380-424 | handling a frame keeps the packet invariant |
| `Mesh.StepKeeps` | src/router.rs:353-442 | so does every event of the mesh |
| `Mesh.RunKeeps` | src/router.rs:353-442 | and so does every run |
| `Mesh.CopiesBound` | src/router.rs:411-424 | strictly falling hop budgets bound the number of copies |
| `Mesh.InvHandsUpOnce` | src/router.rs:408-410 | the invariant allows one local delivery per packet, at its destination, of its payload |
| `Mesh.PacketSafety` | src/router.rs:353-442 | in every run, routing loops included, a packet is sealed at most 9 times, always with source, destination and payload unchanged, and delivered at most once, only at its destination |
| `Delivery.SealedOpensIff` | src/crypto.rs:376-442 | what is sealed opens at the other end if and only if that is at the same ratchet step and the counter is fresh there |
| `Delivery.NewLinksInStep` | src/crypto.rs:321-338 | in a new mesh every link is in step |
| `Delivery.SendIpSends` | src/router.rs:353-363 | toward a linked next hop, `send_ip` forwards exactly one frame, under a header with a hop budget of 8, which opens there to the payload if and only if the link is in step |
| `Delivery.SendDirectSends` | src/router.rs:368-377 | `send_direct` does so over the link to the destination |
| `Delivery.NothingSent` | src/router.rs:353-377 | without a next hop or a link to it the packet is dropped with no effect |
| `Delivery.ArrivalReacts` | src/router.rs:380-424 | a frame in flight opens at the next node of the path, which hands it up, drops it or routes it on |
| `Delivery.Onward` | src/router.rs:415-424 | a node short of the destination sends it on, in step, with one hop less |
| `Delivery.TravelsUnique` | src/router.rs:380-424 | delivering each frame once is one definite sequence of events |
| `Delivery.TravelsRuns` | src/router.rs:380-424 | that sequence is a run of the mesh |
| `Delivery.DeliveredIffNineHops` | src/router.rs:353-442 | in every reachable state, along any path of distinct nodes whose tables point down it and whose links are in step, sending and delivering each frame once hands the payload up at the last node, once, if and only if the path has at most 9 hops |
| `Etx.HistorySound` | src/routing.rs:24-50 | over every history of a known link the estimates stay in [0, 1] and the weight in [0.3, 0.6] |
| `Etx.MetByHello` | src/routing.rs:116-133 | a neighbour is known exactly when a HELLO interval was recorded for it; `force_dead` alone does not make it known |
| `Etx.CostRange` | src/routing.rs:71-79 | a finite link cost lies in [1, 400/9] |
| `Etx.CostLaw` | src/routing.rs:71-79 | the cost times both ratios is 1, and it is infinite exactly when a ratio is below 0.15 |
| `Etx.CostFallsWithRatio` | src/routing.rs:71-79 | a better ratio in either direction is a strictly lower cost |
| `Etx.WeightOf` | src/routing.rs:28-35 | the weight and the start of every window |
| `Etx.ClosedForm` | src/routing.rs:37-41 | after any intervals the estimate is the start and each heard interval, discounted by age |
| `Etx.EstimatesOf` | src/routing.rs:116-124 | the forward ratio weighs what they heard, the reverse ratio what we heard |
| `Etx.HistoryCostRange` | src/routing.rs:24-85 | both, for every window and history |
| `Etx.SixMissesKill` | src/routing.rs:37-41 | six misses in a row in one direction make the cost infinite, whatever came before |
| `Etx.HeardInTwoStaysAlive` | src/routing.rs:24-85 | heard in each direction in one of the last two intervals, or after a single interval, the link is alive |
| `Etx.OneHelloRevives` | src/routing.rs:116-133 | on the HELLO after `force_dead` a known link, dead until then, revives if and only if both directions were heard; an unknown neighbour is alive in any case |
| `Routing.EtxTable.constructor` | src/routing.rs:106-112 | an empty table, with a window of at least one |
| `Routing.EtxTable.Record` | src/routing.rs:116-124 | updates both estimates of the neighbour, created on first sight, and nothing else |
| `Routing.EtxTable.ForceDead` | src/routing.rs:129-133 | zeroes an observed neighbour, ignores an unknown one |
| `Routing.EtxTable.LearnRoute` | src/routing.rs:171-185 | is the learning function, true exactly when the route is taken |
| `Routing.EtxTable.BestNextHop` | src/routing.rs:147-153 | a cheapest live neighbour, and none exactly when no neighbour is live |
| `Routing.EntryIsHistory` | src/routing.rs:116-133 | each entry of the table is the link after its own neighbour's history, whatever is recorded of the others |
| `Routing.CheapestIsHeld` | src/routing.rs:158-185 | over any offers, the route held for a destination is the first cheapest one offered by someone else, infinity counting as greatest |
| `Routing.OfferTakenIff` | src/routing.rs:158-185 | an offer is taken if and only if it is the first for its destination or strictly cheaper than all before it |
| `Routing.PathIsSum` | src/routing.rs:202-214 | along nodes that advertise what they computed, a path costs the sum of its links, and is infinite beyond a million |
| `Routing.BrokenPath` | src/routing.rs:202-214 | one dead or unknown link makes the path infinite |
| `LoopFree.PathLonger` | src/routing.rs:202-214 | a learned path costs strictly more than the advert it came from |
| `LoopFree.HeedKeeps` | src/router.rs:210-223 | heeding any old, duplicated or delayed advert keeps every next hop strictly closer |
| `LoopFree.StepKeeps` | src/routing.rs:155-214 | so does every event in which no direct neighbour learns a route |
| `LoopFree.RunKeeps` | src/routing.rs:155-214 | and every run of such events |
| `LoopFree.CostFalls` | src/routing.rs:155-185 | along learned next hops the cost falls strictly |
| `LoopFree.NeverRevisits` | src/routing.rs:155-185 | in every state of such a run, following finite learned next hops never revisits a node |
| `LoopFree.LeadingCloses` | src/routing.rs:171-185 | a route through a node that leads back is a loop |
| `LoopFree.NewLoopLeads` | src/routing.rs:171-185 | a new loop means that the new next hop led to the node before |
| `LoopFree.LoopIffCloses` | src/routing.rs:171-185 | in a world without loops an event creates one if and only if a node takes a finite advert whose sender already routes through it |
| `LoopFree.LoopFreeIff` | src/routing.rs:155-185 | a run stays free of loops if and only if no event does that |
| `LoopFree.DisciplineSuffices` | src/routing.rs:155-185 | runs in which direct neighbours learn no route meet the condition throughout |
| `LoopFree.FeasibilityAloneAllowsLoop` | src/routing.rs:155-166 | a run from empty tables, with adverts of true link costs, after which two nodes route through each other |
| `Failover.NoHopMeansNoLiveNeighbour` | src/router.rs:313-350 | without usable direct link or static route, `next_hop` may be none if and only if no neighbour is live |
| `Failover.ChosenHopIsLive` | src/router.rs:313-350 | apart from those two, only live neighbours are chosen |
| `Failover.ForceDeadAvoids` | src/router.rs:168-199 | after `force_dead` on an observed peer no ranking mentions it |
| `Failover.StepAvoids` | src/router.rs:150-300 | every operation but observing the peer keeps it so |
| `Failover.DeadPeerIsAvoided` | src/router.rs:168-350 | through any later operations no ranking mentions the peer, and `next_hop` answers it only by a static route |
| `Failover.ForceDeadNeedsObservation` | src/router.rs:168-199 | exactly when `next_hop` still answers the peer right after: it is linked but was never observed |
| `Failover.OwnRouteIsLearned` | src/routing.rs:171-185 | a route to the router's own id is learned unless its next hop is the router, and `next_hop` never uses it |
| `Failover.LinkIsUsed` | src/router.rs:317-322 | a neighbour linked and not known to be dead is reached directly |
| `Failover.StaticRouteIsUsed` | src/router.rs:323-325 | a static route is used where there is no usable direct link |
| `Failover.LearnedRouteIsUsed` | src/router.rs:326-333 | a route just learned at finite cost is exactly the one used, however cheap other links are |
| `Failover.RankingIsUsed` | src/router.rs:334-347 | with the learned route dead and a fresh ranking, the next hop is a cheapest live candidate |
| `Failover.FailoverIsCheapest` | src/router.rs:168-199 | when a candidate dies the next hop moves to a cheapest of those still alive |
| `Failover.FirstFailover` | src/router.rs:168-223 | a learned route in use dies: the next hop is a cheapest live candidate |
| `Failover.SecondFailover` | src/router.rs:168-199 | that one dies too: the next hop is a cheapest of the rest, and no cheaper than it |
| `Failover.FailoverApplies` | src/router.rs:168-223 | a router with three heard neighbours and their offers to which the failovers apply |
| `Failover.PrimarySurvives` | src/router.rs:180-192 | a destination that does not depend on the dead peer keeps its primary and loses at most the backup |
| `Failover.LearnedIsRanked` | src/router.rs:247-300 | a learned route enters the ranking unless two offers cost no more |
| `Failover.UpsertAt` | src/router.rs:227-243 | replacing the found candidate, or appending, is the update of the candidate list |
| `Failover.OfferIsLatest` | src/router.rs:227-243 | the ranked list holds the latest cost each hop offered, and only ranked offers change it |
| `Failover.FallbackUnreachable` | src/router.rs:263-274 | in every run from an empty router, a ranking that is recomputed has a candidate or a learned route to go by |
| `MeshRouter.TopTwo` | src/router.rs:281-300 | the first two of the sorted candidates are a cheapest hop and a cheapest of the others |
| `MeshRouter.HopsInSomeOrder` | src/router.rs:281-281 | every hop once, in no promised order |
| `MeshRouter.PostsWhatIsSent` | src/router.rs:428-442 | what is forwarded leaves as exactly one datagram, to the neighbour answered, with the header and the sealed payload; nothing else is posted |
| `MeshRouter.MeshRouter.constructor` | src/router.rs:133-142 | no links, no routes, an empty table |
| `MeshRouter.MeshRouter.AddLink` | src/router.rs:150-152 | installs the session of the peer |
| `MeshRouter.MeshRouter.Observe` | src/router.rs:156-158 | is the observe step of the failover relation |
| `MeshRouter.MeshRouter.AddRoute` | src/router.rs:202-204 | is its static-route step |
| `MeshRouter.MeshRouter.LiveRelays` | src/router.rs:263-274 | the live direct links other than destination and self, with their costs |
| `MeshRouter.MeshRouter.LiveCandidates` | src/router.rs:247-279 | candidates by hop with the learned route, or else the relays, without the dead |
| `MeshRouter.MeshRouter.RecomputeRankedHops` | src/router.rs:247-300 | the destination gets a cheapest and a second cheapest distinct live hop; nothing else changes |
| `MeshRouter.MeshRouter.LearnRoute` | src/router.rs:210-223 | is the learn step; true exactly when the route was accepted |
| `MeshRouter.MeshRouter.LearnRouteForRanked` | src/router.rs:227-243 | is the ranked-learn step |
| `MeshRouter.MeshRouter.HotSwap` | src/router.rs:180-192 | dead primaries give way to backups, dead backups are cleared, and the swapped destinations are returned |
| `MeshRouter.MeshRouter.RecomputeAll` | src/router.rs:194-199 | all given destinations are ranked afresh, the others untouched |
| `MeshRouter.MeshRouter.ForceDead` | src/router.rs:168-199 | is the force-dead step |
| `MeshRouter.MeshRouter.ChooseNextHop` | src/router.rs:313-350 | answers as the next-hop relation allows |
| `MeshRouter.MeshRouter.SealTo` | src/router.rs:428-442 | sessions, outbox and answer are those of the forwarding function |
| `MeshRouter.MeshRouter.RouteTo` | src/router.rs:353-363 | seals toward an allowed next hop, or drops |
| `MeshRouter.MeshRouter.SendIp` | src/router.rs:353-363 | is the forwarding function's `SendIp` for an allowed next hop |
| `MeshRouter.MeshRouter.SendDirect` | src/router.rs:368-377 | is its `SendDirect` |
| `MeshRouter.MeshRouter.DispatchOpened` | src/router.rs:395-424 | is its `Dispatch` |
| `MeshRouter.MeshRouter.HandleFrame` | src/router.rs:380-424 | is its `HandleFrame`; a forwarded frame goes to an allowed next hop |
| `Modem.PushByte` | src/modem.rs:35-40 | appends eight symbols, least significant bit first |
| `Modem.Modulate` | src/modem.rs:44-52 | symbol i is that of the frame: preamble, length, payload |
| `Modem.CorrAt` | src/modem.rs:57-115 | the correlation with the preamble at a position |
| `Modem.DecodeBytes` | src/modem.rs:57-115 | the bytes carried from a position on, or none when the samples run out |
| `Modem.Demodulate` | src/modem.rs:57-115 | the search, the peak climb and the decoding compute the specification |
| `Modem.Barker` | src/modem.rs:23-23 | the Barker-13 peak is 13 and every sidelobe is 0 or 1 |
| `Modem.PowerAt` | src/modem.rs:57-115 | below threshold before the frame and right after its start, above it at the start, with the polarity in the sign |
| `Modem.SeekFinds` | src/modem.rs:57-115 | the search stops at the frame start and the climb stays there |
| `Modem.DemodulateInvertsModulate` | src/modem.rs:44-115 | demodulation returns the payload, for any polarity, leading silence and trailing samples, under noise up to 5/13 per part |
| `Preamble.ClimbFindsPeak` | src/modem.rs:80-93 | the climb ends at the first strongest position of the excursion |
| `Preamble.ReadsAtStart` | src/modem.rs:57-115 | for every sequence of samples the frame is read at the first strongest position of the excursion that begins at the first crossing |
| `Preamble.NoStartNothing` | src/modem.rs:73-79 | without a position at the threshold nothing is received |
| `Preamble.StartIffOutshone` | src/modem.rs:73-93 | after any samples whatever, a frame's own start is taken if and only if every crossing before it is in one excursion with it and weaker |
| `Preamble.DecodesAfterAnything` | src/modem.rs:57-115 | and then its payload is returned |
| `Preamble.DecodesAfterOneSample` | src/modem.rs:57-115 | one arbitrary sample before the frame does no harm while the correlation there stays below the peak |
| `Preamble.ReceivedIffComplete` | src/modem.rs:94-115 | of a frame cut short nothing is returned; all of it is returned once it is complete |
| `Modem.NoiseBoundIsSharp` | src/modem.rs:57-115 | with any more noise allowed, every payload has a reception that is not decoded |
| `Gf16.MagFormula` | src/gf16.rs:192-203 | a pattern's magnitude is 2^(e-31) (1 + m/512) |
| `Gf16.Frexp` | src/gf16.rs:208-222 | mantissa in [1, 2) with exponent, exactly the argument, for any estimate off by at most one |
| `Gf16.FrexpUnique` | src/gf16.rs:208-222 | the result does not depend on the estimate |
| `Gf16.EstimateExists` | src/gf16.rs:208-222 | such an estimate exists for every positive number |
| `Gf16.EncodeRounds` | src/gf16.rs:148-187 | the encoded magnitude is a nearest one, ties to even |
| `Gf16.GuardIsRedundant` | src/gf16.rs:148-187 | the early overflow guard never changes the answer |
| `Gf16.EstimateIsIrrelevant` | src/gf16.rs:148-187 | nor does the exponent estimate |
| `Gf16.InfThreshold` | src/gf16.rs:148-187 | infinite exactly from 2^32 (1 - 2^-11) on |
| `Gf16.ZeroThreshold` | src/gf16.rs:148-187 | zero exactly up to 2^-31 |
| `Gf16.EncodeNearest` | src/gf16.rs:148-187 | for every real number, zero included, no pattern is nearer, and a tie goes to an even one |
| `Gf16.EncodeThresholds` | src/gf16.rs:148-187 | the thresholds for every real number, and the sign is kept |
| `Gf16.EncodeOrder` | src/gf16.rs:148-187 | encoding is monotone over the reals, across zero too |
| `Gf16.EncodeDecode` | src/gf16.rs:148-203 | decoding and encoding again changes only mantissa bits of zeros and the bits of NaN |
| `PhiDot.Dot` | src/gf16.rs:243-249 | the loop is the chain of fused multiply-adds over the zipped prefix |
| `PhiDot.ChainExact` | src/gf16.rs:243-249 | a chain of exact cells computes the integer dot product |
| `PhiDot.SmallInteger` | src/gf16.rs:192-203 | every integer up to 1024 is a magnitude |
| `PhiDot.IntegerSurvives` | src/gf16.rs:148-203 | such an integer survives encoding and decoding exactly |
| `PhiDot.PhiFmaIsExact` | src/gf16.rs:233-235 | the MAC cell is exact on integers with a small result |
| `PhiDot.FmaRoundsOnce` | src/gf16.rs:132-136 | on finite operands the MAC cell gives a nearest value to the exact a * b + acc, ties to even |
| `PhiDot.FmaIsNaN` | src/gf16.rs:132-136 | no number exactly for an operand that is none, infinity times zero or infinities that cancel |
| `PhiDot.DotExact` | src/gf16.rs:243-249 | integer taps with partial sums within 1024 give the exact dot product, at any length |
| `Crc16.CrcIsFeed` | gen/rust/crc16.rs:16-18 | the byte-wise checksum feeds the bits in processing order |
| `Crc16.UpdateIsClock` | gen/rust/crc16.rs:8-14 | one update is one clock of a 16-bit shift register with taps 0, 5 and 12 |
| `Crc16.ClockDivides` | gen/rust/crc16.rs:8-14 | one clock is one step of long division by x^16 + x^12 + x^5 + 1 |
| `Crc16.CrcIsRemainder` | gen/rust/crc16.rs:4-22 | the checksum of any message is the remainder of the message, first sixteen bits inverted and sixteen zeros appended, by the generator |
| `Crc16.ClockedLinear` | gen/rust/crc16.rs:8-14 | the difference of two runs is a run on the difference |
| `Crc16.LowBitsClear` | gen/rust/crc16.rs:8-14 | a register that n bits lead to zero has its low 16 - n bits clear |
| `Crc16.BurstNeverCancels` | gen/rust/crc16.rs:8-14 | a burst of at most 16 bits never leaves a zero register |
| `Crc16.BurstDetected` | gen/rust/crc16.rs:16-22 | messages of any equal length that differ in such a burst get different checksums |
| `Crc16.CrcOfFour` | gen/rust/crc16.rs:20-22 | the four-byte checksum is the fold over four bytes |
| `Crc16.Verify4RejectsBurst` | gen/rust/crc16.rs:20-26 | the check rejects every such burst |
| `Crc16.EqualIffCancels` | gen/rust/crc16.rs:16-18 | two checksums agree if and only if the difference of the bit streams leaves an empty register empty |
| `Crc16.GeneratorStreamCancels` | gen/rust/crc16.rs:4-14 | the generator polynomial cancels, at any position of a stream of zeros |
| `Crc16.SeventeenBitBurst` | gen/rust/crc16.rs:8-22 | for every message and position, a difference within 17 bits from its first goes unnoticed if and only if it is the bits p, p + 4, p + 11 and p + 16 |
| `Crc16.SeventeenBitBurstMissed` | gen/rust/crc16.rs:20-22 | two frames of four bytes that differ by the generator and have the same checksum |
| `Ewma.Blend` | gen/c/etx.c:63-66 | the intermediate fits 16 bits and its high byte 8 |
| `Ewma.StepShortfall` | gen/c/etx.c:63-66 | one step scales the shortfall by the retained weight and adds less than one |
| `Ewma.StepLag` | gen/c/etx.c:63-66 | one step keeps the estimate below the exact value by less than 256/w |
| `Ewma.LagBounded` | gen/c/etx.c:63-66 | over every history the estimate never exceeds the exact average and lags it by less than 256/w |
| `Rle.CompressRle` | gen/c/compression_engine.c:92-112 | the loop packs the runs of the nibbles, count then value, oldest first |
| `Rle.DecompressRle` | gen/c/compression_engine.c:114-128 | the loop pours out the four count and value pairs, lowest first |
| `Rle.PourPair` | gen/c/compression_engine.c:118-124 | the inner loop pushes the value count times, at most eight |
| `Rle.ExpandRunsOf` | gen/c/compression_engine.c:92-112 | expanding the runs gives the nibbles back |
| `Rle.RunsAreMaximal` | gen/c/compression_engine.c:92-112 | neighbouring runs have different values |
| `Rle.EmptyCode` | gen/c/compression_engine.c:92-112 | no nibbles are coded as an empty run of the lowest |
| `Rle.PackedByte` | gen/c/compression_engine.c:92-112 | byte j of the packed word is 16 times the count plus the value of the j-th run from the end |
| `Rle.PourRuns` | gen/c/compression_engine.c:114-128 | the k low bytes pour out the last k runs |
| `Rle.DecodesAnyWord` | gen/c/compression_engine.c:114-128 | any word, a product of the coder or not, decodes to the first eight nibbles its four pairs stand for |
| `Rle.RoundTrip` | gen/c/compression_engine.c:92-128 | compressing and decompressing shifts out the nibbles of all but the last four runs, for every word and length |
| `Rle.ExactIffFourRuns` | gen/c/compression_engine.c:92-128 | the round trip of a whole word is exact if and only if it has at most four runs |
| `Hello.ToBytes` | src/discovery.rs:140-152 | the buffer holds the field layout with the first 255 neighbours |
| `Hello.Parse` | src/discovery.rs:154-188 | reads the fields back, or nothing when the input is too short |
| `Hello.ComputeMac` | src/discovery.rs:75-111 | the tag, under the given or the default key, of source, sequence, timestamp and first 255 neighbours |
| `Hello.ParseSerialized` | src/discovery.rs:140-188 | a beacon comes back with its first 255 neighbours, trailing bytes ignored |
| `Hello.SerializeParsed` | src/discovery.rs:140-188 | any accepted input starts with its own re-serialisation |
| `Hello.CutInput` | src/discovery.rs:154-188 | a prefix of an accepted input parses the same if it holds the whole beacon, and is rejected otherwise |
| `Hello.SerializedInjective` | src/discovery.rs:140-152 | wire forms coincide if and only if everything that is sent does |
| `Hello.Layout` | src/discovery.rs:140-152 | where each field stands on the wire, big-endian |
| `Hello.MacInputInjective` | src/discovery.rs:75-111 | authenticated inputs coincide if and only if source, sequence, timestamp and first 255 neighbours do |
| `Hello.KeyChoice` | src/discovery.rs:82-117 | under a given key a beacon verifies exactly when its tag is that key's tag of the layout; without one, the built-in key's |
| `Hello.OneKeyVerifies` | src/discovery.rs:114-117 | where the tags under two keys differ, a beacon verifies under one at most |
| `Hello.VerdictSurvivesWire` | src/discovery.rs:114-117 | the verdict on the tag is the same after the wire, under every key |
| `Hello.TagBindsFields` | src/discovery.rs:114-117 | unless the two inputs collide under the key, a verified beacon's tag verifies on another if and only if all sent fields agree |

## Left out

- X25519, HKDF and ChaCha20-Poly1305 internals, key zeroization, the Noise wrappers and the allow list: library calls, kept symbolic.
- The transports: what a router sends is a list of datagrams in order, and what it receives is a parameter.
- MeshRouter.MeshRouter.AddLink: links hold the specification state of a session, not the session object, so aliasing of session objects is not captured; `Session.Session` is proved equal to that state separately.
- Mesh.PacketSafety: assumes one session pair per link, installed once, and delivered counters below 2^56; replacing a link during a run is outside the model.
- LoopFree.NeverRevisits: the code that sends adverts is not part of the modelled files, so what an advert may carry, and that direct neighbours learn no route, are assumptions.
- Fft.Transform: a single element, for which the code's shift leaves the word, and arrays of more than 2^32 elements are excluded.
- Gf16.EncodeNearest: over exact reals; double rounding of f64 intermediates is not modelled.
- PhiDot.DotExact: the fused multiply-add is exact before its one rounding, which f64 `mul_add` need not be for widely separated magnitudes.
- Modem.Demodulate: exact reals instead of f32; the pulse-shaping, timing and carrier layers are left out.
- Etx.HistoryCostRange: exact reals instead of f32.
- `Hello::is_fresh` and `now_ms`: the system clock.
- `src/daemon.rs`, `equalize`, status listings and address mapping: thin or easy.
- The remaining `gen/c` and `gen/rust` files, and `compress_delta`, `compress_dictionary` and `compress_block`: bit-field packing, threshold ladders and coders that are lossy by construction.
