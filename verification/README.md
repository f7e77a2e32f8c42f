# Models of the distributed-systems workshops

A Dafny 4.11 model of the algorithms in this repository, with proofs of what they promise. Each program that changes
state is modelled in its own form: a class or an array that is changed in place, with a pure transition function beside
it on which the whole-run theorems are proved. Random draws are parameters, free within their stated range, and
the fixed constants (number of processes, ring size and nodes, domain tree, pointer table) are parameters.

`dafny verify dfyconfig.toml` checks the project.

| module | what it models |
|---|---|
| `VectorClock`, `CausalHistory`, `VectorClockRun`, `VectorClockProperties`, `VectorClockSimulation` | vector clocks and their simulation; happens-before is defined from the log of actions alone (first-in first-out matching by counting), and never looks at a clock |
| `Chord` | finger routing on a ring of 2^m identifiers |
| `Averaging`, `PeerNode`, `ClockNetwork`, `OverlappingRounds`, `PeerReply` | clock averaging without a time server: the arithmetic of a round, the node object and its cycle, all interleavings of overlapping cycles in continuous time, the contraction of rounds that overlap, and the text of a reply |
| `CentralServer`, `CentralServerSimulation`, `TokenRing` | mutual exclusion by a queueing server and by a circulating token |
| `DomainTree`, `LocationIndex`, `LocationService` | the hierarchical location service |
| `Forwarding` | forwarding pointers and path compression |
| `ServerTiming`, `Text`, `Decimals` | stage timing and the Server-Timing header |
| `Arithmetic`, `Wrappers` | division with remainder; Option and Result |

## Where the code and its text differ

The model follows the code.

* `chord.py` prints the end of the path of a lookup as `successor(key)`, but the lookup reduces the key modulo the ring
  and `successor` does not. `Chord.Ring.ScanAgreesOnlyOnTheRing` says exactly for which keys the printed equation holds,
  and `Chord.Ring.ScanFailsOffTheRing` shows it failing for key 35.
* `hls_moved.py` cannot find an entity whose home is the root, unless the lookup starts there, because registration
  writes no pointer for it and the climb stops at the root; nor can a lookup that starts at the root find anything else.
  `LocationService.LookupFindsExactly` is the exact condition and `LocationService.EntityAtTheRootIsMissed` an input.
* `forwarding_rename.py` expects a `KeyError` after a deletion. `resolve` tests for the entry first, so the chain ends
  silently at the deleted name (`Forwarding.DeletionCutsChains`). Shortening a name that is not in the table makes it
  point at itself (`Forwarding.ShorteningNeedsAnEntry`).
* Moves leave empty sub-tables behind, so the pointers equal a rebuilt index only up to those. A single move leaves one
  exactly if it takes the last home from below some domain (`LocationIndex.MoveLeavesEmptyTable`); after any sequence of
  moves there is none exactly if every domain that was inhabited at some time still is (`LocationIndex.MovesMatchRebuild`).
  `LocationIndex.EmptyTableIsLeft` is an example.
* `peer_node.py` reads its own time before it asks, so the time a cycle takes is added to the estimates.
  `ClockNetwork.RunStaysInHull` bounds the effect and `ClockNetwork.SlowCycleRunsAhead` shows that the bound is reached,
  for any number of clocks; the plain hull and the contraction are stated for instant replies.
* `parse_reply` means to filter absurd times, but its tests are comparisons, and "nan" passes them all, with any sign and
  in any case. `PeerReply.FilterFailsForNan` says exactly which replies pass without a positive and plausible time, and
  `PeerReply.NanIsUsed` shows some.
* The vector clock simulation asks for any number of processes, but a single one has no target for the send in its second
  turn (`VectorClockRun.SingleProcessRunsOnce`). With no rounds at all, two or more processes end in an index error in the
  summary (`VectorClockSimulation.Simulation.CompareFirstEvents`).
* `server_timing` overwrites a stage that is called "total" with the sum. `ServerTiming.StageIsReadBack` says for every
  stage exactly when its own duration is read back, and `ServerTiming.StageCalledTotalIsLost` shows one that is not. Of
  the names, only a comma, the text `;dur=` and whitespace in front get lost; whitespace at the end survives.

Some branches of the source are unreachable in every state that the model can be in. In `Chord.Ring.Lookup` (the
fallback to the successor) and `LocationService.Service.Lookup` (the test whether the entity is where its pointers end)
they appear as an assertion.

## Model

| member | source | states |
|---|---|---|
| VectorClock.NewClock | workshop4/Part3-Vector Clocks/vector_clock.py:17-18 | a new clock is a list of its own, all zero |
| VectorClock.Tick | workshop4/Part3-Vector Clocks/vector_clock.py:21-23 | in place, only the own position changes, by one |
| VectorClock.Merge | workshop4/Part3-Vector Clocks/vector_clock.py:26-29 | in place, the clock becomes the elementwise maximum with the received one |
| VectorClock.Merged | workshop4/Part3-Vector Clocks/vector_clock.py:26-29 | the merged clock is the least one above both |
| VectorClock.ComparisonIsPartialOrder | workshop4/Part3-Vector Clocks/vector_clock.py:32-41 | on clocks of one length "equal" is equality, "before" mirrors "after" and is transitive |
| CausalHistory.HappensBeforeIsTransitive | workshop4/Part3-Vector Clocks/simulation.py:80-97 | happens-before, built from program order and first-in first-out message edges, is transitive |
| CausalHistory.PastOfNewEvent | workshop4/Part3-Vector Clocks/simulation.py:80-97 | the past of a new event is what its process knew, joined with the past of the send it takes |
| CausalHistory.HistoryIsLogged | workshop4/Part3-Vector Clocks/simulation.py:62-97 | every entry of a process history is an event of the global log, at the place given by its rank |
| CausalHistory.LogIsInHistory | workshop4/Part3-Vector Clocks/simulation.py:62-97 | every event of the global log is an entry of its process history |
| VectorClockRun.InboxAfterEvent | workshop4/Part3-Vector Clocks/simulation.py:80-91 | inboxes stay the messages sent and not yet received, in order, each with the clock of its send |
| VectorClockRun.TurnKind | workshop4/Part3-Vector Clocks/simulation.py:40-52 | a waiting message is received; otherwise the first turn is local, the second turn of process 0 sends, and every other turn sends to the drawn target or is local as the coin says |
| VectorClockRun.TurnInboxes | workshop4/Part3-Vector Clocks/simulation.py:80-91 | a receive takes the first message of the own inbox, a send puts its own clock last into the inbox of its target, and nothing else changes an inbox |
| VectorClockRun.TurnKeepsInv | workshop4/Part3-Vector Clocks/simulation.py:75-97 | a turn of any process keeps: a clock has reached an event exactly when it knows it, own positions count own events, inboxes are conserved |
| VectorClockRun.RunKeepsInv | workshop4/Part3-Vector Clocks/simulation.py:73-97 | the same invariant in every run, for any number of processes and any choices |
| VectorClockRun.SingleProcessRunsOnce | workshop4/Part3-Vector Clocks/simulation.py:50-51 | a single process has no target for the send that its second turn demands, so it runs for one round only |
| VectorClockRun.OwnerInRound | workshop4/Part3-Vector Clocks/simulation.py:73-75 | in every round each process has its turn in its place |
| VectorClockProperties.ClockOrderIsHappensBefore | workshop4/Part3-Vector Clocks/simulation.py:73-97 | for any two distinct events of any run the comparison says before, after or concurrent exactly when happens-before does, and never equal |
| VectorClockProperties.ClockCountsCausalPast | workshop4/Part3-Vector Clocks/simulation.py:80-97 | position p of a recorded clock is the number of events of p in the causal past of its event, itself included |
| VectorClockProperties.OwnComponentLeads | workshop4/Part3-Vector Clocks/simulation.py:80-97 | a process's own position is its turn counter and bounds that position in every clock, message and history entry |
| VectorClockProperties.MessageIsBeforeReceive | workshop4/Part3-Vector Clocks/simulation.py:112-121 | a received clock is always before the clock after the receive |
| VectorClockProperties.MessagesAreConserved | workshop4/Part3-Vector Clocks/simulation.py:80-91 | sends equal receives plus pending messages |
| VectorClockProperties.FirstRoundIsLocal | workshop4/Part3-Vector Clocks/simulation.py:43-47 | the first turn of every process is a local step that leaves a unit clock, whatever the choices |
| VectorClockProperties.FirstEventsAreConcurrent | workshop4/Part3-Vector Clocks/simulation.py:106-110 | the first events of any two processes are concurrent |
| VectorClockProperties.TwoRoundsReceive | workshop4/Part3-Vector Clocks/simulation.py:48-51 | two rounds of two or more processes contain a receive |
| VectorClockSimulation.Simulation.constructor | workshop4/Part3-Vector Clocks/simulation.py:59-62 | the program starts in the initial state, each process with a clock list of its own |
| VectorClockSimulation.Simulation.Act | workshop4/Part3-Vector Clocks/simulation.py:75-97 | the loop body, changing clocks in place, has the effect of the transition function on clocks, inboxes, counters and histories |
| VectorClockSimulation.Simulation.Turn | workshop4/Part3-Vector Clocks/simulation.py:75-97 | the program stays in the state that the choices so far lead to |
| VectorClockSimulation.Simulation.Rounds | workshop4/Part3-Vector Clocks/simulation.py:73-97 | all rounds make exactly n turns each, with the given draws; a single process has valid draws for one round only |
| VectorClockSimulation.Simulation.CompareFirstEvents | workshop4/Part3-Vector Clocks/simulation.py:104-110 | the first part of the summary finds every pair of first events concurrent, or ends in an index error exactly if two or more processes have not completed a round |
| VectorClockSimulation.Simulation.CompareReceivesOf | workshop4/Part3-Vector Clocks/simulation.py:115-121 | each receive of a process is compared once, and found after its message |
| VectorClockSimulation.Simulation.CompareReceives | workshop4/Part3-Vector Clocks/simulation.py:112-123 | the second part has one result for each receive in the histories, always "before", and at least one after two rounds |
| Chord.Ring.FindSuccessor | workshop3/chord.py:7-11 | the scan returns the first node not below the key, or the first node |
| Chord.Ring.SuccessorIsNearest | workshop3/chord.py:7-11 | the scan finds the nearest node clockwise |
| Chord.Ring.FingerTable | workshop3/chord.py:14-20 | entry i aims 2^i ahead and names the node responsible for that identifier |
| Chord.Ring.FingerReach | workshop3/chord.py:14-20 | a finger reaches at least 2^i ahead and not beyond any node that far away, unless it wraps to its own node |
| Chord.Ring.IntervalIsBetween | workshop3/chord.py:23-29 | the wrap-around interval test is betweenness on the ring, with everything but a for the interval from a to a |
| Chord.Ring.FirstFingerDecides | workshop3/chord.py:36-39 | the exit test asks whether the next node has reached the key, and then that node is the key's successor |
| Chord.Ring.ClosestFinger | workshop3/chord.py:40-44 | the downward scan returns the highest finger strictly between the node and the key, or the node itself |
| Chord.Ring.HopHalves | workshop3/chord.py:40-49 | while the next node has not reached the key a finger is found, and it halves the bound on the distance of all nodes still before the key |
| Chord.Ring.HopComesCloser | workshop3/chord.py:40-49 | a hop shortens the clockwise way to the key by its length |
| Chord.Ring.Lookup | workshop3/chord.py:32-49 | from any number as the start, terminates with the successor of the reduced key after at most m + 1 hops, each but the last along the highest finger before the key, never overshoots before the last hop and never takes the fallback |
| Chord.Ring.ScanAgreesOnlyOnTheRing | workshop3/chord.py:52-58 | the end of the path is the successor of the unreduced key, as printed, exactly for keys on the ring and keys that wrap to the first node |
| Chord.Ring.ScanFailsOffTheRing | workshop3/chord.py:52-58 | with the source's ring, key 35 ends at node 4, but its successor is node 1 |
| Averaging.MeanIsWithin | workshop4/part2/peer_node.py:336-338 | a mean stays between the least and the greatest sample |
| Averaging.RoundContracts | workshop4/part2/peer_node.py:319-338 | one serial round, in any order, brings the greatest distance down by the factor 1 - 2 / n^2 |
| Averaging.RoundsContract | workshop4/part2/peer_node.py:309-347 | the distance falls geometrically with the number of rounds |
| Averaging.ClocksConverge | workshop4/part2/run_peers.py:122-127 | for every bound there is a number of rounds after which the distance stays below it |
| Averaging.SpreadIsCloseness | workshop4/part2/run_peers.py:122-123 | the printed spread, greatest minus least, is the greatest distance of two clocks |
| PeerNode.Peer.Adjust | workshop4/part2/peer_node.py:189-192 | the skew moves by the correction |
| PeerNode.Peer.InjectDrift | workshop4/part2/peer_node.py:194-199 | the skew moves by the drawn amount, at most the maximum either way |
| PeerNode.Peer.PresetSkew | workshop4/part2/peer_node.py:201-204 | the skew moves by the preset |
| PeerNode.AdjustedSkewIsWithin | workshop4/part2/peer_node.py:318-338 | whatever replies are discarded, an adjusted clock stays between the slowest and the fastest |
| PeerNode.AdjustedSkewIsMeanOfNear | workshop4/part2/peer_node.py:318-338 | whichever peers are silent or far away, a cycle moves a clock to the mean of itself and of all answering clocks that are at most an hour off either way |
| PeerNode.FarPeersAreIgnored | workshop4/part2/peer_node.py:332-334 | a clock whose peers are all silent, or more than an hour off to either side, is left alone |
| PeerNode.AdjustedSkewIsMean | workshop4/part2/peer_node.py:318-338 | if everybody answers and all replies are plausible the clock jumps to the mean of all clocks |
| PeerNode.Cycle | workshop4/part2/peer_node.py:318-338 | for any set of peers that do not answer in time, a cycle changes the skew of its node only, to the mean of its accepted samples, and leaves it if there is none |
| PeerNode.SerialRound | workshop4/part2/peer_node.py:318-338 | one cycle of every node in an order is the round of the averaging model, and no reply is discarded |
| PeerNode.BuildNodes | workshop4/part2/run_peers.py:39-55 | builds distinct nodes with the drawn skews, at most half the spread either way |
| PeerNode.Synchronize | workshop4/part2/run_peers.py:72-127 | after r serial rounds, with any time between the cycles, the distance is at most (1 - 2 / n^2)^r times the initial spread |
| ClockNetwork.GiveUpKeepsCycle | workshop4/part2/peer_node.py:279-288 | a request that is given up leaves the cycle, its samples and its own time as they are |
| ClockNetwork.StepIsLocal | workshop4/part2/peer_node.py:184-204 | a step changes nobody but its node, and time passes only by itself |
| ClockNetwork.PeersCanGoOn | workshop4/part2/peer_node.py:319-347 | a peer can always begin, ask anybody else, receive an answer or give up, and finish |
| ClockNetwork.StepStaysInHull | workshop4/part2/peer_node.py:309-347 | any step of any peer keeps all clocks and all samples in flight inside the hull, widened by drift and by a finished cycle: by its duration d less d / 2k for k samples |
| ClockNetwork.RunStaysInHull | workshop4/part2/peer_node.py:291-347 | the same for every interleaving of overlapping cycles while time goes on |
| ClockNetwork.SlowCycleRunsAhead | workshop4/part2/peer_node.py:318-338 | that widening is reached for any n > 1 clocks that agree: if the first reply takes the time d and the others are instant, the clock that asked is d less d / 2n ahead afterwards |
| ClockNetwork.InstantRunStaysInHull | workshop4/part2/peer_node.py:312-338 | with instant replies the hull of all clocks and all pending samples grows by at most the drift maximum per drift, and not at all without drift |
| ClockNetwork.ReplyIsAccepted | workshop4/part2/peer_node.py:144-151 | a positive reply is used when the hull plus its time on the way is at most 3600 s |
| ClockNetwork.InstantRepliesAreAccepted | workshop4/part2/peer_node.py:144-151 | with instant replies, no drift and an initial distance of at most 3600 s no reply is ever discarded as implausible |
| ClockNetwork.EstimateIsWithinHalfRoundTrip | workshop4/part2/peer_node.py:273-278 | in every run, the compensated estimate is within half the round trip of the peer's clock at receipt, if that clock neither drifts nor is adjusted between answer and receipt |
| ClockNetwork.UninterruptedCycle | workshop4/part2/peer_node.py:318-338 | for any set of peers that are given up, a cycle that runs without interruption in the interleaving model computes what the node object computes: the mean of the own clock and the near ones among those that answer |
| ClockNetwork.SerialRoundContracts | workshop4/part2/peer_node.py:319-338 | uninterrupted cycles of all peers, in any order, are a run of the interleaving model that contracts the distance by 1 - 2 / n^2 |
| OverlappingRounds.OverlappingRoundContracts | workshop4/part2/run_peers.py:102-107 | in every overlap of one cycle of each of n peers, with instant replies and without drift, the greatest distance shrinks by the factor 1 - 2 / n^2 |
| OverlappingRounds.OverlappingRoundsContract | workshop4/part2/run_peers.py:102-107 | the distance falls geometrically with the number of such rounds, with any time between them |
| OverlappingRounds.OverlappingClocksConverge | workshop4/part2/run_peers.py:122-127 | for every bound there is a number of rounds after which the distance stays below it, whatever the overlaps are |
| OverlappingRounds.SerialRoundIsOverlap | workshop4/part2/peer_node.py:318-338 | serial rounds, in any order, are among these overlaps |
| ClockNetwork.DriftAccumulates | workshop4/part2/peer_node.py:189-199 | in every run the drift part of a clock is all drift it was given; corrections only go into its offset |
| ClockNetwork.ClockRunsOn | workshop4/part2/peer_node.py:184-187 | between its own drifts and adjustments a clock runs as fast as the system's, whatever the other peers do |
| PeerReply.AcceptedName | workshop4/part2/peer_node.py:57-66 | an accepted name is not empty, at most 32 characters long, without whitespace, and accepted again unchanged |
| PeerReply.GoodNameIsAccepted | workshop4/part2/peer_node.py:57-66 | every name of 1 to 32 characters without whitespace is accepted, with any whitespace around it taken off |
| PeerReply.NameWithBlankIsMalformed | workshop4/part2/peer_node.py:57-65 | a reply with a blank inside the name could not be read, which is why such names are refused |
| PeerReply.NameErrors | workshop4/part2/peer_node.py:59-65 | a name is refused as empty exactly if it is all whitespace, as too long exactly beyond 32 characters, and otherwise exactly if there is whitespace inside |
| PeerReply.ReplyFormat | workshop4/part2/peer_node.py:243 | a reply is the name, one blank and the time with six decimals |
| PeerReply.TextErrors | workshop4/part2/peer_node.py:128-143 | the reasons for refusing a text before its time is looked at, in their order |
| PeerReply.FilterIsAnHour | workshop4/part2/peer_node.py:144-148 | the filter accepts exactly the times after the epoch that are at most 3600 s before or after the own time |
| PeerReply.ReasonsOfRefusal | workshop4/part2/peer_node.py:144-150 | which times are refused, and with which reason, infinities included |
| PeerReply.ReplyOutcome | workshop4/part2/peer_node.py:123-151 | what becomes of a reply with an accepted name in every case: too large, not positive, implausible to either side, or read exactly |
| PeerReply.ReplyRoundTrip | workshop4/part2/peer_node.py:123-151 | a reply with an accepted name is read back as that name and time exactly if it fits into 256 bytes, is positive and plausible |
| PeerReply.UsedReply | workshop4/part2/peer_node.py:123-151 | a reply that is used has a name without whitespace, and a positive and plausible time exactly if the text of its time is not "nan" in some spelling |
| PeerReply.FilterFailsForNan | workshop4/part2/peer_node.py:123-151 | the replies that are used without a positive and plausible time are exactly those of two words and at most 256 bytes whose second word is "nan", with any sign and in any case |
| PeerReply.FiniteTimeIsAccepted | workshop4/part2/peer_node.py:144-150 | on finite times the filter of the parsed text is the test that the clock model uses |
| PeerReply.NanIsUsed | workshop4/part2/peer_node.py:140-148 | the time "nan" is used, whatever the own time is |
| PeerReply.TimeArrives | workshop4/part2/peer_node.py:243 | a positive plausible local time arrives with its name, off by at most half a microsecond |
| PeerReply.BytesHoldBits | workshop4/part2/peer_node.py:130-131 | the bytes of a character in UTF-8 |
| PeerReply.ReplyFits | workshop4/part2/peer_node.py:130-131 | an accepted name never makes a reply too large, for stamps of up to 127 characters |
| CentralServer.TurnKeepsInv | workshop4/Part4-Mutual Exclusion/central_server.py:82-106 | every turn keeps mutual exclusion, the queue as the duplicate-free list of the waiting, no waiting for a free resource, and first-in first-out order |
| CentralServer.AskingTurn | workshop4/Part4-Mutual Exclusion/central_server.py:83-92 | an idle process that asks is logged as a request, holds a free resource at once for the drawn number of turns, and otherwise waits as the last in the queue |
| CentralServer.PassiveTurn | workshop4/Part4-Mutual Exclusion/central_server.py:83-96 | an idle process that does not ask and a waiting one change nothing |
| CentralServer.UsingTurn | workshop4/Part4-Mutual Exclusion/central_server.py:97-99 | a holder with turns left uses one up, and nothing else changes |
| CentralServer.ReleasingTurn | workshop4/Part4-Mutual Exclusion/central_server.py:100-106 | in its last turn the holder becomes idle, and the first in the queue holds for the drawn number of turns, or the resource is free |
| CentralServer.TurnsGoRound | workshop4/Part4-Mutual Exclusion/central_server.py:80-82 | the turns go round in the order of the processes |
| CentralServer.MutualExclusionAndFifo | workshop4/Part4-Mutual Exclusion/central_server.py:80-106 | in every run at most one process holds, grants are a prefix of requests, the queue is the rest, and the counts add up |
| CentralServer.ReleaseInIsBounded | workshop4/Part4-Mutual Exclusion/central_server.py:97-101 | the holder releases within 3 n turns |
| CentralServer.OrdinaryTurnLowersRank | workshop4/Part4-Mutual Exclusion/central_server.py:80-106 | a turn without a release keeps the place in the queue and lowers the rank by one |
| CentralServer.ReleaseLowersRank | workshop4/Part4-Mutual Exclusion/central_server.py:55-63 | a release grants the first in the queue, moves the others up and lowers their rank |
| CentralServer.GrantedWithinRank | workshop4/Part4-Mutual Exclusion/central_server.py:80-106 | a waiting process holds the resource within its rank of turns, whatever the choices |
| CentralServer.BoundedWaiting | workshop4/Part4-Mutual Exclusion/central_server.py:80-106 | a process at index k is granted within 3 n (k + 1) turns, hence within 3 (n - 1) rounds, for the number of turns drawn at the grant |
| CentralServer.HolderReleasesOnTime | workshop4/Part4-Mutual Exclusion/central_server.py:97-101 | the holder keeps the resource until its last turn, and is idle then |
| CentralServer.AskerIsServed | workshop4/Part4-Mutual Exclusion/central_server.py:80-106 | whoever asks is granted the resource, at once exactly if it is free and within 3 (n - 1) rounds otherwise, keeps it for exactly the drawn number of turns of its own, and is idle then |
| CentralServerSimulation.Server.RequestBy | workshop4/Part4-Mutual Exclusion/central_server.py:46-53 | grants a free resource, otherwise appends to the queue |
| CentralServerSimulation.Server.ReleaseBy | workshop4/Part4-Mutual Exclusion/central_server.py:55-63 | hands the resource to the first in the queue, or frees it |
| CentralServerSimulation.Simulation.Act | workshop4/Part4-Mutual Exclusion/central_server.py:82-106 | the loop body has the effect of the transition function on server, states, remaining turns and counts |
| CentralServerSimulation.Simulation.Turn | workshop4/Part4-Mutual Exclusion/central_server.py:82-106 | the program stays in the state that the choices so far lead to |
| CentralServerSimulation.Simulation.Rounds | workshop4/Part4-Mutual Exclusion/central_server.py:80-113 | after all rounds, with the given draws, the program is in the state they lead to, requests are grants plus queue, and at most one process holds |
| TokenRing.Circulate | workshop4/Part4-Mutual Exclusion/token_ring.py:52-72 | after s steps the holder is s mod n, passes are the fair shares and sum to s, uses are the steps in which the holder wanted the resource, and never exceed passes |
| TokenRing.ShareIsRoundedUp | workshop4/Part4-Mutual Exclusion/token_ring.py:52-72 | the share of process p is floor((s + n - 1 - p) / n) |
| TokenRing.SharesAreFair | workshop4/Part4-Mutual Exclusion/token_ring.py:52-72 | shares differ by at most one, in favour of those first in the ring |
| DomainTree.TreeIsHierarchy | workshop3/hls_moved.py:25-30 | for distinct names the parent map is exactly the child relation of the tree, only the root has no parent, and climbing ends |
| LocationService.Service.BuildParents | workshop3/hls_moved.py:25-28 | the recursive traversal adds the parent map of the subtree |
| LocationIndex.RegisteredPointers | workshop3/hls_moved.py:34-39 | registration writes one pointer at each proper ancestor, towards the domain, and no others |
| LocationIndex.UnregisteredPointers | workshop3/hls_moved.py:41-48 | unregistering removes exactly the pointers that lead to the domain |
| LocationService.Service.Register | workshop3/hls_moved.py:34-39 | the loop computes the registered table |
| LocationService.Service.Unregister | workshop3/hls_moved.py:41-48 | the loop computes the unregistered table |
| LocationService.Service.RegisterAll | workshop3/hls_original.py:45-47 | the registration loop, in any order of domains and entities, builds the index of the placement without empty sub-tables |
| LocationService.Service.constructor | workshop3/hls_moved.py:23-52 | the service starts consistent, without empty sub-tables |
| LocationService.Service.MoveEntity | workshop3/hls_moved.py:77-81 | a move keeps the index right; moving an entity from where it is not is a key error that changes nothing |
| LocationIndex.PlacementAfterMove | workshop3/hls_moved.py:77-81 | a moved entity has one home, the new one, with its address, and nobody else moves |
| LocationIndex.MoveKeepsConsistent | workshop3/hls_moved.py:77-81 | after a move the pointers are those of the new placement, and no others |
| LocationIndex.MovesKeepConsistent | workshop3/hls_moved.py:77-81 | the same after any sequence of moves |
| LocationIndex.IndexIsUnique | workshop3/hls_original.py:36-47 | a placement determines its pointers up to empty sub-tables |
| LocationIndex.MovesMatchRebuild | workshop3/hls_original.py:36-47 | after any moves the pointers without empty sub-tables equal the rebuilt ones, and equal them outright exactly if every domain that had a table or was inhabited meanwhile is inhabited in the end |
| LocationIndex.MoveLeavesEmptyTable | workshop3/hls_moved.py:41-48 | a move leaves an empty sub-table exactly if some domain is above the old home, not above the new one, and above nobody else's |
| LocationIndex.EmptyTableIsLeft | workshop3/hls_moved.py:77-81 | moving the only entity of a branch to another leaves the empty sub-table of that branch |
| LocationIndex.MeetingIsLowestCommonAncestor | workshop3/hls_moved.py:63-72 | the domain where a lookup turns is the lowest common proper ancestor, and exists exactly if start and home lie below the root |
| LocationIndex.ClimbGoesUp | workshop3/hls_moved.py:63-65 | the way up goes from each domain to its parent, from the start to the turning point |
| LocationIndex.DescentGoesDown | workshop3/hls_moved.py:67-69 | the way down goes from each domain to a child, from a child of the turning point to the home, which it meets only at its end |
| LocationService.Service.FollowDown | workshop3/hls_moved.py:67-69 | following pointers visits the domains down to the home, and ends there |
| LocationService.Service.Lookup | workshop3/hls_moved.py:55-74 | returns the stored address with the path over the lowest common ancestor, a local hit directly, none after climbing to the root, or a key error for an unknown start |
| LocationService.LookupFindsExactly | workshop3/hls_moved.py:55-74 | a lookup succeeds exactly at the home or if start and home both lie below the root |
| LocationService.EntityAtTheRootIsMissed | workshop3/hls_moved.py:63-74 | an entity at the root is reported as not found from below |
| Forwarding.ForwardingTable.Resolve | workshop3/forwarding_rename.py:8-14 | on a chain that ends, returns the name at its end and the number of hops |
| Forwarding.ForwardingTable.Shorten | workshop3/forwarding_rename.py:19-24 | overwrites one entry with the address it resolves to |
| Forwarding.ForwardingTable.Delete | workshop3/forwarding_rename.py:35 | removes one entry, or is a key error that changes nothing |
| Forwarding.ShorteningPreservesResolution | workshop3/forwarding_rename.py:24 | every location ends at the same address or nowhere as before, exactly the chains through k lose all but one of the hops from k on, and k is one hop |
| Forwarding.ShorteningKeepsAcyclic | workshop3/forwarding_rename.py:24 | an acyclic table stays acyclic |
| Forwarding.ShorteningNeedsAnEntry | workshop3/forwarding_rename.py:24 | after shortening, k still resolves exactly if it was in the table |
| Forwarding.DeletionCutsChains | workshop3/forwarding_rename.py:35-43 | deleting d changes exactly the chains through d, which then end at d without a key error |
| ServerTiming.Rounded | workshop7/common/timing.py:21 | three decimals of a millisecond are off by at most half a microsecond |
| ServerTiming.StageTimer.Lap | workshop7/common/timing.py:13-16 | the stages stay what the laps so far record |
| ServerTiming.LapsAddUp | workshop7/common/timing.py:9-16 | with distinct names the stages sum to the last lap minus construction |
| ServerTiming.StageIsLap | workshop7/common/timing.py:13-16 | with distinct names stage i is the time from the reading before lap i to that of lap i |
| ServerTiming.PrintedTotalIsClose | workshop7/common/timing.py:18-21 | the printed total differs from the sum of k printed stages by at most 0.0005 (k + 1) ms |
| ServerTiming.ParseServerTiming | workshop7/common/timing.py:24-30 | the loop computes the parsed dictionary, or the text that is not a number |
| ServerTiming.FirstBadItemIsReported | workshop7/common/timing.py:27-29 | parsing fails exactly if what follows the first separator of some item is not a number, and reports the first such text |
| ServerTiming.ItemFormat | workshop7/common/timing.py:21 | a stage is printed as its name, ";dur=" and its duration with three decimals |
| ServerTiming.HeaderFormat | workshop7/common/timing.py:20-21 | the header lists the stages in order, separated by a comma and a blank, and the total last |
| ServerTiming.UpsertIsUpdate | workshop7/common/timing.py:15-20 | a dictionary entry is set: a known key keeps its place, a new one comes last, no other value changes |
| ServerTiming.EmptyPiecesAreIgnored | workshop7/common/timing.py:27 | a superfluous comma in front, at the end or in between is ignored |
| ServerTiming.HeaderRoundTrip | workshop7/common/timing.py:18-30 | the header is read back with all values rounded to three decimals exactly if every stage name has no comma, no ";dur=" and no whitespace in front |
| ServerTiming.StageIsReadBack | workshop7/common/timing.py:18-30 | with clean names "total" is read back as the rounded sum, and a stage as its own rounded duration exactly unless it is called "total" and its duration is rounded to something else than the sum |
| ServerTiming.StageCalledTotalIsLost | workshop7/common/timing.py:20 | a stage of 2 ms called "total" after one of 1 ms is read back as 3 ms |
| ServerTiming.StageTimer.ServerTimingValue | workshop7/common/timing.py:18-21 | the printed value of a timer is read back in full exactly if all its stage names are clean |
| Decimals.ScientificIsRead | workshop7/common/timing.py:29 | a printed number with a sign in front and a signed power of ten behind it is read exactly |
| Decimals.GroupedDigits | workshop7/common/timing.py:29 | single underscores between digits do not count, and stand nowhere else |
| Decimals.PartialMantissa | workshop7/common/timing.py:29 | the digits on one side of the decimal point may be missing, but not on both |
| Decimals.InfinityIsRead | workshop7/common/timing.py:29 | which texts are infinities, and of which sign |
| Decimals.NanSpellings | workshop4/part2/peer_node.py:141 | some spellings of "nan", and some texts that are none |
| Decimals.FixedFormat | workshop7/common/timing.py:21 | a printed number has a decimal point, the asked number of digits behind it, and no needless zero in front |
| Decimals.ParsePrinted | workshop7/common/timing.py:21-29 | a number printed with a fixed number of decimals is read back exactly |

## Left out

- Sockets, threads, locks, timeouts as durations, printing, sleeping, prompts and argument parsing in every program; the workshops on ZMQ, XML-RPC, LDAP, DNS, HTTP, SQL and the matrix server are library behaviour.
- Floating point: clocks are real numbers, stage times are whole nanoseconds, and rounding to three decimals takes ties to even on the exact value.
- ClockNetwork.EstimateIsWithinHalfRoundTrip: stamps are not rounded to six decimals, because the bound is about travel time; `PeerReply.TimeArrives` bounds the rounding.
- ClockNetwork.RunStaysInHull: drift may come before any cycle, not only before every k-th, and a peer may be asked again within a cycle, so the runs of the program are among those of the model.
- PeerNode.Cycle: a peer answers at once or not in time; `ClockNetwork` has the time on the way and half the round trip.
- PeerNode.Synchronize: the rounds are serial, while the threads of the source may overlap; `OverlappingRounds` proves the same contraction of every overlap of one cycle each, and `ClockNetwork.RunStaysInHull` bounds all other runs.
- PeerNode.SerialRound: replies are instant and nobody drifts, while any time may pass between cycles; time passing within a cycle adds a bias that only the hull theorem bounds.
- Averaging.RoundContracts: needs at least two clocks, as the launcher does.
- PeerReply.ReplyRoundTrip: a raw reply is decoded text with its length in UTF-8 bytes; bytes that do not decode are not modelled.
- ServerTiming.ParseServerTiming: values are exact and digits are 0 to 9, while Python's `float` rounds to a binary fraction and also takes other Unicode digits.
- ServerTiming.LapsAddUp: with a repeated name only the last duration of that name is kept, which `StageTimer.Lap` states through the recorded laps.
- Forwarding.ForwardingTable.Resolve: asks for a chain that ends, since the source loops forever on a circle.
- Chord.Ring.Lookup: the ring is valid (m > 0, distinct sorted nodes below 2^m), as in the source.
- LocationService.Service.constructor: domain names are distinct and each entity has one home at the start, as the source's tables have.
- `validate_port`, `validate_peers`, `validate_number` and the option parsers of the peers: easy members.
- The header and body size helpers and `describe_cost` in `timing.py`, `workshop3/forwarding.py` (the same `resolve`), and the report formatting of every program: easy members.
