# Verified models of Wutong's batch operations, stream demultiplexer, port allocator and discovery

This project models the parts of the Wutong API server that carry real
algorithms or protocols, and proves what they guarantee. `dafny verify
dfyconfig.toml` checks everything.

| file | models |
|---|---|
| `StartupOrder.dfy`, `StartupOrderTheorems.dfy` | the startup order of services: dependency index, head nodes, list building with cycle cuts, the wait map |
| `BatchOperation.dfy` | memory admission, the accounting of batch results, and the boot sequence a worker reads |
| `StreamFormat.dfy`, `StdCopy.dfy` | the multiplexed stream format and the buffered demultiplexer |
| `DirSize.dfy` | concurrent directory sizing as a protocol of goroutines |
| `PortSelection.dfy`, `PortAllocator.dfy` | load balancer port selection and allocation with leased locks |
| `EndpointCache.dfy`, `DiscoverReplication.dfy`, `DiscoverWeights.dfy` | the endpoint cache and both ways it follows etcd |
| `WatcherLifecycle.dfy` | the watcher goroutines of the two discovery clients, which differ after an error |
| `HostsFile.dfy` | the hosts file editor |
| `IPPool.dfy` | the host ip pool and its event stream |
| `MapOrder.dfy`, `Text.dfy`, `Wrappers.dfy` | the arbitrary order of Go map iteration, string functions, `Option` |

## Main results

- **Startup order.** On every graph the wait map is exactly `WaitEdge`: u waits
  for v if and only if a path from a head along clean steps (no repeated node,
  no node that depends on an earlier one) ends in u, v. The whole call says the
  same in terms of the relation rows alone (`MustWait`). It follows that nobody
  waits for itself or for a service that depends on it, and that the map equals
  the relation when the relation is acyclic. The cuts do not break every cycle:
  `LongCycleSurvives` gives relation rows of three services that end up waiting
  for each other. Which cycles are broken is said in terms of the graph alone.
  A dependency cycle with an edge whose start cannot be reached from a head
  around its end and the dependencies of its end is always broken
  (`GuardedCycleIsBroken`), so if every cycle has such an edge nobody waits in a
  circle; pairs are always broken that way (`ShortCyclesAreBroken`). When all
  cycles run through the services of one ring this is exact: the ring survives
  if and only if no edge of it is guarded (`RingExactly`). On arbitrary graphs a
  cycle survives if and only if each of its edges has a forward path around it
  (`CycleSurvivesExactly`), so nobody waits in a circle if and only if every
  cycle has an edge without one (`NoCircularWaitExactly`).
- **Batch results.** Every request gets one result item. Upgrades report a
  success for exactly the requests that passed the memory and the event check
  and were carried out (`SuccessExactly`); refused ones are reported as failures
  with the reason.
- **From the batch to the worker.** The wait list travels as one comma-joined
  string in which the worker searches for ids. It finds exactly the ids that
  are waited for if ids have one length (`WorkerWaits`); `SearchExactly` says
  for any ids when a search goes wrong, with an example.
- **Demultiplexer.** For every stream, every chunking (empty reads, data
  returned with EOF or with an error), every answer of the writers to every
  write, and also for one writer used for both outputs, the copy delivers and
  reports what the reference decoder and the writers' answers determine. If a
  Read fails, the delivered frames are those of the bytes handed out before it.
  If a write fails or is short, they are those before the first frame the
  writers refuse (`RefusedExactly`), and the part of that frame that was taken.
  The decoder itself is characterised by a wire relation in both directions and
  inverts the encoder.
- **Directory sizing.** Over every interleaving: no send on the closed channel,
  no deadlock in spite of the token limit, every run has the same number of
  steps, and the result is the kibibytes of all files that are not links.
- **Ports.** The gap scan is characterised without order by counting. A port
  that is handed out is never a used one. For every used list `AboveMaximum`
  says exactly when the range is left, and `MissedGap` exactly when nothing, or
  nothing in the range, is handed out; both come with examples. Over every run,
  also of overlapping calls, a locked port is not handed out again before its
  lease expires; calls that read the same store before either locks always
  collide. A run that starts inside the range stays inside.
- **Discovery.** In every run of watch events, idle restarts and changes nobody
  watched, what the callback was last told is what the cache shows, and after
  each listing until the next gap it is exactly the stored servers, each once
  (`ReplicaForever`, `Discover`). Missed creations and changes are healed by the
  next restart; a missed deletion is not: `SyncRepairs` says exactly when a SYNC
  repairs the list. The same is proved of the older client, which keeps a URL
  and a weight per server (`PublishedForever`, `RelistRepairs`).
- **Watchers.** In every run of either client a project has at most one live
  watcher, is never forgotten, and is served only by callbacks that were handed
  in for it. In the v2 client a registered project is always watched until the
  stop. In the older client every watch error ends in a registered project that
  is never watched again (`ErrorLosesProject`, `LostForever`).

## Where the code and its comments disagree

The model follows the code.

- `headNodes` is said to pick a node only if there is no head node; the code
  always adds the first requested service that has dependencies.
- The startup sequence is said to ignore one of two interdependent services;
  the code drops both directions (`MutualDependencyIsDropped`).
- `StdCopy` is said to return the number of bytes written; on a read error, a
  write error or an unknown stream id it returns 0 after having written.
- `checkEvents` is written as a filter, but it asks `CanDoEvent` for a
  synchronous event, which is never refused (`SyncEventsPass`). `Build` and
  `Start` depend on that for one result item per request (`BuildOrStart`).

- The older discovery client has a branch that removes and re-registers a
  project after an error event (discover/discover.go:259-265). Error events are
  built without a source (util/watch/watcher.go:265-288) and the loop skips
  events without a source first, so the branch is dead, `callback.Error` is not
  called, and the loop ends when the channel closes (`ErrorLosesProject`). Its
  branch for a failing `WatchList` (discover/discover.go:218-222) is dead too:
  watching from the empty version never fails.
- A failed lock listing is logged as if the allocation went on; the missing
  response is then dereferenced (`Lookup.Panicked`).

## Model

| member | source | states |
|---|---|---|
| `StartupOrder.VisitingShrinks` | api/handler/service_batch_operation.go:410-424 | list building terminates on every graph: appending a dependency that is not in the list leaves fewer unvisited ids |
| `StartupOrder.AlreadyInLinkedList` | api/handler/service_batch_operation.go:450-461 | the backward search answers membership |
| `StartupOrder.ChildInLinkedList` | api/handler/service_batch_operation.go:435-448 | true exactly when the candidate depends on a member of the list |
| `StartupOrder.BuildLinkListByHead` | api/handler/service_batch_operation.go:394-433 | the recursive loop returns the lists of the specification, in order, with its cuts and its empty-result case |
| `StartupOrder.ListsExact` | api/handler/service_batch_operation.go:394-433 | the returned lists are exactly the finished clean extensions of the input, in both directions, for every graph and every list |
| `StartupOrder.CleanPathIsCovered` | api/handler/service_batch_operation.go:410-430 | no clean path is lost: each is the beginning of some returned list |
| `StartupOrder.Finish` | api/handler/service_batch_operation.go:388-408 | every list can be continued by clean steps until building stops |
| `StartupOrder.NewServiceDependency` | api/handler/service_batch_operation.go:309-327 | the two indexes are inverse to each other and hold exactly the rows, both in row order and with repetitions |
| `StartupOrder.RowsGiveEdges` | api/handler/service_batch_operation.go:316-319 | both indexes have an edge exactly where there is a row |
| `StartupOrder.ServiceDependency.HeadNodes` | api/handler/service_batch_operation.go:362-386 | the heads in the order in which they are found: the requested services nobody depends on, then the first requested one with dependencies |
| `StartupOrder.ServiceDependency.HeadsExact` | api/handler/service_batch_operation.go:362-386 | a service is a head exactly when nobody depends on it or it is the first requested one with dependencies |
| `StartupOrder.ServiceDependency.StartupSequence` | api/handler/service_batch_operation.go:330-359 | on every graph: u waits for v exactly when a clean path from a head ends in u, v; wait lists are non-empty, without duplicates, and in the order in which the pairs first occur in the lists |
| `StartupOrder.ServiceDependency.AllListsExact` | api/handler/service_batch_operation.go:332-337 | the enumerated lists are exactly those of all heads |
| `StartupOrder.ServiceDependency.PairsAreWaitEdges` | api/handler/service_batch_operation.go:332-356 | neighbours in the enumerated lists are exactly the wait edges |
| `StartupOrder.FoldList` | api/handler/service_batch_operation.go:340-356 | folding a list adds exactly its neighbour pairs, each once, and keeps what was there |
| `StartupOrder.FoldExact` | api/handler/service_batch_operation.go:340-356 | folding keeps wait lists non-empty and duplicate-free and adds exactly the neighbour pairs |
| `StartupOrder.FoldAppends` | api/handler/service_batch_operation.go:340-356 | later lists only append: what a service waits for already keeps its place in the wait list |
| `StartupOrderTheorems.SafeWaiting` | api/handler/service_batch_operation.go:330-359 | a service waits only for a real dependency, never for itself, never for one that depends on it, never mutually |
| `StartupOrderTheorems.MutualDependencyIsDropped` | api/handler/service_batch_operation.go:329-359 | of two services that depend on each other neither waits for the other |
| `StartupOrderTheorems.ListsAreSafe` | api/handler/service_batch_operation.go:388-433 | every returned list is a duplicate-free walk of real dependencies in which no node depends on an earlier one |
| `StartupOrderTheorems.BackToHead` | api/handler/service_batch_operation.go:361-370 | in an acyclic relation every requested service is reached from a head |
| `StartupOrderTheorems.WalksAreClean` | api/handler/service_batch_operation.go:411-418 | in an acyclic relation no cut ever applies |
| `StartupOrderTheorems.AcyclicIsExact` | api/handler/service_batch_operation.go:309-433 | acyclic relation, rows of requested services: a service waits for exactly its dependencies |
| `StartupOrderTheorems.ShortCyclesAreBroken` | api/handler/service_batch_operation.go:329-359 | if no cycle has three or more services, the wait map has no cycle |
| `StartupOrderTheorems.WaitEdgeExactly` | api/handler/service_batch_operation.go:388-433 | on every graph: u waits for v exactly when it depends on v and a forward path from a head leads to u around v and the dependencies of v |
| `StartupOrderTheorems.WaitIsAvoidable` | api/handler/service_batch_operation.go:411-418 | a wait of u for v implies a walk from a head to u that touches neither v nor a dependency of v |
| `StartupOrderTheorems.GuardedCycleIsBroken` | api/handler/service_batch_operation.go:329-359 | a dependency cycle with an edge that no walk from a head reaches around its end is not wholly in the wait map |
| `StartupOrderTheorems.GuardedCyclesAreBroken` | api/handler/service_batch_operation.go:329-359 | if every dependency cycle has such an edge, the wait map has no cycle |
| `StartupOrderTheorems.CycleSurvivesExactly` | api/handler/service_batch_operation.go:329-359 | on every graph: a closed walk lies in the wait map exactly when it is one of dependencies and each of its edges has a forward path around it |
| `StartupOrderTheorems.NoCircularWaitExactly` | api/handler/service_batch_operation.go:329-359 | on every graph: the wait map has no cycle exactly when every dependency cycle has an edge without a forward path around it |
| `StartupOrderTheorems.WaitByReachability` | api/handler/service_batch_operation.go:410-424 | if all cycles pass through v, waiting for v is decided by plain reachability around v |
| `StartupOrderTheorems.RingExactly` | api/handler/service_batch_operation.go:329-359 | if all cycles pass through all services of a ring, the ring survives exactly when none of its edges is guarded |
| `StartupOrderTheorems.LongCycleSurvives` | api/handler/service_batch_operation.go:329-359 | the call on six relation rows returns a wait map with a cycle of three |
| `StartupOrderTheorems.ServiceStartupSequence` | api/handler/service_batch_operation.go:62-70 | the whole call from rows to wait map, on every relation: u waits for v exactly when a row says so and rows lead from a head to u around v and its dependencies, heads being requested ids that no row depends on and the first one with a row; order of the lists; only one-way waits; all dependencies if acyclic; acyclic if circular only between pairs |
| `StartupOrderTheorems.WaitsByRows` | api/handler/service_batch_operation.go:309-433 | wait edges in terms of the rows alone |
| `StartupOrderTheorems.HeadsByRows` | api/handler/service_batch_operation.go:362-386 | heads in terms of the rows alone |
| `BatchOperation.AllocMemory.Check` | api/handler/service_batch_operation.go:559-576 | container memory times replicas is taken from a known component that fits; an unknown one is not found, one that is too large is over the limit that is left, and then nothing changes |
| `BatchOperation.AllocMemory.constructor` | api/handler/service_batch_operation.go:475-527 | the admission loop leaves the memory, the accepted and rejected requests and the failure items of first-come-first-served admission |
| `BatchOperation.AdmissionConserves` | api/handler/service_batch_operation.go:507-524 | accepted and rejected interleave to the batch in order; the memory taken away is the sum of the accepted requests |
| `BatchOperation.AdmitNext` | api/handler/service_batch_operation.go:507-524 | first come, first served: each request is accepted exactly when its memory for all replicas fits into what the accepted ones before it left, and otherwise reported with the reason |
| `BatchOperation.AdmissionIsMaximal` | api/handler/service_batch_operation.go:559-576 | no over-commitment, and no rejected known component fits in the final remainder |
| `BatchOperation.EnoughForAll` | api/handler/service_batch_operation.go:507-521 | if all requests fit together, all are accepted |
| `BatchOperation.CheckEvents` | api/handler/service_batch_operation.go:242-260 | splits the batch into passing requests and failure items, in order |
| `BatchOperation.DispatchAll` | api/handler/service_batch_operation.go:223-238 | every request is dispatched once, with its joined wait list, and answered by one item |
| `BatchOperation.Stop` | api/handler/service_batch_operation.go:166-195 | the result is the refusals of the event check followed by the answers to the rest, one item per request; only requests that passed are dispatched; an error if events cannot be created |
| `BatchOperation.Upgrade` | api/handler/service_batch_operation.go:198-240 | the result is the refusals of the memory check, those of the event check and the answers to the rest, one item per request; dispatched are exactly the requests that passed the memory check and then the event check, in order, with their wait lists |
| `BatchOperation.SuccessExactly` | api/handler/service_batch_operation.go:223-238 | a success is reported for exactly the requests that passed both checks and were carried out; every other item carries a reason |
| `BatchOperation.RefusalsFail` | api/handler/service_batch_operation.go:507-521 | every request the memory check refuses is reported as a failure, in order |
| `BatchOperation.UpgradeBatch` | api/handler/service_batch_operation.go:198-240 | the result items of the upgrade; what passed is dispatched with its joined wait list; the waits are exactly those the rows demand, on every relation; a substring search in the configuration finds exactly them if ids have one length |
| `BatchOperation.StartupDependencies` | worker/appm/conversion/version.go:229-240 | the worker selects the aliases of the dependencies whose id occurs in the configuration, in order |
| `BatchOperation.SearchExactly` | worker/appm/conversion/version.go:237-239 | the substring search is right exactly when the id is waited for or is part of no id that is |
| `BatchOperation.SearchExample` | worker/appm/conversion/version.go:237-239 | a concrete id that is waited for by mistake |
| `BatchOperation.WorkerWaits` | api/handler/service_batch_operation.go:223-225 | from the wait map to the worker: with ids of one length a service starts after exactly the dependencies it waits for |
| `BatchOperation.BootSequenceHolds` | api/handler/service_batch_operation.go:224-224 | splitting the configuration at the commas gives the wait list back, in order |
| `BatchOperation.NothingConfigured` | worker/appm/conversion/version.go:237-239 | without a configuration nothing is waited for |
| `Text.ContainsJoin` | api/handler/service_batch_operation.go:224-224 | a joined list contains a comma-free text exactly when one of its parts does |
| `Text.JoinSplit` | api/handler/service_batch_operation.go:224-224 | splitting undoes joining if no part holds the separator |
| `Text.SplitJoin` | discover.v2/discover.go:245-245 | joining undoes splitting, and no part holds the separator |
| `BatchOperation.BuildOrStart` | api/handler/service_batch_operation.go:73-163 | the result is the refusals of both checks followed by the answers to what passed the memory check, which is what is dispatched; one item per request if and only if the event check refuses nobody |
| `BatchOperation.BuildOrStartBatch` | api/handler/service_batch_operation.go:62-163 | the same from the relation rows on, with exactly the waits the rows demand |
| `BatchOperation.SyncEventsPass` | api/handler/service_batch_operation.go:250-254 | the event check as it is called refuses nobody |
| `BatchOperation.CanDoEvent` | api/util/events.go:32-52 | an event may run if it is synchronous or for a third-party component, or unless the last event cannot be read or is still running |
| `StreamFormat.DecodeWire` | util/copyio.go:69-154 | decoding frames followed by anything is the frames followed by its decoding |
| `StreamFormat.DecodeSplits` | util/copyio.go:69-154 | the input is the decoded frames on the wire and a tail that explains why decoding ended |
| `StreamFormat.DecodeUnique` | util/copyio.go:69-154 | any such split determines the decoder's result |
| `StreamFormat.ToBigEndian` | util/copyio.go:106-107 | the length bytes are read back as the length |
| `StreamFormat.FirstByteCountsMost` | util/copyio.go:106-107 | lengths are ordered as their four bytes, first byte first |
| `StreamFormat.ShortLength` | util/copyio.go:106-107 | a length below 256 is the last byte of the header |
| `StreamFormat.OneMessage` | util/copyio.go:86-107 | a message byte by byte: ids 0 to 2 are delivered, 3 is a daemon message, any other is refused |
| `StreamFormat.TenBytes` | util/copyio.go:106-107 | the ten bytes of a two-letter message |
| `StreamFormat.RoundTrip` | util/copyio.go:49-55 | decoding undoes encoding and drops a truncated last frame |
| `StdCopy.Fill` | util/copyio.go:70-84 | the fill loop loses and invents no byte, ends with enough bytes or at the reader's end, counts the bytes handed out before a failing Read, and every Read gets a non-empty slice |
| `StdCopy.ReadPayload` | util/copyio.go:106-130 | the buffer is grown when needed, the header is kept, and the whole frame is buffered or the source has ended |
| `StdCopy.NextFrame` | util/copyio.go:70-130 | either a complete frame is buffered or the reason to return holds of the remaining stream |
| `StdCopy.Shift` | util/copyio.go:150-153 | the bytes behind the frame move to the beginning; bytes beyond nr play no part |
| `StdCopy.WriteFrame` | util/copyio.go:138-148 | the outcome is the one the writer's answer demands, and its writer holds the part of the frame it took |
| `StdCopy.HandleFrame` | util/copyio.go:132-153 | an error frame ends the copy with its message and is not written; any other frame is written and, if taken in full, consumed |
| `StdCopy.Copy` | util/copyio.go:59-155 | for every chunking, every failure and every answer of the writers: every frame delivered in full was accepted by its writer, `written` and the outcome are as decoded; a failing Read leaves exactly the frames of the bytes handed out before it; a fault is the answer of the writer to the next frame, of which exactly the part taken has arrived |
| `StdCopy.Round` | util/copyio.go:69-154 | one round of the loop delivers the frame at the front of the pending bytes, or ends the copy for a reason that holds of them |
| `StdCopy.TrailTo` | util/copyio.go:69-154 | wherever the loop can be, the delivered frames are those on the wire so far, all accepted, and their bytes counted |
| `StdCopy.RefusedExactly` | util/copyio.go:138-148 | a write fault is reported exactly when the writers refuse a decoded frame; otherwise all decoded frames are delivered |
| `StdCopy.ChunkingIrrelevant` | util/copyio.go:59-155 | two readers of the same stream that end with EOF, or fail alike after the last byte, give the same result, also with failing writers |
| `StdCopy.CopyUndoesEncode` | util/copyio.go:49-58 | copying an encoded stream succeeds exactly when the writers take its frames, and then delivers them and counts their bytes |
| `StdCopy.ReliableWriters` | util/copyio.go:138-148 | writers that take everything cause no fault, whatever the source |
| `StdCopy.MessageArrives` | util/copyio.go:86-101 | a message on stream 0 or 1 arrives at stdout, on stream 2 at stderr, and is counted |
| `DirSize.ListNonLinks` | util/comman.go:415-431 | keeps the entries that are not links, in order |
| `DirSize.NonLinksKeepBytes` | util/comman.go:424-430 | dropping links loses no bytes |
| `DirSize.StepKeepsInv` | util/comman.go:363-409 | every step keeps wait group, tokens, reader slots and bytes in balance |
| `DirSize.StepCounts` | util/comman.go:393-409 | every step brings the call exactly one step closer to its return |
| `DirSize.NoPanic` | util/comman.go:375-406 | no send on the closed channel and no negative wait group |
| `DirSize.ClosedAfterLastSend` | util/comman.go:375-378 | once the channel is closed every walker is gone and all bytes have arrived |
| `DirSize.Progress` | util/comman.go:368-409 | no deadlock: until the call has returned some step is possible |
| `DirSize.EveryRun` | util/comman.go:363-409 | over every interleaving: no panic, no deadlock, a fixed number of steps, and the total of all files that are not links, divided by 1024 |
| `DirSize.RunEnds` | util/comman.go:380-389 | a run is over exactly when the call has returned |
| `DirSize.GetDirSize` | util/comman.go:363-390 | under every scheduler the result is the kibibytes of the tree the path leads to, through links, and 0 for a missing path or a link that leads nowhere |
| `DirSize.MissingIsEmpty` | util/comman.go:364-366 | a path that cannot be followed lists nothing, so the early return of 0 agrees with the walk |
| `DirSize.LinksAreFollowed` | util/comman.go:418-418 | any number of links to a directory lists its entries, anything else lists nothing |
| `DirSize.EveryPathIsChain` | util/comman.go:364-366 | every path is such a chain of links |
| `DirSize.TenAtATime` | util/comman.go:369-398 | at most ten walkers hold a token, and only ten make the others wait |
| `PortSelection.SortInts` | api/handler/gateway_action.go:625-625 | sorts in place and keeps every entry with its multiplicity |
| `PortSelection.SelectAvailablePort` | api/handler/gateway_action.go:612-650 | with the environment's range or 10000 to 65535: the minimum for an empty list, the port after the largest one while it fits, otherwise the first port with room, or 0 if there is none |
| `PortSelection.SelectedUnique` | api/handler/gateway_action.go:612-650 | the used ports determine the answer |
| `PortSelection.OrderIsIrrelevant` | api/handler/gateway_action.go:625-625 | the answer depends on the entries and not on their order |
| `PortSelection.SelectedIsFree` | api/handler/gateway_action.go:612-650 | for every used list a non-zero answer is not used and not below the minimum |
| `PortSelection.AboveMaximum` | api/handler/gateway_action.go:634-648 | exactly when a port above the maximum is handed out |
| `PortSelection.AboveMaximumExample` | api/handler/gateway_action.go:634-648 | a concrete list for which it happens |
| `PortSelection.WithinMaximum` | api/handler/gateway_action.go:612-650 | it never happens while no used port is above the maximum |
| `PortSelection.DistinctSelection` | api/handler/gateway_action.go:625-649 | distinct used ports of the range: 0 exactly when the range is full, and a gap is filled from below |
| `PortSelection.RepeatedPortHidesGap` | api/handler/gateway_action.go:635-649 | a concrete list with a free port for which 0 is returned |
| `PortSelection.MissedGap` | api/handler/gateway_action.go:635-649 | for every used list: exactly when 0 is returned, and exactly when no port of the range is handed out; a full range is such a list |
| `PortSelection.PortAboveHidesGap` | api/handler/gateway_action.go:635-649 | a concrete list with two free ports, one of them the maximum, for which 0 is returned |
| `PortSelection.RoomMeansFree` | api/handler/gateway_action.go:634-645 | for every list, room up to a port means a free port up to it |
| `PortAllocator.Gateway.UsedPorts` | api/handler/gateway_action.go:652-673 | the ports of the rules that bind the ip, ascending, followed by the locks of all ips; a failed query is reported, a failed lock listing panics |
| `PortAllocator.Gateway.GetUsedPortsByIP` | db/mysql/dao/gateway.go:480-494 | the ports of the rules that bind the ip, in ascending order |
| `PortAllocator.PortsForExact` | db/mysql/dao/gateway.go:482-494 | a port counts as used exactly if a rule of the ip or of 0.0.0.0 holds it, or any rule when 0.0.0.0 is asked for |
| `PortAllocator.PortsForCount` | db/mysql/dao/gateway.go:482-494 | every such rule counts, also if several hold the same port |
| `PortAllocator.OtherAddress` | db/mysql/dao/gateway.go:490-492 | a rule of a third address makes no port unavailable |
| `PortAllocator.Gateway.IsPortAvailable` | api/handler/gateway_action.go:675-699 | true exactly for a port of the range that no rule concerning the ip and no lock holds, when both databases answer; false after a failed query |
| `PortAllocator.Gateway.GetAvailablePort` | api/handler/gateway_action.go:570-610 | the answer is the selection over the used ports, or the failure of a lookup; a granted lease leaves the lock and nothing else changes |
| `PortAllocator.AllocationIsSafe` | api/handler/gateway_action.go:570-610 | the port is bound by no rule of the ip and not locked, available before, and refused for every ip once locked |
| `PortAllocator.LockLives` | api/handler/gateway_action.go:592-606 | a lock lives until its lease expires, whatever else happens |
| `PortAllocator.ExpiryFrees` | api/handler/gateway_action.go:594-600 | an expired lock frees its port and no other |
| `PortAllocator.RuleChanges` | db/mysql/dao/gateway.go:480-494 | a deleted rule is gone and no other; an added one makes its port unavailable |
| `PortAllocator.NoDoubleAllocation` | api/handler/gateway_action.go:570-610 | over every run, also of overlapping calls, a locked port is handed out to nobody and available to nobody before its lease expires |
| `PortAllocator.OverlappingCallsCollide` | api/handler/gateway_action.go:590-600 | two calls for an ip that read the same store before either locks get the same answer |
| `PortAllocator.RunsStayInRange` | api/handler/gateway_action.go:570-610 | over every run without rules above the maximum no lock is above it, and every port handed out is available just before |
| `EndpointCache.Cache.UpdateOne` | discover.v2/discover.go:100-170 | one endpoint of ADD, SYNC, UPDATE or DELETE changes the cached values as its mode says, in the cached object |
| `EndpointCache.Cache.UpdateEndpoints` | discover.v2/discover.go:97-178 | all endpoints are applied in order, and the cached endpoints with a URL are published, each once, with their current values |
| `DiscoverReplication.RegisteredName` | discover.v2/discover.go:245-249 | the key of a registered server is decoded to its name |
| `DiscoverReplication.ServerNameExactly` | discover.v2/discover.go:245-248 | exactly the keys with two slashes name a server, by what follows the last one |
| `DiscoverReplication.HandleEvent` | discover.v2/discover.go:242-264 | one watch event changes the cache by the operation its type and version select, and publishes the result |
| `DiscoverReplication.UnknownServer` | discover.v2/discover.go:252-261 | a later version or a deletion of a server that is not cached changes nothing |
| `DiscoverReplication.MakeEndpoints` | discover.v2/discover.go:283-302 | one fresh endpoint per server name with the last listed URL, in any order |
| `DiscoverReplication.SyncSets` | discover.v2/discover.go:118-134 | a SYNC sets the listed URLs and touches nothing else, whatever its order |
| `DiscoverReplication.PublishedList` | discover.v2/discover.go:171-177 | a published list holds exactly the cached names with their non-empty URLs, each once |
| `DiscoverReplication.EventKeepsReplica` | discover.v2/discover.go:242-264 | every event keeps the cache an exact replica of the store |
| `DiscoverReplication.SyncMakesReplica` | discover.v2/discover.go:118-134 | a SYNC into a cache without stale URLs makes an exact replica |
| `DiscoverReplication.FirstSync` | discover.v2/discover.go:219-222 | the first SYNC makes an exact replica |
| `DiscoverReplication.SyncIsIdle` | discover.v2/discover.go:219-232 | a later SYNC of the current store changes nothing |
| `DiscoverReplication.SyncRepairs` | discover.v2/discover.go:118-134 | after missed events a SYNC repairs the published list if and only if no cached server has disappeared from the store |
| `DiscoverReplication.StaleEndpointExample` | discover.v2/discover.go:118-134 | a concrete cache that stays wrong after a SYNC |
| `DiscoverReplication.RunReplicates` | discover.v2/discover.go:216-302 | over every history of events, restarts and missed creations or changes the cache holds no stale URL, and after each listing until the next gap it is a replica |
| `DiscoverReplication.InSyncExactly` | discover.v2/discover.go:216-232 | being in sync means that some step listed the store and none after it was missed |
| `DiscoverReplication.ToldIsShown` | discover.v2/discover.go:171-177 | in every run the callback was last told what the cache shows |
| `DiscoverReplication.ReplicaForever` | discover.v2/discover.go:216-302 | after a listing and until the next gap, what the callback was last told is exactly the store's non-empty URLs, each name once |
| `DiscoverReplication.Resync` | discover.v2/discover.go:216-232 | the start and every idle restart: lists, and publishes a SYNC exactly when something is listed |
| `DiscoverReplication.HandleResponse` | discover.v2/discover.go:242-264 | the event loop leaves the cache of the history's events and publishes, for every event about a server, the cache after it |
| `DiscoverReplication.Discover` | discover.v2/discover.go:216-268 | all watchers of a project in turn: at every moment in sync, the last published list is exactly the stored servers; the log holds what was published in each step |
| `DiscoverWeights.RegisteredUrl` | discover/discover.go:229-236 | the url key of a server is decoded to its name |
| `DiscoverWeights.RegisteredWeight` | discover/discover.go:237-245 | the weight key of a server is decoded to its name |
| `DiscoverWeights.UrlExactly` | discover/discover.go:229-236 | exactly the keys root/name/url hold a URL |
| `DiscoverWeights.WeightExactly` | discover/discover.go:237-245 | exactly the keys root/name/weight hold a weight |
| `DiscoverWeights.HandleEvent` | discover/discover.go:224-258 | one event changes the URL or the weight of its server and publishes the result |
| `DiscoverWeights.UnknownServer` | discover/discover.go:246-258 | a modification or deletion of a server that is not cached changes nothing |
| `DiscoverWeights.EventKeepsMirror` | discover/discover.go:224-258 | every event keeps URL and weight equal to the store's values or their defaults |
| `DiscoverWeights.RelistRepairs` | util/watch/watcher.go:137-153 | a listing delivered as creations makes the cache a mirror if and only if no value is cached for a key deleted unseen |
| `DiscoverWeights.StaleWeightExample` | util/watch/watcher.go:137-153 | a weight deleted unseen that stays published after a listing |
| `DiscoverWeights.MirrorForever` | util/watch/watcher.go:156-207 | over every history of events, listings and missed creations or changes no stale value is cached, and after each listing until the next gap the cache mirrors the store, with creations replayed any number of times |
| `DiscoverWeights.InSyncExactly` | util/watch/watcher.go:156-207 | being in sync means that the store was empty or has been listed, and nothing was missed since |
| `DiscoverWeights.PublishedList` | discover/discover.go:171-177 | a published list holds exactly the cached servers with a URL, with their values, each once |
| `DiscoverWeights.MirrorPublishes` | discover/discover.go:171-177 | a list that shows a mirror holds exactly the servers whose URL is present and not empty, each once, with the stored weight or 0 |
| `DiscoverWeights.ToldIsShown` | discover/discover.go:171-177 | in every run the callback was last told what the cache shows |
| `DiscoverWeights.PublishedForever` | discover/discover.go:216-258 | after a listing and until the next gap, what the callback was last told is exactly what the store describes |
| `DiscoverWeights.OrderDoesNotMatter` | discover/discover.go:224-258 | runs that end in the same store, in sync, leave the callback with the same endpoints |
| `DiscoverWeights.HandleListing` | util/watch/watcher.go:148-150 | the creations of a listing are delivered one by one, and the callback is last told the cache after them |
| `DiscoverWeights.Discover` | discover/discover.go:216-258 | all events of a project in turn: at every moment in sync the last published list is exactly what the store describes; the log holds what was published in each step |
| `WatcherLifecycle.StepDelta` | discover.v2/discover.go:184-240 | which steps start and which end a watcher of a project |
| `WatcherLifecycle.OneWatcher` | discover.v2/discover.go:184-240 | in every run of either client at most one live watcher per project, none when unregistered, and it serves the registered callback |
| `WatcherLifecycle.CallbacksAreHandedIn` | discover.v2/discover.go:184-240 | in every run every registered callback and that of every goroutine was handed in for its project |
| `WatcherLifecycle.NeverForgotten` | discover.v2/discover.go:234-240 | in every run an added project is registered or about to be registered again |
| `WatcherLifecycle.ChoicesExactly` | discover.v2/discover.go:226-240 | what can happen to a goroutine, and that adding and stopping are always possible |
| `WatcherLifecycle.RestartIsSeamless` | discover.v2/discover.go:229-232 | an idle restart changes nothing but the goroutine that watches |
| `WatcherLifecycle.ErrorRecovers` | discover.v2/discover.go:234-240 | after an error of the v2 client the project is taken off the list and then registered and watched again with the same callback |
| `WatcherLifecycle.StopIsFinal` | discover.v2/discover.go:206-208 | a stop is permanent, and then every watcher can quit |
| `WatcherLifecycle.AlwaysWatched` | discover.v2/discover.go:226-240 | until the stop, registered means watched in every run of the v2 client, through restarts, errors and re-registration; in the older client as long as no result channel closes |
| `WatcherLifecycle.StepLoses` | discover/discover.go:224-268 | exactly two steps leave a watched project without a watcher: its result channel closes, or its watcher quits on stop |
| `WatcherLifecycle.ErrorLosesProject` | discover/discover.go:224-268 | in every run of the older client a watch error leads to nothing but the closed channel and the lost project |
| `WatcherLifecycle.OldStartsByAdd` | discover/discover.go:184-204 | in the older client only adding a project starts a watcher |
| `WatcherLifecycle.LostForever` | discover/discover.go:184-204 | such a project is never watched again, whatever happens |
| `HostsFile.FieldsAreTokens` | util/hosts.go:47-62 | the fields of a line are non-empty words without white space |
| `HostsFile.FieldsNext` | util/hosts.go:48-48 | how one more character changes the words |
| `HostsFile.AsciiSpaces` | util/hosts.go:48-48 | which ASCII characters are white space |
| `HostsFile.CommentExactly` | util/hosts.go:67-72 | a line is a comment exactly when its first word starts with # |
| `HostsFile.CommentHoldsNothing` | util/hosts.go:48-64 | a comment or empty line holds no entry and is no error |
| `HostsFile.EntryHoldsWords` | util/hosts.go:53-62 | any other line holds its first word as address, checked, and the hosts after it |
| `HostsFile.BuildRawLine` | util/hosts.go:237-244 | the printing loop joins ip and hosts with blanks |
| `HostsFile.PrintParse` | util/hosts.go:47-65 | parsing a printed line gives its ip and hosts back and it is not a comment |
| `HostsFile.Hosts.GetIPPosition` | util/hosts.go:214-225 | the first entry of the ip, or -1 |
| `HostsFile.Hosts.GetStartPosition` | util/hosts.go:191-200 | the first start marker, or -1 |
| `HostsFile.Hosts.GetEndPosition` | util/hosts.go:202-212 | the first end marker after the start marker, or -1 |
| `HostsFile.Hosts.Add` | util/hosts.go:120-139 | appends a line, or replaces the ip's first line by one with the missing hosts added |
| `HostsFile.Hosts.AddLines` | util/hosts.go:142-146 | appends the parsed lines in order |
| `HostsFile.Hosts.Cleanup` | util/hosts.go:149-168 | cuts out exactly the first marked section; nothing without a start marker; an error and no change without an end marker |
| `HostsFile.AddMeaning` | util/hosts.go:120-139 | the ip has its old hosts followed by the missing new ones, no other line changes, one line per ip is kept |
| `HostsFile.AddMissingInOrder` | util/hosts.go:127-135 | old hosts stay in front, the missing ones follow once each in the order in which they are given |
| `HostsFile.AddTwice` | util/hosts.go:120-139 | adding again changes nothing |
| `HostsFile.CleanupIsDetermined` | util/hosts.go:149-168 | there is one first section, so the outcome is unique |
| `HostsFile.CleanupUndoesSection` | util/hosts.go:142-168 | appending a marked section and cleaning up restores the file |
| `IPPool.Pool.Poll` | util/ippool.go:105-140 | a poll sends ADD or UPDATE for every listed IPv4 address in turn and DEL for every one that is gone, each true; replaying all events gives the pool's addresses, which are the listed ones; a failed poll sends and changes nothing |
| `IPPool.Pool.LoopCheckIPs` | util/ippool.go:105-141 | over every run of polls, for any map order: the events sent are those of the polls in turn, each poll complete and truthful, and replaying them all gives the addresses of the last successful listing |
| `IPPool.PollReplays` | util/ippool.go:115-135 | the events of a poll turn the old addresses into the new ones |
| `IPPool.To4Exactly` | util/ippool.go:116-118 | exactly the 4-byte addresses and their 16-byte forms count |
| `IPPool.SnapshotExactly` | util/ippool.go:114-127 | a poll keeps exactly the listed IPv4 addresses |

## Left out

- Request decoding, the database and message queue calls, and the Kubernetes and Prometheus clients: their answers are parameters (rows, components, allocatable memory, outcomes).
- `createEvents`: only its success or failure is modelled, not the event rows it writes.
- Integer width: memory sums, file sizes and frame lengths are unbounded; the 64-bit `int` of the source holds a 32-bit frame length plus header, but overflowing memory products or byte totals are not modelled.
- A failed relation query, after which the source calls a method on a nil dependency object.
- Retries of operations: `run` is the final answer of the operation handler.
- `StdCopy` readers that return data after EOF: a reader reports its end for good.
- The directory tree is fixed while it is read, and the reader semaphore, which the source shares between concurrent calls, is that of one call.
- Lock keys in etcd whose value is not a number, which the allocator skips: only the allocator writes them.
- PortAllocator.Gateway.GetAvailablePort: one call reads rules and locks at one moment; the runs separate choosing from locking, not the two reads.
- DiscoverReplication.Discover: exact only without missed deletions; `SyncRepairs` says what a missed deletion costs.
- DiscoverWeights.Discover: likewise; `RelistRepairs` says what a missed deletion costs. The log keeps the last publication of a listing, not one per listed key.
- EndpointCache.Cache.UpdateEndpoints: the endpoints of an update are separate objects that are not cached yet, as every caller in the source builds them.
- Sharing of endpoint objects with the callback, which sees later in-place changes: the log holds the values at the time of the call.
- HostsFile: reading and flushing the file; net.ParseIP is a parameter.
- Blocking of the ip event channel when nobody consumes it.
- The log writer (event/logger.go), registration, leases, and the Kubernetes discovery: they would only add easy members or belong to client libraries.
