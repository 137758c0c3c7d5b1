# Verification of the edge cache network

A Dafny model of the repository's five cooperating parts, with proofs about every input, every
interleaving or every reachable state:

* **Overlay repair** (the registry). A graph is built from the peers' replies and made symmetric in
  place, its components are found by a depth-first search over one shared map of visited nodes, and
  consecutive components are linked. The proofs cover the search (exactly the nodes reachable from the
  root through nodes not yet visited are marked), the count of components, and what unification
  does to that count for every outcome of the simultaneous `AddNeighbour` calls. Membership by
  heartbeats lies underneath; the load balancer uses the same membership protocol.
* **Lookup flooding** (the edge peers). The forwarding step and the duplicate filter are classes with
  the source's loops; the flood is a transition system over messages in flight and handlers in
  progress, where check and stamp of a handler are separate steps.
* **The edge cache**. A slice and a map over the same `File` objects. The model keeps the slice's
  backing array, so the shift done by a removal under a running `range` loop is visible.
* **The chunk pipeline**. Rebuffering and split reads over arrays, the two-way redirection with its
  `select`, the cache writer beside it, and the client's file.
* **The load balancer**. Greedy choice and the truncated weighted mean.

Time is an integer in any unit; clock readings, RPC outcomes, map iteration order, random choices and
`select` outcomes are parameters or nondeterministic choices. Each lock-protected handler is one step.

Where the code departs from its intent it is modelled as written, and the exact condition under
which it meets the intent is proved. Flags select the small
corrections: `appendNeighbour` for the component search, `corrected` for the eviction's choice, and
`relocks` (false) for an eviction that does not wait for its own lock. Departures:

* The component search never appends the neighbour it recurses into (`registry/services/graph.go:88-95`),
  so each list is only its root. The number of lists is right all the same, and unification works on roots.
* A failed `GetNeighbours` call leaves a nil map in the graph, and making the graph symmetric panics
  exactly if another responding peer lists that peer.
* The loop over negative filters counts up against a bound that falls, so it fills about half of the
  free slots; it dereferences the connection of a filter's sender without asking whether it is
  a neighbour, so a forwarding call can panic; and with a limit of zero or less the first loop
  contacts every positive neighbour.
* The duplicate check stamps the request before it deletes expired keys, so a request whose own key had
  expired is left without a stamp until its handler stamps it again.
* An expiry pass skips the file after one it removes.
* The eviction never looks at its first candidate and never lowers its running count, so it can free
  too little, or nothing; and it deletes files while it holds the lock that the deletion waits for, so
  an eviction blocks once it has deleted a file, and one that returns has freed nothing.
* Removing a name that is on disk but not indexed slices with index -1. No modelled caller does so: the
  handlers of a deletion ask the index first, and expiry and eviction remove queued files or names that
  are no longer on disk.
* The client's file is never truncated after a restart.

## Model

| member | source | states |
|---|---|---|
| `Reachability.RepresentativesCountComponents` | registry/services/graph.go:64-81 | One node for each component, pairwise unreachable and reaching everything, are as many as there are components. |
| `Reachability.DisconnectedIff` | registry/services/network_monitor.go:52-67 | On a symmetric graph more than one root is found exactly when the graph is disconnected. |
| `Reachability.AddEdgeReachSet` | registry/services/network_monitor.go:81-115 | The reach set of every node after one undirected edge is added, in terms of the reach sets before. |
| `Reachability.AddEdgeAcross` | registry/services/network_monitor.go:81-115 | An edge between two components merges exactly those two and lowers the component count by one. |
| `Reachability.AddEdgeInside` | registry/services/network_monitor.go:81-115 | An edge inside a component changes no reach set and no component. |
| `OverlayGraph.UnvisitedReachSet` | registry/services/graph.go:64-81 | When whole components have been visited, a search restricted to unvisited nodes sees all of the new root's component. |
| `OverlayGraph.Graph.BuildGraph` | registry/services/graph.go:20-58 | For every visiting order: the nodes are exactly the connected live peers whose call ended, edge by edge the graph is what they reported of live peers, made symmetric, and a peer that lists nobody and that nobody lists is a component of its own; the in-place loop panics if and only if a listed peer's call had failed. |
| `OverlayGraph.ListsFailedPeerIff` | registry/services/graph.go:28-57 | The panic condition in terms of the replies alone. |
| `OverlayGraph.FailedNeighbourIsListed` | registry/services/graph.go:28-33 | A concrete input of the panic: two live peers, one listing the other, whose own call fails. |
| `OverlayGraph.Graph.CollectReplies` | registry/services/graph.go:24-37 | A peer is a node exactly when it is connected and alive and its call ended, with its neighbours if the call succeeded and a nil map if it failed. |
| `OverlayGraph.Graph.DropDeadNeighbours` | registry/services/graph.go:39-47 | Every list keeps exactly its live neighbours and no node is lost. |
| `OverlayGraph.Graph.Symmetrise` | registry/services/graph.go:49-57 | The in-place double loop computes the symmetric closure although it writes the maps it reads; it panics exactly when a node with a nil map is listed. |
| `OverlayGraph.OneMoreNode` | registry/services/graph.go:49-57 | Reverse edges written earlier do not change what a later node adds. |
| `OverlayGraph.Graph.Explore` | registry/services/graph.go:84-97 | The recursion marks exactly the nodes reachable from its argument through nodes not yet visited; as written it returns an empty list, corrected it returns each newly marked node but the root once. |
| `OverlayGraph.Graph.FindConnectedComponents` | registry/services/graph.go:64-81 | One list for each component, whose roots represent all components; more than one list exactly when the graph is disconnected; as written each list is its root, corrected it is the root's whole component. |
| `OverlayGraph.CorrectedListsPartition` | registry/services/graph.go:64-97 | With the correction each node is in exactly one list, together with exactly the nodes it reaches. |
| `OverlayGraph.WrittenListsCoverIff` | registry/services/graph.go:88-95 | As written each list is a single root, and the lists cover the nodes exactly when no edge joins two different nodes. |
| `Unification.EffectIsRecorded` | registry/services/network_monitor.go:81-115 | An attempt of which one call took effect leaves an edge, whatever is attempted afterwards. |
| `Unification.AttemptAddsEdge` | registry/services/network_monitor.go:88-110 | On the symmetrised overlay an attempt adds the undirected edge exactly when at least one of its two calls took effect. |
| `Unification.AttemptsJoin` | registry/services/network_monitor.go:81-115 | Any sequence of attempts between two components joins them if one call took effect, and otherwise changes nothing. |
| `Unification.JoinedCount` | registry/services/network_monitor.go:81-115 | Joining two different components takes exactly one from the count and makes them reach each other. |
| `Unification.RoundsChain` | registry/services/network_monitor.go:71-78 | After any rounds over consecutive pairs, the count fell by exactly the number of linked pairs, linked pairs reach each other, unlinked ones do not, and later components are untouched. |
| `Unification.RoundsConnect` | registry/services/network_monitor.go:71-78 | The remaining count is the old one minus the linked pairs, and it is one exactly when every consecutive pair was linked. |
| `Unification.ConnectedIffOneComponent` | registry/services/network_monitor.go:52-67 | A symmetric graph is connected exactly when it has at most one component. |
| `RegistryService.RegistryService.CallBoth` | registry/services/network_monitor.go:88-110 | The first call puts the second peer into the first one's own set and the other way round, each or neither; success is reported exactly when the call that finishes first succeeded, and no other set changes. |
| `RegistryService.SomeReportedIff` | registry/services/network_monitor.go:98-110 | Some attempt between two components is seen to succeed exactly when, for some pair, the call that finishes first succeeds. |
| `Unification.AllHonestIff` | registry/services/network_monitor.go:98-110 | What is assumed of the calls: one that returned without an error did add the neighbour. |
| `RegistryService.RegistryService.UnifyTwoComponents` | registry/services/network_monitor.go:81-115 | Every pair is tried until one attempt is seen to succeed, random pairs after that; success exactly when some attempt was seen to succeed, a reported success means an edge was made, and failure means all pairs were tried. |
| `RegistryService.RegistryService.UnifyNetwork` | registry/services/network_monitor.go:71-78 | One round for each consecutive pair, in order, each only between its two components. |
| `RegistryService.RepairOutcome` | registry/services/network_monitor.go:52-115 | For any neighbour sets with the graph as their topology, the rounds of one repair lower the component count by exactly the linked pairs, and leave it connected exactly if all were linked. |
| `RegistryService.AnsweredTopology` | registry/services/graph.go:20-58 | If every responding peer answers truthfully, the graph built is the symmetrised overlay of the responding peers. |
| `RegistryService.ReportedTopology` | registry/services/graph.go:20-58 | For all replies, the graph built is the topology of the reported relation. |
| `RegistryService.AllLinkedReach` | registry/services/network_monitor.go:52-115 | When every round linked its pair, all connected live peers whose calls ended reach each other, with the reported relation written out. |
| `RegistryService.AnsweredIff` | registry/services/graph.go:24-37 | What it means that every responding peer answered truthfully, in terms of the replies alone. |
| `RegistryService.RegistryService.SolveNetworkPartitions` | registry/services/network_monitor.go:52-67 | Build, search and unify together, for all replies: the panic condition; as written one attempt per pair of components; the component count of the symmetrised graph the registry saw falls by exactly the linked pairs; if every pair was linked, any two connected live peers whose calls ended reach each other; and, when every responding peer answered truthfully, the same for the overlay itself. |
| `RegistryService.RegistryService.PeerEnter` | registry/services/registry_services.go:42-60 | A peer that can be dialled back joins both maps at once and is told neighbours other than itself; one that cannot changes nothing. |
| `RegistryService.RegistryService.FindNeighboursForPeer` | registry/services/network_monitor.go:117-136 | For every random choice the reply holds only other members, and is empty only when there are none. |
| `RegistryService.RegistryService.Heartbeat` | registry/services/registry_services.go:62-84 | A known member is refreshed, an unknown one is admitted only if it can be dialled, and connections and heartbeats keep the same keys. |
| `RegistryService.RegistryService.CheckForDeadPeers` | registry/services/network_monitor.go:19-38 | A member stays exactly when its last heartbeat is at most the threshold older than the previous check; both maps lose the others together, and the check's own instant is recorded. |
| `HeartbeatExpiry.MembersAreRecent` | registry/services/network_monitor.go:19-38 | In every reachable state, with checks at most M apart, no member's last heartbeat is older than threshold + M before the last check. |
| `HeartbeatExpiry.SilentMemberIsGone` | registry/services/network_monitor.go:19-38 | With checks at most M apart, a member last heard from at h is gone once more than threshold + 2M have passed since h. |
| `HeartbeatExpiry.SilentMemberSurvivesIff` | registry/services/network_monitor.go:19-38 | A silent member survives any events exactly when no check was made or its heartbeat is at most the threshold older than the check before the last. |
| `HeartbeatExpiry.SilentMemberSurvivesCheckIff` | load_balancer/services/balancing.go:61-79 | The same with the last two checks named by their places in the run. |
| `HeartbeatExpiry.RecordedCheckIs` | registry/services/network_monitor.go:37-38 | The recorded instant is that of the last check of the run, or the one recorded before it. |
| `HeartbeatExpiry.LastHeardIs` | registry/services/registry_services.go:62-84 | What is recorded of a member is the instant of its last heartbeat. |
| `HeartbeatExpiry.PromptMemberStays` | load_balancer/services/balancing.go:61-79 | A member stays if from one heartbeat on every check finds one at most the threshold older than the check before it. |
| `RequestCache.RequestCache.AddRequestInCache` | edge/peer/file_request_cache.go:40-45 | Stamps the request and changes nothing else. |
| `RequestCache.RequestCache.IsRequestAlreadyServed` | edge/peer/file_request_cache.go:47-70 | True exactly when the same request id and file name, with any forwarder, were stamped at most the time to live ago; which keys remain, including the deletion of a key that was just inserted, and with which stamps. |
| `RequestCache.StampPersists` | edge/peer/file_request_cache.go:40-70 | Nothing that happens within the time to live removes or ages a stamp. |
| `RequestCache.AddBlocksDuplicates` | edge/peer/file_request_cache.go:40-70 | After a request is added, every duplicate checked within the time to live is recognised. |
| `RequestCache.CheckRecordsIff` | edge/peer/file_request_cache.go:62-67 | A passed check leaves the request recognisable exactly when its own key was not in the table. |
| `RequestCache.CheckBlocksDuplicates` | edge/peer/file_request_cache.go:47-70 | In that case the check alone keeps every duplicate out for the time to live. |
| `RequestCache.TwoChecksCanPass` | edge/peer/file_request_cache.go:62-67 | Otherwise two checks of the same request can pass at one instant. |
| `RequestCache.HandlingsAreApart` | edge/peer/peer_services.go:98-140 | Two handlings at one peer that answer or forward the same request are more than the time to live apart, whoever forwarded them, each handler taken as one step; for handlers that interleave between check and stamp, `RequestCache.CheckRecordsIff` and `RequestCache.CheckBlocksDuplicates` say when this still holds. |
| `Neighbours.AdjacentPeers.Ping` | edge/peer/peer_services.go:42-60 | An unknown sender that can be dialled is put back among the neighbours; nothing else changes; the entry moves as the event of a received ping says. |
| `Neighbours.AdjacentPeers.AddNeighbour` | edge/peer/peer_services.go:81-85 | The peer is added with no missed pings exactly when it can be dialled. |
| `Neighbours.AdjacentPeers.NotifyBloomFilter` | edge/peer/peer_services.go:62-79 | A filter that decodes is recorded even for a peer that is no neighbour. |
| `Neighbours.AdjacentPeers.TimeoutAction` | edge/peer/network.go:62-82 | One missed ping more, or neighbour and filter dropped together when the limit is reached; the entry moves as the event of an unanswered ping says. |
| `Neighbours.AdjacentPeers.PingFunction` | edge/peer/network.go:30-60 | A round over the copied table without other handlers in between: who stays, with which counter, and which filters go. |
| `Neighbours.DroppedIffMissedInARow` | edge/peer/network.go:30-82 | Over any number of ping rounds a neighbour is dropped exactly when it missed the limit of pings in a row; until then its counter is the current row of misses. |
| `Neighbours.DropsAtLimit` | edge/peer/network.go:62-82 | From a fresh counter, whatever pings are received meanwhile, unanswered pings are counted, and the one that reaches the limit drops the neighbour. |
| `Neighbours.CounterIsMissesSinceReset` | edge/peer/network.go:30-82 | Over any history with `AddNeighbour` calls and received pings in between, drops and re-entries included, a neighbour's counter is the number of misses since it was last zero, and below the limit. |
| `Neighbours.LimitReachedDrops` | edge/peer/network.go:62-82 | From any reset in any history, unanswered pings are counted and the one that reaches the limit drops the neighbour. |
| `Neighbours.DroppedIffLimitReached` | edge/peer/network.go:62-82 | Over any history, other handlers in between included, an unanswered ping drops a neighbour exactly when it is the last miss allowed since the counter was last zero. |
| `Neighbours.RoundSymmetrises` | edge/peer/network.go:30-60 | A full round of successful pings in any interleaving brings the neighbour relation to exactly its symmetric closure. |
| `Neighbours.RoundGoesOn` | edge/peer/network.go:30-60 | In a round any peer may copy its table, and any peer that has copied it may ping a neighbour that is left, at any time. |
| `LookupForwarding.LookupPeer.ContactNeighbourForFileDownload` | edge/peer/peer.go:279-287 | Sends to anyone but the forwarder; panics exactly for a peer without a connection. |
| `LookupForwarding.LookupPeer.FindFalseAdjacentsFilter` | edge/peer/peer.go:269-277 | Exactly the peers whose recorded filter denies the file, each once. |
| `LookupForwarding.LookupPeer.ContactPositive` | edge/peer/peer.go:230-248 | Only neighbours other than the forwarder whose filter does not deny the file, all of them below the limit, exactly the smaller of their number and the limit; all of them if the limit is not positive. |
| `LookupForwarding.LookupPeer.ContactComplement` | edge/peer/peer.go:250-266 | For every order of random draws: exactly the drawn candidates but the forwarder are contacted, up to where the loop ends or the first stranger, and it panics exactly when a stranger is drawn before the loop ends. |
| `LookupForwarding.LookupPeer.NeighboursFileLookup` | edge/peer/peer.go:220-267 | One forwarding call stamps the request first, contacts positive neighbours up to the limit and then the drawn candidates, all pairwise distinct neighbours other than the forwarder, with the peer itself as the new forwarder; with two slots and a neighbour that sent a filter someone is contacted; it panics exactly when the draws meet a stranger in the free slots. |
| `LookupForwarding.LookupPeer.SomeoneIsContacted` | edge/peer/peer.go:230-266 | A connected neighbour with any filter is enough for a call with two slots to contact someone. |
| `LookupForwarding.LookupPeer.FileLookup` | edge/peer/peer_services.go:98-140 | The receiving step: ignored exactly when the same request was stamped within the time to live, else answered if cached, forwarded if the TTL exceeds one, and ended otherwise; answered and forwarded requests are stamped; the messages it sends carry TTL - 1; it panics exactly when it forwards and the forwarding call panics. |
| `LookupForwarding.HalfIsFilled` | edge/peer/peer.go:253-265 | Without a panic the rounded-up half of the slots is filled when candidates suffice and the forwarder is not drawn, the rounded-down half when it is. |
| `LookupForwarding.FillsSlotsIff` | edge/peer/peer.go:250-266 | Without a panic the loop contacts as many candidates as the slots allow exactly when there is at most one slot or the candidates besides the forwarder are no more than half of the slots (rounded up, or down when the forwarder is drawn). |
| `LookupForwarding.LookupPeer.HalfOfFreeSlots` | edge/peer/peer.go:230-266 | The number of neighbours a whole forwarding call contacts, in terms of the positive neighbours, the free slots and the draws. |
| `LookupForwarding.SomeDrawPanicsIff` | edge/peer/peer.go:253-265 | Some order of draws panics exactly when there is a free slot and a stranger among the candidates. |
| `LookupForwarding.EveryDrawPanicsIff` | edge/peer/peer.go:253-265 | Every order panics exactly when there is a stranger and the safe candidates are fewer than the draws the loop makes. |
| `LookupForwarding.LookupPeer.SomeForwardingPanicsIff` | edge/peer/peer.go:220-287 | Some random choice of a forwarding call panics exactly when the positive neighbours leave a slot free and a peer without a connection, other than the forwarder, has sent a negative filter. |
| `LookupForwarding.LookupPeer.EveryForwardingPanicsIff` | edge/peer/peer.go:220-287 | Every random choice panics exactly when, besides, the connected candidates cannot use up half of the free slots. |
| `LookupForwarding.StrangersFilterPanics` | edge/peer/peer_services.go:62-79 | A concrete case: after one accepted `NotifyBloomFilter` from a peer that is no neighbour, every forwarding call for a file missing from that filter panics. |
| `LookupFlood.AtomicHandlerRefines` | edge/peer/peer_services.go:98-140 | The handler taken as one step is a receipt followed by a finish of the protocol, with the same stamps and messages. |
| `LookupFlood.HandleMessage` | edge/peer/peer_services.go:98-140 | The handler of a receiving peer makes allowed steps of the protocol, ends with the protocol's stamps, and puts in flight exactly what it sends. |
| `LookupFlood.StartLookup` | edge/peer/peer.go:209-216 | The originator's own forwarding call leaves an initial state of the protocol. |
| `LookupFlood.RunGoesOn` | edge/peer/peer.go:220-267 | Runs start in every initial state and go on with every allowed step. |
| `LookupFlood.AnythingElseIsAllowed` | edge/peer/file_request_cache.go:40-70 | Beside the handlers, time may pass, other requests may be stamped and messages may be lost, at any time, and what that does. |
| `LookupFlood.MessagesStayNear` | edge/peer/peer.go:220-267 | In every reachable state each message's TTL t lies in 1..REQUEST_TTL and its receiver is at most REQUEST_TTL - t + 1 hops from the originator. |
| `LookupFlood.WithinHopsIffWalk` | edge/peer/peer.go:220-267 | Within n hops means at the end of a walk of at most n edges from the originator. |
| `LookupFlood.PotentialNeverGrows` | edge/peer/peer.go:220-267 | Deliveries so far plus all that messages and handlers can still cause never grows along a run, whatever the filters do. |
| `LookupFlood.WeightIsPowerSum` | edge/peer/peer.go:220-267 | K times the deliveries one message can cause is K + K^2 + ... + K^TTL. |
| `LookupFlood.FloodIsBounded` | edge/peer/peer.go:220-267 | Over every topology a flood makes at most K + K^2 + ... + K^REQUEST_TTL deliveries and twice as many protocol steps. |
| `LookupFlood.ShippedFloodBound` | edge/peer/peer.go:220-267 | With the shipped constants a flood makes at most 12207030 deliveries. |
| `LookupFlood.CheckInWindow` | edge/peer/file_request_cache.go:47-70 | Inside one time to live a check recognises the request exactly when its peer stamped it before. |
| `LookupFlood.WindowedFloodIsSparse` | edge/peer/peer_services.go:98-140 | A flood inside one time to live passes each peer's check at most once, never the originator's, and sends at most K messages per peer. |
| `CachedFiles.AgreeAfterRemoval` | edge/cache/cache.go:224-239 | Removing an entry from queue and map keeps them in agreement. |
| `CachedFiles.AgreeAfterAppend` | edge/cache/cache.go:120-138 | Inserting a new object into both keeps them in agreement. |
| `CachedFiles.AgreeAfterSwap` | edge/cache/cache.go:35-37 | The sort's swap keeps them in agreement and permutes the queue. |
| `EdgeCache.Cache.constructor` | edge/cache/cache.go:47-52 | The empty cache is consistent. |
| `EdgeCache.Cache.IncrementPopularity` | edge/cache/cache.go:108-118 | Raising the popularity through the map raises that of exactly the queue entry of that name. |
| `EdgeCache.Cache.IsFileInCache` | edge/cache/cache.go:58-65 | True exactly when the queue holds the file, whose popularity then rises by one. |
| `EdgeCache.Cache.GetFileSize` | edge/cache/cache.go:67-76 | The queue search finds the size of the object the map holds, or -1. |
| `EdgeCache.Cache.InsertFileInQueue` | edge/cache/cache.go:120-138 | A new file becomes one shared object with popularity 1 at the end of the queue; a present one gains one; queue and map still agree. |
| `EdgeCache.Cache.GetIndex` | edge/cache/cache.go:331-342 | The file's position; -1 without an error for a name not in the map; an error exactly when the map has it and the queue does not. |
| `EdgeCache.Cache.ShiftDown` | edge/cache/cache.go:238-238 | The queue loses one entry in place, and the backing array behind it keeps its old entries. |
| `EdgeCache.Cache.RemoveFileFromQueue` | edge/cache/cache.go:224-239 | Exactly the named entry leaves queue and map; panics exactly for a name not in the map. |
| `EdgeCache.Cache.RemoveFileFromCache` | edge/cache/cache.go:141-175 | Disk first, then the index; a file that is missing on disk or cannot be deleted stays indexed, so does one deleted before a failing unlock, and one that is deleted but was not indexed makes the call panic. |
| `EdgeCache.Cache.RemoveIfCached` | edge/peer/peer_services.go:35-37 | The handlers' guarded removal never panics, and takes exactly that file from index and disk, as far as the file system lets it. |
| `EdgeCache.Cache.DeleteExpiredFiles` | edge/cache/cache.go:189-198 | Every file that leaves was older than the time to deletion, on disk and deletable; all others stay, the young ones in order; if there is one to remove at least one leaves; exactly what leaves the index leaves the disk; and the loop over the shifted slots leaves exactly what the list function `Pass` says. |
| `CacheExpiry.PassRunIsPass` | edge/cache/cache.go:189-198 | Reading all slots of the shifted array amounts to `Pass`: skip after each removal, and the last entry is read again at the end. |
| `CacheExpiry.PassIsTrimmedSkipPass` | edge/cache/cache.go:189-198 | The pass is the skipping pass, with the last entry dropped if it is still there and expired. |
| `CacheExpiry.PassRemovesHalf` | edge/cache/cache.go:189-198 | A pass removes only expired files, keeps the order of the others, and removes at least half of the expired ones. |
| `CacheExpiry.PassByAge` | edge/cache/cache.go:189-198 | The same by age: only files older than the time to deletion leave, younger ones stay in order, and at least one leaves if one can. |
| `CacheExpiry.PassesClear` | edge/cache/cache.go:177-187 | With a fixed clock n passes leave exactly the files that are not too old or cannot be deleted, once 2^n exceeds the number of files to remove. |
| `CacheExpiry.AsManyPassesClear` | edge/cache/cache.go:177-187 | As many passes as there are files are enough. |
| `CacheExpiry.OnePassClearsIff` | edge/cache/cache.go:189-198 | One pass clears everything exactly when no two expired files are adjacent, except possibly the last two. |
| `CacheExpiry.MiddleOfThreeSurvives` | edge/cache/cache.go:189-198 | Three expired files: the middle one survives a pass. |
| `EdgeCache.Cache.SortByPopularity` | edge/cache/cache.go:248-248 | A permutation of the queue with rising popularity, seen through the shared objects; agreement is kept. |
| `CacheEviction.SelectLeastPopular` | edge/cache/cache.go:266-273 | The loop collects exactly the candidates, and their total size. |
| `CacheEviction.CandidatesAreShortest` | edge/cache/cache.go:266-273 | The candidates reach the requirement whenever the whole queue does, and no shorter prefix does. |
| `CacheEviction.CandidatesArePrefix` | edge/cache/cache.go:266-273 | The candidates are a nonempty prefix, all of the queue if it is too small, and no shorter prefix is large enough. |
| `EdgeCache.ChosenAreLeastPopular` | edge/cache/cache.go:248-292 | No chosen file is more popular than a file behind the candidates. |
| `CacheEviction.SpareAsWritten` | edge/cache/cache.go:280-292 | The sparing loop yields the written choice. |
| `CacheEviction.ChosenExactly` | edge/cache/cache.go:284-292 | A candidate is deleted exactly when it is not the first and its own size exceeds the surplus. |
| `CacheEviction.WrittenFreesEnoughIff` | edge/cache/cache.go:257-300 | From a queue that is large enough, the written choice frees what is required exactly when nothing is required, or there are two or more candidates and the first one together with every other one no larger than the surplus fits in the surplus. |
| `CacheEviction.LastCandidateIsChosen` | edge/cache/cache.go:266-292 | Of two or more candidates the last one always exceeds the surplus and is deleted. |
| `CacheEviction.LargeFirstCandidateFails` | edge/cache/cache.go:284-292 | A first candidate larger than the surplus is spared all the same, and too little is freed. |
| `CacheEviction.WrittenChoiceEmptyIff` | edge/cache/cache.go:266-292 | The written choice is empty exactly when there is at most one candidate. |
| `CacheEviction.AsWrittenSparesASingleCandidate` | edge/cache/cache.go:284-292 | A single file that would be large enough is never deleted. |
| `CacheEviction.SpareCorrected` | edge/cache/cache.go:257-300 | The corrected choice frees at least the requirement if the candidates allow it, and dropping any chosen file would fall below it. |
| `CacheEviction.ChooseFiles` | edge/cache/cache.go:257-300 | Either choice over the whole queue: distinct candidates only; corrected, enough and irredundant whenever the cached total allows. |
| `CacheEviction.RemainingOneFewer` | edge/cache/cache.go:294-297 | Deleting one more chosen file takes exactly its entry from what is left, in order. |
| `EdgeCache.Cache.DeleteFiles` | edge/cache/cache.go:294-297 | Without the lock: exactly the chosen files that can be deleted leave queue, map and disk, and the space freed is exactly their size. |
| `EdgeCache.Cache.DeleteUnderLock` | edge/cache/cache.go:261-297 | The deletion loop as written, with the lock held: it blocks exactly when some chosen file can be deleted, with that file gone from the disk and still indexed, and otherwise changes nothing. |
| `EdgeCache.Cache.ChooseAndDeleteFiles` | edge/cache/cache.go:257-300 | Fails exactly on an empty queue; what was chosen; as written it blocks exactly when a chosen file can be deleted and frees nothing otherwise; without the second locking, what is left and the space freed. |
| `EdgeCache.Cache.FreeSpaceForInsert` | edge/cache/cache.go:243-253 | Expired files go first; eviction exactly when the free memory measured then is too small, from the sorted queue and among its candidates; failure exactly when there is nothing left to evict; when it blocks; and, corrected and without the second locking, the required memory is freed whenever the unexpired files allow it and can be deleted. |
| `EdgeCache.Cache.WriteChunksInCache` | edge/cache/cache.go:359-412 | Succeeds exactly for a nonempty stream without errors and file system faults; then the file holds the concatenation of all bodies, and otherwise what each failure leaves on disk. |
| `EdgeCache.WriteSucceedsOneMore` | edge/cache/cache.go:359-412 | A stream is taken message by message: never an empty one, never past an error or a failing write. |
| `EdgeCache.Cache.InsertFileInCache` | edge/cache/cache.go:79-105 | A new file enters the index exactly when the call does not block, there was room or something to evict, and the whole stream was written, and its bytes are the concatenation of all chunks; it blocks exactly when room is missing and the eviction deletes a file under its own lock; agreement is kept. |
| `ChunkStreams.DownloadStream.WriteAndRedirectBuffer` | edge/s3_boundary/s3_streams.go:95-108 | A fresh copy of the buffer is queued for the client and, while cacheable, for the cache. |
| `ChunkStreams.DownloadStream.WriteAt` | edge/s3_boundary/s3_streams.go:57-85 | Queued messages plus buffer are all bytes written so far; queued messages are fresh, exactly one flush size long and never touched again; the exact condition for the slice panic, impossible up to two flush sizes. |
| `ChunkStreams.DownloadStream.Flush` | edge/s3_boundary/s3_streams.go:87-93 | After the last message the client queue is exactly the input; only that message may be shorter. |
| `ChunkStreams.FlatOfEqualChunks` | edge/s3_boundary/s3_streams.go:95-108 | Equal chunks are equal bytes: the cache's queue is a prefix of the client's. |
| `ChunkStreams.SendFromS3` | edge/s3_boundary/s3_interface.go:37-94 | Without an error the client gets exactly the concatenation of the parts in chunks of the flush size; when the download fails or the client returned, whole chunks of a prefix and then one error; the cache gets the same chunks until its side returned, and the error whenever the file was cacheable at first; no panic for parts up to the flush size. |
| `ChunkStreams.UploadStream.Read` | edge/s3_boundary/s3_streams.go:23-55 | Bytes returned plus what is left are what was left before; end of file or an error comes only after every byte; no read exceeds its destination or touches the rest of it. |
| `ChunkStreams.ReadRepeatedly` | edge/s3_boundary/s3_streams.go:23-55 | For any sequence of destination sizes the bytes read plus the rest are the whole input, and all of it was read once the end is reported. |
| `StreamRedirection.RunsKeepChannels` | edge/server/stream_redirection.go:14-82 | For every sequence of select outcomes the main channel holds exactly the received chunks in order plus at most one final error; the cache channel too, while it is cacheable. |
| `StreamRedirection.KeptNext` | edge/server/stream_redirection.go:20-66 | The received chunks are those of the `Received` events, in order; the kept ones stop where the cache is given up. |
| `StreamRedirection.ChannelsAreToldBy` | edge/server/stream_redirection.go:14-82 | The channels and the ending of a loop, from its events alone. |
| `StreamRedirection.RedirectionChannels.RcvAndRedirectChunks` | edge/server/stream_redirection.go:14-82 | The loop stops at the first end of stream, stream error or main error; the main channel gets exactly the chunks that arrived until then plus the stream's error, the cache channel those that arrived before it was given up plus the error that ended the loop; each channel is closed once, and the returned error is that of the last event or of the main side. |
| `StreamRedirection.RunsKeepOk` | edge/server/stream_redirection.go:14-82 | In every interleaving of loop and cache writer, the file holds the chunks consumed so far, and the cache is given up only after its writer failed. |
| `StreamRedirection.SavedMeansComplete` | edge/cache/cache.go:359-412 | In every interleaving a file the writer saved holds exactly all chunks that arrived, and the last event was the regular end of the stream. |
| `StreamRedirection.TransferGoesOn` | edge/cache/cache.go:359-412 | Runs go on with every allowed step, and a writer without faults takes each chunk, refuses an error, and saves at the close. |
| `StreamRedirection.RunIsTurns` | edge/server/stream_redirection.go:14-82 | In every interleaving the redirecting side is a run of the loop over the events so far. |
| `StreamRedirection.ErrorFreeCacheStreamIsComplete` | edge/server/stream_redirection.go:14-82 | A closed, error-free cache channel that was not given up carries the complete stream, as `InsertFileInCache` takes it. |
| `ClientReassembly.RedirectStreamToClient` | edge/server/stream_redirection.go:84-99 | The client is sent the first messages, numbered from 0, all of them exactly when there is no error and no send fails. |
| `ClientReassembly.WriteChunks` | client/controller/FileServiceController.py:41-52 | Fails exactly when the chunks are not those of some attempts each numbered from 0, at the first chunk whose number is neither 0 nor one more than the one before; everything before it is written, attempt over attempt. |
| `ClientReassembly.NumberedIffAttempts` | client/controller/FileServiceController.py:41-52 | A numbering is accepted exactly when the chunks are those of some attempts. |
| `ClientReassembly.ReplayAttempt` | client/controller/FileServiceController.py:41-52 | One attempt writes its concatenation over the start of the file and leaves the rest. |
| `ClientReassembly.AttemptsOverlay` | client/controller/FileServiceController.py:41-52 | Any attempts in a row are accepted, and leave each one written over what was there. |
| `ClientReassembly.LastAttemptWinsIff` | client/controller/FileServiceController.py:41-52 | The file ends as the last attempt exactly when no attempt before it was longer. |
| `ClientReassembly.RetriesReassemble` | client/controller/FileServiceController.py:41-52 | After any failed attempts that delivered prefixes of the content in any chunking, one complete attempt leaves exactly the content. |
| `ClientReassembly.DownloadFromS3` | edge/server/server_services.go:185-195 | S3 adapter, redirection and client composed: the client's file always holds a prefix of what S3 delivered, all of it when no stage reports an error, and no stage does when none of its inputs fails. |
| `CachedTransfers.ReceiveIntoCache` | edge/server/stream_redirection.go:14-82 | Redirection and cache insertion composed: a newly indexed file holds exactly all chunks that arrived, and the stream came to its regular end, provided the writer reports an error only if it did not write everything. |
| `CachedTransfers.DownloadIntoCache` | edge/server/server_services.go:185-195 | S3 adapter and cache insertion composed, under the same proviso: a newly indexed file holds exactly what S3 delivered, and the download did not fail. |
| `CachedTransfers.SavedIsWritten` | edge/cache/cache.go:359-412 | What the interleaved writer saved is what the insertion's writer leaves on success from the same channel. |
| `CachedTransfers.StaysCacheable` | edge/server/stream_redirection.go:14-82 | The cache is given up only after its writer returned an error. |
| `ClientReassembly.ShorterContentKeepsATail` | client/controller/FileServiceController.py:41-52 | A longer attempt at other content leaves its tail behind. |
| `ClientReassembly.GetChunks` | client/controller/FileServiceController.py:6-18 | The pieces read concatenate to the file, none is empty and only the last may be shorter than the chunk size. |
| `LoadBalancer.BalancingServiceServer.PickEdgeServer` | load_balancer/services/balancing.go:81-108 | For every map order a server of minimum load is picked and only its load grows, by one; no server exactly for the empty map. |
| `LoadBalancer.BalancingServiceServer.GetEdge` | load_balancer/services/balancing_services.go:30-51 | A request id is used up exactly by answered requests, and ids only grow. |
| `LoadBalancer.BalancingServiceServer.NotifyJobEnd` | load_balancer/services/balancing_services.go:53-67 | Only that server's load falls, and never below zero. |
| `LoadBalancer.BalancingServiceServer.Heartbeat` | load_balancer/services/balancing_services.go:85-108 | A new server takes over the reported load, a known one the integer nearest to the weighted mean towards zero; both maps keep equal keys, and the instant is recorded. |
| `LoadBalancer.BalancingServiceServer.CheckForDeadServers` | load_balancer/services/balancing.go:61-79 | A server stays exactly when its last heartbeat is at most the threshold older than the previous check; the others leave both maps, and no load changes. |
| `LoadBalancer.WeightedBetween` | load_balancer/services/balancing_services.go:97-103 | The averaged load lies between the recorded and the reported one, truncation included. |
| `LoadBalancer.LoadFalls` | load_balancer/services/balancing_services.go:97-103 | A load above the report falls strictly with every heartbeat. |
| `LoadBalancer.LoadStopsIff` | load_balancer/services/balancing_services.go:97-103 | A load below the report stays put exactly when the weighted gap is less than one. |
| `LoadBalancer.ReportsApproach` | load_balancer/services/balancing_services.go:97-103 | Under constant reports the load never leaves the interval, and each heartbeat brings it nearer until it stops for good. |
| `LoadBalancer.ReportsSettle` | load_balancer/services/balancing_services.go:97-103 | After as many heartbeats as the first distance the load is settled: at the report from above, at a weighted gap below one from below. |
| `LoadBalancer.ShippedWeightError` | load_balancer/services/balancing_services.go:97-103 | With the shipped weight 0.5 the final error is at most one. |
| `LoadBalancer.PicksStayBalanced` | load_balancer/services/balancing.go:81-108 | Over any run of picks the total grows by one per pick and the spread never exceeds the larger of its first value and 1. |
| `LoadBalancer.NearlyEqualLoads` | load_balancer/services/balancing.go:81-108 | Loads within one of each other are the floor or the ceiling of their mean. |
| `LoadBalancer.PicksFromZero` | load_balancer/services/balancing.go:81-108 | From all zeros k picks over n servers leave every load at floor(k/n) or ceil(k/n). |
| `LoadBalancer.PickRepeatedly` | load_balancer/services/balancing.go:81-108 | A run of picks on the balancer itself keeps the loads as close together as they were, or brings them within one. |
| `LoadBalancer.PickFromZero` | load_balancer/services/balancing.go:81-108 | The same from all zeros: floor or ceiling of the mean. |
| `LoadBalancer.ReportRepeatedly` | load_balancer/services/balancing_services.go:85-108 | A run of heartbeats with one report on the balancer itself: the load never leaves the interval and settles at the report, or less than a weighted gap of one under it. |

## Left out

- gRPC, net/rpc, UDP, the AWS SDK, Redis, protobuf code, the file system, `flock`, `Statfs` and environment parsing: only their outcomes appear, as parameters.
- Bloom filter internals: a filter is an arbitrary fixed test.
- Mutexes, data races and channel blocking: handlers are atomic, and freedom from deadlock is not claimed. The one wait that is modelled is that of an eviction for the lock it holds (edge/cache/cache.go:261, 296, 225); that the lock then stays held for good is not.
- One clock reading is used for each atomic step, and the clock does not go back.
- `RegistryService.RegistryService.SolveNetworkPartitions`: says what happens to the overlay itself only when every responding peer answers truthfully and the overlay does not change between the building of the graph and the unification; for the graph the registry saw it holds for all replies.
- `RequestCache.HandlingsAreApart`: takes the whole handler as one step, while the source locks the check and the stamp separately; `LookupFlood` keeps the two steps apart.
- `Neighbours.AdjacentPeers.PingFunction`: the round is one step; histories with other handlers between the pings are those of `Neighbours.CounterIsMissesSinceReset`.
- `ChunkStreams.SendFromS3`: the downloader writes each part once and in order; its own retries, which would write a part again at the same offset, are not modelled.
- `ClientReassembly.DownloadFromS3`: the stages run one after the other, as first-in-first-out channels allow; a client that returns early appears as a signal.
- `HeartbeatExpiry.SilentMemberIsGone`: assumes checks at most M apart, as the timers intend; nothing in the code enforces it.
- `LookupFlood.WindowedFloodIsSparse`: a statement about floods that stay inside one time to live, the window in which the duplicate filter promises anything; `LookupFlood.FloodIsBounded` needs no such bound.
- `LookupFlood.FloodIsBounded`: for a positive contact limit, as shipped; with a limit of zero or less the forwarding loop contacts every positive neighbour, which `LookupForwarding.LookupPeer.ContactPositive` states.
- `EdgeCache.Cache.DeleteExpiredFiles`: which deletions fail is fixed for one pass, and a failing unlock after a deletion is left to `EdgeCache.Cache.RemoveFileFromCache`.
- `EdgeCache.Cache.SortByPopularity`: some sort with the result `sort.Sort` promises, not the algorithm of Go's library; the order of equally popular files is left open except by the model's own choice, and no result depends on it.
- `EdgeCache.Cache.InsertFileInCache`: `retrieveFreeMemorySize` and `IsFileCacheable` are parameters of the caller; no insertion of the same file happens between the first test and the last.
- `ActivateCacheRecovery`: with queue and map in agreement the error that makes a removal call it cannot occur; its other call, at start-up (edge/cache/cache.go:178), is not modelled.
- `LoadBalancer.BalancingServiceServer.Heartbeat`: the weighted mean is over reals with truncation, for weights in (0,1]; floating-point rounding is not modelled.
- `LoadBalancer.BalancingServiceServer.GetEdge`: the sequence number starts non-negative and does not wrap, and the unlocked read of it by concurrent requests is not modelled.
- "Cached implies stored on S3" and the freshness of a cached file after a second upload: the code does not provide them. An error the main channel returns after the loop cannot reach the cache (edge/server/stream_redirection.go:61-70).
- The delete flood: not modelled, and nothing is claimed about its length or repetitions; `DeleteFile` never consults the duplicate filter (edge/peer/peer_services.go:32-40).
- `downloadFromOtherEdge` and `readFromLocalCache`: the first sends on channels already closed, so an attempt ends at the close; the second queues an uncopied buffer.
- Start-up, login, the Python user interface, S3 fallback, plotting, scripts and Docker files.
