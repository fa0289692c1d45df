# AETHER: a verified model

This project models the parts of AETHER that hold state and prove what they are for:

- **Ring meshes** (`StableOrder`, `Ring`, `Links`, `CappedRing`, `Search`, `Mailbox`, `Broadcast`, `GossipMesh`,
  `RingSimulator`, `ZoneRing`). Nodes sit on a circle and link to their ring-local neighbours and to a few others. Three
  simulators add, remove, repair, shuffle and evict. Whatever the run, links stay mutual, within the degree cap where
  there is one, and ring-local pairs stay linked, so the mesh stays connected; repair work gives up at most two other
  links for each ring-local one. Gossip reaches exactly the nodes within 30 hops, and stored data is found again exactly
  if one of its holders is left with few enough nodes nearer to the topic.
- **Flooding** (`GossipActor`, `Flooding`). The relay actor of the cache node, and a network of such actors with messages
  in flight: coverage when nothing is in flight, exactly one broadcast and one stored copy per node, at most two messages
  per link.
- **Threads** (`TieBreak`, `ThreadDag`, `ThreadWeights`, `ThreadDagManager`). The queue-driven topological sort of a
  thread's posts equals one canonical order, whatever the order of arrival; cumulative weights keep threads acyclic.
- **Neighbour eviction** (`Eviction`, `PeerManager`). Who is dropped when too many neighbours are verified, and who is safe.
- **Tracker** (`Tracker`, `TrackerInvariant`, `TrackerRuns`, `TrackerServer`). Connections, counts per address, sessions and
  one-shot nonces as a state machine over every interleaving of events, and the event handlers against it.
- **Wire formats** (`Bytes`, `Chunked`, `ChunkedStream`, `PowPolicy`, `Preimages`, `Onion`). Chunk reassembly, the
  proof-of-work test and search, unambiguous preimages, and onion circuits.
- **Budgets, caches, zones** (`RateLimiter`, `SeenCache`, `Zones`).

`run_gossip_mailbox.ts` and `run_zone_ring.ts` carry the same code for links under a degree cap. Here it is one class,
`CappedMesh.CappedRing`, that both meshes hold.

Ids of nodes, peers and sockets are natural numbers handed out in insertion order, so ties in a stable sort fall to the
lower id. A record of several fields kept in a Map is one map per field. Random choices are nondeterministic: where a
contract has to name a choice, the method returns it as a ghost value. Clocks are numbers passed in. Hashes, sealed boxes
and decoders are function parameters with the laws the code needs. `Wrappers` and `Sets` hold an option type and facts
about sizes of sets.

Some promises turned out to hold only under a condition, which the model states exactly:

- The tie-breaking string of a thread sorts by time only below 10^15 (`TieBreak.TieKeyIsByTimeIff`).
- Chunk counters are two bytes wide, so payloads above 65535 * 4096 bytes are sent but never put together
  (`Chunked.ArrivesIff`).
- `OnionRouter` wraps circuits of up to four hops and its comments speak of three, but `OnionCircuit.relay` passes on
  nothing but a sealed exit layer and nothing back or to itself. A wrapped circuit gets through exactly if it has one hop,
  or two and the exit is neither the originator nor the guard (`Onion.GetsThroughIff`, `Onion.SendAlong`). The circuits
  that `OnionCircuit` builds itself meet this, as its choice of an exit leaves out both.
- The zone simulator's reach rate counts an author from the zone among the reached but not among the expected. It exceeds
  one exactly if the author is a member with company and every member was reached; otherwise it is at most one, and one
  if nobody is expected (`ZoneMesh.RateExceedsOneIff`).
- The cap per network group cancels out of the eviction order (`Eviction.CapDoesNotMatter`).
- The size bound of `SeenCache` holds in every run that adds no empty id (`SeenPackets.BoundedWithoutEmptyIds`). It is
  broken exactly if the empty id comes in and as many new ids as the bound allows follow before a sweep comes too late
  for it (`SeenPackets.BoundBrokenIff`); from then on the cache grows without limit (`SeenPackets.EmptyIdBreaksTheBound`).
  All callers in the repository pass ids derived by a hash, so an empty id can come in only through the public method.
- With exactly one node, `RingMeshSimulator` reports neither an intact ring nor full connectivity
  (`RingSimulator.CircleIffNotAlone`).
- Data stored on the k nearest nodes survives departures but not every arrival (`MailboxStore.ArrivalCanHideData`); after
  any run it is found again exactly if a holder is left with fewer than k nodes nearer to the topic
  (`MailboxStore.FoundAgainIff`, `GossipMesh.RingMeshWithGossip.PutRunGet`).

The comment above `getSortedPosts` also speaks of weight as a criterion; the code sorts by time and id only, and so does
the model.

## Model

| member | source | states |
|---|---|---|
| `GossipMesh.Simulate` | simulation/src/run_gossip_mailbox.ts:31-334 | every run of joins, departures, repairs, gossip, puts and gets leaves links mutual, loop-free and within the degree cap; if the cap covers the ring-local links, all ring-local pairs are linked, and with at least one local link the mesh is connected |
| `GossipMesh.RingMeshWithGossip.constructor` | simulation/src/run_gossip_mailbox.ts:50-54 | an empty mesh satisfies the invariant |
| `Ring.LocalNodes` | simulation/src/run_gossip_mailbox.ts:68-80 | the loop over wrapped indices finds exactly the nodes within ceil(localLinks/2) ring steps; the other two simulators have the same loop |
| `CappedMesh.CappedRing.Connect` | simulation/src/run_gossip_mailbox.ts:82-92 | refused exactly for a full end, a self-link or an absent node; otherwise the link is there in both directions and nothing else changed |
| `CappedMesh.CappedRing.ConnectLocal` | simulation/src/run_gossip_mailbox.ts:94-113 | which of the early exits is taken and what it leaves, that no ring-local link is lost, that with a sufficient cap a ring-local pair always ends up linked, and that otherwise one of the two is full of ring-local links |
| `CappedMesh.CappedRing.LinkLocals` | simulation/src/run_gossip_mailbox.ts:140-144 | the node is linked to each ring-local node, except where one of the two is full of ring-local links, which a sufficient cap rules out; only such links are new, each costs at most two others, and a link is lost only where an end has more than fit besides its ring-local ones |
| `CappedMesh.CappedRing.RepairEach` | simulation/src/run_gossip_mailbox.ts:178-184 | the same for a list of nodes in turn |
| `CappedMesh.CappedRing.FillFar` | simulation/src/run_gossip_mailbox.ts:146-158 | as many far-away nodes with a free slot as asked for or as there are |
| `CappedMesh.CappedRing.EvictNonLocal` | simulation/src/run_gossip_mailbox.ts:115-127 | succeeds exactly if some link is not ring-local, and cuts one such link at both ends |
| `GossipMesh.RingMeshWithGossip.AddNode` | simulation/src/run_gossip_mailbox.ts:129-160 | the newcomer is linked to all ring-local nodes, at most two other links given up for each, then to as many free far-away nodes as the cap and longRangeLinks allow; an intact ring stays intact |
| `GossipMesh.RingMeshWithGossip.RemoveNode` | simulation/src/run_gossip_mailbox.ts:162-185 | all traces of the node go; every node up to ceil(localLinks/2) + 1 places from it gets its new ring-local links as far as they fit; no remaining ring-local link is lost, only ring-local links are new, at most two others are given up for each and only by nodes without room, and an intact ring is intact again |
| `GossipMesh.RingMeshWithGossip.RepairAll` | simulation/src/run_gossip_mailbox.ts:187-207 | the links after it are those of one turn per node, each linking the ring-local nodes as far as they fit and then filling the free slots with far-away nodes; ring-local links stay, and with a sufficient cap the ring is intact, from any valid mesh |
| `GossipMesh.RingMeshWithGossip.IsFullyConnected` | simulation/src/run_gossip_mailbox.ts:321-333 | true exactly if every node reaches every other |
| `GossipMesh.RingMeshWithGossip.BroadcastGossip` | simulation/src/run_gossip_mailbox.ts:215-254 | the packet is seen by exactly the nodes within 30 hops through nodes that had not seen it, each counted once and one hop farther than some neighbour; each subscriber among them has one delivery with its shortest distance |
| `GossipMesh.RingMeshWithGossip.Relay` | simulation/src/run_gossip_mailbox.ts:233-252 | one node taken off the queue passes the packet to all its neighbours that have not seen it, and the search stays level by level |
| `GossipMesh.RingMeshWithGossip.FindMailboxNodes` | simulation/src/run_gossip_mailbox.ts:261-275 | the k nearest nodes to the topic, by the shorter of the two arcs around the circle, ties by age: no node left out is nearer |
| `GossipMesh.RingMeshWithGossip.DhtPut` | simulation/src/run_gossip_mailbox.ts:278-290 | the entry is added once to the list of every holder for this topic, no other entries change, and the counters agree |
| `GossipMesh.RingMeshWithGossip.DhtGet` | simulation/src/run_gossip_mailbox.ts:293-313 | the entries of the current holders in order, and a hit or miss accordingly |
| `MailboxStore.FetchSplits` | simulation/src/run_gossip_mailbox.ts:293-305 | the answer of a lookup lists the entries of each holder where it stands among the holders |
| `GossipMesh.RingMeshWithGossip.PutRunGet` | simulation/src/run_gossip_mailbox.ts:129-313 | new data is put, any operations follow, the data is looked up: it is found exactly if a holder is left with fewer than k nodes nearer to the topic; if nobody joined, one holder left is enough |
| `GossipMesh.RingMeshWithGossip.Apply` | simulation/src/run_gossip_mailbox.ts:129-313 | what each operation does to the nodes and mailboxes; an intact ring stays intact |
| `Links.FullNodeHasVictim` | simulation/src/run_gossip_mailbox.ts:94-127 | counting argument: a full node that lacks a ring-local link has a link that is not ring-local, if the cap covers the neighbourhood |
| `Links.LocalConnectionIsSafe` | simulation/src/run_gossip_mailbox.ts:94-113 | evicting at one end, then at the other, then linking keeps the mesh in order and every other ring-local link |
| `Links.LocalLinkRepairs` | simulation/src/run_gossip_mailbox.ts:94-127 | a ring-local link costs at most two links, none of them ring-local, and only where an end has more links than fit |
| `Links.StuckStays` | simulation/src/run_gossip_mailbox.ts:94-127 | a node full of ring-local links keeps them, and stays full, as long as none of those is lost |
| `Links.AllLocalsIfRoomy` | simulation/src/run_gossip_mailbox.ts:94-113 | with room for 2h links nobody is ever full of ring-local links and lacks one, so linking as far as possible means linking all |
| `Links.RepairsTwice` | simulation/src/run_gossip_mailbox.ts:178-184 | and so does a series of them: what repairs gain is never lost again, and who had room at the start never loses a link to another who had |
| `Links.RingAfterAdd` | simulation/src/run_gossip_mailbox.ts:129-144 | linking the newcomer to its ring-local nodes is enough to make the ring intact again |
| `Links.RingAfterRemove` | simulation/src/run_gossip_mailbox.ts:162-185 | linking the nodes around the gap to their ring-local nodes is enough, already for those within ceil(localLinks/2) steps of the leaver |
| `Links.CapBelowNeighbourhoodFails` | simulation/src/run_gossip_mailbox.ts:94-127 | the condition on the cap is needed: with more than 2h nodes no mesh of cap below 2h has all ring-local links |
| `Ring.LocalsAtMost` | simulation/src/run_gossip_mailbox.ts:68-80 | a node has at most 2h ring-local nodes |
| `Ring.LocalsExactly` | simulation/src/run_gossip_mailbox.ts:68-80 | and exactly 2h as long as there are more than 2h nodes |
| `Ring.NearAfterRemove` | simulation/src/run_gossip_mailbox.ts:162-174 | a departure brings only nodes within reach that both knew the leaver |
| `Ring.NearAfterAdd` | simulation/src/run_gossip_mailbox.ts:129-144 | an arrival never brings old nodes within reach of each other |
| `StableOrder.Sort` | simulation/src/run_gossip_mailbox.ts:63-66 | the sorted array is the one order by (position, insertion) |
| `StableOrder.OrderIsUnique` | simulation/src/run_gossip_mailbox.ts:63-66 | there is only one such order |
| `StableOrder.NearestIff` | simulation/src/run_gossip_mailbox.ts:261-275 | a node is among the k nearest exactly if fewer than k come before it |
| `Broadcast.FreshPacketGoesEverywhere` | simulation/src/run_gossip_mailbox.ts:215-254 | for a packet nobody has seen, the 30-hop distances are those of the mesh |
| `Broadcast.FreshPacketReachesAll` | simulation/src/run_gossip_mailbox.ts:215-254 | on an intact ring of at most 60h+1 nodes such a packet reaches everybody |
| `MailboxStore.TargetPosition` | simulation/src/run_gossip_mailbox.ts:262-267 | the 32-bit rolling hash of the topic, with wrap-around and a remainder that keeps its sign |
| `MailboxStore.HashRolls` | simulation/src/run_gossip_mailbox.ts:262-266 | one more character takes the hash to 31 times itself plus the code of the character, modulo 2^32, as a signed 32-bit number |
| `MailboxStore.PlaceIsLastDigits` | simulation/src/run_gossip_mailbox.ts:267 | the place is the last four decimal digits of the hash, whatever its sign, in ten-thousandths |
| `MailboxStore.RingDistIsShorterArc` | simulation/src/run_gossip_mailbox.ts:59-61 | the distance of two places is the shorter of the two arcs between them, at most one half, and zero only for equal places |
| `MailboxStore.RingDistTurns` | simulation/src/run_gossip_mailbox.ts:59-61 | it does not change when both places turn by the same angle |
| `MailboxStore.HolderIff` | simulation/src/run_gossip_mailbox.ts:261-275 | a node is a holder exactly if fewer than k nodes are nearer to the topic |
| `MailboxStore.HolderStays` | simulation/src/run_gossip_mailbox.ts:261-275 | a holder that stays remains among the k nearest whoever leaves |
| `MailboxStore.PutSurvivesDepartures` | simulation/src/run_gossip_mailbox.ts:261-313 | after any departures every holder that is left has the data and is asked, so one of them is enough |
| `MailboxStore.FoundIffKeeperIsNear` | simulation/src/run_gossip_mailbox.ts:293-313 | a lookup finds data exactly if a node that has it is left with fewer than k nodes nearer to the topic |
| `MailboxStore.FoundAgainIff` | simulation/src/run_gossip_mailbox.ts:261-313 | data that was nowhere and was put is found in any later mesh exactly if one of its holders is left with fewer than k nodes nearer to the topic |
| `MailboxStore.ArrivalCanHideData` | simulation/src/run_gossip_mailbox.ts:278-313 | an arrival can make stored data unfindable: a concrete mesh on the circle |
| `RingSimulator.Simulate` | simulation/src/RingMeshSimulator.ts:53-445 | every run of joins, departures, repairs, link shuffles and view shuffles keeps all ring-local pairs linked, links mutual, passive views within size and without self, repeats or dead ids; the circle check holds unless there is exactly one node, and there is one component |
| `RingSimulator.RingMeshSimulator.AddNode` | simulation/src/RingMeshSimulator.ts:77-96 | the newcomer is linked to exactly its ring-local nodes and a choice of long-range nodes, and gets a view of as many strangers as fit or as there are |
| `RingSimulator.RingMeshSimulator.ConnectLocalLinks` | simulation/src/RingMeshSimulator.ts:98-118 | the two loops, left and right, link exactly the ring-local nodes |
| `RingSimulator.RingMeshSimulator.ConnectLongRangeLinks` | simulation/src/RingMeshSimulator.ts:121-138 | as many strangers as asked for, from far away if there are any |
| `RingSimulator.RingMeshSimulator.RemoveNode` | simulation/src/RingMeshSimulator.ts:153-203 | every live node up to ceil(localLinks/2) + 1 places left of the leaver is linked to every different one as far to the right; every new link is such a pair or ring-local; those nodes have all their ring-local links, the ring stays intact, and every view loses the leaver and nothing else |
| `RingSimulator.RingMeshSimulator.CrossLink` | simulation/src/RingMeshSimulator.ts:184-195 | exactly the pairs of different live nodes, one from either list, become linked |
| `RingSimulator.RingMeshSimulator.RepairLocalLinks` | simulation/src/RingMeshSimulator.ts:206-226 | exactly the links to its ring-local nodes are added |
| `RingSimulator.RingMeshSimulator.RepairAll` | simulation/src/RingMeshSimulator.ts:229-254 | no link is lost, the ring is intact, every node has its target degree or nobody left in its view to link to, and the count is the number of view entries that became links |
| `RingSimulator.RingMeshSimulator.FillFromPassive` | simulation/src/RingMeshSimulator.ts:238-251 | the chosen view entries become links and leave the view; never beyond the target degree |
| `RingSimulator.RingMeshSimulator.ShuffleAll` | simulation/src/RingMeshSimulator.ts:257-293 | every node in turn makes one exchange or none, as one call for it does; ring-local links stay and the number of links is conserved |
| `RingSimulator.RingMeshSimulator.ShuffleOne` | simulation/src/RingMeshSimulator.ts:258-292 | one long-range link is exchanged for one to a far-away stranger from the view, and the two change places in the view; nothing happens exactly if there is no such link or no such stranger |
| `RingSimulator.RingMeshSimulator.ShufflePassiveViews` | simulation/src/RingMeshSimulator.ts:296-329 | one exchange, with a neighbour, for each node that has one, in turn: each starts from the views the ones before left and is as one call makes it |
| `RingSimulator.RingMeshSimulator.SwapViews` | simulation/src/RingMeshSimulator.ts:303-327 | each of the two takes in the oldest eight entries of the other: useful ones come in at the end, the oldest make room, and every useful one that was not there before is there afterwards; other views stay |
| `RingSimulator.ShuffleInventsNothing` | simulation/src/RingMeshSimulator.ts:296-329 | shuffling only passes ids around: no id turns up that was in no view |
| `RingSimulator.RingMeshSimulator.Connectivity` | simulation/src/RingMeshSimulator.ts:341-379 | the circle flag, the number of components and the connectivity flag mean what they say, one node excepted |
| `RingSimulator.CircleIffNotAlone` | simulation/src/RingMeshSimulator.ts:348-357 | with ring-local links the circle check succeeds exactly unless there is one node |
| `RingSimulator.NobodyIsolated` | simulation/src/RingMeshSimulator.ts:341-344 | no node of a connected graph of two or more is isolated; a single node always is |
| `Search.Bfs` | simulation/src/RingMeshSimulator.ts:425-435 | the distances are defined exactly for the reachable nodes and are shortest; each is one more than that of some neighbour and at most one more than that of any |
| `Search.FindComponents` | simulation/src/RingMeshSimulator.ts:408-424 | the components are the reachability classes, disjoint and complete |
| `Search.Component` | simulation/src/RingMeshSimulator.ts:411-421 | one sweep of the queue lists one reachability class |
| `Search.ConnectedIffOneComponent` | simulation/src/RingMeshSimulator.ts:370-373 | connected exactly with at most one component |
| `Search.RingStride` | simulation/src/RingMeshSimulator.ts:98-118 | h ring-local links a side carry a walk h places per hop |
| `Search.RingWithinHops` | simulation/src/RingMeshSimulator.ts:98-118 | so 2dh+1 nodes are covered in d hops |
| `Search.RingLinkedIsConnected` | simulation/src/RingMeshSimulator.ts:98-118 | and a ring with any local links is connected |
| `ZoneMesh.Simulate` | simulation/src/run_zone_ring.ts:16-179 | every run of joins, departures and repairs keeps the capped mesh in order and, if the cap allows, the ring intact and the mesh connected |
| `ZoneMesh.ZoneRingMesh.FillZoneConnections` | simulation/src/run_zone_ring.ts:129-159 | free slots go to the nodes with most zones in common, ties by age, then to far-away nodes, as many as there are of either |
| `ZoneMesh.CloserMatesFirst` | simulation/src/run_zone_ring.ts:134-145 | no candidate is passed over for one with fewer zones in common |
| `ZoneMesh.ZoneRingMesh.AddNode` | simulation/src/run_zone_ring.ts:110-126 | the newcomer is linked to all ring-local nodes, then its free slots are filled; an intact ring stays intact |
| `ZoneMesh.ZoneRingMesh.RemoveNode` | simulation/src/run_zone_ring.ts:161-172 | the ring-local nodes of the leaver get their new ring-local links as far as they fit, which makes the ring intact again; only ring-local links are new, and at most two others are given up for each |
| `ZoneMesh.ZoneRingMesh.RepairAll` | simulation/src/run_zone_ring.ts:174-179 | the links after it are those of one turn per node, each linking the ring-local nodes and then filling the free slots; the ring is intact, from any valid mesh |
| `ZoneMesh.ZoneRingMesh.ZoneGossip` | simulation/src/run_zone_ring.ts:184-230 | the packet gets to members of the zone only, each one hop farther than some neighbour it got to, and from there to every neighbour in the zone; relays and largest hop count accordingly, the reached, and the rate with its guard |
| `ZoneMesh.RateExceedsOneIff` | simulation/src/run_zone_ring.ts:219-230 | the rate exceeds one exactly if the author is one of at least two members and every member was reached |
| `ZoneMesh.OutsiderRateIsOneIff` | simulation/src/run_zone_ring.ts:219-230 | for an author from outside the zone it is one exactly if every member was reached |
| `ZoneMesh.PairReachesTwice` | simulation/src/run_zone_ring.ts:219-230 | two linked members: a rate of two |
| `ZoneMesh.LonerReachesAll` | simulation/src/run_zone_ring.ts:219-230 | a member without company: a rate of one, as nobody is expected |
| `ZoneMesh.SeenAreMembers` | simulation/src/run_zone_ring.ts:199-214 | a packet never gets outside the zone |
| `GossipRelay.GossipActor.HandleMessage` | aether-cache/src/gossip/router.rs:205-221 | nothing changes for a message from an unverified or throttled peer or with an invalid packet; any other Gossip packet goes to the mailbox and to all verified peers but the sender exactly if it was not seen before, and a Stem packet goes on to one other peer or is flooded |
| `GossipRelay.GossipActor.DeliverToMailbox` | aether-cache/src/gossip/router.rs:443-452 | a packet goes to the mailbox the first time only, and is remembered |
| `GossipRelay.GossipActor.Flood` | aether-cache/src/gossip/router.rs:458-472 | a packet is broadcast the first time only, with the sender left out |
| `Flooding.StepKeepsInv` | aether-cache/src/gossip/router.rs:205-221 | every step of the network without a Gossip message turned away keeps the invariant on messages in flight, flooded sets and mailboxes |
| `Flooding.EveryRunKeepsInv` | aether-cache/src/gossip/router.rs:205-221 | and so does every run |
| `Flooding.StepKeepsSafe` | aether-cache/src/gossip/router.rs:205-221 | every step at all, with messages turned away or not, keeps counts of messages, broadcasts and stored packets in order |
| `Flooding.EveryRunKeepsSafe` | aether-cache/src/gossip/router.rs:205-221 | and so does every run |
| `Flooding.WhatIsSent` | aether-cache/src/gossip/router.rs:205-221 | which messages a received one leads to, and what it puts into the mailbox: nothing if it is turned away, and for a flooded packet one message to everybody but the sender |
| `Flooding.OnlyValidIsStored` | aether-cache/src/gossip/router.rs:205-212 | in any run a node has stored or broadcast a packet only if it received it within the rate limit and found it valid |
| `Flooding.QuietMeansCovered` | aether-cache/src/network/peer_manager.rs:109-118 | when no Gossip message was turned away and none of a packet is in flight, every node connected to a node that flooded it has flooded and stored it exactly once |
| `Flooding.NeverTwice` | aether-cache/src/gossip/router.rs:443-472 | at any moment, whatever the verdicts on rate and validity, no node has broadcast or stored a packet twice |
| `Flooding.AtMostOnePerLink` | aether-cache/src/network/peer_manager.rs:109-118 | at most two Gossip messages of a packet per link, sent or received, in any run with any verdicts |
| `Flooding.EveryDrainEnds` | aether-cache/src/gossip/router.rs:205-221 | every run that only receives is bounded by the links not used yet, and one that cannot go on has left nothing in flight |
| `Flooding.GossipDrains` | aether-cache/src/gossip/router.rs:205-221 | and from every reachable state there is such a run to the end |
| `ThreadDagManager.ThreadDAGManager.AddPost` | packages/core/src/logic/ThreadDAGManager.ts:41-52 | the first post with an id stays, other threads are refused |
| `ThreadDagManager.ThreadDAGManager.GetSortedPosts` | packages/core/src/logic/ThreadDAGManager.ts:66-120 | the queue algorithm computes the canonical order of the registered posts, with missing, repeated and cyclic parents; of two shown posts, the later one either had a parent still to be shown when the earlier one was, or comes after it by created_at and then packet_id, for times below 10^15 |
| `ThreadDagManager.ThreadDAGManager.CountDegrees` | packages/core/src/logic/ThreadDAGManager.ts:70-83 | in-degrees are the registered parents counted with repeats, and each parent lists a child as often as it is named |
| `ThreadDagManager.ThreadDAGManager.Release` | packages/core/src/logic/ThreadDAGManager.ts:105-116 | going through the children of the shown post leaves exactly the ready posts queued, in order |
| `ThreadDag.CanonIsTheGreedyOrder` | packages/core/src/logic/ThreadDAGManager.ts:91-119 | the canonical order is the one sequence that always takes the least ready post and stops when none is ready |
| `ThreadDag.CanonIsByTime` | packages/core/src/logic/ThreadDAGManager.ts:86-119 | in the canonical order a post that could have been shown in place of an earlier one comes after it by created_at and then packet_id, for times below 10^15 |
| `ThreadDag.CanonParentsFirst` | packages/core/src/logic/ThreadDAGManager.ts:66-120 | no repeats, and every registered parent stands before its child |
| `ThreadDag.ShownIffNoCycle` | packages/core/src/logic/ThreadDAGManager.ts:66-120 | a post is displayed exactly if no path to its ancestors runs into a cycle |
| `ThreadDagManager.ArrivalOrderDoesNotMatter` | packages/core/src/logic/ThreadDAGManager.ts:41-120 | readers with the same posts, in any order and multiplicity, display the same thread |
| `ThreadDagManager.FirstArrivalStays` | packages/core/src/logic/ThreadDAGManager.ts:41-52 | the assumption behind it is needed: with two posts under one id the order of arrival shows |
| `TieBreak.TieKeyIsByTimeIff` | packages/core/src/logic/ThreadDAGManager.ts:86-89 | the padded string orders posts by (created_at, packet_id) for all times below a limit exactly if the limit is at most 10^15 |
| `TieBreak.SixteenDigitsSortWrong` | packages/core/src/logic/ThreadDAGManager.ts:86-89 | at the limit it goes wrong: concrete times |
| `TieBreak.TieKeysDiffer` | packages/core/src/logic/ThreadDAGManager.ts:86-89 | different ids never tie |
| `ThreadDagManager.ThreadDAGManager.GetTips` | packages/core/src/logic/ThreadDAGManager.ts:126-144 | at most two posts that nobody names as a parent; every other such post has less cumulative_pow than each of them, or as much and is no later; ties in order of arrival; all of them if there are fewer than two |
| `ThreadDagManager.ThreadDAGManager.GetMaxCumulativePow` | packages/core/src/logic/ThreadDAGManager.ts:149-155 | the largest weight, or zero |
| `ThreadWeights.GrowingWeightsShowAll` | packages/core/src/logic/ThreadDAGManager.ts:66-120 | if every post outweighs its registered parents, every post is displayed |
| `ThreadWeights.EveryPostHasAChildlessDescendant` | packages/core/src/logic/ThreadDAGManager.ts:126-136 | and every post is an ancestor of a childless post |
| `ThreadWeights.SomethingToReplyTo` | packages/core/src/logic/ThreadDAGManager.ts:126-144 | and a thread with posts has tips |
| `ThreadWeights.ReplyKeepsWeightsGrowingIff` | packages/core/src/logic/ThreadOrchestrator.ts:404-437 | a reply keeps weights growing exactly if no registered post names its id already |
| `ThreadWeights.ReplyReplacesItsParents` | packages/core/src/logic/ThreadOrchestrator.ts:406-434 | after a reply the childless posts are the reply and those it did not take as parents |
| `ThreadWeights.HistoryKeepsWeightsGrowing` | packages/core/src/logic/ThreadOrchestrator.ts:404-437 | authors replying from any partial views keep the weights growing in the whole thread |
| `ThreadWeights.EveryViewShowsAll` | packages/core/src/logic/ThreadOrchestrator.ts:404-437 | so any part of such a thread that a reader holds is displayed completely |
| `PeerTable.PeerManager.Rebalance` | packages/core/src/network/PeerManager.ts:311-321 | each dropped peer is the one to go from those left, more than 16, when it goes: none of the four nearest by arc, inbound if any other is, and ahead of the others by size of group, time, distance and order; without inbound ones the newcomer goes first. They and only they leave the table, all but the newcomer are put on cool-down, and the four ring neighbours stay |
| `PeerTable.PeerManager.PickEvictionVictim` | packages/core/src/network/PeerManager.ts:323-351 | the victim by that rule, and none only if all are among the four nearest, so never above the degree limit |
| `PeerTable.PeerManager.NoteGroup` | packages/core/src/network/PeerManager.ts:356-359 | the memory of groups grows by one and stays within 1024 |
| `Eviction.EndsWithMaxDegree` | packages/core/src/network/PeerManager.ts:311-321 | from n verified peers the loop ends with n, 16 or n - 32: with at most 16 exactly if n is at most 48 |
| `Eviction.RunKeepsLocals` | packages/core/src/network/PeerManager.ts:311-329 | no ring neighbour is ever dropped, and the number of drops is determined |
| `Eviction.OutboundDroppedIff` | packages/core/src/network/PeerManager.ts:328-335 | from at most 48, an outbound peer is dropped exactly if outbound peers and ring neighbours are more than 16 |
| `Eviction.TwelveOutboundAreSafe` | packages/core/src/network/PeerManager.ts:300-309 | with at most 12 outbound peers none is dropped, however many inbound ones there are |
| `Eviction.OneVictim` | packages/core/src/network/PeerManager.ts:345-350 | the choice is determined |
| `Eviction.VictimExists` | packages/core/src/network/PeerManager.ts:323-335 | above 16 verified peers there is a peer to drop |
| `Eviction.CapDoesNotMatter` | packages/core/src/network/PeerManager.ts:342-346 | the cap per group never influences who is dropped, as it shifts every overflow alike |
| `Eviction.OldestOfAGroupStay` | packages/core/src/network/PeerManager.ts:345-349 | within a group a removable survivor was verified no later than anyone dropped |
| `Eviction.GroupsEndLevel` | packages/core/src/network/PeerManager.ts:337-349 | a group that lost a peer ends at most one below any group with a removable peer left |
| `TrackerInvariant.EveryEventKeepsInv` | packages/tracker/src/TrackerServer.ts:149-256 | every event, in any order, keeps counts, sessions, nonces and timers in order |
| `TrackerInvariant.RegisteringKeepsInv` | packages/tracker/src/TrackerServer.ts:240-252 | so does registering, with or without a previous session of the peer |
| `TrackerInvariant.CloseKeepsInv` | packages/tracker/src/TrackerServer.ts:187-194 | and a close event |
| `TrackerInvariant.CleanupKeepsInv` | packages/tracker/src/SessionManager.ts:97-107 | and the removal of idle sessions |
| `TrackerRuns.CountsAreExact` | packages/tracker/src/TrackerServer.ts:149-194 | in every reachable state the count of an address is the number of its live connections and within the cap |
| `TrackerRuns.SessionsAreLive` | packages/tracker/src/SessionManager.ts:43-68 | every session belongs to a live connection that carries its peer id, and there are at most maxSessions |
| `TrackerRuns.OpenConnectionsHaveSessions` | packages/tracker/src/TrackerServer.ts:240-252 | an open connection that carries a peer id holds that session |
| `TrackerRuns.CloseEndsOwnSessionsOnly` | packages/tracker/src/SessionManager.ts:55-61 | a close ends exactly the sessions of that socket |
| `TrackerRuns.ReconnectTakesOver` | packages/tracker/src/TrackerServer.ts:240-252 | a peer that registers again takes its session over even at capacity, and the old socket is closing without a peer id |
| `TrackerRuns.SignatureRegistersOnce` | packages/tracker/src/TrackerServer.ts:223-237 | one signature registers at most one connection |
| `TrackerRuns.OneAttemptPerConnection` | packages/tracker/src/TrackerServer.ts:212-237 | what a connection registered never changes, and a used nonce is never renewed |
| `TrackerRuns.AttemptUsesTheNonce` | packages/tracker/src/TrackerServer.ts:223-237 | an attempt that gets as far as the signature uses the nonce up, whatever comes of it |
| `TrackerRuns.RegistersIffNotRefused` | packages/tracker/src/TrackerServer.ts:209-256 | a join that is not refused registers, unless its socket has begun to close |
| `TrackerRuns.RelayGoesBetweenProvenPeers` | packages/tracker/src/TrackerServer.ts:258-271 | a relay reaches an open connection that proved to be the target, under the name its sender proved |
| `TrackerRuns.HeardSessionsStay` | packages/tracker/src/SessionManager.ts:62-107 | in any run a session that is held was last active when its socket last answered, so cleanup ends it exactly if that is longer ago than the limit |
| `TrackerRuns.HandshakeIsBounded` | packages/tracker/src/TrackerServer.ts:169-172 | an open connection without a peer id has its timer running, which closes it |
| `TrackerService.TrackerServer.Accept` | packages/tracker/src/TrackerServer.ts:149-172 | a new connection is taken exactly if fewer than the cap are live from its address, with its host recorded and its timer running; otherwise its socket closes |
| `TrackerService.TrackerServer.Hello` | packages/tracker/src/TrackerServer.ts:180-184 | only an open socket gets a nonce, and nothing else changes |
| `TrackerService.TrackerServer.HandshakeTimeout` | packages/tracker/src/TrackerServer.ts:169-172 | exactly a connection without a peer id is closed |
| `TrackerService.TrackerServer.HandleJoin` | packages/tracker/src/TrackerServer.ts:209-256 | each refusal exactly if the tests before pass and its own fails: rate, state of the handshake, version, host among the allowed ones or else equal to the one recorded at accept, identity, signature over nonce, peer id and host, capacity; the connection registers exactly if all pass on an open socket, and is then told eight other peers, or all |
| `TrackerService.TrackerServer.HandleRelay` | packages/tracker/src/TrackerServer.ts:258-271 | a relay is delivered exactly if sender and target are registered, differ, the rate allows it and the target has an open socket, to that socket and under the registered name of the sender |
| `TrackerService.TrackerServer.OnClose` | packages/tracker/src/TrackerServer.ts:187-194 | the connection is gone, and exactly the sessions of its socket end |
| `TrackerService.TrackerServer.OnPong` | packages/tracker/src/SessionManager.ts:62-65 | exactly the sessions of the socket count as active now |
| `TrackerService.TrackerServer.CleanupPings` | packages/tracker/src/SessionManager.ts:97-107 | exactly the sessions silent for longer than the limit end, and their sockets close |
| `TrackerService.SessionManager.RegisterSession` | packages/tracker/src/SessionManager.ts:43-68 | the three outcomes: refreshed, refused at capacity, registered with the socket it replaces |
| `TrackerService.SessionManager.CleanupPings` | packages/tracker/src/SessionManager.ts:97-107 | exactly the sessions silent for longer than the limit end, and their sockets are reported |
| `TrackerService.SessionManager.GetRandomPeers` | packages/tracker/src/SessionManager.ts:84-95 | distinct registered peers other than the asker, as many as asked for or all |
| `Chunked.Reassembles` | aether-cache/src/network/chunked.rs:89-144 | chunks in any order, repeated, among any other frames: every answer is "not yet" until the last missing one, and then the payload |
| `Chunked.OtherMessages` | aether-cache/src/network/chunked.rs:89-144 | a chunk leaves other messages alone, stale ones excepted |
| `Chunked.FrameIsChunk` | aether-cache/src/network/chunked.rs:31-56 | header fields are read as they were written |
| `Chunked.FrameLayout` | aether-cache/src/network/chunked.rs:28-56 | where id, number, total, length, final flag and payload lie in a frame, in chunks of 4096 bytes but for the last |
| `Chunked.ReadAsChunkIff` | aether-cache/src/network/chunked.rs:89-108 | which inputs are taken for a chunk, and what is read from one |
| `Chunked.FirstChunkStays` | aether-cache/src/network/chunked.rs:110-125 | of a waiting message the first chunk with a number and the first total stay, and no other input touches it; what is no chunk is handed on |
| `Chunked.AllPiecesAreTheData` | aether-cache/src/network/chunked.rs:31-34 | the pieces, joined, are the payload |
| `Chunked.ArrivesIff` | aether-cache/src/network/chunked.rs:28-56 | a long payload can be put together exactly up to 65535 * 4096 bytes |
| `Chunked.ShortPayloadArrivesIff` | aether-cache/src/network/chunked.rs:20-23 | a short payload comes out at once exactly if it does not look like a chunk, as when its first byte is not zero |
| `ChunkedStream.ChunkedSender.Encode` | aether-cache/src/network/chunked.rs:20-59 | the frames of the payload under the next id, which wraps at 32 bits |
| `ChunkedStream.ChunkedReceiver.Receive` | aether-cache/src/network/chunked.rs:89-144 | the handler makes the step, and the declared sizes stay those of the chunks |
| `ChunkedStream.ChunkedReceiver.Assemble` | aether-cache/src/network/chunked.rs:127-141 | the buffer is filled exactly, with the chunks in order, or nothing comes out |
| `ChunkedStream.ChunkedReceiver.Cleanup` | aether-cache/src/network/chunked.rs:146-151 | exactly the messages waiting too long go |
| `PowPolicy.MeetsIffBelow` | aether-cache/src/crypto/pow.rs:120-141 | the byte-and-mask test holds exactly if the hash as a number is below 2^(8 * length - difficulty) |
| `PowPolicy.DifficultyIsMonotone` | aether-cache/src/crypto/pow.rs:120-141 | a hash that meets a difficulty meets every lower one |
| `PowPolicy.TestDifficulty` | packages/core/src/crypto/PowPolicy.ts:165-179 | the loop form decides the same comparison |
| `PowPolicy.SolvePow` | aether-cache/src/crypto/pow.rs:104-108 | the search finds the least nonce that verifies, or there is none below the limit |
| `PowPolicy.VerifiesIff` | aether-cache/src/crypto/pow.rs:93-101 | a proof of work verifies exactly if the difficulty is from 8 to 32, the fields fit and the hash as a number is below 2^(256 - difficulty) |
| `PowPolicy.RustPreimage` | aether-cache/src/crypto/pow.rs:63-84 | the committed bytes, or nothing for a header out of range |
| `PowPolicy.BrowserPreimage` | packages/core/src/crypto/PowPolicy.ts:127-153 | the same bytes for the headers the browser accepts |
| `PowPolicy.BothPreimages` | packages/core/src/crypto/PowPolicy.ts:127-153 | both sides make the same bytes for every header the browser accepts, and the cache node alone accepts exactly those with timestamps beyond 2^53 - 1 |
| `PowPolicy.Concat` | packages/core/src/crypto/PowPolicy.ts:99-109 | the buffer filled part by part is the concatenation |
| `Bytes.BigEndianInjective` | packages/core/src/crypto/PowPolicy.ts:81-97 | fixed-width numbers are told apart |
| `Bytes.ValueIs` | packages/core/src/crypto/PowPolicy.ts:81-97 | in one, two, four and eight bytes the first counts most |
| `Preimages.BytesTellTheMessage` | aether-cache/src/crypto/pow.rs:63-84 | gossip, hint, join and tracker-join messages with equal bytes are equal in kind and in every field, also with a proof-of-work nonce appended, for join challenges of one length |
| `Preimages.PacketIsCommitted` | aether-cache/src/crypto/pow.rs:63-117 | a packet is encoded as both implementations encode it, with the nonce of the search behind |
| `Preimages.PacketLayout` | aether-cache/src/crypto/pow.rs:63-117 | where domain, timestamp, zone, difficulty, nonce, payload and the nonce of the search lie in the bytes of a packet |
| `Preimages.HintLayout` | aether-cache/src/protocol/hint.rs:73-92 | where domain, version, tag, nonce and ciphertext lie in those of a hint |
| `Preimages.PeerJoinLayout` | packages/core/src/crypto/NodeIdentity.ts:175-184 | where domain, challenge, the two ids and the two fingerprints lie in those of a join |
| `Preimages.TrackerJoinLayout` | packages/core/src/crypto/NodeIdentity.ts:195-200 | where domain, nonce, id and host lie in those of a tracker join |
| `Preimages.HintIsSameIff` | aether-cache/src/protocol/hint.rs:73-98 | two hints have the same preimage exactly if they differ at most in ttl and pow_nonce |
| `Preimages.HintPreimage` | aether-cache/src/protocol/hint.rs:73-92 | the committed bytes, or nothing for fields of the wrong size |
| `Preimages.JoinMessage` | packages/core/src/crypto/NodeIdentity.ts:175-184 | the signed bytes of a join, for any challenge, or nothing if a field is too long |
| `Preimages.TrackerJoinMessage` | packages/core/src/crypto/NodeIdentity.ts:195-200 | the signed bytes of a tracker join with the host in lower case, or nothing for a nonce of the wrong size or a long field |
| `Preimages.LengthPrefixed` | packages/core/src/crypto/NodeIdentity.ts:165-172 | two bytes of length and the text |
| `Onion.WrapCircuit` | packages/core/src/crypto/OnionRouter.ts:161-185 | succeeds exactly for a non-empty route whose layers fit into a cell and an exit message that fits its own, which for peer ids means one to four hops; yields a cell around the layers |
| `Onion.RoutePeels` | packages/core/src/crypto/OnionRouter.ts:211-234 | what was wrapped peels off, by the router alone: hop by hop the route is read in order and then the message, with re-padding in between; sizes depend on the position only |
| `Onion.LayersHaveFixedSizes` | packages/core/src/crypto/OnionRouter.ts:63-74 | the size of a layer depends on the ids of the hops behind it only |
| `Onion.PeerLayerBytes` | packages/core/src/crypto/OnionRouter.ts:63-74 | with peer ids a layer with k hops behind it has 3448 + 116k bytes |
| `Onion.SizesTellNothing` | packages/core/src/crypto/OnionRouter.ts:63-74 | layers of different messages at the same hop have the same size |
| `Onion.GetsThroughIff` | packages/core/src/network/onion/OnionCircuit.ts:478-534 | a wrapped circuit gets through, each cell made by the relay before it, exactly if it has one hop, or two and the exit is neither the originator nor the guard |
| `Onion.SendAlong` | packages/core/src/network/onion/OnionCircuit.ts:350-385 | a message wrapped and handled hop by hop comes out at the exit exactly under that condition, if it fits |
| `Onion.PassesIff` | packages/core/src/network/onion/OnionCircuit.ts:516-527 | a hop before the exit passes its cell on exactly if the next hop is the exit and neither the sender nor itself |
| `Onion.HandleCell` | packages/core/src/network/onion/OnionCircuit.ts:478-514 | what a cell that was not seen before leads to: nothing, a cell for the next hop, or the message |
| `Onion.Forward` | packages/core/src/network/onion/OnionCircuit.ts:516-527 | which inner onions are passed on |
| `Onion.PadCell` | packages/core/src/crypto/OnionRouter.ts:91-111 | fails exactly for a payload that does not fit; otherwise a cell of the full size: two magic bytes, the length in two bytes, the payload |
| `Onion.UnpadUndoesPad` | packages/core/src/crypto/OnionRouter.ts:120-126 | unpadding yields the payload, whatever the padding |
| `Onion.UnpadsIff` | packages/core/src/crypto/OnionRouter.ts:120-126 | exactly what has the size, the magic bytes and a length within the cell is taken for one |
| `Onion.UnwrapsOneLayer` | packages/core/src/crypto/OnionRouter.ts:211-234 | what is in the cell is opened; a padded exit layer is read by its payload, anything else as a whole |
| `Onion.NothingToUnwrap` | packages/core/src/crypto/OnionRouter.ts:211-234 | a cell without a payload yields nothing |
| `Onion.EnvelopeTells` | packages/core/src/crypto/OnionRouter.ts:173-181 | a relay envelope has one reading |
| `Onion.EnvelopeLayout` | packages/core/src/crypto/OnionRouter.ts:173-181 | where the three keys and values lie in the bytes of an envelope for a peer id |
| `Onion.LawsAreConsistent` | packages/core/src/crypto/OnionRouter.ts:161-234 | the laws assumed of sealed boxes and decoder can be kept, together with reading every message that is no relay envelope |
| `RateLimits.WindowIsBounded` | packages/core/src/network/RateLimiter.ts:80-111 | in any window between any other traffic at most burst + rate * length messages of one peer and category pass |
| `RateLimits.PassedWithinCredit` | packages/core/src/network/RateLimiter.ts:95-110 | under any clock, at most the tokens there were plus what the rate yields while the clock moves forward; tokens stay between zero and burst |
| `RateLimits.SpacedSenderPasses` | packages/core/src/network/RateLimiter.ts:95-110 | a sender who spaces messages a refill apart is never refused |
| `RateLimits.CreditCanBeSpent` | packages/core/src/network/RateLimiter.ts:80-111 | what is in the bucket can be spent at once: the first floor(burst) messages of a new peer all pass, and unless all pass less than one token is left unspent |
| `RateLimits.OneMessage` | packages/core/src/network/RateLimiter.ts:80-111 | a message touches its own bucket only |
| `RateLimits.KeysDiffer` | packages/core/src/network/RateLimiter.ts:91 | different peers and categories have different keys, for names without NUL |
| `RateLimits.RateLimiter.AllowOne` | packages/core/src/network/RateLimiter.ts:80-111 | passes exactly if the category is configured and a whole token is there, the full burst for a new peer, or what is left and has come in since; counts what it refuses |
| `RateLimits.RateLimiter.Forget` | packages/core/src/network/RateLimiter.ts:114-118 | exactly the buckets whose key ends in NUL and the peer id go; for names without NUL these are the buckets of the peer |
| `SeenPackets.SweptExactly` | packages/core/src/network/gossip/SeenCache.ts:34-44 | stopping at the first young entry misses no old one |
| `SeenPackets.EntryStays` | packages/core/src/network/gossip/SeenCache.ts:23-44 | an entry stays until enough new ids have come or a sweep comes too late for it, the empty id until such a sweep, and what is behind it is what came in since |
| `SeenPackets.AddedIdStays` | packages/core/src/network/gossip/SeenCache.ts:23-32 | a new id outlives the next maxSize - 1 new ones |
| `SeenPackets.BoundedWithoutEmptyIds` | packages/core/src/network/gossip/SeenCache.ts:23-32 | in any run without the empty id the size stays within its bound |
| `SeenPackets.BoundBrokenIff` | packages/core/src/network/gossip/SeenCache.ts:23-44 | a run outgrows the bound exactly if the empty id comes in and maxSize new ids follow before a sweep comes too late for it |
| `SeenPackets.EmptyIdBreaksTheBound` | packages/core/src/network/gossip/SeenCache.ts:27-31 | a run in which the cache grows past any bound |
| `SeenPackets.EntryCameIn` | packages/core/src/network/gossip/SeenCache.ts:23-44 | every entry came in with an event of the run, and what is behind it are the new ids since |
| `SeenPackets.SeenCache.AddId` | packages/core/src/network/gossip/SeenCache.ts:23-32 | the method makes the step and keeps insertion order |
| `SeenPackets.SeenCache.Cleanup` | packages/core/src/network/gossip/SeenCache.ts:34-44 | exactly the entries within the time to live stay |
| `Zones.ShallowerZoneIsPrefix` | packages/core/src/crypto/KeyManager.ts:27-31 | the zone at depth d + k, shifted by k, is the zone at depth d, and ids are below 2^d |
| `Zones.ZoneIsLeadingBits` | packages/core/src/crypto/KeyManager.ts:27-31 | the zone at depth d is the first d bits of the topic hash, most significant byte first |
| `Zones.ZoneManager.RecomputeDepth` | packages/core/src/network/ZoneManager.ts:119-148 | nothing with fewer than eight neighbours; else the depth rises at once to the target for their mean distance, keeping a descendant of every old zone, and never falls, and the timer runs exactly while the target is lower |
| `Zones.ZoneManager.DecreaseTimerFires` | packages/core/src/network/ZoneManager.ts:133-140 | one level at a time |
| `Zones.ZoneManager.UpdateSubscriptionAfterScaleUp` | packages/core/src/network/ZoneManager.ts:195-215 | min(16, 2^depth) existing zones, with a descendant of every old one |
| `Zones.ZoneManager.InitSubscribedZones` | packages/core/src/network/ZoneManager.ts:165-184 | min(16, 2^depth) existing zones, all of them while there are no more |
| `Zones.ZoneManager.IsSubscribed` | packages/core/src/network/ZoneManager.ts:46-62 | accepted exactly: everything in a small network, subscribed zones, and the zone of a watched topic at any depth |
| `Zones.ZoneManager.WatchTopic` | packages/core/src/network/ZoneManager.ts:73-86 | the reference count is the number of tickets out for the first 32 bytes of the topic |
| `Zones.ZoneManager.Release` | packages/core/src/network/ZoneManager.ts:79-85 | a topic is watched exactly while somebody holds a ticket, and giving one back twice changes nothing |
| `Zones.TargetDepth` | packages/core/src/network/ZoneManager.ts:150-154 | the least depth at which zones hold at most 500 nodes, up to 12 |
| `Zones.DeeperIff` | packages/core/src/network/ZoneManager.ts:108-154 | the depth exceeds d exactly if the mean distance of the neighbours is below 1 / (1000 * 2^d) |

## Left out

- PeerTable.PeerManager.Rebalance: one clock value for the whole call, and no nested calls raised by disconnect listeners
- TrackerService.TrackerServer.HandleJoin: the rate limiter's and the claim verifier's verdicts are inputs
- Preimages.TrackerJoinMessage: lower case for ASCII letters only, which is what host names consist of
- Onion.SendAlong: hops are connected, have room for a delayed cell and have not seen it before
- localeCompare: strings are compared by code units
- Library sorts, sets and maps: modelled by insertion sort and value types; iteration over a set is in any order
- Record objects of the simulators: one map per field, so sharing of a record between references is not modelled
- Cache expiry and changing links in the flooding network; verdicts on rate and validity are part of an event, and coverage is stated for runs in which no Gossip message is turned away
- Termination of the stem phase, which is only probable, and of random fill loops, which here pick fresh values
- PEX, heartbeat, WebRTC signalling, hint relay and mailbox replication
- The Ed25519 to X25519 key cache and the validation of exit payloads in OnionRouter
- Averages, diameters and degree statistics of the simulators, and their experiment scripts
- Floating-point rounding: positions and tokens are reals
- The other simulators (MeshSimulator, EnhancedMeshSimulator, run_strict_ring, run_adaptive_zone, mesh_sim, aether_des): weaker copies of these meshes
- Cryptographic primitives, storage, user interface and the older client and server copies
