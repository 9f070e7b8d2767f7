# A verified model of dlstorage

dlstorage is a replicated in-memory key-value store. Every node keeps a timestamped store, routes keys
with rendezvous hashing over the members it knows, learns members by gossip, and talks to its peers over
pooled connections with length-prefixed frames. This project models those parts in Dafny 4.11 and proves
what they promise, alone and together.

| file | what it models |
|---|---|
| `Types.dfy` | node identity, addresses printed and parsed, the message vocabulary |
| `LwwStore.dfy`, `BasicStore.dfy` | the last-write-wins store and the plain store, as classes |
| `StoreRefinement.dfy` | the versioned store as a refinement of the plain one |
| `Replay.dfy`, `Forgetting.dfy` | what a store remembers of the writes delivered to it, and when it forgets |
| `Dispatcher.dfy`, `Consistency.dfy` | serving a request, decoding the reply, merging replies |
| `Ring.dfy`, `Quorum.dfy` | ranking, minimal remapping, common replicas of two rings |
| `StorageNode.dfy` | the synchronous node: handles, fan-out of a write, merged read |
| `Cluster.dfy` | many nodes and an unreliable network, as a step system |
| `NodeInCluster.dfy` | a call on a node object as a stretch of a run of that system |
| `Gossip.dfy`, `Membership.dfy` | one gossiping node as a class; the whole protocol as a step system |
| `NodeInMembership.dfy`, `Joining.dfy` | a call on a gossip object as steps of that system; joins that lead to agreement |
| `Wire.dfy` | messages pickled and framed, the blocking receiver, the incremental reader |
| `Mux.dfy`, `MuxPool.dfy` | the multiplexed pool as a step system; the pool object, whose history is a run of it |
| `MuxProgress.dfy`, `MuxCalls.dfy` | which calls of the pool can still be answered; the life of one call and of a closed socket |
| `MuxProgress.ReplyReachableIff` | dlstorage/connection_pool/mux.py:89-118 | after any run some continuation returns a call's reply if and only if it has not handed over yet, its cell is filled, or its record is still queued, registered or with the thread |
| `MuxCalls.CallAdvances` | dlstorage/connection_pool/mux.py:89-118 | over any run a call never goes back and keeps its address; once it returned or raised it stays so |
| `MuxCalls.OpensAtMostOne` | dlstorage/connection_pool/mux.py:97-108 | one call opens at most one socket |
| `MuxCalls.ConnectsOnlyWithoutIdle` | dlstorage/connection_pool/mux.py:150-165 | and only if none was idle at its peer when it looked |
| `MuxCalls.FailedSendEnds` | dlstorage/connection_pool/mux.py:103-108 | a failed send ends the call with no result and closes its socket, for good |
| `MuxCalls.FailedConnectEnds` | dlstorage/connection_pool/mux.py:166-173 | so does a failed connect; a socket it had created is closed |
| `MuxCalls.FailedReadEnds` | dlstorage/connection_pool/mux.py:224-272 | a failed read closes the socket for good, and the waiting call never gets a reply |
| `MuxCalls.ClosePeerEmpties` | dlstorage/connection_pool/mux.py:120-124 | closing a peer takes exactly its idle sockets out of the pool |
| `MuxCalls.TakenNeverReturns` | dlstorage/connection_pool/mux.py:120-129 | they are never in use or idle again, in any later state |
| `EndToEnd.dfy` | gossip, routing and replication composed |
| `Sets.dfy` | counting finite sets |

## How the model reads the code

* Clocks, the fate of messages, the sizes `recv` returns and the choice of gossip partners are inputs, so
  every result holds for all of them. Times are reals, timestamps unbounded integers, hash scores an
  uninterpreted function; where ties would matter the scores of the members concerned are assumed
  distinct for the key (`Ring.TiesFollowOrder`: exactly then the iteration order of a set cannot be seen).
* A stored object is `Obj(id)`, Python's `None` is `Nil`; reading a stored `None` is reading nothing, as
  in the code. Dictionaries are maps, sets are sets; where the code iterates over a set the model takes
  an arbitrary order and shows when the order cannot be seen.
* Python exceptions are `None` results, or `Raised` where `None` is a result already; a KeyError in a served
  request ends the connection without a reply.
* Pickling is a pair of functions of which `Wire.Pickles` assumes only that what is pickled is read back and
  that nothing is read from no bytes.
* Functions state what the code computes; the classes beside them do the same with fields and loops and
  are proved equal to the functions. The step systems are built from the functions.
* The store class of `LwwStore.dfy` serves every node; the steps of `Cluster.dfy` deliver a write by
  serving its request, and `NodeInMembership.dfy` shows that starting, announcing, serving and pulling
  with the gossip objects are steps of `Membership.dfy`.
* `StorageNode.StorageNode.Write` is both `set` and `delete`, which differ only in the entry written.
  `NodeInCluster.dfy` shows that it, and `get`, do what `Cluster.dfy` calls a write and a read, so what is
  proved of all runs there holds for any sequence of calls on any number of node objects.

## Where the code and its documentation, or expectations, differ

The members named state the exact behaviour, with a concrete input where an expected property fails.

* The idle sockets of the pool are described as last in, first out; the deque is used first in, first out
  (`Mux.FirstInFirstOut`).
* Forgetting removes the version with the value, so an older write that arrives afterwards becomes visible,
  and a deleted key can come back. A read that finds an entry lapsed forgets it, a purge and a flush do too.
  `Forgetting.OlderWriteLands` gives the exact condition for one step, `Forgetting.VersionNeverFalls` and
  `Forgetting.ResurrectedIff` for whole runs; `Forgetting.ReadLetsOlderWriteIn`,
  `Forgetting.PurgeLetsOlderWriteIn` and `Forgetting.DeletedKeyComesBack` show it happen. Results about
  convergence are for writes without TTL.
* A remote `set` answers True even when the store rejected the value (`Dispatcher.RemoteWriteRefinesLocal`,
  `Dispatcher.RejectionConfirmed`). An acknowledged write is therefore promised as "some target holds a
  version at least as new".
* A remote `delete` that a retry delivers twice answers False although it removed a live entry
  (`StorageNode.ResentDelete`, `StorageNode.DeleteDenied`).
* A tombstone with a timestamp that is not positive is lost on the wire (`Dispatcher.RemoteReadRefinesLocal`,
  `Dispatcher.TombstoneLost`), and a value with a negative one is dropped by the merge
  (`Consistency.MergeOfOne`, `Consistency.NegativeTimestamp`).
* Equal timestamps let the last arrival win in a store and the first replica win in a merge
  (`Replay.WritesCommute`, `Replay.TieKeepsLastArrival`, `Consistency.MergePicksNewest`).
* `keys` and `get` disagree in exactly two cases: a stored `None` is listed and not found, and at the very
  instant of its deadline any other value is found and no longer listed (`LwwStore.ListedIsFound`,
  `LwwStore.StoredNone`, `LwwStore.DeadlineInstant`). Both stores do the same, so the refinement is
  not affected.
* A message that cannot be pickled, or is too long for the header, makes a call of the multiplexed pool raise
  after it took a socket, which is then neither closed nor given back: sockets are dropped so, and only
  so (`Mux.DroppedIff`, `Mux.EncodeFailureDropsSocket`). A `set` on the synchronous node then raises too,
  although replicas asked before may have stored the value (`StorageNode.StorageNode.Write`,
  `NodeInCluster.WriteAsRun`).

## Model

| member | source | states |
|---|---|---|
| `Types.FromAddressInvertsAddress` | dlstorage/types.py:37-60 | printing an address and parsing it gives back host and port, for any host (colons included) and any integer port (of up to 4300 digits) |
| `Types.SameAddressSameNode` | dlstorage/types.py:44-45 | comparing nodes by printed address is comparing host and port |
| `Types.LenientPorts` | dlstorage/types.py:57-60 | a port with spaces around it or a plus sign parses to the same number |
| `Types.NumeralIff` | dlstorage/types.py:57-60 | a port is a number exactly if it is digits with single underscores between them |
| `Types.UnderscoresIgnored` | dlstorage/types.py:57-60 | the underscores do not count |
| `Types.AddressParses` | dlstorage/types.py:57-60 | an address parses exactly if it has a colon and what follows the last one is a number; the host is all before it |
| `LwwStore.LocalLWWStore.Set` | dlstorage/store/lww.py:29-45 | returns False and changes nothing exactly when a strictly newer entry is there; else the value is read under its timestamp up to and including `now + ttl`, for ever without a TTL, and other keys stay |
| `LwwStore.LocalLWWStore.GetVersioned` | dlstorage/store/lww.py:56-77 | answers value, tombstone or nothing, and drops the entry exactly when it lapsed |
| `LwwStore.LocalLWWStore.Get` | dlstorage/store/lww.py:47-54 | hides tombstones and lapsed entries |
| `LwwStore.LocalLWWStore.Exists` | dlstorage/store/lww.py:97-98 | True exactly when `get` returns something |
| `LwwStore.LocalLWWStore.Delete` | dlstorage/store/lww.py:79-95 | unless a newer entry is there the key reads as a tombstone at all times; returns whether a live entry was there, even if the delete was stale |
| `LwwStore.LocalLWWStore.Keys` | dlstorage/store/lww.py:100-107 | the live entries before their deadline |
| `LwwStore.LocalLWWStore.Scan` | dlstorage/store/lww.py:109-127 | those of them whose key contains the pattern, with their values |
| `LwwStore.LocalLWWStore.Clear` | dlstorage/store/lww.py:129-144 | empties the store |
| `LwwStore.LocalLWWStore.FlushKeys` | dlstorage/store/lww.py:134-140 | the loop removes exactly the matching keys, tombstones included, and counts them |
| `LwwStore.LocalLWWStore.PurgeExpired` | dlstorage/store/lww.py:146-157 | the loop removes exactly the live entries at or past their deadline and counts them |
| `LwwStore.LocalLWWStore.Len` | dlstorage/store/lww.py:159-160 | the number of listed keys |
| `LwwStore.ValueLives` | dlstorage/store/lww.py:29-157 | from an accepted write at `now` on, for every clock reading: read up to and including `now + ttl`, listed before it, purged and dropped by a look from then on; for ever without a TTL |
| `LwwStore.TombstoneStays` | dlstorage/store/lww.py:79-157 | an accepted delete reads as a tombstone at all times and is never listed or purged |
| `LwwStore.ContainsIff` | dlstorage/store/lww.py:118-137 | a pattern matches a key exactly if it is found anywhere in it |
| `LwwStore.ScanFinds` | dlstorage/store/lww.py:109-140 | a scan finds exactly the listed keys with the pattern in them, with what `get_versioned` returns; a flush hits exactly the keys with the pattern |
| `LwwStore.ListedIsReadable` | dlstorage/store/lww.py:56-107 | `keys` lists exactly the keys for which `get_versioned` returns a value, if and only if it is not a live entry at the very instant of its deadline |
| `LwwStore.ListedIsFound` | dlstorage/store/lww.py:47-107 | `keys` lists exactly what `get` and `exists` find, if and only if it is neither a stored `None` before its deadline nor another value at it |
| `LwwStore.StoredNone` | dlstorage/store/lww.py:47-107 | an input that is listed and not found |
| `LwwStore.DeadlineInstant` | dlstorage/store/lww.py:73-107 | an input that is found and not listed |
| `BasicStore.LocalStore.Set` | dlstorage/store/basic.py:20-27 | always stores; the value is read up to and including `now + ttl`, for ever without a TTL, and other keys stay |
| `BasicStore.ItemLives` | dlstorage/store/basic.py:20-102 | read up to and including `now + ttl`, listed before it, purged and dropped by a look from then on |
| `BasicStore.ScanFindsItems` | dlstorage/store/basic.py:54-85 | a scan finds exactly the listed keys with the pattern in them, with their values; a flush hits exactly the keys with the pattern |
| `BasicStore.LocalStore.Get` | dlstorage/store/basic.py:29-39 | value or nothing, dropping a lapsed item |
| `BasicStore.LocalStore.Delete` | dlstorage/store/basic.py:41-44 | removes the key and tells whether it was there |
| `BasicStore.LocalStore.PurgeExpired` | dlstorage/store/basic.py:91-102 | the loop removes and counts exactly the due items |
| `BasicStore.LocalStore.FlushKeys` | dlstorage/store/basic.py:79-85 | the loop removes and counts exactly the matching keys |
| `StoreRefinement.StepRefines` | dlstorage/store/lww.py:29-160 | hiding tombstones and timestamps, one operation takes both stores to corresponding states with equal answers if and only if it is not overtaken by a newer entry |
| `StoreRefinement.RunRefines` | dlstorage/store/basic.py:20-105 | driven by the same events in timestamp order per key, TTLs, purges and flushes included, both stores give the same answers throughout |
| `StoreRefinement.PerformLww` | dlstorage/store/lww.py:29-160 | the class takes exactly the steps of the machine used in the refinement |
| `StoreRefinement.PerformBasic` | dlstorage/store/basic.py:20-105 | likewise for the plain store |
| `Replay.PutReflects` | dlstorage/store/lww.py:39-45 | delivering a write keeps "the store holds the newest write of each key" |
| `Replay.SummaryIsUnique` | dlstorage/store/lww.py:39-45 | a consistent set of writes determines the store |
| `Replay.ReplayConfluence` | dlstorage/store/lww.py:90-95 | the same set of writes in any order with any repetition leaves the same store |
| `Replay.WritesCommute` | dlstorage/store/lww.py:41 | two writes commute if and only if they do not tie on a key, differ and both get accepted |
| `Replay.NoResurrection` | dlstorage/store/lww.py:79-95 | after a delete at time t, whatever writes arrive later, the key never shows a write older than t; for reads, purges and flushes in between see `Forgetting.ResurrectedIff` |
| `Replay.TieKeepsLastArrival` | dlstorage/store/lww.py:41 | an input where two writes that tie do not commute |
| `Forgetting.VersionFallsOnlyByForgetting` | dlstorage/store/lww.py:29-157 | one operation leaves a key a version at least as new if and only if it does not forget the key: a read of it lapsed, a purge of it due, a flush that hits it |
| `Forgetting.OlderWriteLands` | dlstorage/store/lww.py:56-157 | a write lands after an operation as before it if and only if the operation did not forget a newer entry |
| `Forgetting.PurgeForgets` | dlstorage/store/lww.py:146-157 | a write lands after a purge as before it if and only if no newer entry was dropped |
| `Forgetting.VersionNeverFalls` | dlstorage/store/lww.py:29-157 | over a whole run, TTLs, reads, purges and flushes included, a key's version never falls if and only if no step forgets the key |
| `Forgetting.HoldsNewestRemembered` | dlstorage/store/lww.py:29-157 | after any run the store holds for each key the newest write since it was last forgotten |
| `Forgetting.ResurrectedIff` | dlstorage/store/lww.py:79-95 | after any run a key shows a version older than t if and only if all writes since it was last forgotten are older than t, and there is one |
| `Forgetting.ReadLetsOlderWriteIn` | dlstorage/store/lww.py:73-75 | an input where a lookup decides whether an older write becomes visible |
| `Forgetting.PurgeLetsOlderWriteIn` | dlstorage/store/lww.py:146-157 | likewise for a purge |
| `Forgetting.DeletedKeyComesBack` | dlstorage/store/lww.py:73-95 | an input where a deleted key is live again with a write older than the delete |
| `Dispatcher.Dispatch` | dlstorage/node/dispatcher.py:9-46 | reply and new store for every message kind, missing fields and error text included |
| `Dispatcher.RequestsByField` | dlstorage/node/dispatcher.py:9-46 | field by field: a GET reply says what the store has, without a timestamp the server's clock stamps a write, TTLs count from the server's clock, a missing key or value changes nothing |
| `Dispatcher.RemoteReadRefinesLocal` | dlstorage/node/async_.py:86-98 | a remote read equals the local one, for live, deleted, expired and absent keys, if and only if it is not of a tombstone without positive timestamp |
| `Dispatcher.RemoteWriteRefinesLocal` | dlstorage/node/dispatcher.py:26-40 | a remote write changes the store as a local one; the answer differs exactly when a value was rejected |
| `Dispatcher.TombstoneLost` | dlstorage/node/async_.py:94-97 | an input where a delete is lost on the wire |
| `Dispatcher.RejectionConfirmed` | dlstorage/node/dispatcher.py:26-32 | an input where a rejected value is answered with OK |
| `Consistency.MergeReplies` | dlstorage/consistency/lww.py:47-55 | the loop computes the merge |
| `Consistency.MergePicksNewest` | dlstorage/consistency/lww.py:77-85 | the merge is the first reply with the highest timestamp, a tombstone or no reply meaning nothing |
| `Consistency.MergeOfOne` | dlstorage/node/sync.py:229-231 | when reading through the merge differs from reading the own store |
| `Consistency.NegativeTimestamp` | dlstorage/consistency/lww.py:47-55 | an input where the two reads differ |
| `Ring.OrderIsIrrelevant` | dlstorage/ring/rendezvous.py:39-50 | the routing of a key depends on the membership only, for every request size, negative ones included |
| `Ring.RoutingForgetsHistory` | dlstorage/ring/rendezvous.py:33-37 | two rings route alike when each node's last add or remove is the same |
| `Ring.TopNodesIsTop` | dlstorage/ring/rendezvous.py:45-50 | the result is the min(n, S) members with fewer than n others above them, strictly falling; shorter requests are prefixes |
| `Ring.NegativeRequest` | dlstorage/ring/rendezvous.py:50 | a negative request drops that many members from the bottom |
| `Ring.PrimaryIsHead` | dlstorage/ring/rendezvous.py:39-50 | `get_node` is the head of any non-empty `get_nodes`, ties included |
| `Ring.TiesFollowOrder` | dlstorage/ring/rendezvous.py:45-50 | for every member set, routing is the same for all iteration orders if and only if no two members tie |
| `Ring.TiedStayInOrder` | dlstorage/ring/rendezvous.py:49 | the sort is stable: two members that tie stay in the order they came in, whatever the others |
| `Ring.RemovalRemapsMinimally` | dlstorage/ring/rendezvous.py:36-50 | the top n after a removal is the old top n+1 without the node, cut to n; survivors keep their place |
| `Ring.RendezvousRing.GetNodes` | dlstorage/ring/rendezvous.py:45-50 | the ring object answers with the top nodes of its members in some iteration order |
| `Ring.RendezvousRing.GetNode` | dlstorage/ring/rendezvous.py:39-43 | likewise for the primary |
| `Ring.RendezvousRing.Add` | dlstorage/ring/rendezvous.py:33-34 | set insertion |
| `Ring.RendezvousRing.Remove` | dlstorage/ring/rendezvous.py:36-37 | set removal, a no-op for a stranger |
| `Quorum.OverlapWhen` | dlstorage/ring/rendezvous.py:45-50 | two rings have a common replica if and only if an old replica stays with fewer than r joiners above it |
| `Quorum.FewChangesOverlap` | dlstorage/ring/rendezvous.py:45-50 | fewer departures than replicas and fewer joins than r leave a common replica, whatever the scores |
| `StorageNode.Execute` | dlstorage/connection_pool/sync.py:61-122 | one try on an idle or new connection, one retry only after an idle one failed; each may be served or not, by the peer's clock then, before it fails; it raises exactly if the request cannot be encoded |
| `StorageNode.ExchangeByCases` | dlstorage/connection_pool/sync.py:65-122 | a served try returns the reply as it is; a failing one leaves what it served, and ends the exchange unless it was on an idle connection: then a new one is tried, once |
| `StorageNode.ResentGet` | dlstorage/connection_pool/sync.py:94-122 | a read served twice, at different moments, reads what the second finds |
| `StorageNode.ResentSet` | dlstorage/connection_pool/sync.py:94-122 | a value served twice is stored as if served once by the later clock, and is confirmed if and only if the reply comes back |
| `StorageNode.ResentDelete` | dlstorage/connection_pool/sync.py:94-122 | a delete served twice deletes as if once but is confirmed only if stale |
| `StorageNode.DeleteDenied` | dlstorage/connection_pool/sync.py:94-122 | an input where a delete that removed a live value answers False |
| `StorageNode.HandleSet` | dlstorage/node/sync.py:61-106 | whether it raises; True locally exactly when nothing newer was there; if the store was reached and held nothing newer, the value lives there for its TTL from the store's clock |
| `StorageNode.WrittenLands` | dlstorage/node/sync.py:61-114 | the life of what a handle wrote, local or remote, at every later clock reading |
| `StorageNode.LocalHandleIsStore` | dlstorage/node/sync.py:50-68 | what a local handle answers and changes, in terms of the store |
| `StorageNode.RemoteHandleIsExchange` | dlstorage/node/sync.py:71-114 | what a remote handle answers and changes is what the exchange of its request does |
| `StorageNode.HandleDelete` | dlstorage/node/sync.py:64-114 | likewise for a delete |
| `StorageNode.HandleGetVersioned` | dlstorage/node/sync.py:58-97 | what a local or remote handle reads, or that it raises |
| `StorageNode.FanOut` | dlstorage/node/sync.py:246-248 | each replica that is reached takes the write, until a handle raises: then the later ones are left alone; a True answer means one holds a version at least as new |
| `StorageNode.ReadResolve` | dlstorage/consistency/lww.py:30-55 | the loop asks every replica, a failing one counting as having nothing, and merges |
| `StorageNode.StorageNode.MakeHandles` | dlstorage/node/sync.py:263-272 | the own node gets a local handle, the others remote ones, on separate stores |
| `StorageNode.StorageNode.Write` | dlstorage/node/sync.py:237-261 | it raises if and only if a handle does; at exactly the top nodes that are reached, of those asked before that, the write lands and lives for its TTL from that node's clock unless something newer was there, all other stores stay; True if and only if some handle confirms, and then some replica holds a version at least as new |
| `StorageNode.StorageNode.Get` | dlstorage/node/sync.py:227-235 | the merge of what the top nodes answer, each by its own clock, or the own store on an empty ring; what it leaves in every store |
| `Cluster.InvHolds` | dlstorage/store/lww.py:39-45 | in every reachable state each store is the summary of the writes delivered to its node |
| `Cluster.ReadReturnsNewest` | dlstorage/consistency/lww.py:47-55 | under loss, reordering and duplication, with replicas asked at different moments, a read returns the newest write delivered to any replica it hears, and nothing if that is a delete or there is none |
| `Cluster.NewestIsReturned` | dlstorage/node/async_.py:210-220 | such a newest write exists whenever the read saw any |
| `Cluster.AcknowledgedWriteEndures` | dlstorage/node/async_.py:222-248 | once `set` returned True one target holds a version at least as new in every later state |
| `Cluster.AcknowledgedWriteIsSeen` | dlstorage/node/async_.py:210-248 | a read that hears that target returns a write at least as new |
| `Cluster.WriteOutlivesMembershipChange` | dlstorage/node/async_.py:212-220 | a write delivered to all top-r nodes of one ring is read through any ring with fewer departures than replicas and fewer joins than r |
| `NodeInCluster.FanOutIsRun` | dlstorage/node/sync.py:237-261 | issuing a write, delivering it where the network reaches and acknowledging it where a handle confirms is a run, leaves each store as the handles do, and acknowledges it if and only if some handle confirms; an exception on the way leaves the later replicas out |
| `NodeInCluster.WriteAsRun` | dlstorage/node/sync.py:237-261 | a call of `set` or `delete` on a node object is such a stretch of a run, on an empty ring too; if it returns, it returns True if and only if the write is then acknowledged |
| `NodeInCluster.GetAsRead` | dlstorage/node/sync.py:227-235 | a call of `get` leaves the cluster's state as it is and returns the newest write delivered to a replica it heard |
| `Gossip.GossipDiscovery.GetPeers` | dlstorage/discovery/gossip.py:22-23 | the recorded peers in some order, then the seed, even if it is recorded too |
| `Gossip.GossipDiscovery.AddPeer` | dlstorage/discovery/gossip.py:25-30 | records the peer and tells whether it was new |
| `Gossip.GossipDiscovery.RemovePeer` | dlstorage/discovery/gossip.py:32-34 | forgets the peer |
| `Gossip.AsyncGossip.Bootstrap` | dlstorage/node/async_.py:168-169 | the loop puts seed, recorded peers and the node itself into the ring |
| `Gossip.AsyncGossip.Partners` | dlstorage/peer_comm/gossip.py:130-138 | a round picks from the recorded peers and the seed, without itself |
| `Gossip.AsyncGossip.Broadcast` | dlstorage/peer_comm/gossip.py:178-183 | the loop sends one copy to every ring member other than itself |
| `Gossip.AsyncGossip.AnnounceJoin` | dlstorage/peer_comm/gossip.py:117-120 | each of them is sent the own address as a join |
| `Gossip.AsyncGossip.AnnounceLeave` | dlstorage/peer_comm/gossip.py:122-125 | likewise as a leave |
| `Gossip.AsyncGossip.LearnFrom` | dlstorage/peer_comm/gossip.py:158-166 | the loop over a peer list adds exactly the strangers before the first unreadable entry |
| `Gossip.AsyncGossip.GossipWith` | dlstorage/peer_comm/gossip.py:148-169 | node by node: the ring gains exactly the listed strangers read before a failure, the discovery those that were not in the ring; no reply, an exception or an unreadable entry leaves the peer in neither and closes its connections |
| `Gossip.AsyncGossip.Evict` | dlstorage/peer_comm/gossip.py:171-176 | removes the peer from both and closes its connections |
| `Gossip.AsyncGossip.HandleMessage` | dlstorage/peer_comm/gossip.py:186-217 | an announced peer is in the ring, and recorded if it was not there before; a leaving one is in neither and its connections closed; nothing else changes; the reply for every message kind, a peer list omitting the responder |
| `NodeInMembership.StartAsStep` | dlstorage/node/async_.py:166-169 | a gossip object that starts takes the system's step of starting |
| `NodeInMembership.AnnounceJoinAsStep` | dlstorage/peer_comm/gossip.py:117-120 | the messages a node sends to announce itself are those the system's step puts in flight |
| `NodeInMembership.AnnounceLeaveAsStep` | dlstorage/peer_comm/gossip.py:122-125 | likewise when it leaves |
| `NodeInMembership.HandleAsStep` | dlstorage/peer_comm/gossip.py:186-211 | serving an announcement, a leave or a request for the list is the system's step |
| `NodeInMembership.GossipAsSteps` | dlstorage/peer_comm/gossip.py:148-169 | the end of a pull is learning what was read of the list, if one came, then evicting the peer, if it failed |
| `NodeInMembership.LeadsIsRun` | dlstorage/peer_comm/gossip.py:148-217 | such steps continue any run that has come to the state the nodes are in |
| `Joining.JoinIsHeard` | dlstorage/peer_comm/gossip.py:178-183 | a join announcement goes to exactly the ring members other than the sender, and every one that runs can hear it |
| `Joining.LeaveIsHeard` | dlstorage/peer_comm/gossip.py:178-183 | likewise a leave announcement |
| `Joining.AgreementIsReached` | dlstorage/peer_comm/gossip.py:117-202 | for every seed and finite set of nodes with it, some run without departures has them all start with that seed, the seed hear the others and gossip come to rest, and then every ring is the whole set |
| `Membership.RingAndDiscoveryInStep` | dlstorage/peer_comm/gossip.py:158-176 | in every run, evictions and departures included, a node is in its ring, recorded peers are members, every other member is a gossip candidate |
| `Membership.NoInventedMembers` | dlstorage/peer_comm/gossip.py:148-166 | every address in a ring, a peer set or a list in flight is a seed or started |
| `Membership.ReachIsLeastClosed` | dlstorage/peer_comm/gossip.py:191-193 | being reachable by a chain of acquaintances is being in every closed set |
| `Membership.PullsKeepReach` | dlstorage/peer_comm/gossip.py:156-166 | pulls, however ordered and stale, keep the transitive closure of "knows" unchanged |
| `Membership.ProductivePullShrinksMissing` | dlstorage/peer_comm/gossip.py:156-166 | every pull that adds something strictly shrinks the missing pairs |
| `Membership.UnrestCanLearn` | dlstorage/peer_comm/gossip.py:130-146 | before quiescence a productive pull is possible |
| `Membership.ProductiveBounded` | dlstorage/peer_comm/gossip.py:148-166 | a run of pulls, however long, changes views at most as often as pairs were missing at its start |
| `Membership.RestIsReachable` | dlstorage/peer_comm/gossip.py:130-166 | from every state without departures some run of pulls reaches quiescence |
| `Membership.RestIsQuiescence` | dlstorage/peer_comm/gossip.py:148-166 | no run of pulls, stale lists included, ever changes a view again if and only if the state is quiescent |
| `Membership.FixpointIsReach` | dlstorage/peer_comm/gossip.py:148-166 | at quiescence a ring is exactly what was reachable from its owner at the start |
| `Membership.RoutingAgreement` | dlstorage/peer_comm/gossip.py:195-202 | after joins through one seed, at quiescence, all rings are equal and all nodes route alike |
| `Membership.DepartureRemapsMinimally` | dlstorage/peer_comm/gossip.py:171-176 | an eviction or a leave remaps each key by dropping the node and taking the next in line |
| `Wire.EncodeRoundTrip` | dlstorage/connection_pool/wire.py:14-17 | sending fails exactly for messages that cannot be pickled or take 2^32 bytes or more, else the receiver gets the message back |
| `Wire.HeaderOrder` | dlstorage/connection_pool/wire.py:8-16 | the length is sent most significant byte first: smaller lengths have smaller headers, from the left; the longest is all 255s |
| `Wire.RecvExactly` | dlstorage/connection_pool/wire.py:27-36 | the loop fills the buffer with exactly n bytes of the stream, or reports its end |
| `Wire.RecvMessage` | dlstorage/connection_pool/wire.py:39-43 | takes exactly one frame off the stream and unpickles it; raises exactly if the stream ends early or the body cannot be read |
| `Wire.FeedConserves` | dlstorage/connection_pool/mux.py:239-261 | a chunk moves from stream to reader without loss; a completed body is one frame |
| `Wire.ReaderRefinesReceive` | dlstorage/connection_pool/mux.py:224-261 | on every stream and for every chunking the reader and the blocking receiver yield the same message and leave the same rest, or neither yields one; when the reader waits and when it fails |
| `Wire.EmptyBody` | dlstorage/connection_pool/mux.py:224-237 | the frame of an empty body gives neither receiver a message; the reader waits on it until more can be read, then fails |
| `Wire.MessagesRoundTrip` | dlstorage/connection_pool/wire.py:14-43 | any sequence of messages that can be sent round trips through either receiver |
| `Mux.SocketOwnership` | dlstorage/connection_pool/mux.py:89-183 | in every reachable state each socket created, failed connects and encoding failures included, is in exactly one place; no two callers share one; the selector never registers one twice |
| `Mux.DroppedIff` | dlstorage/connection_pool/mux.py:97-102 | a socket is one that a call dropped if and only if the call held it when its message could not be encoded |
| `Mux.EncodeFailureDropsSocket` | dlstorage/connection_pool/mux.py:97-102 | a run after which a socket is neither idle nor closed nor in use |
| `Mux.CallerGetsOwnReply` | dlstorage/connection_pool/mux.py:89-118 | whatever a call returns is the addressed peer's answer to that very call, sent once |
| `Mux.DeliveredReplyIsReturned` | dlstorage/connection_pool/mux.py:258-261 | a body put into the cell of a call still waiting is what the call returns, in every continuation of the run |
| `Mux.IdleSocketsAreClean` | dlstorage/connection_pool/mux.py:175-183 | idle sockets carry no unread or late reply, sit under their own address, and never exceed the limit |
| `Mux.SelectorCanProceed` | dlstorage/connection_pool/mux.py:193-216 | no wake-up is lost; a registered socket is open and its reader needs a byte; whatever can happen finds what it takes for granted |
| `Mux.ReadyIsEnabled` | dlstorage/connection_pool/mux.py:89-118 | in a reachable state a sending caller has an open socket, a waiting one its result cell, and a fed reader is sound |
| `Mux.OldestIdleIsReused` | dlstorage/connection_pool/mux.py:155-181 | a call takes the idle socket given back longest ago, and the one just given back if and only if there is no other |
| `Mux.FirstInFirstOut` | dlstorage/connection_pool/mux.py:150-183 | in every run, of two sockets idle at one peer the one given back first is taken first, unless the peer is closed in between |
| `Mux.ReadProgress` | dlstorage/connection_pool/mux.py:224-261 | a read keeps the exchange underway, or ends it with the peer's last reply and a clean connection |
| `MuxPool.MuxConnectionPool.Acquire` | dlstorage/connection_pool/mux.py:150-156 | one step of the machine: take an idle socket or go and connect |
| `MuxPool.MuxConnectionPool.Connected` | dlstorage/connection_pool/mux.py:157-165 | one step: a new socket |
| `MuxPool.MuxConnectionPool.NotConnected` | dlstorage/connection_pool/mux.py:166-173 | one step: no result, and the socket closed if it was created |
| `MuxPool.MuxConnectionPool.EncodeRaises` | dlstorage/connection_pool/mux.py:101-102 | one step: the call is over, its socket dropped |
| `MuxPool.MuxConnectionPool.SendRequest` | dlstorage/connection_pool/mux.py:103-108 | one step: request sent, or socket closed |
| `MuxPool.MuxConnectionPool.HandOff` | dlstorage/connection_pool/mux.py:111-113 | one step: queued for registration |
| `MuxPool.MuxConnectionPool.Wakeup` | dlstorage/connection_pool/mux.py:185-189 | one step: a wake-up byte is on its way |
| `MuxPool.MuxConnectionPool.TakeResult` | dlstorage/connection_pool/mux.py:116-118 | one step: result or timeout; after any sequence of calls on the object a result is the addressed peer's answer to this very call, sent once |
| `MuxPool.MuxConnectionPool.ReadWakeups` | dlstorage/connection_pool/mux.py:201-207 | one step: up to 4096 wake-up bytes taken, the rest left, then the queue is emptied |
| `MuxPool.MuxConnectionPool.RegisterNext` | dlstorage/connection_pool/mux.py:209-214 | one step: register the head of the queue, never a socket already registered, or stop draining |
| `MuxPool.MuxConnectionPool.HandleRead` | dlstorage/connection_pool/mux.py:224-258 | one step: header, body or part of either |
| `MuxPool.MuxConnectionPool.Fail` | dlstorage/connection_pool/mux.py:263-272 | one step: unregistered and closed |
| `MuxPool.MuxConnectionPool.Return` | dlstorage/connection_pool/mux.py:175-183 | one step: kept if there is room, else closed |
| `MuxPool.MuxConnectionPool.PutResult` | dlstorage/connection_pool/mux.py:258-261 | one step: the body is put into the call's cell |
| `MuxPool.MuxConnectionPool.TakePeer` | dlstorage/connection_pool/mux.py:120-124 | one step: the peer's idle sockets, if any, leave the pool together |
| `MuxPool.MuxConnectionPool.PeerAnswers` | dlstorage/node/sync.py:301-308 | one step: the peer answers the requests of a connection in order, one frame each |
| `MuxPool.MuxConnectionPool.CloseTaken` | dlstorage/connection_pool/mux.py:125-129 | one step: one of them is closed |
| `EndToEnd.AnyNodeReadsWhatAnyNodeWrote` | dlstorage/node/async_.py:210-248 | after gossip has come to rest a write delivered to the replicas one node computes is read by any node that hears any one of the replicas it computes itself |

## Left out

- Cluster.ReadReturnsNewest: like all of `Cluster.dfy` and `NodeInCluster.dfy`, for writes without TTL and nodes that do not restart or flush, since expiry, flushes and restarts forget versions; `Forgetting.ResurrectedIff` says exactly what one store then shows.
- LwwStore.LocalLWWStore.Keys: a set, without the insertion order of the dictionary.
- LwwStore.LocalLWWStore.Scan: a map, without the insertion order of the dictionary; `scan_keys` is its domain.
- Locks and threads as such: methods of the stores are atomic, the pool is a system of atomic steps; the in-flight record is a value in the selector's table and its result cell a separate map.
- The idle queues of dlstorage/connection_pool/async_.py and dlstorage/connection_pool/sync.py: whether an idle connection is at hand, and how each try ends, are inputs of an exchange.
- The byte format of pickle, TLS, DNS and sockets as operating system objects: in the pool a reply is an opaque, non-empty body, and one that cannot be read is a failing read.
- The accept and handler loops of the servers: a peer answers the requests of one connection in order, one reply each; which component serves a message is decided by its kind and not modelled.
- MuxPool.MuxConnectionPool.Wakeup: a failing send on the wake-up socket, which the code ignores, does not occur before the shutdown.
- Mux.EncodeFailureDropsSocket: what the interpreter does with a socket object that nobody refers to any more.
- Shutdown of the multiplexed pool: `close_all` and the draining of registered sockets on exit.
- The synchronous gossip class under free threading: its ring and peer updates are not locked; the async class, whose stretches between awaits are atomic, is the one modelled.
- Discovery backends other than gossip: they never record peers.
- dlstorage/consistency/fhw.py: it may return stale data by design.
- Types.ParseInt: digits and spaces outside ASCII, which Python's `int` also accepts, and its default limit of 4300 digits, beyond which it raises ValueError, are not modelled.
- Logging, repr, examples, benchmarks and profilers.
