# Models of libtorrent's stateful core

Eight components of libtorrent, each of which keeps a redundant or distributed structure that has to
agree with a simple definition over every run, modelled in Dafny and proved to do so.

| component | files | what is proved |
|---|---|---|
| DHT routing table | `Id160`, `DhtRange`, `DhtMetric`, `DhtBucket`, `DhtTable`, `DhtSplit`, `DhtRoom`, `DhtRouter`, `DhtChain`, `DhtClosest` | the table of the "Routing Table" section of BEP 5: buckets partition the ID space, form one chain, and answer `find_node` with the nodes nearest by XOR distance |
| Hash checking | `HashQueue`, `HashTorrent`, `Ranges` | two threads, a lock, an atomic flag and posted callbacks: no chunk is lost, answered twice or waited for in vain, and every one is answered; the initial check goes on to its end, or exactly when not |
| Bandwidth throttle | `ThrottleList`, `ThrottleTree` | quota is conserved over a tree of throttles, and waiting nodes and slaves are served in order within a bounded time |
| Initial seeding | `InitialSeeding` | its loops end although they reset their own state, and its counter is exact |
| Chunk availability | `Bitfield`, `ChunkStatistics` | incremental byte counters equal a count over peers |
| Chunk storage | `ChunkList`, `Chunk` | reference counts equal live handles; memory in parts behaves as one run of bytes |
| Name resolution | `DnsCache`, `DnsBuffer` | staleness lists are exact; merged queries call each callback once, unless it is cancelled, and never after that |
| Peer exchange and framing | `PeerExchange`, `Wire` | changes add up to the list; what is read from a stream of any bytes does not depend on how it is split |

`Collections` holds what several of them use.

How the source's ways are expressed:

- An object with fields that its methods update is a class with a `Valid` predicate. A vector, list or
  map is a `seq` or `map` field; byte buffers are arrays.
- The two protocols with more than one thread (`HashQueue`, `DnsBuffer`) are step functions over a state
  with program counters. A step is one critical section, one access to an atomic, or one posted callback,
  so every interleaving is a sequence of steps, and the theorems are about all sequences.
- `internal_error` is proved unreachable, either as an assertion in the method, or as a `Fault` outcome
  that no step has; or it is an outcome with its exact condition. Where the check is on what the caller
  passes, it is a precondition.
  `communication_error`, `close_connection` and the end of initial seeding are outcomes.
- Clocks, random numbers, sockets, mapping and syncing of memory, and statistics owned by other objects
  are parameters that may have any value. The clock of `DnsCache` is positive and does not go back.
- Where two pieces of source do the same for two address families, or for two peers of a pair, the model
  has it once, with the family as a parameter.

Things the proofs brought out, all of them stated in the model as exact conditions:

- `ThrottleInternal::enable` and `disable` turn their own list and those of their slaves on and off, not
  those further down. The tree is then fully enabled, or fully off, if and only if everything below the
  slaves already was (`ThrottleTrees.ThrottleInternal.Enable`, `ThrottleTrees.ThrottleInternal.Disable`). A
  slave of a slave that was made while the throttle was off stays off, and the quota that reaches it is an
  internal error, on the fourth tick at the latest, for all rates, quotas and fractions
  (`ThrottleTrees.GrandchildStaysDisabled`, `ThrottleTrees.GrandchildFaults`). Of any tree: a run of ticks
  that is long enough meets that error if and only if some list of the tree is off
  (`ThrottleTrees.ThrottleInternal.TickAll`).
- `DhtBucket::find_replacement_candidate` finds no node if and only if none counts as bad and all have the
  largest possible time; nine nodes loaded with that time bring `add_node_to_bucket` to its internal error
  (`DhtRouters.NoCandidateIsFound`). Which of its four ends it comes to is decided by the bucket that the
  new node belongs in, as it was before the call (`DhtRouters.DhtRouter.AddNodeToBucket`); and no run comes
  to the error unless some node is given the largest time (`DhtRouters.DhtRouter.Run`).
- A quick hash check is done if and only if no chunk has a file; if it meets one, it stops with nothing
  outstanding and no timer set, and does not go on by itself (`HashTorrents.HashTorrent.Start`).
- A check that is started again before the announced end of a failed one was delivered can be hit by that
  old announcement. With chunks outstanding it is an internal error in `confirm_checked`
  (`HashTorrents.StaleEndFaults`); while the check waits to retry, it closes it unfinished without an error,
  and the retry then runs `queue` on a check that is not running (`HashTorrents.StaleEndStops`). Both happen
  exactly on the state that the first delivered announcement comes upon, and never to a check started with
  none announced (`HashTorrents.HashTorrent.Run`, `HashTorrents.HashTorrent.EndThenRetry`).
- `Chunk::to_buffer`, `from_buffer` and `compare_buffer` test position + length in 32 bits. A range out of
  the chunk is let through if and only if its beginning is in the chunk and the sum wraps around; then the
  rest of one part is transferred and success is reported (`Chunks.Chunk.ToBuffer`,
  `Chunks.WrappedRangeIsShort`).
- `ChunkList::get` reports an internal error if and only if write access is asked for on a chunk that is
  mapped read-only and blocked, without the nonblock flag; the handle that blocks it only reads. Hashing a
  chunk and then asking to write to it is enough (`ChunkLists.ChunkList.Run`, `ChunkLists.WriteWhileRead`).
- The comment above `ChunkIterator::forward` says it is true only on a file boundary; the code returns
  true whenever the range goes on, and that is what is modelled.
- `m_ut_pex_list` is subtracted from in place, with the result written over the input; that is safe
  because the writing position never passes the reading one (`PeerExchange.SubtractInPlace`).

## Model

| member | source | states |
|---|---|---|
| Id160.CompareIsValueOrder | src/torrent/hash_string.h:89-97 | comparing two IDs byte by byte orders them as the numbers they write, for any length |
| Id160.LessEqIsValueOrder | src/torrent/hash_string.h:94-97 | the same for "not greater", the form used by range tests |
| DhtRange.BlockValues | src/dht/dht_bucket.cc:82-105 | a range given byte by byte (equal head, one byte on a power-of-two boundary, full tail) is exactly an aligned power-of-two range of numbers |
| DhtRange.BlockHalves | src/dht/dht_bucket.cc:82-91 | averaging the first differing byte cuts such a range into two aligned halves, at begin + width/2 - 1 |
| DhtRange.InRangeIsSamePrefix | src/dht/dht_bucket.h:44 | lying between the ends of an aligned range is the same as sharing its prefix |
| DhtMetric.XorIsCommonPrefix | src/dht/dht_bucket.h:111-113 | the XOR distance of two numbers is below a power of two if and only if they agree on the higher bits; the link between prefixes and distance that Kademlia rests on |
| DhtMetric.BlockIsBucket | src/dht/dht_bucket.h:44 | the range of bucket m of n is the set of IDs at one span of distances from the router |
| DhtMetric.BucketsPartition | src/dht/dht_router.cc:188-201 | every ID lies in exactly one of the n buckets, the one its distance from the router names |
| DhtMetric.BandBounds | src/dht/dht_bucket.h:146-163 | distances from a target in bucket s to any ID of bucket m lie in the band of m: own bucket, all children together, then each parent on its own |
| DhtMetric.BandsAreOrdered | src/dht/dht_bucket.h:111-113 | an ID in a nearer band is strictly closer to the target than any ID in a farther one |
| DhtBuckets.Successor | src/dht/dht_bucket.cc:114-120 | the carry loop adds one, modulo 2^160 |
| DhtBuckets.IncrementIsModular | src/dht/dht_bucket.cc:114-120 | what the carry loop leaves is value + 1 modulo the ID space, for every ID |
| DhtBuckets.Partition | src/dht/dht_bucket.cc:122-129 | each node lands on the side its ID belongs to, none lost and none doubled |
| DhtBuckets.DhtBucket.GetMidPoint | src/dht/dht_bucket.cc:82-91 | the midpoint is begin + width/2 - 1 |
| DhtBuckets.DhtBucket.GetRandomId | src/dht/dht_bucket.cc:93-105 | whatever the random bytes, the ID is in the range; and every ID of the range can be drawn |
| DhtBuckets.BytewiseInBlock | src/dht/dht_bucket.cc:93-99 | bytes drawn between the two ends, one by one, never leave an aligned range |
| DhtBuckets.DhtBucket.Split | src/dht/dht_bucket.cc:107-155 | both halves are aligned and adjacent, nodes are divided by range and told their bucket, and the half with the router becomes the child |
| DhtBuckets.DhtBucket.SplitRange | src/dht/dht_bucket.cc:109-120 | two aligned halves, the upper one kept |
| DhtBuckets.DhtBucket.RemoveNode | src/dht/dht_bucket.cc:32-46 | exactly one occurrence goes |
| DhtBuckets.DhtBucket.FindReplacementCandidate | src/dht/dht_bucket.cc:64-80 | the first bad node if and only if there is one (and age is not all that counts), else the first of those not seen for longest; none if and only if no node counts as bad and every one has the largest time |
| DhtTable.RangesPartition | src/dht/dht_router.cc:188-198 | in a valid table an ID is in the range of exactly one bucket |
| DhtTable.OnlyInItsBucket | src/dht/dht_router.cc:588-590 | a node is listed by no bucket but the one for its ID |
| DhtTable.HomeIsItsBucket | src/dht/dht_router.cc:588-599 | the bucket pointer of a known node names the bucket that lists it, or is null if none does |
| DhtTable.SplitRanges | src/dht/dht_bucket.cc:107-120 | halving the last range of n gives the ranges of n + 1 |
| DhtTable.WholeSpace | src/dht/dht_router.cc:59-61 | the one range from zero to ones is the table of one bucket |
| DhtTable.DeletedOk | src/dht/dht_router.cc:593-604 | deleting a node keeps every part of the table invariant |
| DhtTable.AddedOk | src/dht/dht_router.cc:588-590 | placing a node in the bucket for its ID, if not full, keeps it |
| DhtTable.KnownOk | src/dht/dht_router.cc:285-286 | entering a node without a bucket keeps it |
| DhtSplit.SplitOk | src/dht/dht_router.cc:532-561 | splitting the own bucket keeps the whole invariant: partition, lists, chain links, keys and bucket pointers |
| DhtRouters.DhtRouter.constructor | src/dht/dht_router.cc:57-61 | the first table is one bucket over the whole space |
| DhtRouters.DhtRouter.FindBucket | src/dht/dht_router.cc:188-201 | lower_bound on the range ends finds the one bucket whose range holds the ID |
| DhtRouters.DhtRouter.DeleteNode | src/dht/dht_router.cc:593-604 | the node leaves its bucket and the list; nothing else changes |
| DhtRouters.DhtRouter.SplitBucket | src/dht/dht_router.cc:532-561 | the table becomes its split, the router moves into the half with its ID, and the error for a wrong half cannot occur |
| DhtRouters.RoomToSplit | src/dht/dht_router.cc:567-586 | the own bucket, when full of distinct IDs, is never too narrow to be halved |
| DhtRouters.DhtRouter.AddNodeToBucket | src/dht/dht_router.cc:563-591 | the loop ends (the own range halves); the node is placed in the bucket for its ID, at most one other node goes for it, the first bad one of that bucket, and none if there was room. Each end has its exact condition on the table before the call: a node is dropped if and only if the bucket is full with a bad node; the error if and only if it is full, with no bad node and all of the largest time; turned away if and only if it is full, with no bad node and not all of that time, and is not the router's own, or all its nodes share with the router as many bits as the new one |
| DhtRouters.DhtRouter.MakeRoom | src/dht/dht_router.cc:567-586 | one round of the loop: for each of the four outcomes exactly when it is met, and the table after it; what is dropped is the first bad node of the bucket |
| DhtRouters.DhtRouter.FindRoom | src/dht/dht_router.cc:565-586 | the whole loop: how it ends is decided by the nodes that were in the bucket at first, however often that is split on the way |
| DhtRoom.IndexIsDepth | src/dht/dht_router.cc:188-201 | a table of n buckets tells IDs apart by how many leading bits they share with the router, below n - 1 |
| DhtRoom.NeighbourIs | src/dht/dht_router.cc:588-590 | the nodes in the bucket for an ID are exactly the known ones that the table does not tell from it |
| DhtRoom.FewerNeighbours | src/dht/dht_router.cc:532-561 | after splits an ID has no other neighbours than before, and keeps all that are as deep as itself |
| DhtRoom.AfterSplits | src/dht/dht_router.cc:567-586 | after splits an ID has the same eight neighbours, or fewer because they are not all as deep |
| DhtRouters.DhtRouter.Place | src/dht/dht_router.cc:588-590 | the table with the node in the bucket for its ID |
| DhtRouters.DhtRouter.AddNode | src/dht/dht_router.cc:285-289 | a new node is entered and placed, or the table keeps exactly the nodes it had; each end under the same conditions on the table before the call; no node that was not bad is lost |
| DhtRouters.NoCandidateIsFound | src/dht/dht_router.cc:567-572 | with eight nodes of the largest time in the one bucket of a new table, a ninth meets the internal error |
| DhtRouters.DhtRouter.Admit | src/dht/dht_router.cc:281-290 | an unknown node is entered if and only if it is wanted and there is a place for it; the error if and only if it is wanted and no candidate is found |
| DhtRouters.DhtRouter.NodeQueried | src/dht/dht_router.cc:249-272 | the table stays; a known node that was seen before is refreshed if and only if the address is its own, an unknown one is to be asked if and only if it is wanted |
| DhtRouters.DhtRouter.NodeReplied | src/dht/dht_router.cc:277-299 | keeps the table; a known node is refreshed if and only if the address is its own, an unknown one entered if and only if it is wanted and there is a place for it, and the error if and only if it is wanted and no candidate is found; no node that was not bad is lost, and no other node changes |
| DhtRouters.DhtRouter.NodeInactive | src/dht/dht_router.cc:302-328 | keeps the table; exactly the node with that ID and address gets one failure more, and goes exactly when that is at least the fifth and it was not seen for four hours, or its time is ahead of the clock and 32 bits come around that far |
| DhtRouters.DhtRouter.NodeInvalid | src/dht/dht_router.cc:332-340 | keeps the table; exactly the node goes |
| DhtRouters.DhtRouter.TimelyIsNotStuck | src/dht/dht_bucket.cc:64-80 | while no known node has the largest time, a candidate is found for every ID |
| DhtRouters.DhtRouter.Handle | src/dht/dht_router.cc:249-340 | any event keeps the table valid; it fails if and only if an unknown node is to be entered where no candidate is found; a node that is not bad is not lost, and does not turn bad, unless the event counts against it |
| DhtRouters.DhtRouter.Run | src/dht/dht_router.cc:249-340 | after any sequence of such events the table is valid, and until one fails every known node is placed; none fails unless a node is given the largest time; over any events no node that is not bad is lost, or turns bad, unless one of them counts against it |
| DhtChain.WalkVisitsEachOnce | src/dht/dht_bucket.h:146-163 | the walk from any bucket reaches every bucket of the chain at exactly one step |
| DhtChain.DhtBucketChain.Next | src/dht/dht_bucket.h:146-163 | following children, then the parents of the start, is the walk; null exactly at its end |
| DhtChain.StoreCompact | src/dht/dht_node.cc:45-58 | one record of 26 bytes is written where the last one ended, 20 of the ID and then 6 of address and port; no other byte changes |
| DhtChain.BuildFullCache | src/dht/dht_bucket.cc:157-175 | byte for byte: the k-th 26 bytes of the cache are the ID, then address and port, of the k-th of the first eight nodes met on the walk that are not bad, and it never overflows |
| DhtChain.StoreBucket | src/dht/dht_bucket.cc:164-171 | the nodes of one bucket that are not bad are stored until eight are |
| DhtClosest.StoredCount | src/dht/dht_bucket.cc:157-175 | exactly min(8, number of nodes in the table that are not bad) are stored |
| DhtClosest.EarlierIsStored | src/dht/dht_bucket.cc:163-172 | a node that is not bad and is met in an earlier bucket than a stored one is stored |
| DhtClosest.StoredAreClosest | src/dht/dht_bucket.cc:157-175 | for every target, a node that is not bad and is left out is farther than each stored node, or in the same distance band |
| DhtClosest.StoredInOrder | src/dht/dht_bucket.cc:157-175 | for every target, a stored node is in no farther band than those stored after it |
| DhtClosest.RebuildCache | src/dht/dht_bucket.h:138-144 | the cache of a bucket is rebuilt from the chain; the table stays |
| DhtClosest.ClosestNodes | src/dht/dht_router.h:81 | the answer for a target is the freshly built cache of its bucket, byte for byte the records of the nodes stored; with every node placed, it is 26 bytes for each of min(8, number of known nodes that are not bad) |
| HashQueue.MainPlaces | src/data/hash_queue.cc:47-162 | every step of the main thread keeps each pushed chunk in exactly one of: on its way, check queue, in flight, done, answered |
| HashQueue.DiskPlaces | src/data/hash_queue.cc:164-180 | so does every step of the disk thread |
| HashQueue.MainFlag | src/data/hash_queue.cc:119-162 | every step of the main thread keeps the account of the flag: it is set exactly while one `work` is posted or running, or about to be posted |
| HashQueue.DiskFlag | src/data/hash_queue.cc:164-180 | so does every step of the disk thread |
| HashQueue.MainRemove | src/data/hash_queue.cc:71-107 | every step of the main thread keeps: in `remove` the node is still queued, past the check queue its chunk is with the disk thread or done, and it sleeps only while the disk thread is at work on that very chunk |
| HashQueue.DiskRemove | src/data/hash_queue.cc:164-180 | so does every step of the disk thread |
| HashQueue.MainChecks | src/data/hash_check_queue.cc:18-46 | every step of the main thread keeps: a chunk on the check queue has a `perform` posted, running or about to be posted |
| HashQueue.DiskChecks | src/data/hash_check_queue.cc:86-123 | so does every step of the disk thread |
| HashQueue.StepNoFault | src/data/hash_queue.cc:138-161 | no step meets an internal error or calls a done slot twice: `work` always finds its node |
| HashQueue.MainNodes | src/data/hash_queue.cc:47-162 | every step of the main thread keeps: exactly one node for each pushed chunk not answered yet |
| HashQueue.StepOk | src/data/hash_queue.cc:47-180 | every step of either thread keeps all of this, and none faults |
| HashQueue.RunOk | src/data/hash_queue.cc:47-180 | so does no interleaving of steps, of any length |
| HashQueue.EachChunkInOnePlace | src/data/hash_queue.cc:47-180 | in every reachable state a chunk is in exactly one place; done chunks not hidden by the lock are announced by the flag and by exactly one `work`; a done slot gets the hash that was computed |
| HashQueue.QuiescentIsAnswered | src/data/hash_check_queue.cc:86-123 | when nothing is posted and no thread is busy, every pushed chunk has been answered |
| HashQueue.StepWorks | src/data/hash_queue.cc:47-180 | every step takes away from the work that is pending, except pushing and removing, which callers ask for, and polling in `remove` for a chunk still being hashed, which changes nothing |
| HashQueue.RunEnds | src/data/hash_queue.cc:47-180 | without callers, the steps of any run that are not polling are at most the work that was pending |
| HashQueue.Progress | src/data/hash_queue.cc:47-180 | unless all is done, some thread has a step to take that is not polling: no deadlock |
| HashQueue.EveryChunkIsAnswered | src/data/hash_queue.cc:47-180 | from every reachable state the two threads get every pushed chunk answered, in at most as many steps as work was pending, without any help from callers |
| HashQueue.BlockedOnlyWhileHashed | src/data/hash_queue.cc:85-100 | a sleeping `remove` waits for a chunk that is in flight, and then the next step of the disk thread is the only step possible |
| HashQueue.BlockedIsWoken | src/data/hash_queue.cc:164-180 | no wake-up is lost: at most five steps of the disk thread later `remove` is awake and takes its chunk |
| HashQueue.RemoveStep | src/data/hash_queue.cc:71-107 | a step of either thread during `remove` takes only nodes of its owner, and `remove` returns only when none is left |
| HashQueue.RemoveReturns | src/data/hash_queue.cc:71-107 | over a whole `remove`, whatever the disk thread does meanwhile: when it returns, the slots of all chunks of the owner were called with NULL and no other slot was, no node of the owner is left, and those of others stay in order |
| HashQueue.PushedIsRemoved | src/data/hash_queue.cc:47-107 | a chunk pushed for an owner is answered when a later `remove` for that owner returns, whatever happened in between |
| HashQueue.CalledWith | src/data/hash_queue.cc:71-162 | a slot is called by `work` with the hash that was computed, or with NULL by a `remove` for the owner of the chunk |
| HashQueue.HashedInOrder | src/data/hash_check_queue.cc:18-123 | of the chunks that wait to be hashed, the disk thread takes the one that was pushed first |
| RangeSets.Ranges.Find | src/torrent/utils/ranges.h:112-123 | the first interval ending after a number; it holds the number if and only if the set does |
| RangeSets.Ranges.Has | src/torrent/utils/ranges.h:125-132 | set membership |
| RangeSets.Ranges.Insert | src/torrent/utils/ranges.h:52-76 | set union with an interval; intervals stay maximal, ordered and apart |
| RangeSets.Ranges.Erase | src/torrent/utils/ranges.h:78-110 | set difference with an interval; intervals stay maximal, ordered and apart |
| HashTorrents.OrderedSubmit | src/data/hash_torrent.cc:114-207 | submitting or passing over the next chunk keeps: submitted once each, in order, and everything reached but the missing |
| HashTorrents.HashTorrent.Queue | src/data/hash_torrent.cc:107-216 | submits, and leaves to be answered, exactly the chunks that can be mapped and passes over exactly those whose file is missing, in order; stops only at the end, with enough in flight, or at a chunk that cannot be had; never stuck: an answer is outstanding, or a retry is set, or the end is announced; the end is announced exactly with all reached and answered; the check is given up only for a failed chunk with nothing outstanding; a chunk is submitted only with at most ten others in flight, or at most 128 MB of them (the product cut to 32 bits) |
| HashTorrents.HashTorrent.InFlightBound | src/data/hash_torrent.cc:115-116 | where that product is not cut, no more than eleven chunks, or 128 MB and one chunk, are in flight |
| HashTorrents.HashTorrent.QuickQueue | src/data/hash_torrent.cc:132-155 | submits nothing, passes over exactly the missing, stops on the first chunk whose file is not missing, or at the end |
| HashTorrents.HashTorrent.Seek | src/data/hash_torrent.cc:118-126 | the cursor goes to the next chunk of the ranges, or to the end |
| HashTorrents.HashTorrent.Submit | src/data/hash_torrent.cc:194-206 | the chunk at the cursor is submitted and outstanding |
| HashTorrents.HashTorrent.Clear | src/data/hash_torrent.cc:40-50 | nothing runs and no timer is set |
| HashTorrents.HashTorrent.Start | src/data/hash_torrent.cc:23-38 | as above; the internal error if and only if a check is on its way already; a quick check has nothing outstanding, and is done if and only if no chunk of the ranges has a file |
| HashTorrents.HashTorrent.ReceiveChunkDone | src/data/hash_torrent.cc:73-88 | the same after each answer; the error for too many answers cannot occur |
| HashTorrents.HashTorrent.Retry | src/data/hash_torrent.cc:20 | the same when the retry timer fires; on a check that is not running if and only if that was closed in the meantime |
| HashTorrents.HashTorrent.ConfirmChecked | src/data/hash_torrent.cc:63-71 | ends a check with nothing outstanding |
| HashTorrents.HashTorrent.ReceiveInitialHash | src/download/download_wrapper.cc:119-142 | the announced end is delivered; an error if and only if the download is active or chunks are outstanding |
| HashTorrents.StaleEndFaults | src/data/hash_torrent.cc:63-71 | a check restarted before the end of a failed one was delivered meets that error |
| HashTorrents.StaleEndStops | src/data/hash_torrent.cc:20 | or, if it waits to retry, is closed unfinished without an error, and the retry finds it not running |
| HashTorrents.HashTorrent.EndThenRetry | src/data/hash_torrent.cc:63-71 | for a check that is going: an announcement followed by a retry meets no error if and only if none was announced before its end |
| HashTorrents.HashTorrent.EndIsReached | src/data/hash_torrent.cc:209-215 | at the end every chunk was submitted or has no file |
| HashTorrents.HashTorrent.Step | src/data/hash_torrent.cc:73-216 | one answer or retry keeps a check going, in order, and its announcement right |
| HashTorrents.HashTorrent.Run | src/data/hash_torrent.cc:63-216 | over any answers, retries and announcements, from any state of a check that is going. Started with none announced before its end: no error, something always to come, and when nothing is, every chunk was reached and the end is announced. In general the errors have their exact conditions on the state that the first delivered announcement came upon: chunks outstanding; or none, before the end, and a retry after it. Over only when every chunk was reached, for a chunk that could not be mapped, or in that last case |
| HashTorrents.HashTorrent.IdleIsReached | src/data/hash_torrent.cc:209-215 | when the end is announced, or nothing more is to come, every chunk was submitted or has no file |
| HashTorrents.HashTorrent.ReceiveChunkCleared | src/data/hash_torrent.cc:93-105 | one chunk goes back to the ranges; neither error can occur when the check is being stopped |
| HashTorrents.HashTorrent.HashStop | src/torrent/download.cc:178-189 | the ranges are left with exactly the chunks not reached and those not answered |
| ThrottleLists.TopUp | src/net/throttle_list.cc:30-40 | a node that has the minimum gains nothing; one that is short gains what is unallocated, up to the maximum |
| ThrottleLists.ServeConserves | src/net/throttle_list.cc:82-94 | serving the queue neither loses nor makes quota |
| ThrottleLists.ServeInOrder | src/net/throttle_list.cc:85-94 | first come, first served: whoever waits behind a node left short got nothing, and that node took everything |
| ThrottleLists.ServeFills | src/net/throttle_list.cc:30-94 | whoever was short and is not any more has the maximum, or took all that was left, so that nobody behind got anything |
| ThrottleLists.ThrottleList.AllocateQuota | src/net/throttle_list.cc:30-40 | one node is topped up; the total and every other node stay |
| ThrottleLists.ThrottleList.ServeWaiting | src/net/throttle_list.cc:85-94 | the loop over the waiting nodes serves them as the rule above |
| ThrottleLists.ThrottleList.UpdateQuota | src/net/throttle_list.cc:70-106 | the total grows by exactly the value returned, at most the quota; the front of the queue is activated in order; what was left unthrottled is what is served, the new quota is the new unthrottled one, and no more than that stays unallocated |
| ThrottleLists.ThrottleList.NodeUsed | src/net/throttle_list.cc:134-152 | the total falls by exactly min(used, own + unallocated); the error for too much quota cannot occur |
| ThrottleLists.ThrottleList.Transfer | src/protocol/peer_connection_base.cc:486-515 | a connection that asks for its quota and transfers within it: exactly what it transfers is debited; with less quota than is worth a chunk it transfers nothing and goes to the back of the queue |
| ThrottleLists.ThrottleList.NodeUsedUnthrottled | src/net/throttle_list.cc:154-165 | the total falls by exactly min(used, unthrottled + unallocated), taken from unthrottled first |
| ThrottleLists.ThrottleList.NodeDeactivate | src/net/throttle_list.cc:167-178 | the node goes from the active nodes to the back of the queue |
| ThrottleLists.ThrottleList.Insert | src/net/throttle_list.cc:180-198 | the node joins the active ones at their end; the total stays |
| ThrottleLists.ThrottleList.Erase | src/net/throttle_list.cc:200-225 | the node gives its quota back; order and total stay |
| ThrottleLists.ThrottleList.Enable | src/net/throttle_list.cc:42-51 | the error for an invalid split cannot occur |
| ThrottleLists.ThrottleList.Disable | src/net/throttle_list.cc:53-68 | all quota is dropped and exactly the waiting nodes are activated |
| ThrottleLists.ThrottleList.Ticks | src/net/throttle_list.cc:70-106 | with quota q per tick and no other use, the longest waiting node is active after ceil(min/q) + 1 ticks |
| ThrottleLists.ThrottleList.WaitTick | src/net/throttle_list.cc:70-106 | one tick brings the longest waiting node nearer by the quota, or activates it |
| ThrottleLists.ThrottleList.TickBound | src/net/throttle_list.cc:98-103 | after a tick of at most q the list holds at most 2q + 65536 per node |
| ThrottleLists.ThrottleList.Step | src/net/throttle_list.cc:42-225 | every call keeps the list valid and that bound |
| ThrottleTrees.ThrottleInternal.ReceiveQuota | src/net/throttle_internal.cc:92-132 | over the whole tree: what it holds grows by exactly the value returned, at most the quota; the slaves from the cursor on are served once each, with the share for their rates, until one share exceeds what is unused, and the own list last; at least one slave is served, or else the list, and what is not served is as it was; the unused quota never underflows and is at most the quota afterwards; no fault if every list is enabled, and for a throttle without slaves if and only if its list is; while some list is off, every tick without a fault brings the fault nearer; each share is the rate times the time, rounded down, or all of the quota if that is less; the list is updated with its share exactly when a new round begins, and stays otherwise |
| ThrottleTrees.Need | src/net/throttle_internal.cc:103-114 | where the product fits 48 bits, a share is rate times time, rounded down, or all of the quota if that is less |
| ThrottleTrees.OneSecond | src/net/throttle_internal.cc:80-114 | a tick of one second gives a throttle its rate, or all of the quota if that is less |
| ThrottleTrees.ThrottleInternal.ServeSlave | src/net/throttle_internal.cc:103-111 | handing a share to a slave moves quota within the tree, whatever the slave returns |
| ThrottleTrees.ThrottleInternal.ServeList | src/net/throttle_internal.cc:114-119 | so does handing it to the own list; a fault if and only if that is disabled |
| ThrottleTrees.ThrottleInternal.KeepUnused | src/net/throttle_internal.cc:121-131 | at most one allocation is kept, the rest is returned |
| ThrottleTrees.ThrottleInternal.CreateSlave | src/net/throttle_internal.cc:60-74 | the tree stays a tree and holds as much; the new slave is enabled as its parent is, and the cursor is past it |
| ThrottleTrees.ThrottleInternal.Enable | src/net/throttle_internal.cc:35-48 | after turning a throttle on its whole tree is enabled if and only if everything below its slaves already was |
| ThrottleTrees.GrandchildStaysDisabled | src/net/throttle_internal.cc:35-48 | a slave of a slave made while off stays off when the root is turned on |
| ThrottleTrees.ThrottleInternal.Disable | src/net/throttle_internal.cc:50-58 | after turning a throttle off no list of its tree is on if and only if none below its slaves was |
| ThrottleTrees.GrandchildStaysEnabled | src/net/throttle_internal.cc:50-58 | a slave of a slave made while on stays on when the root is turned off |
| ThrottleTrees.GrandchildFaults | src/net/throttle_internal.cc:92-132 | in the tree with a disabled slave of a slave, for all rates, quotas and fractions, the fourth tick is the fault of the disabled list, if none before was |
| ThrottleTrees.ThrottleInternal.TickAll | src/net/throttle_internal.cc:92-132 | over any ticks of any tree: no fault if every list is enabled; and if there are more ticks than a bound that only depends on the tree before, a fault if and only if some list is off |
| ThrottleTrees.ThrottleInternal.EachIsServed | src/net/throttle_internal.cc:92-132 | of any ticks, as many as there are slaves and one more, one serves a given slave |
| ThrottleTrees.ThrottleInternal.ServeSlaves | src/net/throttle_internal.cc:103-111 | the slaves from the cursor on are served once each, with the share for their rates, until one share exceeds what is unused; the others are as they were |
| ThrottleTrees.ThrottleInternal.EndRound | src/net/throttle_internal.cc:114-131 | a fault if and only if the round is over, there is enough for the list, and that is disabled; not more than the quota is kept |
| InitialSeeds.InitialSeeding.constructor | src/protocol/initial_seed.cc:19-23 | every chunk unsent |
| InitialSeeds.InitialSeeding.Complete | src/protocol/initial_seed.cc:223-246 | finishes if and only if every chunk is well seeded; otherwise exactly the rare chunks are to be sent again, from the first |
| InitialSeeds.InitialSeeding.ChunkSeen | src/protocol/initial_seed.cc:46-77 | exactly when seeding finishes, when the chunk becomes done, when the round restarts, and whom that unblocks; the counter stays the number of chunks not done |
| InitialSeeds.InitialSeeding.ChunkComplete | src/protocol/initial_seed.cc:79-84 | the same for a chunk known to be shared |
| InitialSeeds.InitialSeeding.FindUnsent | src/protocol/initial_seed.cc:194-208 | the cursor stops on the first unsent chunk nobody has |
| InitialSeeds.InitialSeeding.FindUndone | src/protocol/initial_seed.cc:210-220 | the loop ends within one turn of the ring, on a chunk not done, although it may complete chunks and restart the round under itself |
| InitialSeeds.FullCircle | src/protocol/initial_seed.cc:210-218 | while a chunk is left, a full turn passes one that is not done |
| InitialSeeds.RareRemains | src/protocol/initial_seed.cc:210-218 | a chunk held by fewer than two peers keeps the round from restarting |
| InitialSeeds.InitialSeeding.FindNext | src/protocol/initial_seed.cc:192-221 | on return the cursor is in range and on a chunk not done; the first fresh chunk is chosen if there is one |
| InitialSeeds.InitialSeeding.NewPeer | src/protocol/initial_seed.cc:86-116 | the loop ends, and a chunk about to be sent for the first time is one that nobody has; if somebody has the one at the cursor, that is the first after it that nobody has, if there is one |
| InitialSeeds.InitialSeeding.Choose | src/protocol/initial_seed.cc:147-163 | the chunk at the cursor if never sent, else one that is neither done nor held by two peers |
| InitialSeeds.InitialSeeding.OfferNext | src/protocol/initial_seed.cc:147-185 | the same for a peer with nothing to share |
| InitialSeeds.InitialSeeding.Find | src/protocol/initial_seed.cc:138-141 | the first chunk recorded for a peer |
| InitialSeeds.InitialSeeding.ChunkOffer | src/protocol/initial_seed.cc:118-185 | a blocked peer gets nothing, or after a reconnect its own chunk again; otherwise an unsent chunk at the cursor is offered unless the peer has it, and there is no offer only because the peer has a chunk that is not done; an offered chunk that fewer than two peers have is recorded for the peer, which is blocked, unless it is the last one and somebody else's |
| InitialSeeds.InitialSeeding.Run | src/protocol/initial_seed.cc:46-246 | in every run: seeding finishes only upon an event that finds every chunk well seeded; until then the counter is the number of chunks not done and positive, a peer is recorded for at most one chunk, and recorded peers are blocked |
| Bitfields.HighestFirst | src/torrent/bitfield.h:77 | bit 0 is the highest of its byte, and each next one the highest of what is left when that is shifted out |
| Bitfields.SetBit | src/torrent/bitfield.h:64 | or-ing the mask of a bit sets that bit and no other |
| Bitfields.UnsetBit | src/torrent/bitfield.h:65 | and-ing its complement clears that bit and no other |
| Bitfields.ClearFrom | src/torrent/bitfield.h:48 | and-ing the head mask clears exactly the bits from there on |
| Bitfields.WordPopcount | src/torrent/bitfield.cc:61-76 | the set bits of a word read from memory are those of its bytes |
| Bitfields.CountOnes | src/torrent/bitfield.cc:78-79 | counting by bytes counts the bits |
| Bitfields.Bitfield.Get | src/torrent/bitfield.h:59 | the bit of that index |
| Bitfields.Bitfield.Set | src/torrent/bitfield.h:64 | one bit is set, and the count follows |
| Bitfields.Bitfield.Unset | src/torrent/bitfield.h:65 | one bit is cleared, and the count follows |
| Bitfields.Bitfield.ClearTail | src/torrent/bitfield.h:48 | bits after the last are cleared, the others stay |
| Bitfields.Bitfield.Update | src/torrent/bitfield.cc:49-80 | counting eight bytes at a time, then four, then one, gives the number of set bits |
| Bitfields.Bitfield.SetAll | src/torrent/bitfield.cc:105-111 | all bits set, tail clear, count right |
| Bitfields.Bitfield.UnsetAll | src/torrent/bitfield.cc:113-118 | no bit set, count zero |
| Bitfields.Bitfield.SetRange | src/torrent/bitfield.cc:122-126 | exactly the range is set |
| Bitfields.Bitfield.UnsetRange | src/torrent/bitfield.cc:128-132 | exactly the range is cleared |
| Bitfields.Bitfield.FindFirstSet | src/torrent/bitfield.cc:134-144 | the first set bit of the range, or its end |
| Bitfields.Bitfield.Copy | src/torrent/bitfield.cc:82-96 | the same bits in memory of its own |
| ChunkStatistic.CountsAdd | src/download/chunk_statistics.cc:70-91 | counting one more peer keeps: complete = full peers counted, accounted = partial peers counted, each byte = partial peers with that chunk |
| ChunkStatistic.CountsRemove | src/download/chunk_statistics.cc:93-119 | so does counting one less |
| ChunkStatistic.RarityBounds | src/download/chunk_statistics.cc:49-52 | no byte exceeds the number accounted for, at most 255, so none wraps |
| ChunkStatistic.HaveCountsOk | src/download/chunk_statistics.cc:138-152 | adding one to a byte, and taking one from all when the peer is complete, keeps them too |
| ChunkStatistic.ChunkStatistics.ReceivedConnect | src/download/chunk_statistics.cc:70-91 | a peer is counted if complete, or if it has a chunk and there is room; the statistics stay exact |
| ChunkStatistic.ChunkStatistics.ReceivedDisconnect | src/download/chunk_statistics.cc:93-119 | the peer is counted no more; the error for an empty account cannot occur |
| ChunkStatistic.ChunkStatistics.ReceivedHaveChunk | src/download/chunk_statistics.cc:121-161 | exactly when the peer is counted from now on; the statistics stay exact and neither error can occur |
| ChunkStatistic.ChunkStatistics.Step | src/download/chunk_statistics.cc:70-161 | one event keeps all of this, for any number of peers, connected or not |
| ChunkStatistic.ChunkStatistics.Run | src/download/chunk_statistics.cc:70-161 | over any connects, disconnects and new chunks the two counters and every byte are exact, and no byte exceeds 255; the peers are those connected by the events and not disconnected since |
| ChunkLists.ReferredOk | src/data/chunk_list.cc:148-160 | one more handle keeps every node's counts equal to live handles plus one if queued |
| ChunkLists.UnreferredOk | src/data/chunk_list.cc:184-213 | so does one handle less, with the last writer's reference left to the queue; no error of `release` can occur |
| ChunkLists.Unrefer | src/data/chunk_list.cc:184-213 | the node is to be queued exactly by its last writer, and unmapped exactly with its last reference |
| ChunkLists.SyncedOk | src/data/chunk_list.cc:229-251 | so does an attempt to sync a queued node, successful or not |
| ChunkLists.SweepKeep | src/data/chunk_list.cc:307-315 | swapping a kept node down loses none |
| ChunkLists.SweepEnd | src/data/chunk_list.cc:325-327 | what is erased are exactly the released nodes |
| ChunkLists.ChunkList.Get | src/data/chunk_list.cc:87-163 | the result, case by case; a handle is counted, on a chunk that is mapped and writable if asked for, and an error changes nothing; the internal error if and only if write access is asked for on a read-only chunk that is blocked, without the nonblock flag |
| ChunkLists.ChunkList.Release | src/data/chunk_list.cc:169-227 | the counts follow, the node is queued exactly by its last writer, and unmapped exactly with its last reference |
| ChunkLists.ChunkList.SyncChunk | src/data/chunk_list.cc:229-251 | one node is synced as above; the error for bad counts cannot occur |
| ChunkLists.ChunkList.SweepOne | src/data/chunk_list.cc:292-316 | one turn of the loop keeps: what was visited is written and released as it succeeded, what is kept stays before the split, and nothing is lost |
| ChunkLists.ChunkList.SyncChunks | src/data/chunk_list.cc:253-335 | for any failures: the queue loses exactly the nodes synced and released, a node whose writing fails is as it was, accounted memory is chunk size times mapped nodes, and the failures are counted |
| ChunkLists.ChunkList.SyncWhole | src/data/chunk_list.cc:253-366 | a sync of the whole queue with all writes successful empties it, except that safe syncing keeps exactly the chunks not marked before, and marks them |
| ChunkLists.ChunkList.SafeSyncTwice | src/data/chunk_list.cc:229-366 | two safe syncs leave the queue empty |
| ChunkLists.ChunkList.SafeSyncAfterGet | src/data/chunk_list.cc:148-366 | a chunk that was asked for writing between the two is kept by the second |
| ChunkLists.ChunkList.Clear | src/data/chunk_list.cc:54-85 | succeeds if and only if no handle is live |
| ChunkLists.ChunkList.Perform | src/data/chunk_list.cc:87-335 | one call keeps the counts; it faults if and only if it asks to write, without the nonblock flag, to a chunk that is mapped for reading and blocked, and then changes nothing; the mark of a synced chunk is set only by writing it and taken off only, and always, by asking to write to it |
| ChunkLists.ChunkList.RefusedByReader | src/data/chunk_list.cc:129-135 | what blocks it then is a handle that only reads |
| ChunkLists.ChunkList.Run | src/data/chunk_list.cc:87-335 | over any calls, whatever fails, the counts are those of the handles given and not released and of the queue; a run faults if and only if it comes to a call that is refused so, and then a live handle on that chunk blocks it for reading; a handle to read a chunk that can be mapped is always given |
| ChunkLists.WriteWhileRead | src/data/chunk_list.cc:124-135 | on a new list, to write to a chunk that is held for hashing is that fault, or with the nonblock flag EAGAIN |
| Chunks.NextPosition | src/data/chunk.cc:104-113 | parts touch, empty ones included |
| Chunks.PartSlice | src/data/chunk.cc:130-144 | a range of one part is that range of the whole chunk |
| Chunks.Chunk.PushBack | src/data/chunk.cc:104-113 | the bytes of the part are appended |
| Chunks.Chunk.AtPosition | src/data/chunk.cc:115-128 | finds the part that holds a position, never an empty one; the error for no such part cannot occur |
| Chunks.ChunkIterator.constructor | src/data/chunk_iterator.h:69-76 | the cursor stands in the part that holds the first byte |
| Chunks.ChunkIterator.Data | src/data/chunk_iterator.h:78-84 | the longest piece at the cursor within part and range; to the end of the part, if the range ends before the cursor |
| Chunks.ChunkIterator.Next | src/data/chunk_iterator.h:86-96 | on to the next byte after the part, past empty parts; true exactly while the range goes on |
| Chunks.ChunkIterator.Forward | src/data/chunk_iterator.h:98-118 | past any part of a piece; true exactly while the range goes on |
| Chunks.Chunk.AcceptsIs | src/data/chunk.cc:235-237 | the test on the 32-bit sum, and that of at_position, are passed exactly by the ranges within the chunk and by those that begin in it and wrap around |
| Chunks.Chunk.Begin | src/data/chunk_iterator.h:69-76 | an iterator on such a range, and how far it will go |
| Chunks.ChunkIterator.Advance | src/data/chunk_iterator.h:86-96 | a walk goes on piece by piece up to there |
| Chunks.Chunk.ToBuffer | src/data/chunk.cc:235-254 | exactly the bytes of the range, across any parts; an error if and only if it is not within the chunk, except that a range that begins in it and wraps around is read to the end of one part |
| Chunks.Chunk.FromBuffer | src/data/chunk.cc:258-283 | exactly the range is overwritten; errors and the exception as above |
| Chunks.Chunk.CompareBuffer | src/data/chunk.cc:287-308 | true if and only if the range equals the buffer; errors and the exception as above |
| Chunks.WrappedRangeIsShort | src/data/chunk.cc:235-254 | a range of 4294967295 bytes in a chunk of four is accepted, and two bytes are read |
| Chunks.Chunk.Receive | src/protocol/peer_connection_base.cc:498-513 | a transfer in pieces of any size writes consecutive bytes of the stream at consecutive offsets and nothing else, and with enough reads all of it |
| Chunks.HashChunk.PerformPart | src/data/hash_chunk.cc:65-73 | feeds the next bytes, up to the length asked for or the end of the part |
| Chunks.HashChunk.Perform | src/data/hash_chunk.cc:22-40 | a forced step feeds the next bytes, whatever parts they are in, and is complete |
| Chunks.HashChunk.PerformAll | src/data/hash_chunk.cc:22-40 | however the steps are split, the hash is fed the chunk's bytes in order |
| DnsCaches.ListStamp | src/net/dns_cache.cc:465-519 | a record stamped now and moved to the end keeps the list complete and in order of stamps |
| DnsCaches.ListErase | src/net/dns_cache.cc:535-539 | erasing an entry keeps it so |
| DnsCaches.RestIsFresh | src/net/dns_cache.cc:525-530 | when the front of a list is not stale, no entry is |
| DnsCaches.ReplyRule | src/net/dns_cache.cc:136-269 | a wanted family of which nothing is known is queried, and only that one; otherwise each family tells what it knows; unreachable code is reached if and only if nothing is known of either wanted family |
| DnsCaches.LookAddr | src/net/dns_cache.cc:82-132 | a kept entry answers as valid for a family exactly when it has an address, and is never empty for both |
| DnsCaches.DnsCache.Reset | src/net/dns_cache.cc:465-519 | one record is replaced; both lists stay exact |
| DnsCaches.DnsCache.ProcessSuccess | src/net/dns_cache.cc:274-351 | the record holds the address; the other family and other names stay |
| DnsCaches.DnsCache.ProcessFailure | src/net/dns_cache.cc:353-463 | no record clears the address, another error keeps it; the other family and other names stay |
| DnsCaches.DnsCache.CullStaleEntries | src/net/dns_cache.cc:521-558 | exactly the entries with a record of 48 hours or more go, from the map and from both lists |
| DnsCaches.DnsCache.CullFamily | src/net/dns_cache.cc:525-540 | for one family |
| DnsCaches.DnsCache.EraseEntry | src/net/dns_cache.cc:535-539 | one entry goes from the map and from both lists |
| DnsCaches.DnsCache.Resolve | src/net/dns_cache.cc:55-270 | after culling, the answer of the rule above; no internal error is met; nothing but the updating marks changes |
| DnsCaches.DnsCache.ResolveAfterSuccess | src/net/dns_cache.cc:55-351 | for 48 hours after an address was found, and unless the other record of the name gets stale, that address is told, and asked for again in the background exactly after 24 hours |
| DnsCaches.DnsCache.ResolveAfterFailure | src/net/dns_cache.cc:55-463 | after a failure: that there is no record is told as such and asked for again exactly after two hours; after another error a known address or a known lack of one is told, or else to try again, and then it is asked for exactly after ten minutes |
| DnsCaches.DnsCache.ResolveTwice | src/net/dns_cache.cc:82-132 | while a record without an address is asked for in the background, to try again is told, and it is not asked for once more |
| DnsCaches.DnsCache.Run | src/net/dns_cache.cc:55-558 | over any calls at times that do not go back: both lists stay exact, no internal error is met, and after a look-up nothing of 48 hours or more is left |
| DnsBuffers.StepTally | src/net/dns_buffer.cc:44-275 | what each step does to the callbacks counted as active and as pending |
| DnsBuffers.StepSlots | src/net/dns_buffer.cc:88-100 | every step keeps: active count = occupied slots; a query waits only while none is free |
| DnsBuffers.StepKeys | src/net/dns_buffer.cc:66-86 | every step keeps: no two queries for one name and family |
| DnsBuffers.StepCounts | src/net/dns_buffer.cc:122-147 | every step keeps: a requester's two counters are its callbacks in active and pending queries |
| DnsBuffers.StepPlaces | src/net/dns_buffer.cc:251-275 | every step keeps: a callback is in one place at most, and in exactly one until its requester cancels |
| DnsBuffers.StepNoFault | src/net/dns_buffer.cc:161-195 | no internal error is met |
| DnsBuffers.RunOk | src/net/dns_buffer.cc:44-275 | all of this over every interleaving with cancels, of any length |
| DnsBuffers.QueriesAreBounded | src/net/dns_buffer.cc:44-100 | in every reachable state: at most eight active queries, one pending only when all eight are taken, no name queried twice |
| DnsBuffers.CallbacksAreConserved | src/net/dns_buffer.cc:197-275 | in every reachable state: a callback was called at most once, and is not lost while its requester is live |
| DnsBuffers.NoCallAfterCancel | src/net/dns_buffer.cc:104-120 | after `cancel_safe` returned, no callback registered before by that requester is ever called |
| DnsBuffers.ResolveIssues | src/net/dns_buffer.cc:44-100 | asking for a name registers exactly one callback, for that name and requester |
| DnsBuffers.CancelStops | src/net/dns_buffer.cc:104-120 | a cancel takes exactly the callbacks of its requester out |
| DnsBuffers.StepNames | src/net/dns_buffer.cc:44-275 | every step keeps: a callback waits in a query for the name it was asked for, in the order of asking, and queries wait in the order of their first callbacks |
| DnsBuffers.EachWaitsForItsName | src/net/dns_buffer.cc:44-100 | so in every reachable state |
| DnsBuffers.CalledForItsName | src/net/dns_buffer.cc:197-275 | an answer for a slot goes only to callbacks that were asked for the name of that slot, in the order in which they were, whatever else happens before the next answer |
| DnsBuffers.ActivatedInOrder | src/net/dns_buffer.cc:122-159 | a slot that is free again goes to the query that was asked for first of those waiting |
| DnsBuffers.StepWorks | src/net/dns_buffer.cc:122-275 | every step takes away from the work that is left, except asking for a name, and a cancel, which changes none |
| DnsBuffers.Progress | src/net/dns_buffer.cc:122-275 | unless no query is left, one can be answered or the net thread has a step to take |
| DnsBuffers.RunEnds | src/net/dns_buffer.cc:122-275 | with no more names asked for, the steps of any run that are not cancels are at most the work that was left |
| DnsBuffers.Settle | src/net/dns_buffer.cc:122-275 | answers and the net thread alone lead to a state with no query left |
| DnsBuffers.EveryCallbackIsCalled | src/net/dns_buffer.cc:122-275 | in any run from a reachable state with no more names asked for, in which every query is answered, every callback that is not cancelled was called, exactly once; whatever the order of answers and cancels |
| PeerExchange.LessIsNumeric | src/download/download_main.cc:347-350 | the order of peers is that of address and port as one number |
| PeerExchange.Sort | src/download/download_main.cc:423 | sorted by address and port, a permutation |
| PeerExchange.Subtract | src/download/download_main.cc:427-431 | one step of a merge of two sorted sequences, as multisets |
| PeerExchange.SetDifference | src/download/download_main.cc:425-431 | the multiset difference, sorted |
| PeerExchange.SubtractInPlace | src/download/download_main.cc:445-448 | the same when written over the sequence being read |
| PeerExchange.PexList.Exchange | src/download/download_main.cc:423-455 | the list stays sorted, at most 200 long and within the current peers, and changes by exactly removed and added; removed is all that left, added is the sorted newcomers but for those cut off at the end; the size error cannot occur |
| PeerExchange.PexList.Ticks | src/download/download_main.cc:423-455 | over any ticks, what was added and removed, in order, makes the list |
| Wire.NumberOfBytes | src/net/protocol_buffer.h:218-227 | a number written in k bytes, the highest first, is read back |
| Wire.RoundTrip | src/protocol/protocol_base.h:126-205 | a control message that was written is read back, whatever follows it |
| Wire.PieceRoundTrip | src/protocol/protocol_base.h:126-198 | index, offset and length are read back |
| Wire.HeadRoundTrip | src/protocol/protocol_base.h:134-205 | the head of a piece or an extension message that was written is read back, whatever follows it; a piece only by a connection that may receive one |
| Wire.KnownMessages | src/protocol/protocol_base.h:19-35 | the control messages byte by byte, with their numbers |
| Wire.KnownRequests | src/protocol/protocol_base.h:169-188 | a request and a cancel byte by byte |
| Wire.KnownHeads | src/protocol/protocol_base.h:190-205 | the heads of a piece and an extension message byte by byte |
| Wire.PrefixIsIncomplete | src/protocol/peer_connection_leech.cc:145-162 | until all of a message is there, nothing is read |
| Wire.IncompleteIsShort | src/protocol/peer_connection_leech.cc:140-333 | of any bytes, fewer than 17 are kept for the rest of a message |
| Wire.ParseStays | src/protocol/peer_connection_leech.cc:140-333 | once the front of any bytes is a message, an error or a payload, more bytes do not change that |
| Wire.SplitAnywhere | src/protocol/peer_connection_leech.cc:358-406 | any bytes, split anywhere: the messages, their order and how the reading ends are those of the bytes in one piece |
| Wire.WrittenIsRead | src/protocol/peer_connection_leech.cc:358-406 | messages that were written are read, in order; a front of the bytes reads as a front of the messages |
| Wire.Front | src/protocol/peer_connection_leech.cc:140-333 | whatever has arrived of a sequence of messages reads as its first message, or as incomplete |
| Wire.ProtocolBuffer.WriteInt | src/net/protocol_buffer.h:218-227 | the loop from the back appends the bytes of the number |
| Wire.ProtocolBuffer.ReadInt | src/net/protocol_buffer.h:133-141 | takes a number off the front |
| Wire.ProtocolBuffer.MoveUnused | src/net/protocol_buffer.h:249-256 | what is unread is kept, and moves to the front |
| Wire.ProtocolBuffer.Write | src/protocol/protocol_base.h:143-205 | appends the message if and only if there is room |
| Wire.PeerReader.ReadMessage | src/protocol/peer_connection_leech.cc:140-333 | reads what the front of the buffer says, or puts the cursor back |
| Wire.PeerReader.Drain | src/protocol/peer_connection_leech.cc:394-395 | of any bytes, dispatches every message that is all there, in order, up to an error or a payload, and keeps the rest |
| Wire.PeerReader.Fill | src/protocol/peer_connection_leech.cc:361-406 | one turn of the loop, for any bytes: there is always room to read into, so the buffer-full error cannot occur, and the buffer is never overrun; where a piece may come next, exactly its head is read, and none of its bytes |
| Wire.PeerReader.Receive | src/protocol/peer_connection_leech.cc:358-406 | for any bytes and any split of them: the messages dispatched, their order and how the reading ends are those of the bytes read; messages that were written are dispatched, all of them once all bytes are read, and with enough reads all are |

## Left out

- DHT searches, the DHT server, transactions and trackers: they rest on code that is not part of this model.
- DhtRouters.DhtRouter.NodeReplied: the bucket counters of good and bad nodes are not modelled, and whether a bucket other than the router's own has space, which the source asks them, is an input; a reply with the router's own ID, which the source matches against the router's own address, is not wanted here.
- DhtRouters.DhtRouter.NodeQueried: takes the same input for the space in other buckets; a query with the router's own ID is not wanted here, and the time of the bucket that a good node touches is not modelled.
- DhtClosest.ClosestNodes: is stated for a cache at the time it is built; `full_bucket` keeps a cache until the bucket itself changes or is next updated, by design.
- `bootstrap_bucket`, the times at which buckets changed, and the ping that `node_queried` sends: they do not touch the table.
- Chunks that are not loaded, and instrumentation, in the hash queues: the handles there are valid by construction.
- ThrottleTrees.ThrottleInternal.Enable: the first tick, which the source starts for a throttle without a parent, is left out with the clock; a tick is `ReceiveQuota`.
- ThrottleTrees.ThrottleInternal.CreateSlave: a slave of a slave is attached by building the subtree first, because the ghost footprint of the root covers its whole tree.
- ThrottleTrees.ThrottleInternal.ReceiveQuota: for a tree with slaves, which tick meets a disabled list is not said from the state before it; `TickAll` says by when.
- ThrottleTrees.ThrottleInternal.Disable: taking the timer of a throttle without a parent off the schedule is left out with the clock.
- `receive_tick` and the choice of chunk sizes from a rate: a time computation; chunk sizes are bounded by 65536, the largest that the source sets.
- ThrottleLists.ThrottleList.UpdateQuota: quota is unbounded here; `TickBound` and `Step` give the bound (twice the tick's quota and 65536 for each node) under which the 32-bit fields of the source do not wrap.
- ThrottleLists.ThrottleList.NodeDeactivate: is for an enabled list; connections deactivate a node only after its quota was 0, which a disabled list never says.
- InitialSeeds.InitialSeeding.ChunkOffer: whether upload slots are to spare is an input, not computed from the choke queue.
- `should_upload` of initial seeding: one comparison.
- ChunkLists.ChunkList.SyncChunks: which part of the queue is synced, and in which order, is any rearrangement; partitioning, sorting and `partition_optimize` only permute the queue. The flags for safe and forced syncing are inputs.
- ChunkLists.ChunkList.Get: that one of the flags for hashing and not hashing is given is taken for granted; the two ways of mapping differ only in code outside the model.
- Chunks.Chunk.PushBack: the sizes of all parts together are required to fit 32 bits, as the size of a chunk of a torrent does.
- Running out of disk space while a chunk is written, preloading, and incore lengths: signals and page tables.
- `HashTorrent` errors by number: which errno a failed mapping has only selects the message.
- Of ranges: `intersect_distance` and `create_union` are not used by the hash check.
- DnsCaches.DnsCache.ProcessFailure: all errors but the missing record are one.
- A callback of the name buffer that itself asks for a name: the source would take its mutex, which is not recursive, twice.
- The results of a name query, and handing them to the cache, in the buffer: they do not affect which callbacks are called.
- Bitfields.Bitfield.Copy: is for a bitfield that is allocated; the source also copies one without data, of which it takes size and count.
- Peer exchange: which peers are asked to send it, the bytes of the messages, and when they are made anew; a tick that empties the list clears the message of changes and makes none.
- Wire.PeerReader.ReadMessage: stops at the head of a piece or an extension message, with what it says; how the source reads on from there is not modelled.
- Wire.PeerReader.Fill: leaves out pieces, extension messages and bitfields, whose payload is read by other states of the connection, and what a dispatched message does.
