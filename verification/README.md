# LeKV verification model

LeKV is a range-sharded key-value store: a master keeps a table of tablets (half-open key ranges, each
with an owner node), splits them at their median, moves them between data nodes to balance loads, and
saves the table to a file; clients look up a key's owner and talk to that node directly. This project
models that system in Dafny and proves what it does over all runs. It verifies with
`dafny verify dfyconfig.toml`.

How the files are organised:

- `ByteStrings`, `Storage`: byte strings in unsigned lexicographic order (an empty range end is plus
  infinity) and the storage engine as a class over an ordered map.
- `Tablets`: the routing table, its partition invariant, and what a split, a new count and a new owner do
  to routing.
- `Protocol`, `Placement`: the tablet protocol as a state machine with one operation per atomic effect.
  `Refinement` says that every run reads like one plain map; `Placement` has crash safety, exact
  placement, and the exact conditions under which client writes, remembered routes and a lost save do no
  harm.
- `Counting`, `Balancing`: the balancer as an algorithm on a store nobody writes, and its convergence.
- `MasterNode`: the master in place. What becomes of each RPC is given in advance, clients act between any
  two of them, and a ghost log makes every method a run of the protocol machine. In a `calm` environment
  (RPCs succeed, clients rest) the same methods compute the functions of `Balancing`.
- `BitMath`, `SpscQueue`, `SpscThreads`: rounding up to a power of two, the lock-free queue as a class
  with wrapping 64-bit positions, and its two threads one atomic action at a time.
- `Wire`, `ScanCodec`, `DataNode`, `Framing`, `Rpc`, `RouteText`: the frame format, the scan body, the
  request handlers, frame cutting over arbitrary recv chunks, the master's calls composed of these, and the
  printed route table with the client's parser.

What the protocol theorems assume, because the code has no mechanism for it:

- A client operation's route lookup and data access are one step. What client operations by a remembered
  route do has exact conditions: when a put or a delete lasts (`PutAtStaysIff`, `DeleteAtStaysIff`), when
  an unseen put stays unseen (`StalePutStaysUnseenIffHarmless`), what a get answers up to the re-routing and
  from then to the deletion at the source (`StaleGetNeverOutdated`, `StaleGetAnswersOldValue`).
- No client put changes a key of a range in motion (from its scan until its new owner is saved), unless
  the copy has an answer missing and so cannot end in a re-routing. This is exact: any other put can be
  undone (`PutStaysIffAtRest`).
- No client deletes a key of which another node has a leftover copy or of which a scanned pair is still to
  be sent. This is exact too (`DeleteStaysIffNoLeftover`).
- The save of a re-routing succeeds. A lost save is harmless if and only if it was the save of a split
  (`LostSaveHarmlessIffSplit`).
- A scan reads every pair of its range. Reading only the first ones is harmless if and only if the
  destination has all the others already (`ShortScanHarmlessIffNothingMissed`). Over the wire a scan fails
  or reads all of fewer than 2^32 pairs (`ScanCallIffFits`); with 2^32 pairs or more the count wraps and the
  master can take a part, even nothing, for the whole (`ShortScanIffWraps`, `ShortScanHappens`).
- An answer counted for a pair means that the pair is stored: the status of a reply is not looked at, and
  request ids are never compared, so a reply that arrives after its call timed out is taken for the next
  call's. Within one copy this is allowed for, since the copy has an answer missing by then; across calls
  a reply is taken to belong to its request. Otherwise a late statistics reply of an empty range, for one,
  is read as a scan of no pairs (`StatsReplyReadAsScan`).
- An RPC's effect never arrives after the master gave up on it; the balancer is the only writer of the
  table; there are at least two data nodes.
- Tablet bounds are valid UTF-8: the JSON library throws on other text when the table is saved. Bounds are
  medians of stored keys, and nothing keeps clients from storing keys that are not.

Where the code and its documentation differ, the model follows the code: the queue's comment promises a
capacity of at least two, the code gives one for requests 0 and 1 and doubles an even power of two; the
queue's header says to wait for the consumer when the tail of the buffer is short, which never helps
(`WaitingHelpsIffTailFits`); the protocol document asks for a connection to be dropped on a wrong magic
byte, the server skips the frame and goes on; a route table whose bounds contain a colon or white space
does not survive its textual form (`TableSurvivesIffClean`).

## Model

| member | source | states |
|---|---|---|
| Protocol.Refinement | src/kv/raft_node.cpp:307-420 | main theorem: in every run of gets, puts and deletes within the exact conditions above, splits, migrations with lost, late and broken replies and partial deletes, and master crashes, each get answers what one plain map holds, and the store reads as that map at the end |
| Protocol.GetsAnswerLastWrite | src/kv/raft_node.cpp:307-420 | the same from the operations alone: each get answers the value of the last put of its key before it, nothing after a delete, the initial value if there is no write |
| Protocol.StepKeepsInv | src/kv/raft_node.cpp:307-342 | every atomic effect keeps: both tables are partitions, memory and file route every key to its current value, and no node holds a key the plain map lacks |
| Protocol.StepKeepsWellFormed | src/kv/raft_node.cpp:230-246 | every step leaves the in-memory table and the file partitions with distinct ids below the next id and running owners |
| Protocol.CopyKeepsInv | src/kv/raft_node.cpp:387-419 | a copied pair, stored or lost, answered or not, changes no read, and answered pairs are at the destination |
| Protocol.FlipKeepsInv | src/kv/raft_node.cpp:324-327 | re-routing after a complete copy changes no read although the source may hold leftovers and the destination did |
| Protocol.DeleteSourceKeepsInv | src/kv/raft_node.cpp:332-340 | deleting any part of the range at the source removes no key the source still owns |
| Placement.CrashChangesNoRead | src/kv/raft_node.cpp:755-803 | the master can die at any point of any run; reloading the file leaves every read as it was |
| Placement.EpochNeverFalls | src/kv/raft_node.cpp:755-803 | saved epoch and next id never fall; those in memory fall only through a crash before a save |
| Placement.FreshClusterInv | src/kv/raft_node.cpp:28-32 | a first start satisfies the invariant for the empty map |
| Placement.ExactPlacement | src/kv/raft_node.cpp:307-342 | over failure-free runs, client deletes included, the nodes' maps between migrations are exactly the plain map cut up by owner |
| Placement.PutStaysIffAtRest | src/kv/raft_node.cpp:317-328 | from any point of any run, a client put stays in effect until the next client write of its key if and only if the key is not in motion, or nothing changes, or the copy has an answer missing already |
| Placement.DeleteStaysIffNoLeftover | src/kv/raft_node.cpp:332-340 | from any point of any run, a client delete stays in effect until the next client write of its key if and only if no other node has a leftover copy and no scanned pair of the key is still to be sent |
| Placement.AssumedStays | src/kv/raft_node.cpp:307-342 | every operation the main theorem covers has its effect on a key until the next client write of that key |
| Placement.PutDuringCopyIsLost | src/kv/raft_node.cpp:317-328 | while every pair sent was answered, a put into the range under copy is undone by the migration that then succeeds |
| Placement.PutAtStaysIff | src/kv/raft_node.cpp:324-327 | a put sent to any node by a remembered route has its effect until the next client write of the key if and only if the value is the current one, or the route is current and the key is not in motion or the copy has an answer missing |
| Placement.DeleteAtStaysIff | src/kv/raft_node.cpp:324-340 | likewise a delete: the key is absent already, or the route is current and no other copy is left or still to be sent |
| Placement.StalePutStaysUnseenIffHarmless | src/kv/raft_node.cpp:317-342 | a put by an outdated route, unseen at first, stays unseen if and only if its copy is current, or the key is present and the copy lies neither where the file routes it nor where a copy already made is about to be re-routed |
| Placement.StaleGetNeverOutdated | src/kv/raft_node.cpp:317-327 | with exact placement and up to the deletion at the source, a get by a remembered route answers the current value or nothing, exactly by whether the node has a current copy |
| Placement.StaleGetAnswersOldValue | src/kv/raft_node.cpp:324-332 | from the re-routing to the deletion, a get at the source answers the value at the re-routing, so it is right if and only if no client has changed it since |
| Placement.ShortScanHarmlessIffNothingMissed | src/kv/raft_node.cpp:381-419 | taking the first pairs of a scan for all of them is harmless over every run if and only if the destination has the others already |
| Placement.UnreadableFileHarmlessIffRoutesInitial | src/kv/raft_node.cpp:799-803 | starting over with the initial table is harmless over every run if and only if the lost table routed every present key the same way |
| Placement.PutBeforeSaveIsLostByCrash | src/kv/raft_node.cpp:324-327 | a put into a re-routed range before the save is undone by a crash |
| Placement.LostSaveHarmlessIffSplit | src/kv/raft_node.cpp:763-775 | a lost save is harmless over every run if and only if it was the save of a split |
| Placement.LostSaveThenRestartKeepsAllIffRangeEmpty | src/kv/raft_node.cpp:763-775 | one scenario of it: a lost save of a re-routing, the whole range deleted at the source, a restart before any client write; all keys are kept if and only if the range was empty |
| ByteStrings.LessMeans | src/kv/raft_node.cpp:126-126 | the order of keys without recursion: a proper prefix, or the smaller byte at the first difference |
| Tablets.HoldsMeans | src/kv/raft_node.cpp:143-145 | a tablet holds the keys not below its start and below its end, an empty end being infinity |
| Tablets.InitialRoutes | src/kv/raft_node.cpp:108-114 | by numbers: keys that are empty or start with a byte below 109 go to the first data node, the others to the second |
| Tablets.SplitKeepsOwners | src/kv/raft_node.cpp:234-244 | a split leaves the owner of every key unchanged |
| Tablets.SplitTableOk | src/kv/raft_node.cpp:234-244 | a split at a guarded median keeps the partition, the distinct ids and the owners |
| Tablets.WithNodeMovesRange | src/kv/raft_node.cpp:324-326 | a new owner re-routes exactly the keys of that tablet |
| Tablets.OwnerIs | src/kv/raft_node.cpp:137-149 | in a partition the tablet that holds a key is unique |
| Tablets.OwnerIndex | src/kv/raft_node.cpp:137-149 | in a partition every key is held by some tablet |
| Tablets.InitialTableOk | src/kv/raft_node.cpp:108-114 | the two initial tablets form a partition |
| Storage.StorageEngine.RangeQuery | src/storage/storage_engine.cpp:38-46 | the scan yields exactly the pairs of the range, in key order |
| Storage.StorageEngine.RangeStats | src/storage/storage_engine.cpp:48-65 | the number of keys in the range and the key at half that number |
| Storage.StorageEngine.DeleteRange | src/storage/storage_engine.cpp:67-88 | exactly the keys of the range are gone |
| Storage.StorageEngine.Put | src/storage/storage_engine.cpp:21-24 | one key set |
| Storage.StorageEngine.Get | src/storage/storage_engine.cpp:26-31 | the stored value or nothing |
| Storage.StorageEngine.Delete | src/storage/storage_engine.cpp:33-36 | one key removed |
| Storage.RangeIsSlice | src/storage/storage_engine.cpp:41-43 | a range is the slice of the sorted keys between the seek position and the stop position |
| Counting.MedianSplitsExactly | src/kv/raft_node.cpp:221-241 | with two keys or more the median passes the guards, both halves are non-empty and the recorded counts are the true ones |
| Counting.CountIsRangeSize | src/storage/storage_engine.cpp:58-63 | ranks in the sorted key list give the count and the median the storage engine reports |
| Counting.TotalIsStoreSize | src/kv/raft_node.cpp:262-262 | each key of the store is counted in exactly one tablet |
| Counting.SplitKeepsLoad | src/kv/raft_node.cpp:234-244 | a split conserves the load of every node |
| Counting.SecondTablet | src/kv/raft_node.cpp:276-284 | a load above one tablet's count comes from another tablet of that node |
| Balancing.SplitHalves | src/kv/raft_node.cpp:432-436 | one split pass turns tablets of at most b keys into tablets of at most max(5, b/2) |
| Balancing.OnePassSplitsAllIff | src/kv/raft_node.cpp:432-436 | one pass brings every tablet below 6 keys if and only if none had 12, since left halves are not revisited |
| Balancing.SplitFromKeeps | src/kv/raft_node.cpp:432-436 | the split loop re-routes no key and shifts no load |
| Balancing.SplitFrom | src/kv/raft_node.cpp:432-436 | the loop over the growing list terminates and keeps the partition and the true counts |
| Balancing.MoveExistsIffUnsettled | src/kv/raft_node.cpp:259-285 | a move is found if and only if two owners' loads differ by 7 or more |
| Balancing.ChosenMeans | src/kv/raft_node.cpp:265-285 | the move spelled out: greatest and least recorded load with ties to the smaller id, gap of 7 or more, the source's first tablet with the greatest count |
| Balancing.QuietMeans | src/kv/raft_node.h:64-65 | nothing to split or move means true counts of at most 5 and loads that differ by less than 7 |
| Balancing.MoveUnique | src/kv/raft_node.cpp:265-284 | the tie-breaking rules leave no choice of move |
| Balancing.MoveLowersPotential | src/kv/raft_node.cpp:265-292 | with tablets below 6 keys a move lowers the sum of squared loads by at least 12, conserves the total, keeps the set of owners and leaves the source another tablet |
| Balancing.MoveLowersIffSmallerThanGap | src/kv/raft_node.cpp:265-292 | for tablets of any size, a move lowers that sum if and only if the tablet is smaller than the gap |
| Balancing.HalvingsLogarithmic | src/kv/raft_node.h:64-64 | the number of halvings in the bound is below the binary logarithm |
| Balancing.QuietStays | src/kv/raft_node.cpp:423-438 | a settled table of small tablets is a fixed point of the loop |
| Balancing.BalancerConverges | src/kv/raft_node.cpp:423-438 | after Halvings(N) + N*N/12 + 1 passes over N keys every tablet has its true count, at most 5, loads of owners differ by less than 7, and nothing changes any more |
| MasterNode.LoadIsStoreSize | src/kv/raft_node.cpp:261-262 | with exact placement and true counts the recorded load of a node is the number of keys it stores |
| MasterNode.Master.constructor | src/kv/raft_node.cpp:101-118 | a first start builds and saves the initial table: ids 1 and 2, next id 3, epoch 1, keys below "m" on the first data node |
| MasterNode.Master.Resume | src/kv/raft_node.cpp:781-804 | a start from a table file takes it over as it is |
| MasterNode.Master.Restart | src/kv/raft_node.cpp:781-804 | a restart at any point gives the file's table and the same plain map |
| MasterNode.Master.FindTabletIndex | src/kv/raft_node.cpp:121-135 | the binary search returns the last tablet that starts at or below the key |
| MasterNode.Master.GetTabletRoute | src/kv/raft_node.cpp:137-149 | a route is found if and only if some tablet holds the key, and for a partition it is the owner |
| MasterNode.Master.QueryTabletStats | src/kv/raft_node.cpp:176-211 | an answer comes exactly if the call is answered, and is the number of the node's keys in the range, modulo 2^32, and the middle one of them |
| MasterNode.Master.SyncTabletStats | src/kv/raft_node.cpp:159-169 | what is recorded is what was answered, or what was recorded before if there is no answer |
| MasterNode.Master.SyncAllTabletStats | src/kv/raft_node.cpp:152-173 | one call for each tablet; its count becomes what its node held when asked, if it answers; in a calm store all become true |
| MasterNode.Master.ClientStep | src/kv/raft_node.cpp:307-342 | between any two of the balancer's actions clients may do all that the main theorem covers |
| MasterNode.Master.TrySplitTablet | src/kv/raft_node.cpp:214-255 | in every environment: a tablet with 6 keys or more on record is split exactly if its node answers and its middle key lies strictly inside; then at that key, with halves of the count just answered, two new ids, one epoch later, saved |
| MasterNode.Master.SplitAll | src/kv/raft_node.cpp:432-436 | in every environment each position is tried once, in order, on the table the attempts before left: asked if it has 6 keys or more on record, cut exactly if an answer comes and the middle key lies inside; in a steady store the loop ends with SplitFrom |
| MasterNode.Master.SaveTablets | src/kv/raft_node.cpp:755-778 | the file holds the whole table |
| MasterNode.Master.ScanAndTransferData | src/kv/raft_node.cpp:344-420 | true exactly if the scan and the put of every pair are answered and the reply does not break off; nothing is re-routed |
| MasterNode.Master.MigrateTablet | src/kv/raft_node.cpp:307-342 | copy, re-route, save, delete as one run of the machine with clients in between; succeeds exactly if the copy goes well, then only the owner and the epoch change, and if the last call is answered the source has no key of the range left; on failure the table is unchanged |
| MasterNode.Master.DoLoadBalance | src/kv/raft_node.cpp:258-304 | in every environment: if two owners' recorded loads differ by 7 or more the chosen move is made exactly if its copy goes well, otherwise nothing is |
| MasterNode.Master.TransferPairs | src/kv/raft_node.cpp:387-415 | every pair is counted as transferred exactly if all puts are answered and the reply does not break off |
| MasterNode.Master.MaxElement | src/kv/raft_node.cpp:265-266 | the first node with the greatest load |
| MasterNode.Master.MinElement | src/kv/raft_node.cpp:267-268 | the first node with the least load |
| MasterNode.Master.NodeLoads | src/kv/raft_node.cpp:261-262 | the load of every owner is the sum of its tablets' counts |
| MasterNode.Master.LargestTabletOf | src/kv/raft_node.cpp:277-285 | the first tablet of the node with the greatest count |
| MasterNode.Master.SendDeleteRange | src/kv/raft_node.cpp:447-474 | an answer means the range is gone, no answer that the given part of it is |
| MasterNode.Master.BalancerRound | src/kv/raft_node.cpp:429-438 | in every environment one round asks for every count, then splits, then makes the one move, each stage as specified; in a calm one it computes Pass |
| MasterNode.Master.BalancerLoop | src/kv/raft_node.cpp:423-444 | any number of rounds keeps every guarantee in any environment; calm rounds compute Passes, and once they reach the bound the nodes really hold at most 5 keys in each tablet's range and numbers of keys that differ by less than 7 |
| BitMath.BitCeil | src/common/common.h:89-99 | the least power of two not below n up to 2^63, and 0 beyond |
| BitMath.SmearStep | src/common/common.h:94-96 | each shift-and-or doubles the run of ones at the top |
| BitMath.AndMask | src/logger/spsc_queue.cpp:37-37 | masking with 2^k - 1 is remainder by 2^k |
| SpscQueue.SpscQueue.constructor | src/logger/spsc_queue.cpp:8-11 | below 2^63 the capacity is the least power of two not below the request made odd, and at least 2 if and only if the request is; from 2^63 on it is 0 |
| SpscQueue.SpscQueue.PrepareWrite | src/logger/spsc_queue.cpp:18-44 | succeeds if and only if one byte stays free and the tail is long enough, and the region holds no unread byte |
| SpscQueue.SpscQueue.CommitWrite | src/logger/spsc_queue.cpp:46-49 | the bytes of the region join the end of the queue |
| SpscQueue.SpscQueue.WritableBytes | src/logger/spsc_queue.cpp:51-60 | the largest reservation that would succeed |
| SpscQueue.SpscQueue.Peek | src/logger/spsc_queue.cpp:63-74 | the first unread byte, or nothing if the queue is empty |
| SpscQueue.SpscQueue.ReadableBytes | src/logger/spsc_queue.cpp:76-90 | the contiguous unread bytes are the next ones of the stream |
| SpscQueue.SpscQueue.Consume | src/logger/spsc_queue.cpp:92-95 | the next bytes, in order, are handed over |
| SpscQueue.SpscQueue.Empty | src/logger/spsc_queue.cpp:98-102 | true if and only if everything sent was consumed |
| SpscQueue.PrepareMeaning | src/logger/spsc_queue.cpp:25-43 | the wrapped 64-bit arithmetic reserves exactly when unbounded counters would |
| SpscQueue.ReadableMeaning | src/logger/spsc_queue.cpp:76-90 | and reads exactly as much |
| SpscQueue.MaskedOffset | src/logger/spsc_queue.cpp:37-37 | the mask of a wrapped counter is the unbounded counter's offset |
| SpscQueue.WrappedDifference | src/logger/spsc_queue.cpp:31-31 | the wrapped difference is the used space |
| SpscQueue.PrepareWithAnyLoad | src/logger/spsc_queue.cpp:28-34 | what a load of any age leads to, for every length: one that lags by the capacity or more is granted whatever fits the tail |
| SpscQueue.WaitingHelpsIffTailFits | src/logger/spsc_queue.cpp:36-41 | consumer progress can make a reservation succeed if and only if the tail is long enough already |
| SpscThreads.SafeUnderEveryInterleaving | src/logger/spsc_queue.cpp:18-95 | under every interleaving with stale loads: consumed bytes are a prefix of committed ones, at most capacity - 1 are in use, reservations avoid unread bytes, and the words agree with unbounded counters |
| SpscThreads.ConsumerGetsWhatWasStored | src/logger/spsc_queue.cpp:18-95 | from the actions alone, under every interleaving: what was sent is, commit by commit, what was stored since the reservation, and what was consumed is exactly the first bytes of it, as many as were given back |
| SpscThreads.ActionsDoneRight | src/logger/spsc_queue.cpp:18-95 | in unbounded counters, when a reservation is granted and where, what a look finds, what a copy takes, what commit and consume do |
| SpscThreads.StepKeepsInv | src/logger/spsc_queue.cpp:18-95 | each atomic action of either thread keeps the queue's invariant |
| Wire.DecodeIffFrame | src/rpc/binary_protocol.cpp:94-115 | the decoder answers a frame if and only if the buffer starts with exactly that frame |
| Wire.TryDecode | src/rpc/binary_protocol.cpp:94-115 | needs more, skips one byte on a wrong magic or version, has no result for a length field below the header's size, or yields the frame |
| Wire.EncodeRequest | src/rpc/binary_protocol.cpp:28-52 | lengths are cast, bytes are not; within the limits every byte by number: frame length, 0x4C, 1, request id, opcode, lengths high byte first, key, value |
| Wire.FrameBytes | src/rpc/binary_protocol.cpp:76-92 | the header of every frame by number |
| Wire.RangeBytes | src/kv/raft_node.cpp:183-189 | the bytes of a range request |
| Wire.RouteBytes | src/rpc/binary_protocol.cpp:5-25 | the bytes of a route request |
| Wire.EncodeResponse | src/rpc/binary_protocol.cpp:54-74 | likewise for responses |
| Wire.EncodeCustomRequest | src/rpc/binary_protocol.cpp:76-92 | likewise for prepared payloads |
| Wire.EncodeGetRoute | src/rpc/binary_protocol.cpp:5-25 | likewise for route requests |
| Wire.RouteKeySurvivesIffFits | src/kv/raft_node.cpp:513-523 | the key of a route request is read back if and only if it fits 16 bits of length |
| DataNode.KeyValueSurvivesIffFits | src/kv/raft_node.cpp:555-562 | key and value are read back if and only if their lengths fit 16 and 32 bits |
| DataNode.RangeSurvivesIffFits | src/kv/raft_node.cpp:690-699 | both bounds are read back if and only if they fit 16 bits |
| DataNode.DataNode.HandleBinaryRequest | src/kv/raft_node.cpp:488-510 | each opcode does and answers what the model says or has no defined result, anything else is a bad request |
| DataNode.PutByBytes | src/kv/raft_node.cpp:555-572 | what opcode 3 does and answers, from the bytes of the payload |
| DataNode.GetByBytes | src/kv/raft_node.cpp:574-595 | likewise opcode 2 |
| DataNode.DeleteByBytes | src/kv/raft_node.cpp:597-615 | likewise opcode 4 |
| DataNode.RangeByBytes | src/kv/raft_node.cpp:617-712 | likewise opcodes 7, 8 and 9, down to the bytes of a statistics reply |
| DataNode.BadByBytes | src/kv/raft_node.cpp:488-510 | all other opcodes, and range requests that overrun, are answered with status 3 |
| DataNode.EncodedRequestsAreDefined | src/rpc/binary_protocol.cpp:28-52 | no payload of key and value as encoded makes a handler read past its end, whatever the sizes |
| DataNode.PutWorks | src/kv/raft_node.cpp:555-572 | an encoded put stores exactly its pair |
| DataNode.GetWorks | src/kv/raft_node.cpp:574-595 | an encoded get comes back as what the store holds |
| DataNode.DeleteWorks | src/kv/raft_node.cpp:597-615 | an encoded delete removes exactly its key |
| DataNode.StatsWork | src/kv/raft_node.cpp:617-640 | the master reads the count modulo 2^32 and the true median |
| DataNode.ScanWorks | src/kv/raft_node.cpp:643-687 | the master reads back exactly the pairs of the range, in order |
| DataNode.DeleteRangeWorks | src/kv/raft_node.cpp:690-712 | an encoded range delete removes exactly the range |
| ScanCodec.EncodeScanBody | src/kv/raft_node.cpp:656-677 | appending entries and filling in the count last gives the scan body |
| ScanCodec.BodyBytes | src/kv/raft_node.cpp:656-677 | the count of a scan body by number |
| ScanCodec.EntryBytes | src/kv/raft_node.cpp:664-669 | the lengths of an entry by number |
| ScanCodec.ReadScanReply | src/kv/raft_node.cpp:371-419 | the parsing loop computes ParseReply |
| ScanCodec.ParseIffWritten | src/kv/raft_node.cpp:387-400 | parsing yields a list if and only if the bytes start with that list's entries |
| ScanCodec.ScanRoundTrip | src/kv/raft_node.cpp:656-686 | within the limits the list comes back unchanged |
| ScanCodec.TruncatedScanFails | src/kv/raft_node.cpp:372-398 | every proper prefix of a reply fails |
| ScanCodec.SuccessIsComplete | src/kv/raft_node.cpp:381-419 | success means as many pairs as announced |
| Framing.Connection.RecvAll | src/rpc/rpc_client.cpp:56-77 | the buffer grows along the stream until it holds enough; a pause costs ten milliseconds, and it gives up exactly when the source ends or the pauses reach the timeout |
| Framing.Connection.RecvFrame | src/rpc/rpc_client.cpp:79-90 | takes exactly the next frame out of the stream, or loses nothing; it succeeds whenever a frame comes with pauses below the timeout |
| Framing.FramesOfConcat | src/rpc/rpc_client.cpp:79-90 | a concatenation of frames is cut into those frames, the leftover kept |
| Framing.FramesConserve | src/rpc/rpc_client.cpp:79-90 | frames and leftover together are the stream |
| Framing.ChunkingIrrelevant | src/rpc/rpc_client.cpp:56-90 | cutting chunk by chunk equals cutting at once |
| Framing.HandleClient | src/rpc/rpc_server.cpp:152-220 | store and output are those of the stream's frames in order, however chunked; bad frames are skipped in sync, and a response that cannot be sent in full ends the loop |
| Framing.BadFramesAreSilent | src/rpc/rpc_server.cpp:189-195 | store and output of a stream are those of the stream without its frames of wrong magic or version |
| Framing.Send | src/rpc/rpc_server.cpp:212-219 | what is sent is what the results of the send calls add up to, all of it unless one is not positive |
| Framing.AnswerFrame | src/rpc/rpc_server.cpp:189-209 | one frame decoded, handled and answered, or skipped |
| Framing.ServerAnswersEach | src/rpc/rpc_server.cpp:177-209 | every request is answered in order under its own id |
| Framing.ExchangeIsFaithful | src/rpc/rpc_server.cpp:152-220 | the client cuts the output into exactly the responses to its requests |
| Rpc.AnswerAllKeepsStorable | src/rpc/rpc_server.cpp:152-220 | whatever frames a node is sent, every pair it stores fits a put request |
| Rpc.Call | src/rpc/rpc_server.cpp:152-220 | server loop, frame cutting and decoding compose to Reply, however both streams are chunked |
| Rpc.PutCallIffFits | src/kv/raft_node.cpp:401-415 | a put call stores exactly its pair on every store if and only if the pair fits the request |
| Rpc.StatsCall | src/kv/raft_node.cpp:176-211 | a statistics call reads the count modulo 2^32 and the median, and changes nothing |
| Rpc.ScanCallReads | src/kv/raft_node.cpp:374-419 | for every store and range: the master reads as many of the first pairs as the count modulo 2^32 says if they lie within the wrapped reply length, otherwise the scan fails |
| Rpc.ScanCallIffFits | src/kv/raft_node.cpp:344-400 | a scan call reads exactly the pairs of the range if and only if they fit one reply, and of fewer than 2^32 pairs it never reads a part |
| Rpc.ShortScanIffWraps | src/kv/raft_node.cpp:383-419 | the exact condition on count and length under which a scan takes a part of the range for the whole |
| Rpc.ShortScanHappens | src/kv/raft_node.cpp:383-419 | a store of 2^32 four-byte keys is scanned as empty, with success |
| DataNode.StatsReplyReadAsScan | src/kv/raft_node.cpp:369-384 | a late statistics reply is taken for a scan's exactly if its count is zero, and read as no pairs |
| Rpc.DeleteRangeCall | src/kv/raft_node.cpp:447-474 | a range delete call removes exactly the range |
| RouteText.TableSurvivesIffClean | src/lekv_cli.cpp:87-114 | the client reads the printed table back if and only if no bound contains a byte 58, 32, or 9 to 13 |
| RouteText.HandleMasterShards | src/kv/raft_node.cpp:542-553 | prints the table |
| RouteText.PrintedBytes | src/kv/raft_node.cpp:542-553 | the printed text by number: 32 between entries, 58 between fields |
| RouteText.InitialTablePrinted | src/kv/raft_node.cpp:542-553 | the whole text of the initial table, byte for byte |
| RouteText.GetNodeAddr | src/kv/raft_node.cpp:91-98 | the address of the first peer with the id, or nothing |
| RouteText.SplitSegment | src/lekv_cli.cpp:95-105 | cuts a token at its colons |
| RouteText.ReadTable | src/lekv_cli.cpp:87-114 | the parse loop computes ParseTable |
| RouteText.SortIsIdentity | src/lekv_cli.cpp:116-117 | sorting by start, stable or not, leaves a partition's entries in place |
| RouteText.FindRoute | src/lekv_cli.cpp:138-158 | an address is found if and only if some entry holds the key, and it is that entry's |
| RouteText.RouteAtClient | src/lekv_cli.cpp:116-158 | the client's search ends at the address of the node the master routes the key to |

## Left out

- MasterNode.Master.BalancerLoop: followed for a given number of rounds and of split iterations a round, where the source runs until it is stopped; that the split loop ends is proved for calm environments only.
- MasterNode.Master.SplitAll: followed for a given number of iterations, for the same reason.
- MasterNode.Master.QueryTabletStats: acts on the node's map directly, as SendPut, BeginCopy and SendDeleteRange do; that the calls have these effects on the wire, within the size limits, is proved in `Rpc`. Calm scans take the reply to fit a frame.
- MasterNode.Master.ClientStep: unlocked concurrent access to the table is outside the model; clients act between two actions of the balancer.
- MasterNode.Master.Resume: the file is taken to be what was saved; what starting over does with a file that cannot be parsed is `UnreadableFileHarmlessIffRoutesInitial`.
- MasterNode.Master.ScanAndTransferData: a scan whose count of pairs wraps is taken to fail here; what it does in the source is `ShortScanIffWraps`.
- MasterNode.Master.constructor: without data nodes the source keeps an empty table, with a single one it reads past the end of a list; both are excluded.
- DataNode.DataNode.HandleBinaryRequest: LevelDB writes do not fail.
- Framing.Connection.RecvAll: error codes other than "try again" are one event; elapsed time is counted, not measured.
- RouteText.ReadTable: signs and overflow in numbers read from the text are not modelled; a token with exactly four parts is an undefined outcome.
- SpscThreads.SafeUnderEveryInterleaving: counters may be read late, but bytes of the buffer are read as last stored, which is what the acquire and release orderings provide.
- Identifiers, epochs and recorded counts are unbounded numbers; their 64-bit wrap-around is not modelled.
- The GET_ROUTE response, whose id and epoch fields are cut to one and four bytes.
- TextProtocol, the text server, the log record and type tag code: not used by the store.
- Sockets, threads, shutdown, timing statistics, console output and configuration files.
