# Models of the allocators, containers and small protocols of a C toolbox

Each module models one piece of the repository and proves what it keeps over every
sequence of calls, packets or thread steps.

* **Object pool** (`SlotList.dfy`, `PoolSpec.dfy`, `ObjPool.dfy`). The free list and the
  cache list of `objpool.c` with their back-pointers to pointers; `PoolSpec` says what a
  pool is without its pointers and holds the laws of whole runs; the class takes exactly
  those steps. Live memory is explicit: the headers of a released cache leave the maps, so
  a read through a stale pointer would not verify. The `assert` statements of the modelled C
  functions stand in the methods, except those about NULL, which the types rule out.
* **Circular list and hash table** (`Rings.dfy`, `HashSpec.dfy`, `HashSize.dfy`, `Hash.dfy`). The macros of
  `cblist.h` as in-place updates of two link maps; on top of them and of the pool the table
  of `hash.c` for whatever keys the callers pass, proved to act as one flat list in insertion
  order.
* **Bump allocator** (`Mempool.dfy`): `mempool.h` with its unsigned 64-bit arithmetic and
  byte contents.
* **Connection table** (`TcpStream.dfy`, `ConnTable.dfy`): the lookup of `ssldump.c` over
  `shash.h`, tuple comparison and hashing over IPv4 and IPv6 together, and the stream states
  of `tcp_stream.c`.
* **Log device** (`Miglog.dfy`) and **reader/writer lock** (`Rwlock.dfy`): thread steps and
  all their interleavings (`Runs.dfy`).
* **Internet checksum** (`Checksum.dfy`), **shared-memory pool** (`Shmpool.dfy`),
  **management sockets** (`AdminSocket.dfy`), **k-th element** (`Kth.dfy`), **ring log**
  (`DbgLog.dfy`) and **echo connection** (`EchoServer.dfy`).

Modelling conventions. What `malloc` and its relatives yield is an argument of the call:
`None` for failure, otherwise memory not in use at the moment, so released addresses may
come back. `NULL` arguments and results are `None`. Callbacks and mixing functions
(`cmp_func`, `jhash_3words`) are arbitrary functions. Results of `recv`, `send` and
`skb_clone` are arguments within their ranges. Locked operations are one step each, except
where the interleaving is the point.

What the proofs found about the code:

* `csum_icmp` (`code/network/raw/checksum.h:71-107`) compares its 16-bit counter as a signed
  number. It is the checksum of its buffer exactly for lengths 2 to 32769
  (`IcmpIsRightExactly`); for any other length only the first word is summed.
* `miglog_write` reads the size outside the lock. The list can hold `MIGLOG_MAXLOG - 1`
  messages plus one per writer, never more (`EveryInterleaving`), and for every positive
  number of writers some interleaving gets there (`BoundIsReached`).
* `mempool_calloc` zeroes its block exactly when the block came from the newest chunk, or
  the new node happened to be zero there (`Mempool.Calloc`); `CallocLeavesOnes` is a block
  that is not zero.
* The padded node size of `mempool.h` holds the request exactly when the padding does not
  wrap 64 bits (`NodeHoldsExactly`, `PoolPaddingFits`); requests are assumed to be that small.
* A read of the log device returns the four bytes before the data. They are meant to be the
  length, but `length` is a `size_t`: with eight bytes they are its upper half, 0 for every
  message (`PrefixIsLengthExactly`).
* `objpool_put` straight after a successful `objpool_get` restores the pool exactly when the
  pool did not have to grow and the put does not release a cache (`GetThenPut`).
* When the ring of `dbg_log.c` has just been filled for the first time, the newest record is
  in the file but cannot be read (`NewestMissed`). It is the only record held that cannot
  (`DbgLog.Log.Read`).
* In `rwlock.h` a writer excludes everybody for any number of threads, because a reader enters
  only over a count that is not negative (`WriterIsAlone`). The count itself is the number of
  readers exactly below 2^31 of them, so it is right in all interleavings exactly for fewer
  than 2^31 threads (`CountRightExactly`).
* `admin_bind` compares a 64-bit pid and stores 32 bits of it. A successful bind keeps pids and
  group bits exclusive exactly for addresses whose pid fits, or that have no bit a socket could
  have (`BindKeepsExactly`).
* Exclusive binding keeps a message to one management socket exactly when it names a nonzero
  pid and a single group bit, or nobody at all (`OneReceiverExactly`).
* A table filled with the keys of some policy answers every search like one through the whole
  table, after every run, exactly when the policy sends equal values to the same entry
  (`SearchesWholeTable`); `MissedSearch` is a search that fails otherwise.
* `ip_addr_compare` takes an IPv4-mapped IPv6 address on its left for the IPv4 address on its
  right, and not the other way round (`CompareTupZero`). A packet from the server side of a
  stored connection still always goes to its own stream. A packet from the client side does
  exactly when no stored stream answers it as a server packet (`OwnStreamExactly`); what
  answers instead is the IPv4-mapped form of the connection (`OnlyMappedInstead`).
  `OwnStreamMissed` is a run in which a stored stream is missed, `MappedTakesOver` one in
  which the stream is never opened.
* The pool of `objpool.c` never has more than two caches beyond the number of objects out
  (`CachesBound`).

## Model

| member | source | states |
|---|---|---|
| `SlotLists.SlotList.Push` | code/basic/datastruct/objpool.c:132-137 | prepends; the chain and every back-pointer stay right, records on no list keep their links |
| `SlotLists.SlotList.Unlink` | code/basic/datastruct/objpool.c:189-192 | removes a record from any position, found only through its own back-pointer |
| `SlotLists.SlotList.Pop` | code/basic/datastruct/objpool.c:386-394 | takes the first record and clears its links |
| `SlotLists.BackPointersForceDistinct` | code/basic/datastruct/objpool.c:77-83 | right back-pointers alone rule out a record standing on a list twice |
| `ObjPools.ObjPool.Alloc` | code/basic/datastruct/objpool.c:316-354 | NULL exactly on size 0 or failed memory; otherwise a consistent pool with one carved cache, the increment cut to 16 bits, 1000 by default |
| `ObjPools.IncrementCut` | code/basic/datastruct/objpool.c:335-335 | only whole multiples of 65536 are lost from an increment |
| `ObjPools.ObjPool.AllocCache` | code/basic/datastruct/objpool.c:104-155 | grows the pool by one cache whose nodes head the free list, last carved first; held objects unchanged |
| `ObjPools.ObjPool.CarveAll` | code/basic/datastruct/objpool.c:124-138 | the carving loop: every node of the block is free, linked and has a right header |
| `ObjPools.ObjPool.UnlinkNodes` | code/basic/datastruct/objpool.c:184-193 | the loop that unlinks all nodes of a cache leaves exactly the other free nodes, in order; its two asserts hold |
| `ObjPools.ObjPool.FreeCache` | code/basic/datastruct/objpool.c:164-203 | an idle cache leaves both lists and live memory, counters and use counts stay right, all asserts hold |
| `ObjPools.ObjPool.Get` | code/basic/datastruct/objpool.c:370-403 | keeps the invariant and the idle-cache bound, takes the abstract get step, hands out an object nobody holds |
| `ObjPools.ObjPool.GiveNode` | code/basic/datastruct/objpool.c:260-287 | the object becomes the first free node; its cache's use count falls by one |
| `ObjPools.ObjPool.CacheOfUsed` | code/basic/datastruct/objpool.c:265-273 | the header asserts of a put cannot fail for an object that is out |
| `ObjPools.ObjPool.Put` | code/basic/datastruct/objpool.c:405-426 | keeps the invariant and the idle-cache bound, takes the abstract put step with its shrink rule, -1 on NULL |
| `ObjPools.ObjPool.ViewIsWellFormed` | code/basic/datastruct/objpool.c:30-41 | nfreed is the free list's length, nalloced is the increment times the number of caches |
| `ObjPools.ObjPool.HeldIsOut` | code/basic/datastruct/objpool.c:77-83 | the nodes marked used are exactly the live nodes not on the free list |
| `ObjPools.ObjPool.MemoryBound` | code/basic/datastruct/objpool.c:289-294 | nalloced is at most the increment times the objects held and two |
| `PoolSpec.GetStep` | code/basic/datastruct/objpool.c:380-398 | a get returns a live object that is not out, or fails exactly when nothing is free and no memory comes; no cache is released |
| `PoolSpec.PutStep` | code/basic/datastruct/objpool.c:275-294 | a put takes back just that object, releases no cache with another object out, and leaves at most two idle caches |
| `PoolSpec.ShrinkSizes` | code/basic/datastruct/objpool.c:195-199 | releasing an idle cache takes exactly one increment off both counters |
| `PoolSpec.IdleCachesFillFreeList` | code/basic/datastruct/objpool.c:289-294 | idle caches are paid for: their number times the increment is at most the number of free nodes |
| `PoolSpec.FreePlusOut` | code/basic/datastruct/objpool.c:36-39 | free nodes and objects out add up to all nodes |
| `PoolSpec.RunStaysSettled` | code/basic/datastruct/objpool.c:370-426 | over every legal run the pool stays consistent and the callers' own books equal the objects out |
| `PoolSpec.CachesBound` | code/basic/datastruct/objpool.c:289-294 | a settled pool has at most two caches more than objects out |
| `PoolSpec.PoolRuns` | code/basic/datastruct/objpool.c:260-296 | every run from a new pool: no object held twice, every held object in a live cache, conservation, at most two idle caches, at most two caches more than objects held |
| `PoolSpec.GetThenPut` | code/basic/datastruct/objpool.c:370-426 | giving an object straight back restores the pool if and only if the get did not grow it and the shrink rule does not apply |
| `PoolSpec.PutThenGet` | code/basic/datastruct/objpool.c:275-398 | what was put back last is handed out next and the pool is as before, unless its cache was released |
| `PoolSpec.CarvedAt` | code/basic/datastruct/objpool.c:124-138 | the nodes of a block come onto the free list last carved first |
| `Rings.Links.Init` | code/basic/datastruct/cblist.h:25-25 | a link becomes a ring of its own, all others unchanged |
| `Rings.Links.AddHead` | code/basic/datastruct/cblist.h:56-61 | prepends after the head; every link outside the ring unchanged |
| `Rings.Links.AddTail` | code/basic/datastruct/cblist.h:66-71 | appends before the head; every link outside the ring unchanged |
| `Rings.Links.Del` | code/basic/datastruct/cblist.h:76-81 | removes the link, which is then a ring of its own |
| `Rings.Links.Join` | code/basic/datastruct/cblist.h:108-118 | concatenates, empties the second ring, and does nothing when that is empty |
| `Rings.Links.ForEachSafe` | code/basic/datastruct/cblist.h:99-103 | visits every element once in order while the body deletes any of them, and leaves exactly the others |
| `Rings.EmptyTest` | code/basic/datastruct/cblist.h:37-37 | the emptiness macro is right in both directions |
| `Rings.RingsDisjoint` | code/basic/datastruct/cblist.h:17-20 | two rings share no link unless the head of one lies on the other |
| `Rings.UntouchedRing` | code/basic/datastruct/cblist.h:56-118 | a ring none of whose links was written is still that ring |
| `HashSizes.Choose` | code/basic/datastruct/hash.c:59-111 | over any rising list of 44 sizes the search ends and yields the least size that is at least the request |
| `HashSizes.ChooseSize` | code/basic/datastruct/hash.c:48-111 | the least listed size that is at least the request |
| `Hashes.Alloc` | code/basic/datastruct/hash.c:113-157 | NULL exactly on size 0, no comparison or a failed allocation; otherwise an empty table with the least listed number of entries over a pool of 500 items |
| `Hashes.NewEntries` | code/basic/datastruct/hash.c:143-144 | every entry becomes a ring of its own |
| `Hashes.Hash.Scan` | code/basic/datastruct/hash.c:217-226 | the traversal of one entry stops at the earliest item of that entry equal to the value, in insertion order, and counts the items passed |
| `Hashes.Hash.Search` | code/basic/datastruct/hash.c:199-234 | for any key, returns the earliest live item of the key's entry equal to the value, and moves the three statistics accordingly |
| `Hashes.Hash.Insert` | code/basic/datastruct/hash.c:236-266 | for any key, appends to the flat list; on failure of the pool, -1 and the same list |
| `Hashes.Hash.InsertNodup` | code/basic/datastruct/hash.c:268-311 | for any key, refuses exactly when the key's entry holds an equal value or the pool fails, otherwise appends |
| `Hashes.Hash.Delete` | code/basic/datastruct/hash.c:313-352 | cuts exactly the item a search finds and gives it back to the pool |
| `Hashes.Hash.Size` | code/basic/datastruct/hash.c:354-367 | the number of live items |
| `Hashes.Hash.LinkedItemsAreLive` | code/basic/datastruct/hash.c:253-261 | linked items lie in live pool caches and are all the objects the pool has out |
| `Hashes.Hash.TableMemory` | code/basic/datastruct/objpool.c:289-294 | the items take at most two blocks more than there are live ones, however many there once were |
| `HashSpec.LocateInBucket` | code/basic/datastruct/hash.c:210-226 | walking one entry's chain ends at the earliest item of the whole list with that entry and an equal value |
| `HashSpec.KeyedSearch` | code/basic/datastruct/hash.c:210-226 | if equal values go to the same entry, every keyed search finds what looking through everything finds |
| `HashSpec.MissedSearch` | code/basic/datastruct/hash.c:210-226 | for any two equal values with different entries, a table and a search that misses |
| `HashSpec.KeyedRun` | code/basic/datastruct/hash.c:236-352 | over every run of both inserts and deletes the items keep the keys their values go with |
| `HashSpec.SearchesWholeTable` | code/basic/datastruct/hash.c:199-352 | after every run of both inserts and deletes all searches answer for the whole table, if and only if the key policy sends equal values to the same entry |
| `HashSpec.BucketCut` | code/basic/datastruct/hash.c:340-341 | cutting an item takes its link out of its own bucket and no other |
| `HashSpec.NoDupRun` | code/basic/datastruct/hash.c:268-352 | over every run of nodup inserts and deletes, whatever the keys, no entry ever holds two equal values |
| `HashSpec.DupStored` | code/basic/datastruct/hash.c:268-311 | for any two equal values with different entries, a run of nodup inserts that stores both |
| `HashSpec.NoDupTable` | code/basic/datastruct/hash.c:268-352 | no two live values are ever equal after runs of nodup inserts and deletes, if and only if the key policy sends equal values to the same entry |
| `HashSpec.InsertThenSearch` | code/basic/datastruct/hash.c:199-266 | after an insert the earliest equal item of the entry still answers; with none before, the new item does |
| `HashSpec.DeleteThenSearch` | code/basic/datastruct/hash.c:199-352 | without duplicates in an entry, nothing equal remains there after a delete |
| `Mempools.Mempool.Create` | code/basic/datastruct/mempool.h:102-124 | NULL exactly on size 0 or failed memory; otherwise an empty pool whose rest begins past the header |
| `Mempools.Mempool.AllocNode` | code/basic/datastruct/mempool.h:41-65 | a new chunk with the block right past its header and room for the largest request so far; max never falls below it or the request, and is cut to 32 bits; earlier blocks keep their bytes |
| `Mempools.Mempool.Malloc` | code/basic/datastruct/mempool.h:74-95 | every block ever returned is aligned, inside one chunk past its header and apart from all others; when it fails; where the block is |
| `Mempools.RestNeverWraps` | code/basic/datastruct/mempool.h:82-84 | the unsigned subtraction never wraps, so the room test means what it says |
| `Mempools.BumpKeeps` | code/basic/datastruct/mempool.h:83-90 | a block cut from the rest of the newest chunk overlaps no earlier block |
| `Mempools.NewChunkKeeps` | code/basic/datastruct/mempool.h:51-62 | a block in a new chunk overlaps no earlier block |
| `Mempools.PaddingFits` | code/basic/datastruct/mempool.h:49-49 | the padded size holds the request exactly when the padding does not wrap |
| `Mempools.NodeSizeIsLarger` | code/basic/datastruct/mempool.h:48-49 | a node holds both the request and the largest request so far past its header, with fewer than eight bytes more than the larger needs |
| `Mempools.NodeHoldsExactly` | code/basic/datastruct/mempool.h:48-49 | whatever max is, the node asked for has room for the request exactly when the padding does not wrap |
| `Mempools.PoolPaddingFits` | code/basic/datastruct/mempool.h:111-111 | the same of the pool itself |
| `Mempools.AlignIsNext` | code/basic/stdext/gcc_common.h:43-44 | alignment yields the next multiple of eight |
| `Mempools.Mempool.Calloc` | code/basic/datastruct/mempool.h:172-176 | when a block is returned, and exactly when that block is zero |
| `Mempools.CallocLeavesOnes` | code/basic/datastruct/mempool.h:74-95 | a block of 24 bytes out of a pool of 16 that is not zero |
| `Mempools.Mempool.Realloc` | code/basic/datastruct/mempool.h:184-204 | the new block holds the first min(old, new) bytes and then zeroes; no earlier block changes; when it fails |
| `TcpStreams.LevelIsWhatWasSeen` | code/network/packet/tcp_stream.c:400-442 | a stream has reached a level if and only if the packets marking the way there came in order, one packet per milestone |
| `TcpStreams.StepLevel` | code/network/packet/tcp_stream.c:400-442 | one packet passes at most the next milestone, exactly when it marks it |
| `TcpStreams.NeverBackwards` | code/network/packet/tcp_stream.h:24-32 | over every run the state never moves back in the order of the enumeration |
| `TcpStreams.RejectedMakeNoDifference` | code/network/packet/tcp_stream.c:387-396 | RST and out-of-range packets can be left out of any run |
| `TcpStreams.DroppedExactly` | code/network/packet/tcp_stream.c:18-33 | which packets are dropped: resets, and those not beyond the number noted for their side |
| `TcpStreams.Teardown` | code/network/packet/tcp_stream.c:415-442 | the states on both ways from established to closed, packet by packet |
| `ConnTables.Stream.Flow` | code/network/packet/tcp_stream.c:373-447 | one packet moves the state as the switch says; -1 on rejection, 0 on closing |
| `ConnTables.FlowResultMeans` | code/network/packet/tcp_stream.c:387-439 | 0 is returned exactly by the packet that closes the stream; a packet that brings -1 moves nothing |
| `ConnTables.CompareTupZero` | code/network/packet/tcp_stream.c:293-313 | for all tuples: they compare equal exactly when they are equal or the left one is the IPv4-mapped form of the right one |
| `ConnTables.CompareEndpointZero` | code/network/netutil/ip_addr.c:583-631 | the same of one address and port |
| `ConnTables.MemcmpZero` | code/network/netutil/ip_addr.c:617-618 | the byte comparison is zero exactly on equal addresses |
| `ConnTables.MappedForm` | code/network/netutil/ip_addr.c:543-563 | the mapped form is ten zeroes, two of 255 and the octets of the address, highest first |
| `ConnTables.OrderedByOctets` | code/network/netutil/ip_addr.c:603-613 | IPv4 addresses by value are ordered as by their octets in memory |
| `ConnTables.SameTuple` | code/network/packet/tcp_stream.c:216-260 | two packets have the same tuple exactly when addresses and both ports agree, and opposite ones exactly when they are exchanged |
| `ConnTables.HashLooksAt` | code/network/packet/tcp_stream.c:263-291 | without collisions in the mixing, IPv4 tuples hash alike exactly when equal; of an IPv6 destination address only the last four octets count |
| `ConnTables.EarliestInBucket` | code/basic/datastruct/shash.h:189-196 | walking one bucket finds the earliest of all stored streams that compares equal there |
| `ConnTables.Table.Find` | code/basic/datastruct/shash.h:179-197 | the earliest stored stream that compares equal and hangs on the same bucket; always the one with this very tuple, if stored |
| `ConnTables.Table.Add` | code/basic/datastruct/shash.h:120-152 | appends to its bucket; no stream answers for a later one |
| `ConnTables.Table.Lookup` | code/network/packet/ssldump.c:247-262 | the earliest stream that answers in the server direction, else in the client direction, else none; a server's own stream is always found |
| `ConnTables.Table.Decode` | code/network/packet/ssldump.c:234-293 | for any mix of traffic: which stream a packet goes to and in which direction, the server direction exactly if something answers the reversed tuple; its own stream if and only if the server sent it or nothing answers it as a server packet; a new stream is stored exactly on a bare SYN that nothing answers; no other stream moves |
| `ConnTables.Handshake` | code/network/packet/ssldump.c:234-293 | for all distinct IPv4 endpoints and increasing client numbers, SYN, SYN+ACK and ACK on a new table leave one established stream with the client first |
| `ConnTables.AtMostOneFits` | code/network/packet/ssldump.c:247-262 | at most one stored stream has a packet's endpoints |
| `ConnTables.OwnIsEarliest` | code/network/packet/ssldump.c:247-262 | a lookup of a stored stream's own tuple yields that stream, even beside its mapped form |
| `ConnTables.OwnStreamExactly` | code/network/packet/ssldump.c:247-262 | a packet of a stored connection goes to its own stream if and only if the server sent it or nothing stored answers it as a server packet |
| `ConnTables.OnlyMappedInstead` | code/network/packet/ssldump.c:247-262 | what answers instead is the IPv4-mapped form of the connection |
| `ConnTables.MappedTakesOver` | code/network/packet/ssldump.c:247-289 | for every IPv4 SYN whose mapped form hashes alike, a run in which the mapped stream takes it and none is opened |
| `ConnTables.OwnStreamMissed` | code/network/packet/ssldump.c:247-289 | for every IPv4 SYN whose reversed tuple hashes like its mapped form, a run of three packets in which the stored own stream is missed |
| `ConnTables.Table.StateMeansHistory` | code/network/packet/ssldump.c:264-289 | after any packets, the state of every stored stream says exactly which of its own packets were seen |
| `Miglog.Queue.Add` | code/kernel/miglog/miglog.c:80-94 | appends; head, tail, links and size agree |
| `Miglog.Queue.Del` | code/kernel/miglog/miglog.c:99-115 | takes the oldest message, none from an empty queue |
| `Miglog.Queue.Clear` | code/kernel/miglog/miglog.c:120-130 | takes out every message once, in order |
| `Miglog.InvStep` | code/kernel/miglog/miglog.c:151-257 | every step of any thread, a writer failing after the size check included, keeps lock ownership, the size relation, the room bound and the order |
| `Miglog.EveryInterleaving` | code/kernel/miglog/miglog.c:151-257 | for all interleavings: at most MAXLOG - 1 + W messages, size is the length outside the lock, messages leave in lock order, each to one reader, each is the first min(len, 1024) bytes of the buffer written, a reader holds the very message it took out, and its user gets only the beginning of it |
| `Miglog.ReadAlone` | code/kernel/miglog/miglog.c:151-199 | a read of a log that is not empty takes the oldest message, and the user gets all of it that fits |
| `Miglog.WriteAlone` | code/kernel/miglog/miglog.c:201-257 | a write to a log with room makes its message the newest one, cut to its length |
| `Miglog.TurnedAway` | code/kernel/miglog/miglog.c:168-220 | a full log turns a writer away and an empty one a reader, and nothing changes |
| `Miglog.ReadTooLate` | code/kernel/miglog/miglog.c:171-178 | a reader that finds the list empty under the lock returns with nothing, and nothing changes |
| `Miglog.FailedCalls` | code/kernel/miglog/miglog.c:190-242 | a writer that fails adds nothing; a reader whose copy fails loses its message |
| `Miglog.PrefixIsLengthExactly` | code/kernel/miglog/miglog.c:32-44 | the four bytes in front of a message are its length if and only if size_t has four bytes or the message is empty |
| `Miglog.OnlyWritten` | code/kernel/miglog/miglog.c:222-247 | no buffer is recorded more often than it was passed to writes of the run |
| `Miglog.BoundIsReached` | code/kernel/miglog/miglog.c:217-249 | for every positive number of writers an interleaving that reaches the bound |
| `Rwlock.InvStep` | code/basic/datastruct/rwlock.h:108-172 | for any number of threads, every single read, compare-and-set or release keeps `cnt` in step with the threads inside, and at most 2^31 readers |
| `Rwlock.WriterIsAlone` | code/basic/datastruct/rwlock.h:108-172 | for all interleavings of any number of threads: a writer excludes everybody, cnt is -1 exactly under one writer, and without one it is the number of readers exactly below 2^31 of them |
| `Rwlock.WriterGetsIn` | code/basic/datastruct/rwlock.h:144-160 | a thread alone gets the write lock exactly when the count is 0, and otherwise stays in its loop |
| `Rwlock.ReaderGetsIn` | code/basic/datastruct/rwlock.h:108-124 | a thread alone gets the read lock exactly when the count is not negative, and otherwise stays in its loop |
| `Rwlock.LostRaceRetries` | code/basic/datastruct/rwlock.h:114-159 | whoever lost the race between reading and setting the count goes round again, with nothing changed |
| `Rwlock.LeavingFrees` | code/basic/datastruct/rwlock.h:132-172 | leaving undoes entering |
| `Rwlock.FreeLockCanBeTaken` | code/basic/datastruct/rwlock.h:108-172 | after any interleaving a lock with nobody inside can be taken either way by any thread outside |
| `Rwlock.TooManyReaders` | code/basic/datastruct/rwlock.h:114-123 | for every number of threads from 2^31 on, an interleaving in which the count is wrong |
| `Rwlock.CountRightExactly` | code/basic/datastruct/rwlock.h:108-172 | the count tells who is inside in all interleavings if and only if there are fewer than 2^31 threads |
| `Checksum.CksumIsOnesComplement` | code/network/packet/packet_ipv4.c:68-75 | sum, two folds and complement are the complemented ones'-complement sum, without 32-bit overflow |
| `Checksum.FoldIsResidue` | code/network/packet/packet_ipv4.c:72-73 | two folds always suffice |
| `Checksum.StoredChecksumVerifies` | code/network/packet/packet_ipv4.c:59-76 | a stored word makes the recomputation 0 if and only if it is the checksum (or 0xFFFF for 0) |
| `Checksum.PermutedChecksum` | code/network/packet/packet_ipv4.c:69-70 | the order of the words does not matter |
| `Checksum.SwappedChecksum` | code/network/packet/packet_ipv4.c:59-76 | swapping the octets of every word swaps those of the result |
| `Checksum.Ipv4Cksum` | code/network/packet/packet_ipv4.c:59-76 | -1 on the refused lengths, otherwise the checksum of the words |
| `Checksum.CsumIcmp` | code/network/raw/checksum.h:71-107 | the checksum of the octets its loop covers |
| `Checksum.SignedIs` | code/network/raw/checksum.h:82-91 | the counter is compared as the 16-bit signed number with its bit pattern |
| `Checksum.WordsAt` | code/network/raw/checksum.h:80-91 | every word is two octets of the buffer, the first one low |
| `Checksum.OddIsPadded` | code/network/raw/checksum.h:88-94 | an odd last octet counts as followed by a zero |
| `Checksum.IcmpIsRightExactly` | code/network/raw/checksum.h:82-91 | right on every buffer of a length if and only if the length is 2 to 32769 |
| `Checksum.WrongBeyond` | code/network/raw/checksum.h:82-91 | for every other length a buffer on which it is wrong |
| `Checksum.PacketVerifies` | code/network/raw/checksum.h:71-107 | storing the result into the zeroed field of a covered packet makes it verify |
| `Shmpools.PtrAcceptsSlots` | code/system/ipc/shmpool.c:16-28 | offsets are accepted exactly when they are those of slots |
| `Shmpools.SlotsApart` | code/system/ipc/shmpool.c:55-60 | every slot has room for header and object before the next one |
| `Shmpools.SlotsFit` | code/system/ipc/shmpool.c:48-75 | the last slot ends exactly where the memory for all slots does |
| `Shmpools.NodesApart` | code/system/ipc/shmpool.c:190-230 | the nodes of two slots, each with its object, never overlap |
| `Shmpools.GivenBack` | code/system/ipc/shmpool.c:30-46 | the address a get returns is accepted by a put, for the same slot |
| `Shmpools.PtrIdxInverse` | code/system/ipc/shmpool.c:16-46 | offset to pointer and back undo each other and reject the same things |
| `Shmpools.Shmpool.constructor` | code/system/ipc/shmpool.c:48-75 | all slots free, queued in order |
| `Shmpools.Shmpool.Get` | code/system/ipc/shmpool.c:190-230 | issues the slot that has been free longest, NULL when none is; the slots issued so far and those free are all slots and those returned, in order |
| `Shmpools.Shmpool.Put` | code/system/ipc/shmpool.c:232-280 | queues a used slot last, refuses NULL and free slots, and keeps that order |
| `Shmpools.PoolRunsAreFifo` | code/system/ipc/shmpool.c:190-280 | every run: slots issued in the order of their return, and no free slot queued twice |
| `AdminSockets.Sockets.Create` | code/kernel/admin_socket/admin_socket.c:64-121 | a new unbound socket heads the list |
| `AdminSockets.Sockets.Bind` | code/kernel/admin_socket/admin_socket.c:282-322 | refused if and only if another socket has the 64-bit pid and shares a group bit; stores 32 bits of each; exclusiveness kept for addresses that can be stored |
| `AdminSockets.BindKeeps` | code/kernel/admin_socket/admin_socket.c:298-317 | a successful bind of an address that can be stored keeps exclusiveness |
| `AdminSockets.BindBreaks` | code/kernel/admin_socket/admin_socket.c:298-317 | for every other address a situation in which a successful bind breaks it |
| `AdminSockets.BindKeepsExactly` | code/kernel/admin_socket/admin_socket.c:282-322 | a bind always keeps exclusiveness if and only if the pid fits 32 bits or no storable bit is set |
| `AdminSockets.Sockets.Send` | code/kernel/admin_socket/admin_socket.c:127-223 | delivery to exactly the sockets that pass the tests up to the first failed clone, with the sender's address of that moment, in order behind what was delivered before; at most one for a pid and one bit under exclusive binding; no queue above 65 |
| `AdminSockets.ReachedAreReceivers` | code/kernel/admin_socket/admin_socket.c:143-168 | who is reached: all other sockets that pass the tests when cloning succeeds, and only such |
| `AdminSockets.ReachedExactly` | code/kernel/admin_socket/admin_socket.c:143-168 | with clones enough, a socket gets the message exactly if it is another one, shares a bit, matches the pid and has at most 64 packets queued |
| `AdminSockets.AtMostOneReceiver` | code/kernel/admin_socket/admin_socket.c:152-159 | a nonzero pid and one group bit fit at most one socket |
| `AdminSockets.SharedOtherwise` | code/kernel/admin_socket/admin_socket.c:152-159 | for every other destination with a group, exclusively bound sockets of which two receive |
| `AdminSockets.OneReceiverExactly` | code/kernel/admin_socket/admin_socket.c:143-168 | a destination has at most one receiver under all exclusive bindings if and only if no socket can match it, or it has a nonzero pid and one bit |
| `AdminSockets.Sockets.Recv` | code/kernel/admin_socket/admin_socket.c:229-276 | packets are received in the order of delivery; the oldest one, one that was sent, cut exactly when longer than the buffer, with its noted address; the value returned under MSG_TRUNC; left queued under MSG_PEEK; lost when the copy fails |
| `AdminSockets.Sockets.Release` | code/kernel/admin_socket/admin_socket.c:375-406 | just this socket leaves the list |
| `Kth.KthSort` | code/basic/algorithm/kth.c:43-63 | error exactly out of range, otherwise a k-th smallest element |
| `Kth.KthArray` | code/basic/algorithm/kth.c:13-41 | error exactly out of range, otherwise a k-th smallest element |
| `Kth.KeepSmallest` | code/basic/algorithm/kth.c:23-35 | the buffer always holds k smallest elements, sorted; nothing left out is below its last |
| `Kth.KthIsUnique` | code/basic/algorithm/kth.c:13-63 | all k-th smallest elements compare equal |
| `Kth.BothAgree` | code/basic/algorithm/kth.c:13-63 | the two functions' answers compare equal |
| `DbgLog.Log.Write` | code/system/debug/dbg_log.c:198-242 | write position, slot number and record count follow the number of records written; a failed write costs at most the oldest record, until the next that succeeds |
| `DbgLog.Log.Read` | code/system/debug/dbg_log.c:292-352 | index i yields the i-th oldest record held; exactly which indexes succeed |
| `DbgLog.NewestMissed` | code/system/debug/dbg_log.c:224-322 | after exactly as many writes as slots the newest record is held but cannot be read |
| `DbgLog.ReadSlot` | code/system/debug/dbg_log.c:322-332 | the slot computed for an index is that of the right record |
| `DbgLog.SlotsApart` | code/system/debug/dbg_log.c:322-332 | record slots are apart and clear of the header |
| `DbgLog.Log.Clear` | code/system/debug/dbg_log.c:355-395 | the log is empty afterwards |
| `EchoServer.Conn.Recv` | code/network/tcp/tcp_server.c:271-309 | bytes sent and pending equal bytes received; data switches to sending |
| `EchoServer.Conn.Send` | code/network/tcp/tcp_server.c:311-340 | the same over partial sends; 1 to 1023 bytes pending while sending |
| `EchoServer.Conn.Free` | code/network/tcp/tcp_server.c:167-184 | the slot is closed and its buffers cleared |

## Left out

- Locks, semaphores and threads where operations are atomic in the model: the pthread mutexes of `objpool.c` and `hash.c`, the semaphores of `shmpool.c` and `dbg_log.c`, concurrent `admin_bind`.
- 16-bit truncation of object sizes in `objpool.c`, and 32-bit overflow of counters and statistics.
- ObjPools.ObjPool.Alloc: speaks of increments whose low 16 bits are not all zero; otherwise the pool has no nodes and its first get follows a NULL pointer.
- A failed second allocation in `_op_alloc_cache` leaks the first one; the model only says that the pool does not grow.
- ObjPools.ObjPool.Put: is called on the pool the object belongs to, which the C function finds through the node header.
- HashSizes.Choose: speaks of requests up to the last entry; above it the C search reads past its list.
- HashSizes.ChooseSize: the same limit.
- Hashes.Alloc: speaks of requests up to the largest listed size; above it the C search reads past its list. `hash_free` and printing are not modelled.
- HashSpec.NoDupRun: is about the flat list; the methods of the class are proved to take the same steps on it.
- Mempools.Mempool.Create: speaks of sizes whose padding does not wrap 64 bits; otherwise the C code writes outside the memory it asked for (`PoolPaddingFits`).
- Mempools.Mempool.AllocNode: the same limit (`NodeHoldsExactly`).
- Mempools.Mempool.Malloc: the same limit; one list of node addresses stands in place of the `next` words in the node headers.
- Mempools.Mempool.Calloc: the same limit.
- Mempools.Mempool.Realloc: the same limit.
- ConnTables.Table.Decode: the reassembly queue and the value returned when nothing is queued are not modelled. The chains of `shash.h` are sequences here; their linked form is the one proved for `hash.c`.
- Miglog.EveryInterleaving: does not model poll and wake-up; `size_t` has eight bytes.
- Kth.KthArray: is not asked for k = 0, where the C code reads before its buffer; NULL arguments and failed memory are not modelled.
- Kth.KthSort: the same limits as `KthArray`.
- Kth.BothAgree: the same limits as `KthArray`.
- Checksum.CsumIcmp: `csum_tcpudp`, which adds a pseudo header to the same loop, is not modelled.
- AdminSockets.Sockets.Recv: without blocking; group masks are sets of bit positions, and `unsigned long` has 64 bits.
- AdminSockets.Sockets.Release: is asked only for a socket on the list.
- DbgLog.Log.Write: a header written in part is not modelled, nor are file opening and time stamps.
- Sockets, packet capture, TLS, databases, netlink, sysfs, disk and terminal code: input/output around unseen libraries.
- `BM_search.c`, `bsearch.c`, `maxsubseqsum.c`, `tree.c`, `str_util.c` and the address parsers: not modelled.
