# hbus in Dafny

hbus is a process-message bus: a broker that routes messages by topic, a client node with a blocking
request call, and the containers that both stand on. This project models the parts with the most state,
branching and arithmetic, and proves what they promise. It is checked with

    dafny verify dfyconfig.toml

The modules follow the program:

- `ProbeOrder`, `HashTable`, `HashIndexing`, `EntrySpec`, `HashMap`: the stb_ds hash map. `HashTable` says what an
  open-addressing index means, `HashIndexing` builds it again, `HashMap` is the map with its probing loops,
  and `EntrySpec` is what it must agree with: a sequence of entries and a finite map.
- `Deadline`, `RequestSlots`, `RequestPaths`: the request path of a node. `RequestSlots` is a state machine over the
  steps of any number of callers and of the IO thread, with runs as traces; `RequestPaths` says where an undisturbed
  request gets to.
- `Messages`, `BusSpec`, `Broker`, `Agreement`: message heads and topic keys, the broker as one ordered log of
  subscriptions, the broker with its two indexes changed in place, and a node and the broker over one connection.
- `RingBuf`, `VarLenBuf`, `Arena`: the ring allocator, the two-ended byte buffer and the string arena.
- `Recency`, `LruCache`, `ObjectPool`: recency lists as such, the LRU cache, and the object pool as interleaved steps.
- `Sequences`: lists without repetitions.

How the program's world is represented:

- The hash function is an arbitrary function of key and seed. Masks with a power of two minus one are written
  as remainders; `ProbeOrder.MaskIsRemainder` is the reason. Integers are unbounded, and the 32-bit ticket
  counter, the 32-bit sizing loop and the message fields have their width.
- `hbuf_push`, `hbuf_remove` and `hbuf_clear` of hcore are not part of the repository's source; they are sequence
  operations with item indexes, as every caller uses them.
- The topic map of the broker and the handler table of a node are stb_ds maps; they appear as finite maps or sets,
  which is what `HashMap.Replay` and `EntrySpec.RunIsFiniteMap` prove of that map.
- `hio_write` appends to a log. Clocks, results of the timed wait, incoming messages and created objects are
  parameters of steps; a timed wait ends with ETIMEDOUT only at a clock that has reached its deadline. A pointer is an
  offset, a handle or an object.
- What a node writes besides the SUB messages of its subscribe calls are arbitrary messages, none of them a SUB, and
  a REGISTER only under its own id.
- A list iterator of the LRU cache is the handle of its node.

## What the code does that its names do not say

- A request whose deadline has more than 999999999 nanoseconds (possible only for timeouts above one second) is
  refused by the timed wait and returns OK at once without a response: `RequestSlots.OverlongTimeoutReturnsOkAtOnce`.
  `RequestSlots.OkWithoutReplyIff` gives the exact condition.
- An UNSUB message enters the broker's SUB branch and subscribes (`BusSpec.UnsubMessageSubscribes`); on the node,
  `hnode_unsubscribe` never finds its key and returns before it writes (`Agreement.UnsubscribeFindsNothing`).
  Removal is proved of the branch body and of a close.
- The ring allocator can refuse although enough adjacent bytes are free; `RingBuf.RefusalIff` says exactly when and
  `RingBuf.StrandedExample` shows one case. In particular an emptied buffer may refuse less than its size:
  `RingBuf.EmptiedRefusal`.
- The sizing loop for request slots overflows a 32-bit int exactly for counts above 2^30: `Deadline.SlotsFor`.
- The object pool exceeds its maximum exactly if its constructor is told to: `ObjectPool.PoolGuarantees`.

## Model

| member | source | states |
|---|---|---|
| ProbeOrder.MaskIsRemainder | 3rd/include/hcore/stb_ds.h:863-872 | masking with 2^e - 1 is taking the remainder by 2^e, which turns the start position and the slot of a ticket into arithmetic |
| ProbeOrder.TriangularDistinct | 3rd/include/hcore/stb_ds.h:999-1001 | two different triangular numbers below the power of two are never congruent modulo it |
| ProbeOrder.ProbeIsPermutation | 3rd/include/hcore/stb_ds.h:976-1002 | for every slot count 8 * 2^e and every start, the first slot-count probes visit every slot exactly once |
| ProbeOrder.ProbeJump | 3rd/include/hcore/stb_ds.h:1273-1276 | the in-place position and step of the loop stay in step with the probe order |
| HashTable.ProbeStops | 3rd/include/hcore/stb_ds.h:934-935 | if used slots and tombstones do not fill the table, a search that has met no stop has made fewer probes than there are slots; so all probe loops end |
| HashTable.EmptySlotEndsSearch | 3rd/include/hcore/stb_ds.h:1256-1257 | an entry with the searched hash lies before the first empty slot of the probe |
| HashTable.InsertKeeps | 3rd/include/hcore/stb_ds.h:1429-1447 | writing an entry into the first empty slot of its path or into a tombstone before it keeps every other entry findable and the slots in bijection with the entries |
| HashTable.TombstoneKeeps | 3rd/include/hcore/stb_ds.h:1499-1500 | a tombstone removes exactly one entry and breaks no probe path |
| HashTable.SwapDeleteKeeps | 3rd/include/hcore/stb_ds.h:1505-1521 | after the last entry moves into the hole and its slot is repointed, the index is exact for the shortened array |
| HashIndexing.ThresholdsLeaveRoom | 3rd/include/hcore/stb_ds.h:904-935 | the growth and rebuild thresholds together are below the slot count |
| HashIndexing.HashIndex.ProbeForEmpty | 3rd/include/hcore/stb_ds.h:973-1002 | the rehash loop ends and finds the first empty slot of the hash's probe path |
| HashIndexing.CopySlot | 3rd/include/hcore/stb_ds.h:968-1006 | one turn of the copying loop places one old entry and keeps all that were placed |
| HashIndexing.Rehash | 3rd/include/hcore/stb_ds.h:884-1011 | the new index holds exactly the entries of the old one, without tombstones, with the same seed and counts, at any size with room |
| HashMap.MissMeansAbsent | 3rd/include/hcore/stb_ds.h:1246-1278 | a search that ends at an empty slot proves the key absent |
| HashMap.CountedHasRoom | 3rd/include/hcore/stb_ds.h:1489-1497 | used slots and tombstones stay below the slot count, also while a deletion has one tombstone in excess |
| HashMap.AppendSound | 3rd/include/hcore/stb_ds.h:1429-1448 | an insertion with or without tombstone reuse keeps bijection, probe paths, both counters and both thresholds |
| HashMap.TombstoneCounted | 3rd/include/hcore/stb_ds.h:1489-1500 | the first half of a deletion keeps the counters exact with one tombstone of slack |
| HashMap.MoveCounted | 3rd/include/hcore/stb_ds.h:1505-1521 | the second half of a deletion keeps them exact for the moved entry |
| HashMap.HashMap.Probe | 3rd/include/hcore/stb_ds.h:1384-1428 | the search loop ends at a match or an empty slot, having avoided both before, and the remembered tombstone lies on the path |
| HashMap.HashMap.FindSlot | 3rd/include/hcore/stb_ds.h:1232-1279 | the result is a slot whose live entry has the key, or -1 and no live entry has it |
| HashMap.HashMap.Find | 3rd/include/hcore/stb_ds.h:1281-1318 | hmgeti returns the key's position in the array or -1 and changes nothing else |
| HashMap.HashMap.Grow | 3rd/include/hcore/stb_ds.h:1357-1369 | afterwards there is an index below its growth threshold with the same entries; it is the first, the doubled or the old one |
| HashMap.HashMap.Put | 3rd/include/hcore/stb_ds.h:1337-1459 | hmput updates a present key in place and appends a new one, and reports the key's index |
| HashMap.HashMap.FindMoved | 3rd/include/hcore/stb_ds.h:1510-1518 | the second lookup of a deletion finds the slot that still points at the last entry: the two asserted facts of the source |
| HashMap.HashMap.MoveLast | 3rd/include/hcore/stb_ds.h:1505-1521 | the swap delete leaves the last entry in the hole and the index exact |
| HashMap.HashMap.Settle | 3rd/include/hcore/stb_ds.h:1523-1531 | shrinking by half or rebuilding brings the tombstones back within the threshold and keeps the entries |
| HashMap.HashMap.Delete | 3rd/include/hcore/stb_ds.h:1472-1538 | hmdel moves the last entry into the hole and reports 1, or changes nothing and reports 0 |
| HashMap.Replay | 3rd/include/hcore/stb_ds.h:563-587 | every run of puts, lookups and deletes from NULL has the entries and the results of the specification, through all grows, shrinks and rebuilds |
| EntrySpec.PutIsMapUpdate | 3rd/include/hcore/stb_ds.h:563-566 | on distinct keys a put is a map update and keeps keys distinct |
| EntrySpec.DeleteIsMapRemoval | 3rd/include/hcore/stb_ds.h:586-587 | on distinct keys a swap delete is the removal of the key from the map |
| EntrySpec.RunIsFiniteMap | 3rd/include/hcore/stb_ds.h:563-587 | after every run the entries are the finite map of the run, and a key has an index exactly if it is in that map |
| Deadline.SlotsFor | 3rd/include/hcore/hdef.h:52 | the sizing loop overflows exactly for counts above 2^30; otherwise it ends at the least 16 * 2^k that covers the count |
| Deadline.ConsecutiveTicketsUseDistinctSlots | src/hnode.c:478-479 | as many consecutive tickets as there are slots hit different slots, also across the 32-bit wrap |
| Deadline.OffsetBy | src/hnode.c:61-67 | the deadline is exactly the offset later |
| Deadline.OffsetNormalisedIff | src/hnode.c:61-67 | the deadline is normalised exactly if nanoseconds plus offset stay below two seconds, so always up to 1000 ms |
| Deadline.DeadlineInNumbers | src/hnode.c:461-465 | a timeout of up to 10000 ms puts the deadline that many milliseconds after the clock, a longer one 10000 ms after; it is normalised exactly if the nanoseconds then stay below 2000000000 |
| Deadline.Timespec.Offset | src/hnode.c:61-67 | the in-place update computes that deadline |
| RequestSlots.StepKeepsInv | src/hnode.c:409-426 | every step of every caller and of the IO thread keeps the protocol invariant: lock holders, slot owners, sequence numbers, reply buffers, statuses and deliveries fit together |
| RequestSlots.MatchedRequest | src/hnode.c:413-417 | when the IO thread appends, the slot's owner is in its wait, has got nothing yet, and slot, buffer and sequence number are that request's |
| RequestSlots.ResponseIsolation | src/hnode.c:409-426 | in every run a delivered payload carried the request's ticket modulo 2^32, and if it answers a request fewer than 2^32 tickets away it answers this one |
| RequestSlots.ResponseReachesWaiter | src/hnode.c:413-420 | a response that finds its request waiting and unanswered is appended for that request and no other |
| RequestSlots.SlotOwnership | src/hnode.c:483-499 | in every run a slot has at most one owner between compare-and-swap and the store of IDLE, and is not IDLE meanwhile, also while the wait has dropped the mutex |
| RequestSlots.ReturnCodes | src/hnode.c:483-536 | in every run a returned request is busy exactly if its own trylock or compare-and-swap found its slot in use, timed out exactly if its own timed wait ended with ETIMEDOUT, and OK otherwise; busy means no response; with a valid deadline OK means exactly one response; a timeout comes with at most one; with an invalid deadline OK comes with none |
| RequestSlots.TimeoutNotEarly | src/hnode.c:515-536 | in every run a request that returned the timeout was sent and then timed out at clocks at least its timeout apart, where timeouts above 10000 ms count as 10000 ms |
| RequestSlots.OkWithoutReplyIff | src/hnode.c:519-536 | a request that returned OK has no response exactly if clock nanoseconds plus clamped timeout reach two seconds |
| RequestSlots.OverlongTimeoutReturnsOkAtOnce | src/hnode.c:518-536 | from every reachable state such a request runs from its send to OK on its own without releasing the mutex |
| RequestSlots.ReturnedIsFinal | src/hnode.c:533-536 | in every run nothing about a returned request changes any more, in particular nothing is appended for it |
| RequestSlots.CallerReleasesMutex | src/hnode.c:483-534 | in every reachable state a caller that holds a slot's mutex can take a step, and each of its steps releases the mutex or brings the release closer, at most ten away |
| RequestSlots.IoReleasesMutex | src/hnode.c:413-425 | the same for the IO thread, at most four steps away |
| RequestSlots.BufferHoldsReply | src/hnode.c:496-499 | if no buffer is given to two unfinished requests, every buffer holds exactly the response of the last request it was given to, also after that returned |
| RequestPaths.FreeSlotIsAcquired | src/hnode.c:483-495 | a ticket whose slot is unheld and IDLE gets the mutex and the slot, and nothing else changes |
| RequestPaths.UsedSlotIsBusy | src/hnode.c:483-495 | a ticket whose slot is held or not IDLE returns busy and leaves slot, buffers and all other requests as they were |
| RequestPaths.OwnerSendsAndWaits | src/hnode.c:496-520 | the owner clears its buffer, stores its sequence number and buffer, sends, and waits with the mutex released; the exact state is given |
| RequestPaths.ResponseIsDelivered | src/hnode.c:409-420 | a response with the sequence number of a waiting request is appended to its buffer, the slot is DONE and unlocked, and nothing else changes |
| RequestPaths.DoneReturnsOk | src/hnode.c:519-536 | from every reachable state a request at its loop test whose slot is DONE returns OK in three steps, with exactly one response, and frees its slot |
| RequestPaths.DeadlineReturnsTimeout | src/hnode.c:519-536 | a waiting request whose timeout has passed can return the timeout in five steps and frees its slot |
| RequestPaths.RequestIsAnswered | src/hnode.c:478-536 | from every reachable state with the next ticket's slot free and the IO thread resting, a request runs from ticket to OK with its response; its buffer holds exactly the payload, its slot is free again, nothing of any other request changes |
| Messages.TopicKeyInjective | include/hmsg.h:57-58 | the topic key determines version, flags and topic |
| Messages.ValidIff | include/hmsg.h:43-49 | a message is valid exactly if its magic is 0x55AA, it is read as 32 bytes plus its payload, and the payload has at most 67108832 bytes |
| Messages.UnsubIsTakenAsSub | src/hbroker.c:184-201 | the bit test for SUB is passed by UNSUB and not by REGISTER |
| Messages.SubscribedKeyOfNode | src/hbroker.c:186-187 | the key the broker derives from a node's SUB is the key the node stores and data carries |
| BusSpec.RemoveSubProjections | src/hbroker.c:201-213 | removing one subscription removes it from one topic's sessions and one session's topics and leaves all other lists alone, in order |
| BusSpec.NextGood | src/hbroker.c:149-230 | no event makes a subscription repeat or belong to a closed session |
| BusSpec.CloseForgetsOnlyOne | src/hbroker.c:223-230 | after a close the session occurs nowhere, and every other list keeps content and order |
| BusSpec.ForwardingIsExact | src/hbroker.c:149-182 | a valid message that is not for the broker is written once, unchanged, to each session subscribed to its version, flags and topic if it is for everyone (0xFFFF) or names that session's node id; to nobody else, in subscription order; nothing else happens |
| BusSpec.ForwardedByContent | src/hbroker.c:149-182 | for every message and length: a session gets it exactly if it is valid, not for the broker (0xFFFE), its version, flags and topic are among those the session subscribed to, and it is for everyone or names the session's id |
| BusSpec.UnsubMessageSubscribes | src/hbroker.c:184-199 | a message with UNSUB flags adds a subscription |
| BusSpec.KnownFromHistory | src/hbroker.c:149-230 | in every run: a session is known from accept to close; it has a subscription exactly if it asked for it on its present connection; its id is the sender of its last REGISTER on that connection, or 0 |
| BusSpec.ForwardedByHistory | src/hbroker.c:149-230 | in every run a message goes to exactly the sessions that asked for its version, flags and topic on their present connection, all of them or those whose last REGISTER named its receiver |
| Broker.Broker.SessionAdd | src/hbroker.c:44-72 | the topic map gains the session at the end of the topic's list, or nothing changes if it was there |
| Broker.Broker.SessionRemove | src/hbroker.c:73-99 | the session leaves the topic's list, others keep their order, and an emptied topic is deleted |
| Broker.Broker.OnAccept | src/hbroker.c:101-120 | a new session has no topics and no node id |
| Broker.Broker.Forward | src/hbroker.c:161-182 | the log gains one copy for each live session that is subscribed to the message's version, flags and topic and has its receiver as node id, or for all of these if the receiver is 0xFFFF, and nothing else, in subscription order |
| Broker.Broker.WriteTo | src/hbroker.c:168-178 | the loop over a topic's sessions writes to those the message is addressed to, in order |
| Broker.Broker.Subscribe | src/hbroker.c:184-199 | both indexes gain the subscription once; the already-exists return of the add is unreachable |
| Broker.Broker.Unsubscribe | src/hbroker.c:201-213 | both indexes lose the subscription |
| Broker.Broker.SessionFree | src/hbroker.c:121-130 | removing the topics one by one is dropping the session from every list |
| Broker.Broker.OnRead | src/hbroker.c:149-221 | dispatch as written refines the log specification, and the UNSUB branch is dead |
| Broker.Broker.OnClose | src/hbroker.c:223-230 | a close refines the log specification |
| Broker.Broker.TwoWayIndex | src/hbroker.c:14-26 | in every valid state a session is in a topic's list exactly if the topic is in the session's list; neither repeats, no topic is empty, all listed sessions are live |
| Agreement.StepKeepsAgreement | src/hnode.c:327-360 | with concurrent subscribe calls, broker topics plus SUBs in flight stay equal to handler keys plus calls between write and store |
| Agreement.DrainedSidesAgree | src/hnode.c:327-360 | in every run, when nothing is in flight or between write and store, node and broker know the same topics |
| Agreement.SubscribeTakesEffect | src/hnode.c:327-360 | in every run, once a subscribe call has ended its topic has a handler for ever, and whenever the connection is drained from then on the broker has the subscription |
| Agreement.HandlersGrow | src/hnode.c:350-354 | in every run handlers never shrink |
| Agreement.DrainedKnowsId | src/hnode.c:161-171 | in every run, whenever the connection is drained the broker knows the node by its own id |
| Agreement.SubscribeCompletes | src/hnode.c:327-360 | from every state a subscribe call ends by its own steps: two and no change if the topic has a handler, otherwise four, with one handler and one SUB message more |
| Agreement.ChannelDrains | src/hbroker.c:149-221 | from every state as many reads as there are messages drain the connection, and the node's side is not touched |
| Agreement.SubscriberGetsMessage | src/hnode.c:327-360 | in every run, after a subscribe call has ended and the connection is drained, every valid message for its topic to everyone or to the node is written to the node |
| Agreement.ForwardedIffHandled | src/hnode.c:128-160 | then the broker forwards a message, read from any session, to the node exactly if it is valid and not for the broker, the node has a handler for it, and it is for everyone (0xFFFF) or for the node's own id; and it passes the node's DATA test |
| Agreement.UnsubscribeFindsNothing | src/hnode.c:362-369 | in every run the key that unsubscribe looks up has no handler |
| RingBuf.LiveRegionsAreSafe | 3rd/include/hv/hbuf.h:210-233 | live regions lie in the buffer and are pairwise disjoint |
| RingBuf.OldestRegion | 3rd/include/hv/hbuf.h:235-244 | the oldest region starts at head, or at 0 exactly if it is too long to start at head |
| RingBuf.RefusalIff | 3rd/include/hv/hbuf.h:210-233 | an allocation that is granted had adjacent free bytes, and one is refused despite adjacent free bytes exactly in three named situations |
| RingBuf.StrandedExample | 3rd/include/hv/hbuf.h:210-233 | six bytes are refused in an empty buffer of ten |
| RingBuf.EmptiedRefusal | 3rd/include/hv/hbuf.h:210-244 | after every run that released all it was given, a request is refused exactly if it exceeds both what lies behind and what lies before the end of the region released last; otherwise it is placed at that end, or at 0 |
| RingBuf.Replay | 3rd/include/hv/hbuf.h:205-244 | the allocator in place gives the answers of the run, for every sequence of requests and releases |
| RingBuf.RingBuf.Alloc | 3rd/include/hv/hbuf.h:210-233 | a grant appends one region to the live ones at the tail or at 0 and adds its size; a refusal changes nothing |
| RingBuf.RingBuf.Free | 3rd/include/hv/hbuf.h:235-244 | freeing the oldest region leaves the others and the tail; head leads to the next oldest, across a skipped gap if need be; when the last region goes, head and tail meet where it ended, or at 0 if that is the end of the buffer |
| VarLenBuf.VarLenBuf.PushFront | 3rd/include/hv/hbuf.h:128-143 | the contents are the new bytes followed by the old ones, through resize and move |
| VarLenBuf.VarLenBuf.PushBack | 3rd/include/hv/hbuf.h:145-157 | the contents are the old bytes followed by the new ones |
| VarLenBuf.VarLenBuf.PopFront | 3rd/include/hv/hbuf.h:159-168 | the result and the rest make up the old contents, or there were too few bytes and nothing changes |
| VarLenBuf.VarLenBuf.PopBack | 3rd/include/hv/hbuf.h:170-177 | the rest and the result make up the old contents, or nothing changes |
| Arena.ClassBound | 3rd/include/hcore/stb_ds.h:1563-1571 | a block size below the maximum means a class below 22 and the reverse, so the class never exceeds 22 |
| Arena.Arena.StrAlloc | 3rd/include/hcore/stb_ds.h:1557-1603 | over every sequence of calls all returned regions stay inside their blocks, disjoint, and hold their strings; a string goes into the current block if it fits, else into a new block of the class's size, else into its own |
| Arena.Arena.OwnBlock | 3rd/include/hcore/stb_ds.h:1573-1589 | an oversize string gets its own block behind the current one, which stays current |
| Recency.AccessTop | 3rd/include/hv/LRUCache.h:82-137 | one demand-filled access at a small capacity is the access at a larger one, cut off |
| Recency.Inclusion | 3rd/include/hv/LRUCache.h:82-137 | for every trace the recency list at a capacity is the beginning of the list at any larger capacity |
| Recency.HitsGrowWithCapacity | 3rd/include/hv/LRUCache.h:82-137 | hits never decrease with capacity |
| LruCache.Demand | 3rd/include/hv/LRUCache.h:82-137 | get followed by put on a miss is one access of the recency list, and hits exactly if the key was cached |
| LruCache.Lookup | 3rd/include/hv/LRUCache.h:82-93 | a key is in the map exactly if it is in the list, and the map leads to its own node |
| LruCache.DropConserved | 3rd/include/hv/LRUCache.h:286-300 | a removal keeps the ledger: keys ever added are those cached, those reported and those that left unreported |
| LruCache.LruCache.Get | 3rd/include/hv/LRUCache.h:82-93 | a hit returns the value and moves the entry to the front; a miss changes nothing |
| LruCache.LruCache.Put | 3rd/include/hv/LRUCache.h:118-137 | the entry is at the front; a new key evicts and reports exactly the last entry of a full cache |
| LruCache.LruCache.Remove | 3rd/include/hv/LRUCache.h:144-159 | exactly the key's entry goes and is reported |
| LruCache.LruCache.Clear | 3rd/include/hv/LRUCache.h:174-183 | everything is reported in order and gone |
| LruCache.LruCache.SetCapacity | 3rd/include/hv/LRUCache.h:215-227 | the most recent entries that fit stay; the others are reported, least recent first |
| LruCache.LruCache.RemoveIf | 3rd/include/hv/LRUCache.h:249-270 | what the predicate keeps stays in order, what it removes is reported in order, and the count is right |
| ObjectPool.StepKeepsInv | 3rd/include/hv/hobjectpool.h:50-126 | every step of every thread, with creation outside the mutex, keeps count, bound and exclusiveness |
| ObjectPool.PoolGuarantees | 3rd/include/hv/hobjectpool.h:50-126 | in every run the count is idle plus lent plus under creation and no object is in two hands; it stays within the maximum exactly if the constructor did |
| ObjectPool.TryBorrowResult | 3rd/include/hv/hobjectpool.h:50-58 | in every run TryBorrow returns nothing exactly if no object is idle, otherwise the first idle one, which is then lent |
| ObjectPool.BorrowResult | 3rd/include/hv/hobjectpool.h:60-92 | in every run Borrow returns the first idle object or the one it created, which is then lent; it returns nothing only if none was idle when it looked and then creation failed, or there was no room and the pool does not wait, or it timed out, or none was idle after the wait |
| ObjectPool.FirstInFirstOut | 3rd/include/hv/hobjectpool.h:53-107 | in every run no object is lent while another is idle that became idle before it |
| ObjectPool.TriesInOrder | 3rd/include/hv/hobjectpool.h:50-58 | repeated calls of TryBorrow hand out the idle objects in order until none is left |
| ObjectPool.ReturnedComesAgain | 3rd/include/hv/hobjectpool.h:94-99 | a returned object is no longer lent and is borrowed again after all that were idle before it |
| ObjectPool.AddedIff | 3rd/include/hv/hobjectpool.h:101-110 | Add takes an object exactly below the maximum, behind all idle ones |
| ObjectPool.RemovedIff | 3rd/include/hv/hobjectpool.h:112-126 | Remove takes out exactly the object if it is idle, keeps the order of the others, and frees its place |
| ObjectPool.BorrowCreates | 3rd/include/hv/hobjectpool.h:60-76 | a pool with room and nothing idle lends what it creates; after a failed creation only the failed call is on record |
| ObjectPool.WaiterIsServed | 3rd/include/hv/hobjectpool.h:78-91 | an exhausted pool passes a returned object on to the borrower that waits |

## Left out

- The event loop, sockets, the length-field unpacker and the reconnect logic: their code is not part of the repository, or decides nothing that could be proved here; agreement is stated for one connection with successful writes, because a reconnect does not replay subscriptions.
- Hash mixing, string-key modes, the default entry, array capacity growth and freeing in stb_ds: the hash is an uninterpreted function, and the dense array is a sequence.
- HashMap.HashMap.Probe: stands for both search loops of the source; a lookup ignores the tombstone it remembers.
- RequestSlots: models shared memory on values, one step at a time; it does not model weak memory, since every shared field but the ticket counter is used under the slot's mutex, and it allows spurious wakeups instead of modelling signals. That requests can always get through is stated as paths of enabled steps, not as liveness under fairness.
- The checks of hnode_request before the ticket (parameters, connection status, its own subscribe call) and the failed write of a subscribe call: early returns without state.
- Agreement: models the node's handler table as the set of its keys; which handler is stored is not modelled.
- ObjectPool: objects come back once from whoever holds them, Add brings unknown objects, and Clear is not a step, since it forgets lent objects.
- RingBuf.RingBuf.Free: is stated for the size of the oldest region, which is how a first-in first-out user calls it.
- LruCache and ObjectPool callbacks that call back into the same object, for_each, and the pointer that the second form of get hands out.
- The arena's reset, varint, base64, path and string helpers, thread pools, logging and timers: easy, or without visible bodies.
