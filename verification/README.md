# A verified model of ultracache

ultracache is an in-memory cache server in the manner of memcached that talks over UDP.
This project models its working parts in Dafny, each in the form the C++ code has, and proves what they do
together: that an arena allocator, item headers threaded through its blocks and byte copies implement a table of
entries; under exactly which conditions that table behaves as a map; that requests survive a lossy network; and
that the queues between threads lose nothing.

`dafny verify dfyconfig.toml` checks everything.

## How the parts fit

1. **Memory to chains.** `Heap` (bump offset, 20 x 128 free lists threaded through block headers), `Hash` (bins and
   next fields) and `Cache` (the operations) are classes that change their fields in place. Every operation of
   `Cache` is proved to be one step of `Engine.Step` on bucket chains of entries, and its effect on block ownership
   is exact: `Leaks()` is the set of live blocks no bucket leads to, and each contract says what it becomes.
2. **Chains to a map.** `Engine` is what the code does, losing entries where the code loses them. `Refinement`
   compares it with a plain map in a client's terms, where expired entries are absent: `RefinesIffExact` gives, for
   all ten operations, the condition under which a call is the map operation, in both directions, and `Shortcomings`
   has runs from a new cache where it is not. `History` has the properties of whole runs that hold even where the map
   does not: no stale hit, no ABA, counters.
3. **Bytes to packets and back.** `Writer`, `Reader`, `Reassembly`, `Demux`, `ByteStream` and `Codec` follow a message
   from the client's write calls to the fields the server decodes.
4. **Threads.** `RingQueue` is the ring with 32-bit cursors; `Monitor` is the queue's lock-and-condition protocol as
   a state machine over every interleaving.
5. **End to end.** `Server` runs the loop: `Serve` ties the requests served to a run of the engine and to the
   packets sent. `Limits` has the sizes and words a run stays within, `Responses` is how a client assembles an answer,
   and `Client` has request ids and the matching of answers to handles. `EndToEnd` puts them together: what a client
   sends is served as that operation, and what its call returns is what the cache's call did.

## How the source is read

- Addresses are natural numbers and 0 is NULL. A heap block is named by its payload address, one 16-byte entry header
  after the entry. An item header has 32 bytes. Headers and next fields are kept beside the bytes as maps from
  address to record; keys and values are the bytes themselves. Multi-byte words are little-endian.
- What memory decides is an `Env` of the step: `served` (the allocator can meet the request), `moved` (the value
  outgrows its block) and `junk` (bytes of a recycled block behind the copied value). The contracts of
  the operations pin the `Env` of a call to what memory held at that moment (`Room`, `Actual`); for an add over an
  expired item, whose block is freed first, that includes the block (`Reclaims`), and the junk is the spare end of the
  old block followed by what the arena held where the new block is (`LeftBehind`).
- `Fault` is a NULL dereference or a write outside the value. That the process is then lost is the model's choice for
  the second case: the code goes on with an item whose key or header it has overwritten.
- The 64-bit CAS counter, the 64-bit allocation count, 16-bit sequence numbers and ids, and 32-bit expirations and
  cursors wrap where the code's do.
- A time `now` is an argument of each call.

## Where the code does not do what it is for

The model follows the code; the lemmas named here state it.

- `add` over an expired item that is not last in its bucket drops every entry behind it and leaks the blocks
  (`LinkLosesTail`, `AddLosesAnEntry`, the contract of `Add`).
- `append` to a value that moves overwrites the old tail and ends in whatever the new block held
  (`MovedAppendIsRightIff`, `AppendLosesAByte`). With more data than old value it writes in front of the
  value (`AppendWritesOutside`).
- `append`, `prepend`, `incr` and `decr` succeed on an expired item as well, where a get misses at the same moment
  (`SuccessIsReadBackIff`, `AppendToExpiredIsLost`); `cas` with its CAS value brings such an item
  back.
- `cas` on a missing key reports success, stores nothing and leaks a block (`CasStoresNothing`, `CasLeaksABlock`).
- `incr` and `decr` leak the old block when the value moves, and the server answers them with the amount it was
  given, where a comment in the client expects the new value (`CountAnswerIsNewValueIff`,
  `CountAnswersTheAmountAndLeaks`).
- `set`, `replace` and `cas` over an item store the expiration as given; only new items have relative ones made absolute
  (`OverwriteExpiresAsAskedIff`, `SetForAMinuteExpiresAtOnce`).
- A value that must move without memory to move to is a NULL dereference (`AppendFaults`).
- A client that refuses a key or value destroys its packet writer with the first packet unsent, and the destructor's
  assertion aborts it (`SendRequest`).
- A packet's payload may take the whole size of the packet, header not counted: a message of more than 1464 bytes runs
  over the end of a packet's buffer, and no other does (`SendRequest`).
- `Client::cas` sends the SET command, so it stores unconditionally, with the halves of the CAS value for expiration
  and flags (`ClientCasIsDecodedAsSet`), and asserts on the answer when the server has no memory (`ClientCasVerdict`).
- A message of 65539 packets or more can be reassembled wrongly (`TooLongMessageIsUnsafe`); up to 65538 it cannot
  (`SafeLengthIff`).
- A response of id zero, which no request of this client asks for, makes `readMulti` count an answered handle again
  (`StrayStopsEarly`).
- `readMulti` expects no id, so packets of several responses enter one reader, which tells them apart by length and
  first sequence number alone (`SpliceCompletesIff`, `MixedResponseIsReceived`).
- `m_cbAllocSize` is the sum of live block sizes minus everything ever handed out beyond the request
  (`AllocSizeIsLiveSumIff`, `AllocSizeDrifts`).
- `PacketReader` does not reset its byte count on a restart, so a message that fits can be refused
  (`RestartedCompletesIff`, `RepeatedFirstPacketFails`).
- A relative expiration is added to a 32-bit clock: a sum of 2^32 never expires, a larger one expires early
  (`NewItemExpires`).
- The ring is sound only for lengths that divide 2^32 (`RingIsSoundIff`); the server's do.

## Model

| member | source | states |
|---|---|---|
| SizeClass.Logh | ultracache/Heap.cpp:33-43 | the shifting loop yields the floor of the base-2 logarithm, and -1 for zero |
| SizeClass.SizeSlot | ultracache/Heap.cpp:70-82 | the list index computed from a size is its size class |
| SizeClass.SlotInRow | ultracache/Heap.cpp:72-82 | for every positive size the computed slot stays below 128 and its bounds enclose the size |
| SizeClass.ClassMonotone | ultracache/Heap.cpp:72-113 | a larger size never has a smaller class, so every fitting block is in a class the search visits |
| SizeClass.ClassBelowLimit | ultracache/Heap.cpp:166-178 | a size below 2^20 has a list |
| SizeClass.SameClassIsClose | ultracache/Heap.cpp:72-113 | two sizes of one class differ by less than 1/128 of the smaller when it is at least 128, and by less than the smaller otherwise |
| Tiling.TilesInOrder | ultracache/Heap.cpp:45-63 | blocks follow each other in address order, one header apart |
| Tiling.BlocksDisjoint | ultracache/Heap.cpp:45-63 | two blocks, headers included, never share a byte |
| Tiling.BlockInArena | ultracache/Heap.cpp:45-63 | every block lies between the start of the arena and the bump offset, at a multiple of eight |
| Tiling.TilesGrow | ultracache/Heap.cpp:51-60 | carving a block keeps the arena exactly tiled |
| Tiling.FreeBlockListedOnce | ultracache/Heap.cpp:91-111 | no free block is in two lists, or twice in one |
| Tiling.ListsAfterPush | ultracache/Heap.cpp:180-181 | after a free, the lists hold exactly the blocks that are not live, each in the list of its class |
| Tiling.ListsAfterTake | ultracache/Heap.cpp:95-104 | the same after a node has been spliced out of its list |
| Tiling.LiveSumGrows | ultracache/Heap.cpp:145-183 | the sum of live sizes grows by the block's own size, not by the request |
| Tiling.BlocksWritten | ultracache/Cache.cpp:169-169 | bytes written inside one live block change that block and no other |
| HeapModel.NewArenaServesIff | ultracache/Heap.cpp:47-55 | a new arena serves a request if and only if a 16-byte header and the request leave at least one byte of it |
| HeapModel.Heap.constructor | ultracache/Heap.cpp:7-20 | an empty arena from the next multiple of eight on: tiled, listed, and accounted |
| HeapModel.Heap.LiveBlock | ultracache/Heap.cpp:45-63 | a block is aligned, inside the arena, and as long as its header says |
| HeapModel.Heap.LiveBlocksDisjoint | ultracache/Heap.cpp:126-147 | live blocks are independent byte ranges |
| HeapModel.Heap.AllocFromBase | ultracache/Heap.cpp:45-63 | fails if and only if the request and its header do not fit strictly below the end; otherwise appends one tile |
| HeapModel.Heap.SearchList | ultracache/Heap.cpp:91-111 | first fit along one list; NULL means no fitting block is of that class |
| HeapModel.Heap.AllocFromFree | ultracache/Heap.cpp:70-117 | NULL if and only if no free block anywhere is large enough; otherwise a fitting block of the lowest class that has one, unlinked |
| HeapModel.Heap.FoundIsNearBest | ultracache/Heap.cpp:86-113 | such a block is nearly the best fit |
| HeapModel.Heap.Alloc | ultracache/Heap.cpp:126-147 | NULL if and only if the request can be met neither by the bump region nor by any free block; otherwise a new live block of at least the aligned size, cut at the bump offset while that fits, nearly best from the lists otherwise; every other block keeps its bytes; m_cbAllocSize stays the 64-bit value of live sizes minus the slack of all reuses so far |
| HeapModel.Heap.AllocSizeIsLiveSumIff | ultracache/Heap.cpp:145-183 | m_cbAllocSize is the sum of the live blocks' sizes, modulo 2^64, if and only if the slack of all reuses is 0 modulo 2^64 |
| HeapModel.Heap.SizeOfAlloc | ultracache/Heap.cpp:156-160 | the length of the block |
| HeapModel.Heap.Free | ultracache/Heap.cpp:162-184 | removes exactly this block from the live ones, keeps the invariant and the slack; afterwards the heap can serve a request if and only if it could before or the block is large enough |
| HeapModel.Heap.Write | ultracache/Hash.cpp:123-133 | copying into a live block changes only the named bytes of that block |
| HeapModel.Heap.Copy | ultracache/Cache.cpp:338-342 | memcpy and memmove: the destination gets the bytes the source held before the call |
| Decimal.TextIsCanonical | ultracache/Cache.cpp:436-447 | every number has a decimal text of digits without a leading zero, other than 0 itself, whose value is the number |
| Decimal.TextInvertsValue | ultracache/Cache.cpp:436-447 | a canonical text is the text of its value, so the text is unique |
| Decimal.ParseIsValueMod64 | ultracache/Cache.cpp:396-426 | on digits only, parsing yields the value modulo 2^64 |
| Decimal.ParseRejects | ultracache/Cache.cpp:420-421 | one byte that is no digit makes the result 0 |
| Decimal.RoundTrip | ultracache/Cache.cpp:396-447 | parsing the text of any 64-bit number gives it back |
| Decimal.CounterFits | ultracache/Cache.cpp:477-478 | the text of a 64-bit number has 1 to 20 bytes |
| Decimal.StringToInteger | ultracache/Cache.cpp:396-426 | the loop computes the parse |
| Decimal.Strreverse | ultracache/Cache.cpp:428-433 | the first n bytes are reversed in place and the others kept |
| Decimal.IntegerToString | ultracache/Cache.cpp:436-447 | the buffer starts with the number's text, whose length is returned, and is unchanged behind it |
| KeyHash.SamePadSameKey | ultracache/Hash.cpp:163-178 | equal lengths and equal padded words if and only if equal keys |
| KeyHash.CalcHash | ultracache/Hash.cpp:180-207 | the loop is the fold over the words, modulo 2^64 |
| KeyHash.HashIsBase31 | ultracache/Hash.cpp:180-203 | the hash is the number that the bytes, word by word from the last byte to the first, stand for to the base 31, modulo 2^64 |
| KeyHash.AlignKey | ultracache/Cache.cpp:34-45 | the buffer starts with the key padded by zeros to a multiple of eight |
| Engine.Find | ultracache/Hash.cpp:233-246 | the first position of the key in a bucket, or the bucket's length |
| Engine.EffectFacts | ultracache/Cache.cpp:119-120 | whatever is stored carries the call's key and the counter's value; only found items are rewritten or removed |
| Engine.StepKeepsWellFormed | ultracache/Cache.cpp:66-480 | every operation, faults and entry-losing paths included, keeps each entry in its key's bucket and each key single |
| Engine.RunKeepsWellFormed | ultracache/Cache.cpp:66-480 | the same for every run |
| Engine.LookupIffHolds | ultracache/Hash.cpp:221-247 | a bucket scan finds an entry if and only if the table holds it |
| Refinement.ViewLookup | ultracache/Hash.cpp:221-247 | the map view and lookup agree key by key |
| Refinement.LookupAfterApply | ultracache/Hash.cpp:249-278 | an effect changes its own key as stated and no other, except that a link loses the keys behind it |
| Refinement.ApplyRefines | ultracache/Hash.cpp:249-278 | a bucket effect that cuts nothing off is the corresponding map update |
| Refinement.LinkLosesTail | ultracache/Cache.cpp:223-243 | a link in the middle of a bucket is never the map update |
| Refinement.MovedAppendIsRightIff | ultracache/Cache.cpp:300-307 | an append that moves yields old ++ data if and only if the old value already ends in the data and the new block holds the data just behind it |
| Refinement.ExpirationKeptIff | ultracache/Cache.cpp:151-152 | an overwrite stores the expiration a new item would get if and only if it is 0, above thirty days, or the clock stands at a multiple of 2^32 |
| Refinement.RefinesIffExact | ultracache/Cache.cpp:66-480 | a call does what a client means by it - expired entries are absent, expirations are the ones asked for - state and reply, if and only if: memory is granted where needed, no expired item is appended to, prepended to, counted or swapped, an overwrite keeps the expiration asked for, append does not move (or is lucky), cas finds an item, and add over an expired item happens at the tail of its bucket |
| Refinement.RunRefinesMap | ultracache/Cache.cpp:66-480 | whole runs of such calls keep table and map in step and give the same replies |
| History.OtherKeys | ultracache/Cache.cpp:66-480 | a call leaves other keys alone, except that add can lose those it cuts off |
| History.TableAgreesWithLastWrite | ultracache/Cache.cpp:134-394 | over every run in which the key is not appended to by way of a bigger block, lost entries included, an entry is what was last written for its key with no delete since |
| History.NoStaleHit | ultracache/Cache.cpp:66-93 | a hit returns the bytes, flags and CAS value of the last write, and the entry is not expired |
| History.GetIs | ultracache/Cache.cpp:66-93 | a get hits exactly the entries that are not expired and tells their value, flags and CAS value |
| History.NewItemExpires | ultracache/Hash.cpp:109-121 | a new item, set or added, is found for ever, for up to thirty days from now, or until a point in time, exactly as its expiration says; the sum with the clock is a 32-bit word |
| History.SucceedsIff | ultracache/Cache.cpp:66-490 | when each of the ten operations reports success |
| History.FailureKeeps | ultracache/Cache.cpp:66-490 | what does not succeed changes no entry, but that get, del, add and replace remove an expired one of their key |
| History.StepKeepsCasOk | ultracache/Cache.cpp:119-120 | before the counter wraps, a write takes a CAS value above all in the table, which stay pairwise different |
| History.RunKeepsCasOk | ultracache/Cache.cpp:500-503 | the same over runs; the counter never goes back |
| History.OldEntryUnchanged | ultracache/Cache.cpp:355-383 | an entry with an old CAS value was the same in every state since that value was current |
| History.CasHasNoAba | ultracache/Cache.cpp:355-383 | if get returned a CAS value and a later cas with it finds an item and succeeds, the key's entry was the same in every state in between |
| History.CountOnce | ultracache/Cache.cpp:465-478 | incr and decr turn the text of v into the text of v plus or minus the amount, modulo 2^64 |
| History.CounterRun | ultracache/Cache.cpp:449-490 | any mix of incr and decr, among gets and refused adds and cas of the key and any calls on other keys that do not cut the counter off, stores the canonical decimal of the running sum modulo 2^64 |
| History.CounterLength | ultracache/Cache.cpp:477-478 | a counter never outgrows its 20 bytes and reads back as itself |
| Table.NodeInOnePlace | ultracache/Hash.cpp:249-278 | bucket chains are acyclic and pairwise disjoint |
| Table.NodeFacts | ultracache/Hash.cpp:157-160 | every reached item is in the bucket of its key, in a live block at least getSize long |
| Table.ItemRewritten | ultracache/Cache.cpp:119-120 | rewriting an item's header and bytes changes that entry and nothing else |
| Table.UnlinkImage | ultracache/Hash.cpp:265-278 | splicing a node out removes that entry and keeps the invariant |
| Table.LinkImage | ultracache/Hash.cpp:249-263 | splicing a node in puts its entry in place and what its own next field leads to behind it |
| Table.SplicedReach | ultracache/Hash.cpp:249-278 | which blocks are reachable after a splice |
| HashModel.Hash.constructor | ultracache/Hash.cpp:210-215 | an empty table |
| HashModel.Hash.CompareKey | ultracache/Hash.cpp:163-178 | true if and only if the stored key is the key asked for |
| HashModel.Hash.Get | ultracache/Hash.cpp:221-247 | the item of the key and its predecessor; for a missing key NULL and the last node of its bucket |
| HashModel.Hash.Link | ultracache/Hash.cpp:249-263 | the bucket becomes its front, the new item, and what the item's next field leads to; other buckets are unchanged |
| HashModel.Hash.Unlink | ultracache/Hash.cpp:265-278 | the bucket loses exactly this node |
| CacheModel.GrownInPlace | ultracache/Cache.cpp:102-120 | a new length and CAS value on the same block keep key, flags, expiration and as much of the value as fits |
| CacheModel.GrownElsewhere | ultracache/Cache.cpp:106-120 | the same after the whole old block has been copied to a larger one |
| CacheModel.SetupLayout | ultracache/Hash.cpp:98-134 | header, key, zero padding and value are laid out so that the item reads back as the entry set up |
| CacheModel.Cache.constructor | ultracache/Cache.cpp:11-18 | an empty cache: one bucket per kilobyte, CAS counter 1, nothing leaked |
| CacheModel.Cache.Locate | ultracache/Cache.cpp:136-143 | aligning, hashing and walking finds the key's position in its bucket, with its predecessor, and changes nothing |
| CacheModel.Cache.GetNextCas | ultracache/Cache.cpp:500-503 | returns the counter and advances it modulo 2^64 |
| CacheModel.Cache.AllocItem | ultracache/Cache.cpp:26-32 | NULL if and only if the heap cannot serve header, padded key and value; otherwise one new block that no bucket leads to |
| CacheModel.Cache.FreeItem | ultracache/Heap.cpp:162-184 | freeing a block no bucket leads to changes no entry |
| CacheModel.Cache.Setup | ultracache/Hash.cpp:98-134 | a fresh block becomes an item that reads back as the new entry, expiration up to thirty days made absolute, with no successor |
| CacheModel.Cache.CopyItem | ultracache/Cache.cpp:108-120 | the copy holds the old key, flags, expiration and value under the new length and CAS value, with the old successor; no bucket sees it |
| CacheModel.Cache.Substitute | ultracache/Cache.cpp:127-128 | unlink and link leave the same chains with one node exchanged for another |
| CacheModel.Cache.Relocate | ultracache/Cache.cpp:106-128 | the moving branch: NULL if and only if the heap cannot serve the request; otherwise the old block is copied to the front of the new one, whose later bytes are what the arena held there, and the node is exchanged |
| CacheModel.Cache.GrowAndReplace | ultracache/Cache.cpp:95-131 | NULL if and only if the value outgrows its block and the heap cannot serve it; moves if and only if it outgrows; then the entry has the new length and CAS value and keeps everything else, and every other entry is unchanged |
| CacheModel.Cache.StoreOver | ultracache/Cache.cpp:148-176 | storing over an item replaces value, flags, expiration and CAS value of that entry only, and frees the old block if it moved |
| CacheModel.Cache.InsertNew | ultracache/Cache.cpp:157-166 | a new item at the end of its bucket, in a block cut at the bump offset while that fits |
| CacheModel.Cache.InsertInGap | ultracache/Cache.cpp:232-243 | after an expired item was removed, linking at its predecessor cuts off and leaks exactly what stood behind it |
| CacheModel.Cache.NewUnlinked | ultracache/Cache.cpp:157-165 | NULL if and only if the heap cannot serve the item; otherwise the new item is complete and no bucket leads to it |
| CacheModel.Cache.LinkNew | ultracache/Hash.cpp:249-263 | ends the bucket with the new item, leaking what stood at its place and behind |
| CacheModel.Cache.RemoveItem | ultracache/Cache.cpp:206-207 | unlink and free remove one entry and one block |
| CacheModel.Cache.ProcessExpiration | ultracache/Cache.cpp:47-64 | removes the item if and only if its expiration is set and lies before now |
| CacheModel.Cache.Set | ultracache/Cache.cpp:134-180 | is the engine's set step on the stored chains, in the memory at hand; leaks nothing |
| CacheModel.Cache.Get | ultracache/Cache.cpp:66-93 | is the engine's get step: the stored bytes, flags and CAS value, or a miss that removes an expired item; leaks nothing |
| CacheModel.Cache.Del | ultracache/Cache.cpp:182-209 | is the engine's del step; leaks nothing |
| CacheModel.Cache.Add | ultracache/Cache.cpp:211-246 | is the engine's add step; it succeeds if and only if the key is absent or expired and the heap, with the expired item's block back, can serve it; leaks exactly the blocks behind a re-added expired item |
| CacheModel.Cache.Replace | ultracache/Cache.cpp:248-282 | is the engine's replace step; leaks nothing |
| CacheModel.Cache.Append | ultracache/Cache.cpp:284-316 | is the engine's append step, including what it does wrong when the value moves: the bytes it then ends in are those of the old block and of the place the new one was cut or taken from; leaks nothing |
| CacheModel.Cache.AppendBytes | ultracache/Cache.cpp:302-307 | in place the value becomes old ++ data; moved, the data overwrites the old tail |
| CacheModel.Cache.FinishAppend | ultracache/Cache.cpp:302-312 | the same, with the old block freed after a move |
| CacheModel.Cache.BehindIff | ultracache/Cache.cpp:223-243 | an item's followers in its bucket are not leaked, and there are none exactly when it is the tail |
| CacheModel.Cache.Prepend | ultracache/Cache.cpp:318-353 | is the engine's prepend step; leaks nothing |
| CacheModel.Cache.PrependBytes | ultracache/Cache.cpp:336-345 | the value becomes data ++ old in both the overlapping and the moving branch |
| CacheModel.Cache.Cas | ultracache/Cache.cpp:355-394 | is the engine's cas step; on a missing key it leaks exactly one block |
| CacheModel.Cache.IncrementDecrement | ultracache/Cache.cpp:449-490 | is the engine's incr or decr step; leaks the old block if and only if the value moved |
| WriterModel.PacketWriter.constructor | ultracache/PacketWriter.cpp:6-20 | one empty first packet |
| WriterModel.PacketWriter.PreparePacket | ultracache/PacketWriter.cpp:42-86 | one more packet with the next 16-bit sequence number; no written byte is lost |
| WriterModel.PacketWriter.EnsureSmallSpace | ultracache/PacketWriter.cpp:31-39 | room for a small integer, and the same bytes written |
| WriterModel.PacketWriter.WriteBytes | ultracache/PacketWriter.cpp:89-113 | the bytes written so far are extended by exactly the data, however it is cut |
| WriterModel.PacketWriter.WriteInt | ultracache/PacketWriter.cpp:115-137 | an integer is appended little-endian |
| WriterModel.PacketWriter.Send | ultracache/PacketWriter.cpp:140-162 | what is sent carries exactly the bytes written and, below 2^20 packets, is a well-framed message with its count in the first packet; eight bytes of room stay free in every packet if and only if the whole message would leave them free in one |
| WriterModel.PacketWriter.Destroy | ultracache/PacketWriter.cpp:24-28 | the assertion holds if and only if nothing is left unsent |
| ReaderModel.PacketReader.constructor | ultracache/PacketReader.cpp:6-12 | a new reader |
| ReaderModel.PacketReader.PutPacket | ultracache/PacketReader.cpp:26-120 | the method computes the put function on the reader's fields |
| ReaderModel.PacketReader.CopyToBuffer | ultracache/PacketReader.cpp:143-171 | -1 if and only if the held payload exceeds the buffer; otherwise the buffer starts with the concatenated payloads and the list is empty |
| ReaderModel.PutOutcome | ultracache/PacketReader.cpp:83-119 | for packets from anywhere: COMPLETE only on a chain of consecutive sequence numbers from a first to a last packet, as long as announced, that fits the request buffer; m_cbSize grows by exactly the payload put |
| ReaderModel.CountsAllDelivered | ultracache/PacketReader.cpp:94-94 | as long as the reader stays open, m_cbSize is exactly the payload of everything delivered, restarts or not |
| ReaderModel.WholeLength | ultracache/PacketReader.cpp:102-109 | a complete message has exactly the announced number of packets |
| ReaderModel.FedIsOpen | ultracache/PacketReader.cpp:26-120 | the reader's invariant over every delivery |
| ReaderModel.HeldSinceLatestFirst | ultracache/PacketReader.cpp:30-46 | the held list is the part of the delivery since its latest first packet |
| Reassembly.DeliverOne | ultracache/PacketReader.cpp:26-120 | fed from one message, the reader goes from prefix to prefix, starts over, gives up, or has the message |
| Reassembly.HostileDelivery | ultracache/PacketReader.cpp:26-171 | whatever is dropped, repeated or reordered, COMPLETE means exactly the message, for messages of up to 65538 packets |
| Reassembly.CompletedIsTheMessage | ultracache/PacketReader.cpp:26-135 | a completed reader holds the message and tells the id, command and flag of its first packet |
| Reassembly.LosslessHeader | ultracache/PacketReader.cpp:49-81 | after a lossless delivery the reader knows the message's id, command and flag |
| Reassembly.RestartedCompletesIff | ultracache/PacketReader.cpp:30-99 | a message delivered whole and in order behind packets that left the reader open completes if and only if it fits the buffer together with everything delivered before |
| Reassembly.RepeatedFirstPacketFails | ultracache/PacketReader.cpp:30-99 | 716 full packets complete; with the first one delivered twice they are refused |
| Reassembly.TooLongMessageIsUnsafe | ultracache/PacketReader.cpp:73-79 | for every length above 65538 that the header can announce there is a message and a delivery of its packets that completes with a wrong body |
| Reassembly.SafeLengthIff | ultracache/PacketReader.cpp:26-120 | every completed delivery of every n-packet message has the message's body if and only if n is at most 65538 |
| Reassembly.PlausibleIsTaken | ultracache/PacketReader.cpp:94-119 | any well-framed delivery within the size limit is taken packet by packet and completed |
| Reassembly.LosslessDelivery | ultracache/PacketReader.cpp:26-120 | without loss and in order, a message within the size limit gives NEXTPACKET until a final COMPLETE |
| Demux.NodeIdInjective | ultracache/Server.cpp:403-407 | node ids are equal if and only if address, port and request id are |
| Demux.RxThread.Receive | ultracache/Server.cpp:403-451 | the node id is made of address, port and request id; one packet moves its own node's reader and posts as a lone reader would, and leaves every other node alone |
| Demux.RxLoop | ultracache/Server.cpp:369-456 | for any interleaving, what is posted and kept for each address, port and request id is what a lone reader makes of that stream's packets |
| Demux.FromIsSent | ultracache/Server.cpp:403-407 | the packets sorted under a node id are those of its address, port and request id |
| Demux.LoneIsFed | ultracache/Server.cpp:412-451 | a node without a reader gets a fresh one |
| Demux.WholeMessageIsPosted | ultracache/Server.cpp:436-442 | a message that arrives whole and in order at a node without a reader is posted exactly once, with its packets, id, command and flag, and the reader is gone |
| Demux.StrayLeavesNoTrace | ultracache/Server.cpp:445-450 | a packet that begins nothing leaves a node without a reader as it was |
| Demux.GapForgets | ultracache/Server.cpp:445-450 | a gap in the sequence posts nothing and deletes the reader |
| Demux.FailureForgets | ultracache/Server.cpp:445-450 | so does any other failure |
| Demux.MessagesArePosted | ultracache/Server.cpp:369-456 | messages sent one after the other are all posted, in this order |
| Demux.RxLoopOnMessages | ultracache/Server.cpp:369-456 | the same through the receive loop, whatever arrives in between from others |
| Demux.PostsAreTheMessage | ultracache/Server.cpp:429-451 | if all a node's packets belong to one message, every request posted for it is that message |
| ByteStreamModel.LittleEndianRoundTrip | ultracache/ByteStream.cpp:44-66 | reading back n little-endian bytes gives the number written |
| ByteStreamModel.ByteStream.constructor | ultracache/ByteStream.cpp:5-10 | the stream covers the first cbBuffer bytes |
| ByteStreamModel.ByteStream.Read | ultracache/ByteStream.cpp:19-30 | raises the exception if and only if too few bytes are left, and then consumes nothing; otherwise returns and consumes exactly the next bytes |
| ByteStreamModel.ByteStream.ReadInt | ultracache/ByteStream.cpp:32-66 | the same for integers of 1, 4 and 8 bytes |
| ByteStreamModel.ByteStream.Write | ultracache/ByteStream.cpp:68-111 | refuses if and only if the data does not fit; otherwise stores it at the cursor and touches nothing past the end |
| Codec.RequestRoundTrip | ultracache/Server.cpp:125-305 | decoding an encoded request of any kind recovers every field and leaves exactly the bytes that follow it |
| Codec.DecodeExtends | ultracache/Server.cpp:125-305 | decoding depends on the bytes it consumes alone |
| Codec.TruncatedRequestIsRejected | ultracache/ByteStream.cpp:19-66 | every proper prefix of a request raises the exception |
| Codec.ClientCasIsDecodedAsSet | ultracache/Client.cpp:622-642 | what Client::cas sends is decoded as a set whose expiration and flags are the halves of the CAS value |
| Codec.FoundRoundTrip | ultracache/Client.cpp:984-991 | the client's reads recover key, flags, CAS value and value of a GET response |
| Codec.TruncatedFoundIsRejected | ultracache/Client.cpp:984-991 | every proper prefix of a GET response raises the exception |
| Codec.WriteRequest | ultracache/Client.cpp:218-237 | refuses exactly over-long keys and values, writing nothing; otherwise writes the request's encoding |
| Codec.SendRequest | ultracache/Client.cpp:218-238 | the client aborts if and only if the key or value is refused; otherwise the packets sent are a message of at most 716 packets with the request's encoding, and all of them fit their buffers if and only if the encoding has at most 1464 bytes; the server decodes them to the operation, or for cas to a set |
| Codec.SendableIff | ultracache/Client.cpp:220-230 | what a client can send: keys up to 255 bytes, values up to 2^20 - 1 bytes, machine words |
| Codec.RequestFormat | ultracache/Client.cpp:232-237 | requests byte by byte, in the order of the protocol |
| Codec.ResponseFormat | ultracache/Server.cpp:317-323 | a GET response byte by byte |
| Codec.EncodingLength | ultracache/Client.cpp:218-238 | what is not refused fits the server's request buffer |
| Codec.ReadRequest | ultracache/Server.cpp:123-305 | the field-by-field reads compute the decoder, exception cases included |
| Codec.WriteFound | ultracache/Server.cpp:317-323 | writes the encoding of the response |
| Codec.ReadFound | ultracache/Client.cpp:984-991 | the reads compute the response decoder, exception cases included |
| RingQueue.SlotsDistinct | ultracache/JQueue.h:22-92 | different items have different slots, also where the cursor wraps |
| RingQueue.RingIsSoundIff | ultracache/JQueue.h:22-92 | items keep different slots for all cursor values if and only if the length divides 2^32 |
| RingQueue.LastSlotCollides | ultracache/JQueue.h:54-56 | for any other length, two items collide in one slot at the wrap |
| RingQueue.JQueue.constructor | ultracache/JQueue.h:99-110 | an empty ring of any 32-bit length, which is sound if the length divides 2^32 |
| RingQueue.JQueue.PushEnd | ultracache/JQueue.h:22-33 | refuses if and only if full; otherwise appends the item at the end |
| RingQueue.JQueue.PushBegin | ultracache/JQueue.h:46-59 | refuses if and only if full; otherwise puts the item in front, also from cursor 0 to 2^32 - 1 |
| RingQueue.JQueue.PopBegin | ultracache/JQueue.h:61-76 | refuses if and only if empty; otherwise removes and returns the first item |
| RingQueue.JQueue.PopEnd | ultracache/JQueue.h:79-92 | refuses if and only if empty; otherwise removes and returns the last item |
| RingQueue.ServerQueueLength | ultracache/Server.cpp:17-18 | the length the server's queues are made with divides 2^32 |
| Monitor.InitInv | ultracache/JThreadQueue.h:20-25 | the invariant holds at the start, for any number of threads and any capacity |
| Monitor.KeepsOneHolder | ultracache/JThreadQueue.h:57-114 | at most one thread holds the lock, and exactly where the code holds it |
| Monitor.KeepsFifo | ultracache/JThreadQueue.h:57-114 | posted items are the popped ones followed by the queued ones, oldest first |
| Monitor.KeepsReturned | ultracache/JThreadQueue.h:57-98 | each popped item is returned by the call that popped it, once and in order |
| Monitor.KeepsNoLostWakeup | ultracache/JThreadQueue.h:57-114 | while some thread sleeps, every queued item has a thread woken, or about to be woken, for it |
| Monitor.RunKeepsInv | ultracache/JThreadQueue.h:57-114 | all four over every interleaving, spurious wakeups included |
| Monitor.SomeoneIsComing | ultracache/JThreadQueue.h:72-79 | with the lock free, an item queued and a sleeper, some thread has been woken and is about to pop |
| Monitor.WorkIsFinite | ultracache/JThreadQueue.h:57-114 | every move of a thread inside a call brings the system closer to rest |
| Monitor.RunsComeToRest | ultracache/JThreadQueue.h:57-114 | a run makes at most ten moves per call and spurious wakeup: retrying consumers cannot spin for ever |
| Monitor.NeverStuck | ultracache/JThreadQueue.h:57-114 | some thread can move if and only if some call is neither finished nor asleep: no deadlock |
| Monitor.AtRestAllIsDelivered | ultracache/JThreadQueue.h:57-114 | once everything has come to rest with a sleeper left, every item posted has been popped and returned |
| Monitor.RunsDeliver | ultracache/JThreadQueue.h:57-114 | all of this for every run from an empty queue: delivery in posting order, nothing left behind sleeping consumers |
| Monitor.LockMove | ultracache/JThreadQueue.h:57-114 | a thread takes the lock only when it is free, and gives up only its own |
| Monitor.RefuseMove | ultracache/JThreadQueue.h:104-113 | a full queue takes nothing and fails the post; any other takes the item |
| Monitor.CarryMove | ultracache/JThreadQueue.h:100-114 | an item is handed over, carried, and then posted or refused, one step at a time |
| Monitor.ItemsAccountedFor | ultracache/JThreadQueue.h:100-114 | over every run, every item handed to PostItem is still carried, or posted, or was refused by a full queue |
| Monitor.OnlyFullQueuesRefuse | ultracache/JThreadQueue.h:113-113 | as long as no post finds the queue full, no assertion fails |
| Monitor.EveryItemIsReturned | ultracache/JThreadQueue.h:57-114 | from an empty queue, through any interleaving in which no post finds it full: once the run is at rest with a thread asleep, every item has been returned exactly as often as it was handed over |
| Monitor.CallsBegin | ultracache/JThreadQueue.h:57-114 | a call begins as what it is |
| Monitor.WaitTakesOldest | ultracache/JThreadQueue.h:57-85 | WaitForItem goes on until it has the oldest item |
| Monitor.PollTakesOldest | ultracache/JThreadQueue.h:87-98 | PollForItem takes the oldest item, and misses if and only if there is none; it never waits for one |
| ClientModel.Rids.GetNextRid | ultracache/Client.cpp:30-40 | the method advances the 16-bit id and skips zero |
| ClientModel.RidsRepeatIff | ultracache/Client.cpp:30-40 | ids are never zero, and two requests share one if and only if a multiple of 65535 requests lies between them |
| ClientModel.HandlesDistinctIff | ultracache/Client.cpp:836-867 | the handles of n consecutive getMulti calls are distinct if and only if n is at most 65535 |
| ClientModel.ReadMulti | ultracache/Client.cpp:869-929 | takes the next response, whatever its id, attributes it to the first handle with its id, zeroes that handle and counts it; foreign responses change nothing |
| ClientModel.AnswerIsRead | ultracache/Client.cpp:886-929 | the answer to request i is told as that request's, with what it carries or as missing, and request i alone is done |
| ClientModel.ForeignAnswerIsIgnored | ultracache/Client.cpp:886-902 | an answer to none of the requests changes nothing |
| ClientModel.StruckIff | ultracache/Client.cpp:869-902 | as long as readMulti goes on, a handle is zeroed if and only if its answer has come, and the offset counts the zeroed handles and the responses of id zero taken for one of them |
| ClientModel.StopsWhenAllAnswered | ultracache/Client.cpp:871-902 | every handle has been answered if and only if the offset has reached the number of handles without such strays |
| ClientModel.NoStrays | ultracache/Client.cpp:886-902 | without responses of id zero there are none |
| ClientModel.StrayStopsEarly | ultracache/Client.cpp:886-902 | two handles, the first one's answer and a response of id zero: readMulti stops with the second handle unanswered |
| ResponseModel.ReadResponse | ultracache/Client.cpp:148-191 | a response comes of the packets as described by ReceivedIff; any error is none |
| ResponseModel.ReceivedIff | ultracache/Client.cpp:88-191 | a response is received if and only if the reader completes, every packet up to then carrying the expected id if there is one |
| ResponseModel.WholeResponseIsReceived | ultracache/Client.cpp:148-191 | a response that arrives whole and in order is received, with its id, command and body, if its id is the expected one or none is |
| ResponseModel.ForeignIsRefused | ultracache/Client.cpp:135-139 | a packet of another request ends the wait for an expected one |
| ResponseModel.ExpectedResponseIsTheMessage | ultracache/Client.cpp:135-139 | with an expected id whose packets all come from one message, a response received is that message |
| ResponseModel.SpliceCompletesIff | ultracache/Client.cpp:879-879 | without one, the first packets of one response and the rest of another complete if and only if the two have the same number of packets and the same first sequence number |
| ResponseModel.MixedResponseIsReceived | ultracache/Client.cpp:879-879 | two responses of two packets each are received as one that nobody sent |
| ServerModel.ReadOperation | ultracache/Server.cpp:91-105 | copying the request into the server's buffer and decoding it yields what the body asks for, or nothing if it is too long or malformed |
| ServerModel.AddTidyIff | ultracache/Cache.cpp:211-246 | which adds leak: those that succeed on a key that is not at the tail of its bucket |
| ServerModel.Perform | ultracache/Server.cpp:123-309 | each command makes its own call of the cache, which is one engine step in the environment memory really provides; leaked blocks stay leaked, and a call leaks if and only if it is an add over an expired item not at its bucket's tail, a cas of a missing key, or a count that moves the value |
| ServerModel.Respond | ultracache/Server.cpp:135-337 | a response exists if and only if the request is synchronous or a get, with the command and body of the reply |
| ServerModel.CountAnswerIsNewValueIff | ultracache/Server.cpp:239-264 | the answer to a count carries the amount, which is the new value if and only if the counter stood at 0 before incr, or at twice the amount, modulo 2^64, before decr |
| ServerModel.Handle | ultracache/Server.cpp:91-367 | one request from reader to sent packets: a malformed one changes nothing and is not answered |
| ServerModel.Serve | ultracache/Server.cpp:530-547 | unless the process is lost, the cache has gone through a run of exactly the calls the well-formed requests ask for, in order, each in the environment its memory provides; each request was sent the answer of its own call; blocks have leaked if and only if some call leaks; a lost process was lost by a call that faults |
| ServerModel.RequestsInRangeAreServiceable | ultracache/Server.cpp:125-249 | if each key's values stay within one item - writes taking the longer of old and new, appends and prepends adding up - no decision of memory takes a request out of range |
| EndToEnd.DeliveredRequestIsTheOperation | ultracache/Server.cpp:91-120 | the packets a client sends for an operation, once a hostile network has let them COMPLETE, are served as that operation, cas as a set |
| EndToEnd.SentRequestIsPosted | ultracache/Server.cpp:429-442 | delivered whole and in order, they are posted once, as that operation |
| EndToEnd.VerdictIsSuccess | ultracache/Client.cpp:255-264 | the command of each answer makes the client's call return whether the cache's call succeeded |
| EndToEnd.ServedIsAnswered | ultracache/Server.cpp:135-337 | every synchronous request and every get whose call does not fault is answered, to its own id, with such a command |
| EndToEnd.AsyncIsNotAnswered | ultracache/Server.cpp:135-139 | asynchronous requests other than get are not answered |
| EndToEnd.DeletedTellsTheExpiration | ultracache/Server.cpp:273-281 | the answer to a del that succeeded carries the expiration of the entry that is gone |
| EndToEnd.GetAnswerReachesTheCaller | ultracache/Client.cpp:869-929 | readMulti tells the caller of request i the last write served for its key, or that it is missing |
| EndToEnd.ClientCasVerdict | ultracache/Client.cpp:660-667 | Client::cas reads the answer to a set: true if it was stored, an assertion without memory |
| ServerModel.ServedGetIsTheLastWrite | ultracache/Server.cpp:299-337 | what the client decodes from a GET answer is the last write served for the key, with no delete since, if the appends to the key found room in place; otherwise the answer is NOT_FOUND with the key |
| Limits.DecodedWordsFit | ultracache/ByteStream.cpp:44-66 | whatever bytes arrive, the fields decoded are machine words |
| Limits.StepKeepsFit | ultracache/Cache.cpp:66-480 | a call within the limits keeps keys, values, flags, CAS values and expirations within their words |
| Limits.RunKeepsFit | ultracache/Cache.cpp:66-480 | the same over every run, so every hit can be told in a response |
| Limits.StepLengthens | ultracache/Cache.cpp:66-480 | a write leaves the longer of the old and the new value at most, an append or prepend the sum, a count the longer of the old value and 20 bytes; no call lengthens another key's value |
| Shortcomings.AppendLosesAByte | ultracache/Cache.cpp:300-307 | on a new cache, eight bytes set and one appended are read back with the eighth byte gone |
| Shortcomings.AddLosesAnotherKey | ultracache/Cache.cpp:223-243 | in a table of any size, a run of set, set and add over the expired first key loses the second key, which never expires |
| Shortcomings.AddLosesAnEntry | ultracache/Cache.cpp:223-243 | the same through the cache: all three calls succeed and the second key is gone |
| Shortcomings.CasStoresNothing | ultracache/Cache.cpp:385-393 | cas on a missing key reports success and the key is still missing |
| Shortcomings.SuccessIsReadBackIff | ultracache/Cache.cpp:284-353 | a successful append, prepend, incr or decr is found by a get at the same moment if and only if the item was not expired |
| Shortcomings.OverwriteExpires | ultracache/Cache.cpp:148-152 | what set, replace or cas put over an item is found until the given expiration, read as a point in time |
| Shortcomings.OverwriteExpiresAsAskedIff | ultracache/Cache.cpp:148-152 | at every moment a get finds it exactly when it would find a new item with that expiration, if and only if the expiration is 0, above thirty days, or the clock stands at a multiple of 2^32 |
| Shortcomings.SetForAMinuteExpiresAtOnce | ultracache/Cache.cpp:148-152 | on a new cache, a key set again for a minute is gone at the same moment |
| Shortcomings.AppendToExpiredIsLost | ultracache/Cache.cpp:284-316 | on a new cache, an append to an expired item succeeds and a get at the same moment misses |
| Shortcomings.AppendWritesOutside | ultracache/Cache.cpp:302-307 | on a new cache, nine bytes appended to eight would be written in front of the value |
| Shortcomings.AppendFaults | ultracache/Cache.cpp:110-114 | two sets that fill the arena, and an append that has to move: NULL is dereferenced |
| Shortcomings.CountAnswersTheAmountAndLeaks | ultracache/Server.cpp:239-243 | a counter set to 5 and incremented by 1 holds 6, is answered with 1, and a block has leaked |
| Shortcomings.CasLeaksABlock | ultracache/Cache.cpp:385-393 | cas on a new cache succeeds, stores nothing and leaks a block |
| Shortcomings.AllocSizeDrifts | ultracache/Heap.cpp:145-183 | 64 bytes allocated, freed and handed out for 40: the allocation count is no longer the sum of live blocks |

## Left out

- Sockets, polling, thread creation, argument parsing and shutdown: operating system calls.
- The lock, condition variable and thread primitives themselves: they are atomic moves of the monitor's state machine.
- Several receiving threads at work on one request: the map and the readers are used outside the lock there; one receiving thread is modelled.
- StopQueue and StartQueue: nothing calls them. WaitForItem with a lock already held by the caller: nothing uses it.
- JAllocator and the memory of packets, requests and responses: packets are values, requests and responses garbage-collected objects.
- Hash::set and Hash::remove: nothing calls them.
- The version command: its response is built and never posted. Functions that do nothing (unlinkEntry, allocByCompact, appendValue, release), dumpMem, benchmarks and build files.
- The memory allocated for the arena: with a base that is not aligned, the arena would end up to seven bytes past it.
- Exactly-once execution of requests: the protocol does not suppress duplicates.
- HeapModel.Heap.Free: takes blocks below 2^20 bytes only, which is the code's own assertion; items are kept below that size by the preconditions of the cache's operations, which also keeps value lengths within their 20 bits.
- WriterModel.PacketWriter.constructor: takes the payload capacity as a parameter of at least 8 bytes, for which SendRequest puts the size of the whole packet as the code does; bytes that run over a packet's buffer are kept as payload, where the code overwrites what follows the buffer.
- ReaderModel.PacketReader.constructor: gives starting values to fields that the code leaves unset until the first packet.
- Codec.WriteRequest: leaves the refused writer to SendRequest; for cas it writes what the server reads under the CAS command; what Client::cas really sends is covered by ClientCasIsDecodedAsSet alone.
- CacheModel.Cache.Append: says nothing of memory after a fault, where the code goes on with an item that it has damaged if the fault was a write in front of the value.
- CacheModel.Cache.Set: the second, identical copy of the value into a new item is not repeated.
- ServerModel.Serve: stops at a fault, and asks that the requests' sizes stay in range whatever memory decides, for which RequestsInRangeAreServiceable gives a condition on the requests alone; the unset expiration answered for a missing key is an argument.
- ServerModel.Handle: sends the response at once instead of passing it through the second queue.
- RingQueue.JQueue.constructor: promises a valid ring only for lengths that divide 2^32; for the others RingIsSoundIff shows that items collide.
- Monitor.RunsComeToRest: fairness is not modelled; the statement bounds moves, not time.
