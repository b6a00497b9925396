# Verified models of the node's core data structures

This project models the self-contained cores of the node in Dafny and proves what each of them is relied upon for:
the address manager, the layered coin cache, the parallel check queue, the cuckoo cache, 256-bit arithmetic and the
compact difficulty format, the block index with the active chain, and the Bech32, Base58, coin and Bloom formats.
`dafny verify dfyconfig.toml` checks everything.

Every component comes in the same two parts. First its behaviour on values: what each operation does, the invariant
it keeps, and theorems about whole runs or about all inputs. Then, where the source works in place, the operations as
methods over arrays, maps and counters, each proved equal to its value-level counterpart. Hashes, random numbers,
clocks and the database are parameters.

| files | component |
|---|---|
| `AddrBook`, `AddrEffects`, `AddrDisk`, `AddrReload`, `AddrMan` | address manager: invariant of every run, the exact effect of each call, saving and loading, re-bucketing, the object itself |
| `TxCoins`, `CoinsStack`, `AnchorStack`, `ProofHashes`, `CoinsCache` | write-back caches against flat maps, and the cache object with all of them |
| `CheckQueue` | master and workers under every interleaving |
| `Cuckoo`, `CuckooAges`, `CuckooCache`, `PackedBits` | cuckoo cache, how long its elements live, and its packed flags |
| `Limbs`, `ArithUint`, `Compact` | 256-bit integers, compact format |
| `SkipHeights`, `Chain` | skip list and the length of its walks, active chain, locators |
| `BitXor`, `Checksum`, `Bech32`, `Bech32Exact` | Bech32 checksum and strings, and which strings are accepted |
| `Field1024`, `Roots`, `Bch`, `Bech32Errors` | why the Bech32 checksum detects three errors: roots of its generator in the field of 1024 elements |
| `Radix`, `Base58` | Base58 and Base58Check |
| `VarInt`, `Amounts`, `Compressor`, `CoinsCodec` | coin records on disk |
| `Bloom`, `BloomFilter` | Bloom filter and rolling filter |
| `Published` | the formulas and examples that comments and unit tests give for these formats |
| `Basics` | types shared by all of them |

## What the proofs brought to light

- `x *= x` yields zero for every x, because the operand is cleared before it is read; `x * x` copies first and is
  exact (`MulAssign`).
- `BatchWrite` copies a best hash up even if the child never resolved it, so a parent's own best anchor can be lost;
  `FlushBest` gives the exact condition and `FlushBestFails` a case two caches reach by ordinary calls.
- `SetZkProofHashes` does not read the base first; `SetProofExact` says exactly when the set is right, and
  `DuplicateForgotten` shows a duplicate going unnoticed.
- The comment in the cuckoo cache's `insert` says that the first kick goes to the first slot; the code takes the second.
  The model follows the code. Its 45% epoch holds exactly while 45 times the size fits 32 bits (`EpochSizeExact`), and
  the packed flags cover the table exactly for sizes up to 2^32 - 8 (`FlagsCover`); at the documented limit 2^32 - 2 both fail
  (`DocumentedSizeFails`).
- The amount compression computes in 64 bits and overflows: 2049638230412172403 units are stored as 5 and read back as
  10000 (`AmountLost`, `OutputLost`). `AmountRoundTrip` proves that exactly the multiples of ten and the amounts up to
  2049638230412172402 come back. Asset chains may have a supply above that (src/komodo_utils.cpp:1152).
- A negative number does not survive VARINT (`RoundTripExact`), a number that overflows its type reads as another one,
  so that there are second encodings (`EncodingUnique`, `SecondEncoding`), and a script above 10000 bytes comes back as
  a single OP_RETURN (`ScriptRoundTrip`). `CompressedRoundTrip` says exactly which coin records come back.
- Two rows of the table in the comment on VARINT are misprinted: 16511 takes two bytes, as the text above the table says, and
  65535 is written 82 FE 7F (`MisprintedIntegers`). All other rows and the formula agree with the code (`WriteDenotes`).
- The comment on skip heights reports at most 110 steps over 2^18 blocks in simulations; this holds for every pair of
  heights (`SimulatedBound`), and in general the number of steps is quadratic in the number of binary digits.
- After `UpdateEmptyFull`, a Bloom filter without hash functions whose bits are all clear answers differently from
  its bits (`UpdateExact`, `UpdateDiffers`).
- The rolling Bloom filter remembers at least the last N and at most the last 2N - 1 keys; `ReportedExact` says which keys
  it reports, at every moment.
- A saved address list that names one address twice is read without complaint. If one of the two entries outlives the
  pruning, the indexes are left inconsistent (`DuplicateMisindexed`); `LoadIndexedExact` and `LoadExact` say of every
  stream whether the manager it leaves is consistent.
- Popping to an anchor that is not in view leaves a best anchor that is nowhere; `PopKeeps` says exactly when.
- Bech32 here accepts up to 1023 characters, where BIP 173 stops at 90. That is also the reach of its checksum: up to
  three wrong characters behind the separator are detected wherever they stand there (`MistypedRejected`).

## Model

| member | source | states |
|---|---|---|
| AddrBook.RunKeeps | src/addrman.cpp:122-371 | after every step of every run from a cleared manager all conditions of `Check_` hold: the three indexes are mutually inverse, reference counts are slot counts in 1..8, each tried entry fills exactly its slot, the counters are right |
| AddrBook.StepKeeps | src/addrman.cpp:305-390 | each single operation keeps the invariant, given non-negative times and a positive time for Good |
| AddrBook.GoodKeeps | src/addrman.cpp:256-303 | Good keeps the invariant |
| AddrBook.GoodContents | src/addrman.cpp:256-303 | Good marks its entry and moves it to tried, sends the evicted entry back to new, and loses at most the one entry displaced there; all others keep their data and table |
| AddrBook.GoodFindsBucket | src/addrman.cpp:280-297 | an untried entry sits in some new bucket at the position that bucket gives it, so the "something bad happened" exit is dead |
| AddrBook.MakeTriedKeeps | src/addrman.cpp:203-254 | MakeTried keeps the invariant |
| AddrBook.MakeTriedContents | src/addrman.cpp:203-254 | nobody is lost but the one displaced entry, and only the entry and the evicted one change tables |
| AddrBook.ClearNewKeeps | src/addrman.cpp:182-201 | the slot is freed, its holder loses one reference and is deleted with the last one |
| AddrBook.DemoteKeeps | src/addrman.cpp:222-248 | an evicted tried entry re-enters the new table without breaking the invariant |
| AddrBook.AddKeeps | src/addrman.cpp:305-371 | Add keeps the invariant |
| AddrBook.AddContents | src/addrman.cpp:305-371 | Add forgets at most one entry, and only a terrible one with a single reference; it reports success exactly if a slot was taken |
| AddrEffects.TerribleExact | src/addrman.cpp:54-75 | when exactly an entry is terrible, in seconds and counts |
| AddrEffects.AddFresh | src/addrman.cpp:305-371 | an unknown routable address is stored exactly if its slot is free, or its holder is terrible or has another reference; then the slot refers to the new entry, which has the given service, services and source and the penalised time, and the former holder has one reference less or is gone; otherwise nothing changes but the id counter |
| AddrEffects.AddUnroutable | src/addrman.cpp:307-308 | an address that cannot be routed changes nothing |
| AddrEffects.AddKnown | src/addrman.cpp:313-371 | a known address gets the services and, if it is due, the penalised time; it gets one more slot exactly if the advertisement is news, the entry is new with less than eight references, the draw is in its favour, and the slot is free or held by a terrible entry |
| AddrEffects.GoodTables | src/addrman.cpp:256-303 | Good leaves the entry in its tried slot and in no new one; the entry evicted from there takes the new slot of its own source; no other slot changes |
| AddrEffects.GoodMarks | src/addrman.cpp:269-274 | Good sets both times, forgets the failures and changes nothing else of the entry |
| AddrEffects.StatsExact | src/addrman.cpp:373-390 | Attempt, Connected and SetLocal change exactly the fields named, of exactly the service named, port included |
| AddrBook.StatsKeep | src/addrman.cpp:373-390 | Attempt, Connected and SetLocal keep the invariant |
| AddrBook.ClearKeeps | src/addrman.h:295-315 | a cleared manager satisfies the invariant |
| AddrDisk.LoadExact | src/addrman.h:448-611 | for every stream, whatever its entries, buckets, bucket count, format or AS map checksum say: the manager it leaves is consistent exactly if no entry that survives the pruning shares its address with another one read in, no survivor succeeded before the epoch and every tried survivor has succeeded |
| AddrDisk.LoadKeeps | src/addrman.h:448-611 | in particular every stream with distinct addresses and sensible times loads into a consistent manager |
| AddrDisk.LoadIndexedExact | src/addrman.h:494-605 | for every stream, ids, addresses and positions index each other after the pruning exactly if no survivor shares its address with another entry read in |
| AddrDisk.DuplicateMisindexed | src/addrman.h:494-605 | an accepted stream with one valid address twice and one reference, after which the index is broken |
| AddrDisk.SaveSound | src/addrman.h:382-446 | what is saved from a consistent manager is such a stream |
| AddrDisk.SavedCounts | src/addrman.h:396-421 | the lists written are exactly as long as the counters written before them |
| AddrDisk.SaveAccepted | src/addrman.h:486-492 | what is saved from a consistent manager passes both limits on the counts, since every entry owns a slot of its table |
| AddrDisk.LoadInvertsSave | src/addrman.h:382-611 | with the same AS map, what was saved is accepted, and loading returns every address with its data, table and new-table slots, under new ids |
| AddrReload.Rebucketed | src/addrman.h:524-593 | for another bucket count or another AS map checksum: whatever buckets were saved, each entry sits in the slot of its own source or in none, every slot that a valid entry claims is taken, and by the first to claim it |
| AddrReload.SavedTaken | src/addrman.h:524-593 | otherwise a valid entry with less than eight slots gets its saved slot if that is free when it is read |
| AddrReload.SavedRestored | src/addrman.h:524-593 | and where no two references clash, the slots are exactly the saved ones, with their entries |
| AddrReload.HeaderExact | src/addrman.h:467-492 | the numbers of the header: which streams are refused and what is written |
| AddrMan.CAddrMan.ClearAll | src/addrman.h:295-315 | the object's state becomes the cleared manager |
| AddrMan.CAddrMan.SwapRandom | src/addrman.cpp:139-161 | two positions of vRandom are exchanged together with the entries' own positions |
| AddrMan.CAddrMan.Delete | src/addrman.cpp:163-180 | refines deletion of an entry from all three indexes |
| AddrMan.CAddrMan.ClearNew | src/addrman.cpp:182-201 | refines freeing a new-table slot |
| AddrMan.CAddrMan.Create | src/addrman.cpp:122-137 | refines creation of an entry under the next id |
| AddrMan.RemoveAround | src/addrman.cpp:209-219 | the wrap-around loop clears every slot of the entry and counts its references down to zero, by break or by coming full circle |
| AddrMan.CAddrMan.MakeTried | src/addrman.cpp:203-254 | the table operations in the code's order amount to MakeTried on values |
| AddrMan.CAddrMan.FindBucket | src/addrman.cpp:280-292 | the search from any start ends in a bucket that holds the entry |
| AddrMan.CAddrMan.Good | src/addrman.cpp:256-303 | refines Good on values |
| AddrMan.CAddrMan.Add | src/addrman.cpp:305-371 | refines Add on values, whose effect AddFresh, AddKnown and AddUnroutable fix, with the doubling draw, and keeps the invariant |
| AddrMan.MayGetMore | src/addrman.cpp:324-340 | decides exactly whether a known entry may take another slot |
| AddrMan.CAddrMan.Attempt | src/addrman.cpp:373-390 | refines Attempt on values |
| AddrMan.CAddrMan.Connected | src/addrman.cpp:616-634 | refines Connected on values |
| AddrMan.CAddrMan.SetLocal | src/addrman.cpp:636-652 | refines SetLocal on values |
| AddrMan.CAddrMan.Shuffle | src/addrman.cpp:573-577 | the shuffle keeps the invariant and every entry |
| AddrMan.Cap | src/addrman.cpp:562-564 | the cap on an answer is the largest number within 2500 and 23 percent of the entries |
| AddrMan.CAddrMan.GetAddr | src/addrman.cpp:560-614 | only worthwhile entries, each address once, within the cap and the per-network quota; below the cap every worthwhile entry is there unless the quota of its network is used up |
| AddrMan.Gather | src/addrman.cpp:579-613 | the addresses picked are those of distinct positions of vRandom in order, none terrible, and below the cap none is passed over but by quota |
| AddrMan.CAddrMan.Serialize | src/addrman.h:382-446 | the written stream is the saved form of the state, and neither of its assertions on the counts can fail |
| AddrMan.CAddrMan.Unserialize | src/addrman.h:448-611 | for any stream whatever: accepted exactly if the header is readable and the counts are within the limits; then the state is the loaded form of the stream, else only the header fields already read have changed |
| AddrMan.SaveAndLoad | src/net.cpp:2588-2680 | on the objects: what one manager writes an empty one with the same AS map reads back, the same addresses with the same data, tables and slots, and consistent |
| TxCoins.Cleanup | src/coins.h:137-142 | drops spent outputs at the end and changes the availability of none |
| TxCoins.RunCleanup | src/coins.h:137-142 | the loop computes Cleanup |
| TxCoins.Spend | src/coins.cpp:57-64 | spends exactly the output asked for, and only if it was unspent |
| CoinsStack.FetchKeeps | src/coins.cpp:136-152 | a read returns what the layer shows, changes no layer's content and keeps the flags' invariant |
| CoinsStack.HaveCoinsIsVisible | src/coins.cpp:536-543 | the lookup tells exactly whether unspent coins are visible |
| CoinsStack.ModifyKeeps | src/coins.cpp:506-525 | modifying stores the cleaned-up coins under one key and changes nothing else |
| CoinsStack.ModifyExact | src/coins.cpp:506-525 | the entry left behind: dirty, cleaned up, fresh if it was or the base shows nothing, and none at all if it is fresh and nothing is unspent |
| CoinsStack.SetNullKeeps | src/coins.cpp:455-468 | setting a nullifier changes that nullifier of that layer only |
| CoinsStack.SetNullsKeep | src/coins.cpp:455-468 | setting all nullifiers of a transaction sets exactly these |
| CoinsStack.FreshAssertHolds | src/coins.cpp:680-691 | the FRESH assertion in BatchWrite never fires |
| CoinsStack.FlushKeeps | src/coins.cpp:664-741 | Flush leaves the parent showing what the child showed, and nothing further down changed |
| CoinsStack.StepRefines | src/coins.cpp:136-152 | every step of a stack of caches matches the same step on a stack of flat maps, observations included |
| CoinsStack.RunRefines | src/coins.cpp:506-741 | so does every run of reads, modifications, nullifiers, pushes, drops and flushes |
| CoinsCache.CoinsViewCache.FetchCoins | src/coins.cpp:136-152 | refines the value-level read through all layers below |
| CoinsCache.CoinsViewCache.GetNullifier | src/coins.cpp:224-247 | refines the value-level nullifier read |
| CoinsCache.CoinsViewCache.ModifyCoins | src/coins.cpp:506-525 | refines opening an entry for modification |
| CoinsCache.CoinsViewCache.ReleaseModifier | src/coins.cpp:1041-1053 | refines the modifier's destructor |
| CoinsCache.CoinsViewCache.SetNullifiers | src/coins.cpp:455-468 | refines setting all nullifiers of a transaction |
| CoinsCache.CoinsViewCache.BatchWrite | src/coins.cpp:664-727 | the layer becomes the merge of all maps of the child, coins, anchors, nullifiers and proofs of every kind, and takes over its best hashes; nothing below changes |
| CoinsCache.CoinsDb.BatchWrite | src/txdb.cpp:235-284 | the database becomes its merge with all maps of the child, and takes over the hashes that are set |
| CoinsCache.CoinsViewCache.Flush | src/coins.cpp:729-741 | the parent, cache or database, absorbs all maps and hashes of this layer, whose maps are empty afterwards; the FRESH assertion holds |
| CoinsCache.CoinsViewCache.GetBestBlock | src/coins.cpp:545-558 | returns the first best block that is set from this layer down, and remembering it changes no answer |
| CoinsCache.FlushedParts | src/coins.cpp:664-741 | flushing a whole layer is flushing each of its parts |
| CoinsCache.FlushKeepsAll | src/coins.cpp:664-741 | after Flush the parent shows all coins, nullifiers, anchors and proofs that this layer showed; the best anchors and the best block exactly if each is set here, goes to the database or is the same further down, and then every invariant holds again |
| CoinsCache.BestBlockFlushed | src/coins.cpp:722-725 | when exactly the best block survives |
| CoinsStack.BatchWriteCoins | src/coins.cpp:677-710 | the loop over the child's entries, in any order, computes the merge |
| CoinsStack.BatchWriteNullifiers | src/coins.cpp:587-607 | the loop over the child's nullifiers, in any order, computes the merge |
| AnchorStack.VisibleHasRoot | src/coins.cpp:155-222 | every visible tree is stored under its own root |
| AnchorStack.EmptyAlwaysVisible | src/txdb.cpp:79-89 | the empty tree is in view of every consistent stack of caches |
| AnchorStack.PushKeeps | src/coins.cpp:301-333 | the pushed tree becomes visible and best, no other anchor changes |
| AnchorStack.PopKeeps | src/coins.cpp:392-422 | for any root: the assertion on bringing the best anchor in holds, that anchor and nothing else leaves the view, and the cache stays consistent exactly if the new best anchor is still in view |
| AnchorStack.PushPopRestores | src/coins.cpp:301-453 | for any tree: pushing and popping back restores the view exactly if the root was not in view before or was the best already |
| AnchorStack.EqualRoots | src/coins.cpp:631-662 | a tree under a visible root is that very tree, which is why only `entered` needs copying |
| AnchorStack.FlushAnchors | src/coins.cpp:631-662 | after Flush the parent shows this layer's anchors although no tree was copied over an existing entry |
| AnchorStack.FlushToDbExact | src/coins.cpp:631-662 | flushing to the database reproduces the anchors exactly unless the empty root was taken out of view |
| AnchorStack.FlushBest | src/coins.cpp:722-725 | the parent's best anchor is this layer's exactly under the stated condition on the cached best hash |
| AnchorStack.FlushBestFails | src/coins.cpp:722-725 | a parent that has just pushed a tree loses its best anchor to a consistent child that never looked at it |
| AnchorStack.FlushKeeps | src/coins.cpp:729-741 | otherwise Flush keeps the invariant and both views |
| AnchorStack.StepRefines | src/coins.cpp:155-222 | every step of a stack of caches matches the same step on a stack of flat maps of anchors |
| AnchorStack.RunRefines | src/coins.cpp:301-453 | over every run each layer equals a flat map of anchors with the best anchor among them |
| AnchorStack.BatchWriteAnchors | src/coins.cpp:631-662 | the loop over the child's anchors, in any order, computes the merge |
| ProofHashes.FetchKeeps | src/coins.cpp:249-299 | reading returns the visible set and changes none |
| ProofHashes.SetProofExact | src/coins.cpp:474-486 | adding or removing a transaction acts on the visible set exactly if the entry was cached or the base knows no other |
| ProofHashes.SetProofAfterFetch | src/coins.cpp:470-495 | reading first makes it exact |
| ProofHashes.DuplicateForgotten | src/coins.cpp:474-486 | a case in which a duplicate proof is forgotten |
| ProofHashes.FlushKeeps | src/coins.cpp:609-629 | Flush leaves the parent showing the sets this layer showed, and nothing further down changed |
| ProofHashes.StepRefines | src/coins.cpp:249-299 | every step matches the same step on a stack of flat maps of sets, and every read returns the flat set |
| ProofHashes.RunRefines | src/coins.cpp:470-629 | so does every run in which a proof is recorded where SetProofExact allows it |
| ProofHashes.BatchWriteProofHashes | src/coins.cpp:609-629 | the loop over the child's sets, in any order, computes the merge |
| CheckQueue.BatchSize | src/checkqueue.h:125 | a batch has at least one check, no more than the queue, and no more than the limit unless it is one |
| CheckQueue.BatchExact | src/checkqueue.h:120-125 | a batch is the largest number within the limit of which all threads and the idle ones again find as many in the queue, and never less than one |
| CheckQueue.AddWakes | src/checkqueue.h:164-176 | several new checks wake every sleeping worker, a single one the worker picked, and nobody else |
| CheckQueue.StepKeeps | src/checkqueue.h:84-142 | every critical section keeps: nTodo equals queued plus unaccounted checks, nothing lost or done twice, the verdict covers what was accounted, and a sleeping master has a working worker |
| CheckQueue.RunSafe | src/checkqueue.h:84-176 | under every interleaving of one master and any number of workers each Wait answers true exactly if all checks added since the last Wait pass, after each was accounted for once |
| CheckQueue.EnabledIsCountable | src/checkqueue.h:95-125 | no counter underflows and no division by zero occurs in a reachable state |
| CheckQueue.WaitNeverStuck | src/checkqueue.h:106-119 | while the master waits, somebody can move; an un-notified sleeping master has a busy worker |
| CheckQueue.WaitTerminates | src/checkqueue.h:84-142 | under any schedule, with spurious wake-ups anywhere, Wait returns within a number of steps computed from the state, spurious wake-ups not counted |
| CheckQueue.RunBatch | src/checkqueue.h:137-140 | checks after the first failure are skipped, the result is the conjunction |
| CheckQueue.Shared.Add | src/checkqueue.h:164-176 | queue and nTodo after Add are those of the model, and the threads the model wakes are those the signal reaches: one for one check, all for more, none for none |
| CheckQueue.Shared.CleanUp | src/checkqueue.h:95-104 | accounts for the previous batch and tells whether the master is to be notified |
| CheckQueue.Shared.TakeBatch | src/checkqueue.h:125-134 | popping one job at a time takes the model's batch |
| CheckQueue.Shared.ReturnOrSleep | src/checkqueue.h:106-116 | returns the verdict exactly where the model answers, else sleeps |
| Cuckoo.SlotBound | src/cuckoocache.h:242-252 | the multiply-shift hash always falls inside the table |
| Cuckoo.ContainsScans | src/cuckoocache.h:469-479 | in every reachable state the eight probes agree with a scan of the whole table |
| Cuckoo.KickKeeps | src/cuckoocache.h:406-439 | the kick chain keeps every element at one of its own slots and unique |
| Cuckoo.KickExact | src/cuckoocache.h:406-439 | the chain adds its element and removes exactly one, a live one or itself only if the depth limit ran out, and lets the epoch grow by at most one |
| Cuckoo.InsertExact | src/cuckoocache.h:392-440 | the same for a whole insert, with the epoch check before it; an element found is kept alive and nothing leaves |
| Cuckoo.InsertWithRoom | src/cuckoocache.h:407-415 | with a free slot of its own the element goes in, is found, and pushes nothing alive out |
| Cuckoo.ContainsKeeps | src/cuckoocache.h:442-479 | erasing marks the slot only: the element is still found, other live elements stay live |
| Cuckoo.EpochCheckKeeps | src/cuckoocache.h:288-320 | aging moves nothing and re-establishes the epoch bound with one insert to spare |
| Cuckoo.SetupOk | src/cuckoocache.h:339-352 | a fresh table satisfies all of it |
| Cuckoo.RunKeeps | src/cuckoocache.h:288-479 | after every run: placement, uniqueness, live current-epoch elements plus counter at most epoch_size + max(1, epoch_size/16), and stored = kept + lost as multisets |
| Cuckoo.FoundWasInserted | src/cuckoocache.h:392-479 | an element found after a run was inserted in it |
| Cuckoo.EpochSizeExact | src/cuckoocache.h:347-348 | the epoch is 45% of the size exactly if the 32-bit product does not wrap |
| Cuckoo.FlagsCover | src/cuckoocache.h:60-67 | the flag bytes cover every slot exactly for sizes up to 2^32 - 8 |
| Cuckoo.DocumentedSizeFails | src/cuckoocache.h:119 | at the documented size limit 2^32 - 2 there is no flag byte and the epoch is not 45% |
| CuckooAges.EpochCheckExact | src/cuckoocache.h:288-320 | the flags change only when the counter has run out and the live recent slots are as many as the epoch holds: then exactly the slots that are not recent may be overwritten and nothing is recent any more; the counter is reset to the room left, with the minimum |
| CuckooAges.KickAges | src/cuckoocache.h:406-439 | the kick chain gives its element its flag and takes no other element's age, except that the one pushed out by the depth limit is gone |
| CuckooAges.InsertAges | src/cuckoocache.h:392-440 | after an insert the element is recent; every other one has aged exactly if the epoch turned |
| CuckooAges.ContainsAges | src/cuckoocache.h:469-479 | an erase ends its element and no other |
| CuckooAges.RunAges | src/cuckoocache.h:288-479 | after every run the flags of an element tell exactly the age that inserts, erases, turnovers and victims of the depth limit give it, and an element is live exactly if that is not over |
| CuckooAges.AgesOut | src/cuckoocache.h:288-320 | an element inserted and spared is recent before the first turnover, old up to the second and gone from then on |
| CuckooAges.LivesThroughOneTurnover | src/cuckoocache.h:288-320 | inserted again or not, it lives through one turnover |
| CuckooAges.TurnoversCost | src/cuckoocache.h:288-320 | between two turnovers there are at least as many inserts as the epoch holds |
| CuckooAges.InsertedStays | src/cuckoocache.h:288-479 | over every run an inserted element is live and found after as many further inserts as the epoch holds, unless erased or pushed out by the depth limit |
| CuckooAges.InsertKicksAside | src/cuckoocache.h:406-439 | with two kicks or more, an element goes in at no live one's expense if each element in its way has a slot to step aside to |
| CuckooAges.LocsScale | src/cuckoocache.h:242-252 | the k-th slot is the k-th hash as a fraction of 2^32, scaled to the table |
| CuckooAges.NextLocCycles | src/cuckoocache.h:417-431 | each kick moves on by one of the eight slots, and the first goes to the second slot |
| PackedBits.BitWritten | src/cuckoocache.h:90-114 | the byte-level or/and-not writes exactly one bit of the flag sequence |
| CuckooCache.BitFlags.constructor | src/cuckoocache.h:60-67 | all flags start set |
| CuckooCache.BitFlags.BitSet | src/cuckoocache.h:90-93 | sets one flag |
| CuckooCache.BitFlags.BitUnset | src/cuckoocache.h:101-104 | clears one flag |
| CuckooCache.BitFlags.BitIsSet | src/cuckoocache.h:111-114 | reads one flag |
| CuckooCache.Cache.Setup | src/cuckoocache.h:339-352 | the object's state is the fresh table, and it is usable exactly for sizes up to 2^32 - 8, where the flag bytes cover it |
| CuckooCache.Cache.EpochCheck | src/cuckoocache.h:288-320 | counting and aging loops compute the epoch check, whose effect EpochCheckExact fixes |
| CuckooCache.Cache.KickLoop | src/cuckoocache.h:406-439 | the in-place loop computes the kick chain |
| CuckooCache.Cache.Insert | src/cuckoocache.h:392-440 | refines insert on values |
| CuckooCache.Cache.Contains | src/cuckoocache.h:469-479 | refines contains on values |
| ArithUint.MulAdd | src/arith_uint256.cpp:89-93 | two limbs plus a product of two limbs never overflow 64 bits |
| ArithUint.BaseUint.AddAssign | src/arith_uint256.h:151-161 | sum modulo 2^(32 width), also when added to itself |
| ArithUint.BaseUint.Increment | src/arith_uint256.h:189-196 | plus one modulo 2^(32 width) |
| ArithUint.BaseUint.Decrement | src/arith_uint256.h:206-213 | minus one modulo 2^(32 width) |
| ArithUint.BaseUint.Negated | src/arith_uint256.h:93-100 | complement and increment negate modulo 2^(32 width) |
| ArithUint.BaseUint.SubAssign | src/arith_uint256.h:163-167 | the difference, wrapped once where negative |
| ArithUint.BaseUint.MulAssign32 | src/arith_uint256.cpp:71-80 | product with a limb modulo 2^(32 width) |
| ArithUint.BaseUint.MulAssign | src/arith_uint256.cpp:83-96 | schoolbook product modulo 2^(32 width) for any other operand, and zero where the operand is the number itself |
| ArithUint.BaseUint.ShlAssign | src/arith_uint256.cpp:37-51 | times 2^shift modulo 2^(32 width), for any shift |
| ArithUint.BaseUint.ShrAssign | src/arith_uint256.cpp:54-68 | floor division by 2^shift, for any shift |
| ArithUint.BaseUint.CompareTo | src/arith_uint256.cpp:125-139 | the sign of the integer comparison |
| ArithUint.BaseUint.Bits | src/arith_uint256.cpp:192-204 | the bit length |
| ArithUint.BaseUint.DivLoop | src/arith_uint256.cpp:112-121 | shift-and-subtract leaves the floor quotient, with the remainder in num |
| ArithUint.BaseUint.DivAssign | src/arith_uint256.cpp:99-122 | the exact floor quotient, or the division-by-zero error with the number already cleared |
| ArithUint.BaseUint.GetLow64 | src/arith_uint256.h:261-265 | the value modulo 2^64 |
| Limbs.NumOrder | src/arith_uint256.cpp:132-138 | the top differing limb decides the order of the numbers |
| Compact.OverflowExact | src/arith_uint256.cpp:237-240 | the overflow flag is set exactly if the denoted number needs more than 256 bits |
| Compact.NormalForm | src/arith_uint256.cpp:244-262 | a positive number is written with exponent bits/8 + 1 and a mantissa from 2^15 to 2^23 - 1 |
| Compact.RoundTrip | src/arith_uint256.cpp:224-265 | decoding an encoding sets no flag, rounds down by less than one part in 2^15, and encodes the same again |
| Compact.Monotone | src/arith_uint256.cpp:244-265 | the encoding orders numbers as 32-bit integers |
| Compact.SignedRoundTrip | src/arith_uint256.cpp:262-264 | the sign survives for every number but zero |
| Compact.CanonicalExact | src/arith_uint256.cpp:224-265 | exactly the canonical encodings survive decoding and encoding |
| Published.CompactExamples | src/test/arith_uint256_tests.cpp:483-510 | four words of up to three bytes and what they denote |
| Published.LongCompactExamples | src/test/arith_uint256_tests.cpp:512-540 | four longer ones, a negative and an overflowing one among them |
| Compact.SetCompact | src/arith_uint256.cpp:224-242 | the limb code computes the decoding with both flags |
| Compact.GetCompact | src/arith_uint256.cpp:244-265 | the limb code computes the encoding |
| SkipHeights.InvertsLowestOne | src/chain.cpp:131-132 | n & (n - 1) clears exactly the lowest set bit |
| SkipHeights.SkipsBack | src/chain.cpp:134-143 | the skip height is below the height |
| SkipHeights.StepsBounded | src/chain.cpp:145-170 | from a height below 2^l to any lower one the walk takes at most StepBound(l) turns |
| SkipHeights.SimulatedBound | src/chain.cpp:139-142 | at most 110 turns below 2^18, for every pair of heights |
| SkipHeights.BoundQuadratic | src/chain.cpp:145-170 | StepBound(l) is at most (l^2 + 9 l + 2) / 4 |
| Chain.GetAncestor | src/chain.cpp:145-170 | the skip-list walk ends and returns the block found by walking parents, or null outside the range; with all skip pointers set it takes exactly the turns that StepsBounded bounds |
| Chain.BlockIndex.BuildSkip | src/chain.cpp:177-181 | the skip pointer is the ancestor at the skip height |
| Chain.BlockTree.Link | src/chain.cpp:177-181 | in every tree grown block by block all skip pointers are exact |
| Chain.PathPrefix | src/chain.cpp:36-47 | the path to an ancestor is the beginning of the path to the block |
| Chain.CChain.SetTip | src/chain.cpp:36-47 | despite the early stop the vector is the whole path to the tip |
| Chain.CChain.Contains | src/chain.h:552-556 | one array read decides membership of the chain |
| Chain.CChain.Next | src/chain.h:558-565 | the child on the chain, or null exactly for the tip and for blocks off the chain |
| Chain.SameChain | src/chain.h:545-550 | equal height and tip mean equal chains |
| Chain.CChain.FindFork | src/chain.cpp:78-87 | the highest block of the chain among the ancestors, or null where there is none |
| Chain.CChain.GetLocator | src/chain.cpp:49-76 | the hashes of the ancestors at the locator heights, with a stride that fits 32 bits for heights below 2^30 |
| Chain.HeightsDescend | src/chain.cpp:57-73 | locator heights start at the block, strictly descend and end at genesis |
| Chain.LocatorLength | src/chain.cpp:57-73 | the exact number of hashes in a locator |
| Chain.LocatorBound | src/chain.cpp:57-73 | at most 12 plus the bit length of the height |
| Chain.LocatorAt | src/chain.cpp:57-73 | every height in a locator: one step down each for the first ten, then steps that double |
| Checksum.FeedSum | src/bech32.cpp:37-94 | the remainder of a symbol-wise sum is the sum of the remainders |
| Checksum.FeedTail | src/bech32.cpp:128-139 | the last symbols add to the remainder that zeros in their place would leave |
| Checksum.DifferenceVanishes | src/bech32.cpp:37-94 | equal remainders force the differing stretch to cancel |
| Bech32.TimesXInjective | src/bech32.cpp:80-91 | the update takes no non-zero remainder to zero |
| Bech32.GfAdditive | src/bech32.cpp:80-91 | the update is linear under exclusive or |
| Bech32.ChecksumExact | src/bech32.cpp:118-139 | the created checksum verifies and is the only one that does |
| Bech32.BurstDetected | src/bech32.cpp:37-94 | any change within six neighbouring symbols, at any length, changes the remainder |
| Roots.EvalTimesX | src/bech32.cpp:80-91 | at a root of the generator, the loop's update multiplies the value of the remainder by that root |
| Roots.LadderOrder | src/bech32.cpp:46-49 | an element whose powers 33, 93 and 341 are not one and whose 1023rd is has no smaller period |
| Roots.Vandermonde | src/bech32.cpp:46-49 | three terms whose sum vanishes plainly, with the weights e^(m+n), e^n and 1, and with their squares, are zero |
| Roots.ThreeVanish | src/bech32.cpp:46-49 | if the generator has three consecutive roots of order 1023, three symbols less than 1023 apart cancel only if all are zero |
| Bch.EOrder | src/bech32.cpp:46-49 | the chosen element of the field of 1024 elements has order 1023 |
| Bch.ThreeRoots | src/bech32.cpp:45-49 | the generator has three roots b, b e and b e^2, so the images of three symbols that cancel are zero |
| Bch.ThreeSymbols | src/bech32.cpp:46-49 | three symbols less than 1023 positions apart never cancel in the remainder |
| Bech32Errors.ThreeErrors | src/bech32.cpp:46-49 | sequences with the same remainder that differ at three places within 1023 are equal |
| Bech32Errors.FewErrors | src/bech32.cpp:46-49 | one to three wrong symbols within any window of 1023 change the remainder, after any prefix |
| Bech32Errors.SubstitutionsDetected | src/bech32.cpp:118-125 | after up to three substitutions within such a window the checksum verifies exactly if nothing changed |
| Bech32Errors.MistypedRejected | src/bech32.cpp:162-192 | of two accepted strings with the same prefix none is the other with one, two or three characters mistyped behind the separator |
| Bech32.DecodeEncode | src/bech32.cpp:147-192 | decoding inverts encoding for printable lower-case prefixes and 5-bit data within 1023 characters |
| Bech32.EncodeDecode | src/bech32.cpp:147-192 | encoding what an accepted string decodes to gives its lower-case form |
| Bech32Exact.DecodeExact | src/bech32.cpp:162-192 | a string is decoded to a prefix and data exactly if it is printable, does not mix cases, has at most 1023 characters and, made lower case, is what they encode to, the prefix not empty and the data of five bits |
| Bech32Exact.ExpandExact | src/bech32.cpp:103-115 | the expanded prefix is exactly the high three bits of all characters, a zero, and their low five bits |
| Bech32Exact.Alphabet | src/bech32.cpp:13 | the thirty-two characters in order |
| Bech32Exact.NextIs | src/bech32.cpp:45-91 | for every remainder and symbol the update is multiplication by x modulo the documented generator polynomial x^6 + 29 x^5 + 22 x^4 + 20 x^3 + 21 x^2 + 29 x + 18 |
| Bech32Exact.PolyModIs | src/bech32.cpp:37-94 | the loop's result is the remainder of the polynomial with a leading one, coefficient by coefficient |
| Bech32Exact.PublishedString | src/test/bech32_tests.cpp:28 | A12UEL5L decodes to prefix a without data, which encodes to a12uel5l |
| Bech32.ComputePolyMod | src/bech32.cpp:37-94 | the loop computes the remainder |
| Bech32.ComputeChecksum | src/bech32.cpp:128-139 | the loop extracts the six checksum symbols |
| Bech32.EncodeString | src/bech32.cpp:147-159 | computes the encoding, empty where a value exceeds 5 bits |
| Bech32.DecodeString | src/bech32.cpp:162-192 | computes the decoding with all its rejections |
| Radix.DigitsVal | src/base58.cpp:104-107 | digits without leading zero are determined by their value |
| Radix.CarryStep | src/base58.cpp:57-61 | one step of the carry loop keeps value plus carry |
| Base58.EncodeFits | src/base58.cpp:91-101 | 138/100 n + 1 digits hold every n-byte number, for all n |
| Base58.DecodeFits | src/base58.cpp:48-62 | 733/1000 n + 1 bytes hold every n-digit number, for all n |
| Base58.DecodeEncode | src/base58.cpp:36-115 | every byte string comes back |
| Base58.EncodeInjective | src/base58.cpp:82-115 | two byte strings never share an encoding |
| Base58.EncodeDecode | src/base58.cpp:36-115 | every accepted string comes back without the spaces around it |
| Base58.CheckRoundTrip | src/base58.cpp:127-151 | Base58Check returns every payload, for any four-byte hash |
| Base58.CheckAccepts | src/base58.cpp:136-151 | every string it accepts is the encoding of its payload, spaces aside |
| Published.Alphabet | src/base58.cpp:34 | the fifty-eight characters in order |
| Published.Base58Example | src/test/data/base58_encode_decode.json:3 | the byte 61 is written 2g |
| Base58.MulAdd | src/base58.cpp:55-61 | the in-place loop multiplies and adds, with the carry out |
| Base58.Push | src/base58.cpp:55-62 | where the result fits the carry is zero, so the assertion holds |
| Base58.EncodeBase58 | src/base58.cpp:82-115 | the buffer code computes the encoding |
| Base58.DecodeBase58 | src/base58.cpp:36-80 | the buffer code computes the decoding of the string up to its first NUL |
| VarInt.RoundTripExact | src/serialize.h:461-490 | an int comes back, the stream behind it untouched, exactly if it is not negative |
| VarInt.EncodingUnique | src/serialize.h:461-490 | reading into m values gives the number modulo m, and the bytes read are the ones that would be written exactly if the number is below m |
| VarInt.IntEncodingUnique | src/serialize.h:461-490 | the same for a signed int |
| VarInt.SecondEncoding | src/serialize.h:478-490 | an encoding of 2^32 + 5 that reads as 5 |
| Published.WriteDenotes | src/serialize.h:421-428 | every number is written as bytes of which all but the last have the high bit, and whose documented sum is the number |
| Published.DocumentedIntegers | src/serialize.h:437-442 | the examples in the comment |
| Published.MisprintedIntegers | src/serialize.h:440-441 | the two of them that the code does not bear out |
| VarInt.WriteVarInt | src/serialize.h:461-476 | the loops write the encoding, and the fixed buffer of one byte for every seven bits is never overrun |
| VarInt.ReadVarInt | src/serialize.h:478-490 | the loop, shifting and counting modulo the number of values of its type, reads the number modulo that |
| Amounts.IdealRoundTrip | src/compressor.cpp:148-155 | without overflow the two directions are mutually inverse bijections |
| Amounts.OverflowExact | src/compressor.cpp:157-174 | the code of a 64-bit amount overflows exactly if the amount is no multiple of ten and above 2049638230412172402 |
| Amounts.AmountRoundTrip | src/compressor.cpp:157-200 | in 64-bit arithmetic an amount comes back exactly if it is a multiple of ten or at most 2049638230412172402 |
| Amounts.CodeRoundTrip | src/compressor.cpp:157-200 | in 64-bit arithmetic a code comes back exactly if the amount it stands for fits 64 bits |
| Amounts.AmountLost | src/compressor.cpp:157-200 | 2049638230412172403 is stored as 5 and read as 10000 |
| Amounts.CodeBound | src/compressor.cpp:157-174 | the code of a multiple of ten is no larger than it, the code of any other n is 9 n + n % 10 - 9 |
| Published.DocumentedAmount | src/compressor.cpp:148-155 | the code of (10 n + d) 10^e is 1 + 10 (9 n + d - 1) + e for a digit d from 1 to 9 and e below 9 |
| Published.DocumentedRound | src/compressor.cpp:148-155 | the code of n 10^9 is 1 + 10 (n - 1) + 9 |
| Published.AmountExamples | src/test/compress_tests.cpp:42-47 | six amounts and their codes |
| Amounts.RunCompressAmount | src/compressor.cpp:157-174 | the code with every operation modulo 2^64 computes the code modulo 2^64 |
| Amounts.RunDecompressAmount | src/compressor.cpp:176-200 | likewise the amount |
| Compressor.DecompressCompressed | src/compressor.cpp:63-146 | every special script is rebuilt from its code and payload, given that a full key can be recovered from its short form |
| Compressor.CompressExact | src/compressor.cpp:27-92 | a script is compressed exactly if it is one of the four templates, byte for byte, to the code and payload of that template |
| Compressor.ScriptRoundTrip | src/compressor.h:73-104 | a script comes back exactly if it has at most 10000 bytes; up to 2^32 - 7 bytes a longer one comes back as a single OP_RETURN |
| Compressor.OutRoundTrip | src/compressor.h:108-134 | an output comes back exactly if its script has at most 10000 bytes and its amount, as an unsigned number, is a multiple of ten or at most 2049638230412172402 |
| Compressor.OutputLost | src/compressor.h:108-134 | a positive amount that comes back as another one |
| Compressor.ComesBackAs | src/compressor.h:108-134 | what any output comes back as |
| CoinsCodec.MaskWritten | src/coins.cpp:39-55 | the written mask bytes contain every non-zero one, end with one, and reach every unspent output |
| CoinsCodec.CalcMaskSize | src/coins.cpp:39-55 | the loop computes the number of bytes and of non-zero bytes |
| CoinsCodec.SomethingLeft | src/coins.h:185 | the assertion before writing holds for every record that is not pruned |
| CoinsCodec.HeaderCodeReads | src/coins.h:186-219 | the header code gives back its four fields, the reduced mask code included |
| CoinsCodec.ReadMaskBack | src/coins.h:219-230 | counting non-zero bytes stops the reader exactly behind the mask |
| CoinsCodec.AvailExact | src/coins.h:215-230 | header and mask tell of every output whether it is unspent |
| CoinsCodec.HeaderFits | src/coins.h:186 | the header code fits 32 bits up to 2^32 - 6 outputs |
| CoinsCodec.ComesBack | src/coins.h:180-240 | exactly what a record comes back as, the stream behind it untouched: every output as its codec has it, of a negative number seven bits |
| CoinsCodec.RoundTrip | src/coins.h:180-240 | a record with something unspent comes back cleaned up exactly if version and height are not negative and every output before the last unspent one comes back |
| CoinsCodec.CompressedRoundTrip | src/coins.h:180-240 | with the compressed outputs: exactly if moreover each of these is storable, or null without a script |
| Published.DocumentedRecord | src/coins.h:61-73 | the bytes of the first example record, for any key hash |
| Published.DocumentedCoinbase | src/coins.h:76-93 | the bytes of the second, a coinbase with two unspent outputs behind the mask |
| CoinsCodec.SerializeCoins | src/coins.h:180-206 | the loops write the record |
| CoinsCodec.UnserializeCoins | src/coins.h:209-240 | the loops read it, every number into its type of 32 bits |
| Bloom.InsertKeeps | src/bloom.cpp:76-117 | inserting makes its key contained and takes no other away |
| Bloom.FilterExact | src/bloom.cpp:76-117 | a cleared filter that took any keys reports exactly those whose every bit is hit by one of them |
| Bloom.ShortcutsExact | src/bloom.cpp:103-117 | the full and empty shortcuts agree with the bits exactly unless the filter is empty and has no hash functions |
| Bloom.UpdateExact | src/bloom.cpp:221-232 | the recomputed flags keep every answer of the bits exactly if there is a hash function or a set bit |
| Bloom.UpdateDiffers | src/bloom.cpp:221-232 | a filter for which they do not |
| Bloom.Staggered | src/bloom.cpp:234-273 | the filter that answers was cleared at least N insertions ago, or never |
| Bloom.RunKnows | src/bloom.cpp:247-287 | what each of the two filters still answers for after any run |
| Bloom.RunHolds | src/bloom.cpp:247-287 | after any run from a reset a bit of either filter is set exactly if a key inserted since that filter's last clear has a hash there |
| Bloom.SinceBounds | src/bloom.cpp:247-273 | the filter that answers was last cleared less than 2N insertions ago |
| Bloom.ReportedExact | src/bloom.cpp:247-287 | over every run a key is reported exactly if each of its bits is hit by a key inserted since then |
| Bloom.OnlyRecentKeys | src/bloom.cpp:247-287 | so every bit of a reported key is hit by one of the last 2N - 1 keys |
| Bloom.LastKeysContained | src/bloom.cpp:247-287 | over every run each of the last N keys inserted since the reset is reported, across both clears and the wrap |
| BloomFilter.CBloomFilter.Insert | src/bloom.cpp:76-87 | refines insertion on bits |
| BloomFilter.CBloomFilter.Contains | src/bloom.cpp:103-117 | refines the test on bits |
| BloomFilter.CBloomFilter.Clear | src/bloom.cpp:133-138 | refines clearing |
| BloomFilter.CBloomFilter.UpdateEmptyFull | src/bloom.cpp:221-232 | the byte scan finds exactly whether all bits are set or clear |
| BloomFilter.CRollingBloomFilter.Insert | src/bloom.cpp:247-259 | refines rolling insertion, whose bits RunHolds fixes |
| BloomFilter.CRollingBloomFilter.Contains | src/bloom.cpp:267-273 | refines the rolling test |
| BloomFilter.CRollingBloomFilter.Reset | src/bloom.cpp:281-287 | refines the reset |

## Left out

- Networking, RPC, start-up, the database wrapper, cryptography and chain parameters: input and output around the modelled cores; hashes are function parameters.
- Select_ of the address manager: it reads only, and its choice rests on floating point; likewise GetChance.
- AddrMan.CAddrMan.Unserialize: a stream is a record with its counts as list lengths, not bytes, so a negative count and a stream that ends early are not modelled.
- The null test of nKey in Check_: the key is an opaque number here.
- Stack discipline of the coin caches is assumed: while a child exists its parent changes only through it.
- Whole runs are proved for one instance of nullifiers, anchors and proof hashes each; the instances differ in nothing but the map. The loops of the database's BatchWrite are functions.
- Pruned coins and absent coins are not told apart in a flat map, and memory usage counters are not modelled.
- HaveJoinSplitRequirements and interest: they rest on code outside these files.
- fQuit of the check queue: nothing in the source sets it; exceptions thrown by a check are not modelled.
- CuckooCache.Cache.Setup: takes the depth limit, a rounded logarithm, as a parameter; elements are 256-bit hashes; concurrent erase is not modelled.
- The pointer-range test at the head of CompareTo has no counterpart for values.
- The 88-bit integer carries only 64 bits in the source; widths here are whole limbs.
- Parent and height of a block are constants here, set when it is linked; only the skip pointer is assigned later. Block hashes are opaque.
- The four errors within 89 characters that the same comment in src/bech32.cpp promises: that rests on a search through all generators, not on a law of the code. Errors in the prefix or in the place of the separator are not covered either.
- Bytes above 127 count as no space in Base58, whatever the locale.
- CoinsCodec.RoundTrip: records of at most 2^32 - 6 outputs, with scripts whose size 32 bits can count; beyond that the source's own counters wrap.
- Overflow of a signed int while a VARINT is read, which C++ leaves open, is taken to wrap.
- The public-key arithmetic behind compressed full keys is a parameter with the one law it needs.
- Bloom filter sizing uses logarithms and is a parameter; the transaction matching of IsRelevantAndUpdate is not modelled.
