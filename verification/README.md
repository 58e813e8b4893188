# FyroDB: a verified model

FyroDB is an in-memory key-value store that speaks the Redis protocol. It is
built on its own concurrent hash map. This project models its core in Dafny
and proves what that core is for. `dafny verify dfyconfig.toml` checks all of
it.

## What is modelled

**Protocols between threads**, as atomic steps that interleave in any order
over sequentially consistent memory. Each has an invariant that every step
keeps, and theorems over every run.

- `Ebr`: epoch-based reclamation. Pinning holds the epoch; nothing that a
  pinned thread may hold is freed.
- `InsertGate`: concurrent inserts and growth of one shard. The table is never
  swapped under an insert, every probe ends, and no insert returns undone.
- `Seqlock`: the lock bit and sequence counter of an entry. A read without the
  lock returns a value that the entry held whole.
- `Wakeup`: publishers, subscriber slots and the worker. No wake-up is lost and
  every frame is delivered once, in order.
- `Ttl` and `TtlStore`: the count of keys that may expire, and the scan that
  corrects it in chunks while keys change. Every access to an entry, the counter
  and the generation is a step; so are an update's lookup and the clearing of
  each shard.

**Fast structures against simple ones.**

- `Probe` and `ShardedMap`: open addressing with tombstones, growth and
  compaction, over all shards, against a finite map.
- `ZSet`: a sorted vector with a bloom filter, against a map from member to
  score.
- `Registry` and `Glob`: pattern subscriptions in buckets against a scan of all
  of them, and the greedy matcher against the recursive meaning of a pattern.
- `Collections`: hashes and sets that change their representation, against a
  map and a set of strings.
- `Scan`: the SCAN cursor against the list of live keys.

**Codecs and algorithms.**

- `Resp`: the writers, the incremental parser and the read loop of a
  connection (Redis serialization protocol specification, sections "Arrays" and
  "Bulk strings").
- `RdbFormat`, `Rdb` and `RdbFile`: saving, loading and skipping snapshots.
- `Json`, `JsonText` and `JsonCode`: printing, parsing, and what any text of the
  grammar means (sections 2 to 7 of RFC 8259).
- `Lcs`: the longest common subsequence, with its 16-bit table.

`Bytes` and `Common` hold what these share, and `Runs` what is true of the runs
of any machine. Code that updates its state in
place is a class or a method with loops, proved against functions; the theorems
are about those functions.

## Where the code does less than its users may expect

In each of these cases the model follows the code. There is a lemma with an
input or a run that shows it, and a theorem that says exactly when the
expectation is met.

- Tombstones retired by growth and compaction are stamped before the table
  swap. Whatever the objects that may be retired while they are still linked,
  reclamation is safe for all runs exactly when there are none
  (`Ebr.RetireBeforeUnlinkIsUnsafe`, `Ebr.SafeIffUnlinkFirst`).
- `set` and `insert` do not test the occupied bit again under the lock
  (`Seqlock.BlindSetDropsTwice`, `Seqlock.DropsSafeIffRechecking`).
- The sequence comparison uses 32 bits (`Seqlock.WrapTearsRead`,
  `Seqlock.ReadsWholeIffBelowWrap`).
- A worker that takes a token and does not drain the slot can strand a frame
  (`Wakeup.SkippedDrainLosesWakeup`, `Wakeup.NoLossIffDrained`).
- A key that expires can go uncounted, and the expiry thread then overlooks it.
  There are seven ways for one thing to fall into the middle of another that do
  this: a flush into the end of a pass, into a chunk of it, or into an
  operation, be it after the operation has counted or after it has looked its
  entry up; an operation into a flush; the start of a pass into an operation
  that has raised the generation; the end of a pass into an operation that has
  yet to lower the counter; an operation that takes an expiry off into the
  removal of that entry. There is a run for each. For any set of these that may
  happen, no run hides a key exactly when the set is empty
  (`Ttl.NothingHiddenIff`).
- The glob matcher compares bytes before it looks for a star
  (`Glob.StarSubjectMisjudged`, `Glob.RightForAllPatternsIff`).
- A score range with min above max panics, and its count wraps, exactly when a
  score lies strictly between them (`ZSet.ReversedBoundsPanic`,
  `ZSet.RangeInOrderIff`, `ZSet.CountRightIff`).
- The table of the longest common subsequence has 16-bit cells. Of 65536 equal
  bytes against the same with one more, 65535 are returned; where one string is
  ASCII and one has at most k bytes, a longest one is returned for all exactly
  when k is below 65536 (`Lcs.LongStringsFallShort`, `Lcs.LongestIff`).
- The longest common subsequence is taken on bytes, and nothing is returned if
  these are no UTF-8. For a string below 65536 bytes, a longest one is returned
  against every other string exactly when it is ASCII (`Lcs.AccentsLoseAll`,
  `Lcs.LongestForAllIff`).
- A JSON string that needs an escape and is not ASCII comes back changed, and
  the number 1e999 comes back not at all (`Json.AccentBeforeQuoteChanges`,
  `Json.HugeNumberUnreadable`, `Json.RoundTripIff`).
- SCAN cursors hold 12 bits of shard and 20 bits of slot (`Scan.RoundTable`,
  `Scan.EndsEarly`, `Scan.ReliableIff`).
- A snapshot may hold records that the loader refuses, too large ones and
  strings that are no UTF-8, such as bitmaps; and of a stream it keeps neither
  the consumer groups nor a last id that is not the greatest
  (`Rdb.LargeHashRefused`, `Rdb.BitmapRefused`, `Rdb.GroupForgotten`,
  `Rdb.DeletedLastForgotten`). A
  store comes back exactly when there are no such records and streams
  (`Rdb.LoadsIff`, `Rdb.RestoredIff`, `Rdb.SnapshotRestoresIff`).

## Assumptions

- A key's hash is a function given as a parameter, as are clocks, thread
  schedules and the sizes of socket reads.
- `h & mask` is `h % capacity`, for capacities that are powers of two.
- Scores are real numbers; snapshots carry the 64 bits of a score.
- In `Ebr`, an object is retired once: `Retire` is a step of an object that is
  still live. Callers retire what they have themselves removed from a slot or
  replaced.
- In `Ttl`, there is one expiry thread. The shard under a chunk is not rehashed
  before the chunk is over, nor, between two chunks, back to the capacity that
  the scan recorded. A set or a removal finds its entry and writes it in one
  step; one that a flush overtakes in between writes to a table that is no
  longer used, and takes nothing off the counter.
- In `Json`, a double that is neither an integer of at most 2^53 in size nor
  infinite nor NaN is a text that converts to it. That `Display` writes such a
  text, and that `parse` gives the nearest double, is taken from the standard
  library.

## Model

| member | source | states |
|---|---|---|
| `Ebr.StepKeepsInv` | crates/customhash/src/ebr.rs:86-171 | every step of registering, pinning, unpinning, unlinking, retiring and collecting keeps the invariant that ties local epochs, stamps and the collector's view to the global epoch |
| `Ebr.RunKeepsInv` | crates/customhash/src/ebr.rs:86-171 | the invariant holds after every interleaving of any length |
| `Ebr.PinHoldsEpoch` | crates/customhash/src/ebr.rs:86-101 | while a thread with validated epoch e is pinned, the global epoch is e or e + 1 |
| `Ebr.ReclamationSafe` | crates/customhash/src/ebr.rs:104-156 | in every run that retires only what is already unlinked, no object that a pinned thread may hold has been freed |
| `Ebr.PartitionPointExact` | crates/customhash/src/ebr.rs:149-155 | on an epoch-sorted garbage list the binary search returns exactly the number of records that are two epochs old |
| `Ebr.CollectFreesEligiblePrefix` | crates/customhash/src/ebr.rs:118-156 | every garbage list is epoch-sorted, and one collection frees exactly its records that are two epochs old |
| `Ebr.FreedOnce` | crates/customhash/src/ebr.rs:159-171 | the object freed was retired by this thread, and no other garbage record of any thread names it |
| `Ebr.LoneCollection` | crates/customhash/src/ebr.rs:118-156 | from every reachable state, a collection that nothing disturbs raises the epoch exactly if no pinned thread lags behind, frees exactly its thread's records that are two epochs old, and changes nothing else |
| `Ebr.PinSurvives` | crates/customhash/src/ebr.rs:104-116 | a pin of depth d survives fewer than d unpins with all it holds, and the d-th ends it |
| `Ebr.NestedPinsUndone` | crates/customhash/src/ebr.rs:86-116 | any number of nested pins and as many unpins leave the state as it was |
| `Ebr.RetireBeforeUnlinkIsUnsafe` | crates/customhash/src/shard.rs:425-452 | for any object that may be retired early, a run in which it is retired before the table swap and freed under a pinned reader |
| `Ebr.SafeIffUnlinkFirst` | crates/customhash/src/ebr.rs:118-171 | for any set of objects that may be retired while they are linked, all runs are safe if and only if the set is empty |
| `InsertGate.StepKeepsInv` | crates/customhash/src/shard.rs:219-453 | every atomic step of concurrent insert, growth, overwrite and removal keeps the gate, length and probe-chain invariant |
| `InsertGate.RunKeepsInv` | crates/customhash/src/shard.rs:219-453 | the invariant holds after every interleaving |
| `InsertGate.NothingUnderflows` | crates/customhash/src/shard.rs:219-264 | the gate and `len` are above zero wherever a call is about to lower them |
| `InsertGate.GateExcludesGrowth` | crates/customhash/src/shard.rs:219-264 | the gate is the number of inserters inside, or exactly GROWING with none inside; a call inside works on the current table |
| `InsertGate.TableStaysSound` | crates/customhash/src/shard.rs:307-396 | each key has at most one slot on an unbroken chain; used slots and reservations add up to `len`, which is within the threshold and below the capacity; the table stands for what the inserts and removals did |
| `InsertGate.ProbesEnd` | crates/customhash/src/shard.rs:327-395 | a call that is probing has a null slot ahead of it within one lap |
| `InsertGate.PlacedKeyIsNew` | crates/customhash/src/shard.rs:328-395 | the compare-and-swap that takes a slot takes it for a key that is nowhere in the table and not in the map |
| `InsertGate.ReturnedMeansInserted` | crates/customhash/src/shard.rs:307-396 | over the steps of any run, a call that was started and has returned has bound its key to its value at some instant in between |
| `InsertGate.NothingInvented` | crates/customhash/src/shard.rs:307-396 | over the steps of any run, the map binds only keys to values that some call was started with |
| `InsertGate.RemovalTakesKey` | crates/customhash/src/lib.rs:230-250 | a removal takes the key of its slot from the map, and no other |
| `InsertGate.LoneCallInserts` | crates/customhash/src/shard.rs:307-453 | from every reachable state, full tables included, a call that alone is at work returns with its key bound to its value and nothing else changed |
| `Seqlock.OddWhileWriting` | crates/customhash/src/shard.rs:63-133 | the sequence is odd exactly while some lock holder is between its two bumps, and no two writers hold the lock |
| `Seqlock.ReadsAreWhole` | crates/customhash/src/lib.rs:383-405 | a read returned after fewer than 2^32 bumps saw the cells of a value that the entry held whole, occupied, at one instant |
| `Seqlock.ClosesAs` | crates/customhash/src/lib.rs:230-430 | the version that a writer closes is occupied exactly unless it removes, and holds the cells as they are |
| `Seqlock.CellsAsWritten` | crates/customhash/src/lib.rs:349-364 | over the steps of any run, every cell holds what was last written to it |
| `Seqlock.DropsExactly` | crates/customhash/src/lib.rs:230-347 | a writer that finishes has dropped the old value exactly if it replaces or removes it |
| `Seqlock.LoneWriterWrites` | crates/customhash/src/lib.rs:230-430 | a writer that finds the lock free and the entry as it wants it gets through with two bumps and leaves the new value, or the entry unoccupied |
| `Seqlock.LoneReaderReads` | crates/customhash/src/lib.rs:383-405 | a reader that nothing disturbs answers with the value of an occupied entry, and with none for an unoccupied one |
| `Seqlock.AbsentWasGone` | crates/customhash/src/lib.rs:383-405 | a read that has answered none began before some instant at which the entry was unoccupied |
| `Seqlock.BlindSetDropsTwice` | crates/customhash/src/lib.rs:175-190 | a run in which `set`, which does not test the occupied bit again under the lock, drops a value that a removal has dropped |
| `Seqlock.DropsSafeIffRechecking` | crates/customhash/src/lib.rs:230-364 | no run drops a value twice if and only if every writer tests the occupied bit under the lock |
| `Seqlock.WrapTearsRead` | crates/customhash/src/lib.rs:383-405 | after exactly 2^32 bumps the sequence compares equal and the read returns cells of two different values |
| `Seqlock.ReadsWholeIffBelowWrap` | crates/customhash/src/lib.rs:383-405 | for a bound on the bumps during a read: all returned reads are whole if and only if the bound is at most 2^32 |
| `Wakeup.StepKeepsInv` | src/pubsub/slot.rs:22-98 | every atomic step of push, notify and the two drains keeps the wake-up invariant |
| `Wakeup.RunKeepsInv` | src/pubsub/slot.rs:22-98 | the invariant holds after every interleaving of any number of publishers with the worker |
| `Wakeup.WakeupsNotLost` | src/pubsub/slot.rs:22-98 | when no call is in flight, a pending token has a wake outstanding, and a queued frame has its token pending or held by the worker |
| `Wakeup.FramesAccounted` | src/pubsub/slot.rs:69-98 | `len` is the queued frames plus those being pushed plus those popped and not yet subtracted; frames leave each slot once, in queue order |
| `Wakeup.FramesReachTheirSlot` | src/pubsub/slot.rs:69-75 | over the steps of any run, what a slot has accepted, with what calls carry to it, is what was pushed to that slot, frame by frame |
| `Wakeup.EveryFrameDelivered` | src/worker.rs:125-176 | from every reachable state without a call under way, the worker, draining only slots whose tokens it has taken, delivers every accepted frame in the order of acceptance |
| `Wakeup.SkippedDrainLosesWakeup` | src/handler/conn.rs:90-95 | a run in which a token taken without a drain strands a later frame |
| `Wakeup.NoLossIffDrained` | src/worker.rs:125-176 | no run loses a wake-up if and only if every token the worker takes is followed by a drain |
| `Probe.NullMeansAbsent` | crates/customhash/src/shard.rs:267-281 | a probe that reaches a null slot proves the key to be nowhere in the table |
| `Probe.PlaceKeepsWellFormed` | crates/customhash/src/shard.rs:332-395 | placing an absent key at the null slot that ends its probe keeps every chain unbroken and every key unique |
| `Probe.RewriteKeepsWellFormed` | crates/customhash/src/shard.rs:284-305 | overwriting or tombstoning an entry keeps every chain unbroken |
| `Probe.RepresentsUnique` | crates/customhash/src/shard.rs:267-281 | a table stands for at most one finite map |
| `Probe.WriteRepresents` | crates/customhash/src/shard.rs:284-305 | writing one slot changes the map that the table stands for at that key alone |
| `Probe.LiveIsSize` | crates/customhash/src/lib.rs:436-438 | the live entries are as many as the keys of the map, whatever tombstones there are |
| `Probe.RehashCorrect` | crates/customhash/src/shard.rs:412-453 | rehashing the live entries into a table with room for them adds exactly their map, keeps every chain unbroken, and uses one slot for each |
| `Probe.FreshRehash` | crates/customhash/src/ops.rs:146-188 | a fresh table filled from another stands for the same map, with no tombstones |
| `Probe.GrowthLeavesRoom` | crates/customhash/src/shard.rs:412-423 | a table filled to its threshold is strictly below the threshold of the grown one, and the grown capacity is a power of two |
| `Probe.CompactionFits` | crates/customhash/src/ops.rs:146-156 | the live entries are within the threshold of the capacity that compaction computes for them |
| `Probe.CompactCapLeast` | crates/customhash/src/ops.rs:154-157 | the capacity of a compaction is the least power of two, from 8 on, above ten ninths of the live entries |
| `ShardedMap.Shard.Find` | crates/customhash/src/shard.rs:267-281 | the slot of the key, or none exactly when no slot has it |
| `ShardedMap.Shard.Grow` | crates/customhash/src/shard.rs:398-453 | below the threshold nothing changes; at it the table is doubled, the contents stay and there is room |
| `ShardedMap.Shard.InsertNew` | crates/customhash/src/shard.rs:307-396 | the contents are those before with the key bound; `is_new` exactly when it was absent; at most one growth |
| `ShardedMap.Shard.InsertHashed` | crates/customhash/src/shard.rs:284-305 | the same for an insert that may meet a live entry or a tombstone |
| `ShardedMap.Shard.InsertIfAbsent` | crates/customhash/src/lib.rs:407-433 | a present key keeps its value |
| `ShardedMap.Shard.Remove` | crates/customhash/src/lib.rs:230-251 | the key is gone, its value comes back, nothing else changes |
| `ShardedMap.Shard.TryUpdate` | crates/customhash/src/lib.rs:321-347 | a present key takes the value the closure gives, if it gives one; nothing else changes |
| `ShardedMap.Shard.RetainRange` | crates/customhash/src/ops.rs:88-128 | exactly the keys that the predicate rejects in the slot range are gone, and they are counted |
| `ShardedMap.Shard.Compact` | crates/customhash/src/ops.rs:130-188 | the contents stay; the table is replaced exactly if the computed capacity is smaller, and then has that capacity |
| `ShardedMap.Shard.Clear` | crates/customhash/src/ops.rs:191-218 | the shard is empty with a fresh table |
| `ShardedMap.CopyLive` | crates/customhash/src/shard.rs:424-446 | the loop over the old slots computes the rehash of the live entries and counts them |
| `ShardedMap.PutInto` | crates/customhash/src/shard.rs:436-445 | the probe loop for one moved entry computes its placement |
| `ShardedMap.CustomMap.constructor` | crates/customhash/src/lib.rs:52-81 | a map of n shards holds nothing |
| `ShardedMap.CustomMap.Insert` | crates/customhash/src/lib.rs:149-157 | binds the key in the finite map; `is_new` exactly when it was absent; `key_count` stays the size of the map |
| `ShardedMap.CustomMap.TryInsert` | crates/customhash/src/lib.rs:159-173 | refused exactly when the map is at capacity and the key is absent; the size never comes to exceed `max_keys` |
| `ShardedMap.CustomMap.Get` | crates/customhash/src/lib.rs:122-132 | the value bound to the key, or none |
| `ShardedMap.CustomMap.InsertIfAbsent` | crates/customhash/src/lib.rs:407-433 | binds the key only if it was absent |
| `ShardedMap.CustomMap.Remove` | crates/customhash/src/lib.rs:230-298 | unbinds the key and returns its value |
| `ShardedMap.CustomMap.TryUpdate` | crates/customhash/src/lib.rs:301-364 | changes the value of a present key as the closure says, and nothing else |
| `ShardedMap.CustomMap.CompactShard` | crates/customhash/src/ops.rs:130-188 | compacting a shard leaves the map unchanged |
| `ShardedMap.CustomMap.RetainShardRange` | crates/customhash/src/ops.rs:88-128 | removes from the map exactly what the predicate rejects in those slots; none for a shard that does not exist |
| `ShardedMap.CustomMap.Retain` | crates/customhash/src/ops.rs:54-82 | the map keeps exactly the pairs that the predicate accepts |
| `ShardedMap.CustomMap.Clear` | crates/customhash/src/ops.rs:191-218 | the map is empty and the count is zero |
| `ZSet.PartitionPointExact` | src/storage/value/zset_data.rs:372-376 | on entries split by a predicate, the binary search finds the split |
| `ZSet.LessMeans` | src/storage/value/zset_data.rs:372-376 | one member comes before another exactly if, at the first place where they differ, it ends or has the smaller byte |
| `ZSet.InsertPosSplits` | src/storage/value/zset_data.rs:372-376 | everything before the insert position sorts before the entry, everything from it on after |
| `ZSet.OrderedUnique` | src/storage/value/zset_data.rs:89-125 | a score map has exactly one strictly sorted vector |
| `ZSet.MissMeansAbsent` | src/storage/value/zset_data.rs:52-58 | a member that the bloom filter rejects is not in the set, so skipping the scan duplicates nothing |
| `ZSet.FilterKept` | src/storage/value/zset_data.rs:89-112 | moving an entry leaves the filter without false negatives |
| `ZSet.ZSetData.BloomRebuild` | src/storage/value/zset_data.rs:75-87 | the rebuilt filter has no false negatives and the size for the number of entries |
| `ZSet.ZSetData.Insert` | src/storage/value/zset_data.rs:89-125 | keeps order, uniqueness and filter; new exactly when absent; a present score moves only by more than EPSILON |
| `ZSet.ZSetData.Remove` | src/storage/value/zset_data.rs:127-133 | the member is gone and its score comes back |
| `ZSet.ZSetData.GetScore` | src/storage/value/zset_data.rs:136-141 | the score of the member in the score map |
| `ZSet.ZSetData.Rank` | src/storage/value/zset_data.rs:143-147 | the number of members that sort before this one |
| `ZSet.ZSetData.PopMin` | src/storage/value/zset_data.rs:182-189 | removes and returns the member that sorts before all others |
| `ZSet.ZSetData.PopMax` | src/storage/value/zset_data.rs:191-195 | removes and returns the member that sorts after all others |
| `ZSet.ZSetData.Incr` | src/storage/value/zset_data.rs:335-358 | the score is the old one, or zero, plus the increment, whether or not the entry keeps its place |
| `ZSet.ZSetData.RemoveRangeByRank` | src/storage/value/zset_data.rs:283-291 | removes exactly the members at those ranks and counts them |
| `ZSet.ZSetData.RemoveRangeByScore` | src/storage/value/zset_data.rs:293-303 | removes exactly the members whose score is in the range |
| `ZSet.ZSetData.ShrinkToFit` | src/storage/value/zset_data.rs:360-363 | changes nothing but the filter |
| `ZSet.RangeInOrderIff` | src/storage/value/zset_data.rs:162-173 | the two searches are in order if and only if no score lies strictly between max and min |
| `ZSet.ReversedBoundsPanic` | src/storage/value/zset_data.rs:162-166 | one score between the bounds in the wrong order is enough for the panic |
| `ZSet.CountRightIff` | src/storage/value/zset_data.rs:176-180 | the count, taken modulo 2^64, is the number of scores in the range if and only if no score lies strictly between max and min |
| `ZSet.ReinsertedInOrder` | src/storage/rdb.rs:327-345 | inserting the entries of a sorted set in their order, as loading a snapshot does, gives the same sorted set |
| `ZSet.RangeIsFilter` | src/storage/value/zset_data.rs:162-166 | where they are in order, the slice is the linear filter of the entries by score |
| `ZSet.RangeByScore` | src/storage/value/zset_data.rs:162-173 | the filter whenever min <= max; no result exactly when the slice would panic |
| `Registry.PatternIndex.Add` | src/pubsub/registry.rs:188-196 | the subscriptions are those before with one more; buckets and `total` follow |
| `Registry.PatternIndex.Remove` | src/pubsub/registry.rs:198-209 | every entry with that pattern and that slot is gone, every other one is there as often as before and in the same order; `total` is the number left |
| `Registry.WithoutMeans` | src/pubsub/registry.rs:205 | the same of the list of subscriptions |
| `Registry.PatternIndex.Publish` | src/pubsub/registry.rs:264-298 | pushes to the same multiset of entries as a scan of all subscriptions, and returns their number; for a channel without a star these are the entries whose pattern means the channel |
| `Registry.BucketsSuffice` | src/pubsub/registry.rs:279-298 | the wildcard list and the bucket of the first byte hold every entry that matches |
| `Registry.OtherBucketMisses` | src/pubsub/registry.rs:173-196 | a pattern filed under a first byte matches no channel that starts otherwise |
| `Glob.GlobMatch` | src/utils/util.rs:12-35 | the loop ends and, for a subject without a star byte, answers whether the recursive definition matches |
| `Glob.MatchesIff` | src/utils/util.rs:12-35 | the recursive definition matches exactly if the subject can be cut into pieces, one for each byte of the pattern, that fit: any for a star, one byte for a question mark, itself for any other byte |
| `Glob.LastStarSuffices` | src/utils/util.rs:19-22 | once a later star is reached, giving up the earlier one loses no match |
| `Glob.GreedyIsMatches` | src/utils/util.rs:12-35 | greedy matching is the recursive definition on every subject without a star byte |
| `Glob.StarSubjectMisjudged` | src/utils/util.rs:16-18 | for every subject with a star byte there is a pattern that means it and is refused |
| `Glob.RightForAllPatternsIff` | src/utils/util.rs:12-35 | the matcher is right about a subject for all patterns if and only if the subject has no star byte |
| `Lcs.RollingLength` | src/storage/string.rs:419-434 | the two-row loop computes the last cell of the table |
| `Lcs.FillTable` | src/storage/string.rs:437-446 | every cell of the table, in 16-bit arithmetic |
| `Lcs.WalkBack` | src/storage/string.rs:448-461 | the backtracking loop follows the table to the recursive walk |
| `Lcs.LongestCommon` | src/storage/string.rs:410-463 | a common subsequence always; if one string is shorter than 65536 bytes, its bytes have the rolling length and no common subsequence is longer; if one string is ASCII, they are the text that is returned |
| `Lcs.WalkIsCommon` | src/storage/string.rs:448-461 | the walk is a subsequence of both strings |
| `Lcs.NoneLonger` | src/storage/string.rs:437-446 | no common subsequence is longer than the recurrence says |
| `Lcs.CellsExactIff` | src/storage/string.rs:419-446 | the 16-bit cells are exact for all strings of which one has at most k bytes if and only if k < 65536 |
| `Lcs.LongStringsFallShort` | src/storage/string.rs:419-463 | 65536 equal bytes are common to themselves and to themselves with one more, and 65535 are returned |
| `Lcs.LongestIff` | src/storage/string.rs:419-463 | no common subsequence is longer than the one returned, for all strings of which one is ASCII and one has at most k bytes, if and only if k < 65536 |
| `Lcs.AccentsLoseAll` | src/storage/string.rs:463 | two strings that have a letter in common, and for which an empty string is returned |
| `Lcs.LongestForAllIff` | src/storage/string.rs:419-463 | for a string of fewer than 65536 bytes, what is returned is longest against every UTF-8 string if and only if the string is ASCII |
| `Resp.Out.WriteUsize` | src/utils/resp.rs:154-165 | the pushed and reversed digits are the decimal text |
| `Resp.Out.WriteBulkBytes` | src/utils/resp.rs:33-56 | all three length cases write the same bulk string |
| `Resp.Out.WriteArray` | src/utils/resp.rs:91-103 | appends the encoding of the command |
| `Resp.ParseUsize` | src/utils/parser.rs:128-156 | both loops return the number that the digits denote, and none for anything else, anything above the limit, and machine overflow |
| `Resp.RespParser.ReadBuf` | src/utils/parser.rs:37-49 | the unread bytes stay and at least 1024 bytes are free |
| `Resp.RespParser.DidFill` | src/utils/parser.rs:52-54 | the received bytes join the unread ones |
| `Resp.RespParser.ScanLine` | src/utils/parser.rs:117-124 | the next line of the unread bytes, or none |
| `Resp.RespParser.ParseOne` | src/utils/parser.rs:56-114 | the verdict is a function of the unread bytes; a complete command is taken off them; an incomplete one leaves the buffer and the position as they were; the shrink loses no unread byte; the arguments were found at the recorded positions, and these are still in the buffer if and only if bytes are left or the buffer has at most 16384 bytes |
| `Resp.RespParser.DoRead` | src/handler/conn.rs:63-87 | one burst, read in pieces of any size, dispatches what draining the unread bytes finds |
| `Resp.ParseStable` | src/utils/parser.rs:56-114 | a verdict other than incomplete does not depend on bytes that arrive later |
| `Resp.ParseEncoded` | src/utils/parser.rs:56-114 | the parser gives back a written command and what follows it exactly when the command is within the limits, and an error otherwise |
| `Resp.ParseIff` | src/utils/parser.rs:56-156 | the parser accepts exactly the commands on the wire: an array line and as many bulk strings as it says, each as long as its line says, with any digits for a length and any bytes where the code ignores them |
| `Resp.ErrorCloses` | src/handler/conn.rs:74-87 | commands before bytes that are no command are dispatched, and the connection is closed |
| `Resp.WrongMarkIsError` | src/utils/parser.rs:69-71 | a line that does not start with a star is an error |
| `Resp.ParseTruncated` | src/utils/parser.rs:56-98 | any proper prefix of a written command is incomplete |
| `Resp.DrainSplit` | src/handler/conn.rs:74-87 | parsing in two goes finds the commands that parsing at once finds |
| `Resp.ChunkingIrrelevant` | src/handler/conn.rs:63-87 | any byte stream, well formed or not, gives the same commands however it is cut |
| `Resp.CommandsArrive` | src/handler/conn.rs:63-87 | commands within the limits arrive exactly and in order through any cut, with a partial one left over |
| `RdbFormat.LittleEndianExact` | src/storage/rdb.rs:428-457 | writing and reading a number that fits its field is the identity |
| `RdbFormat.ByteOrder` | src/storage/rdb.rs:428-457 | numbers are written with the least significant byte first |
| `RdbFormat.TypeBytes` | src/storage/rdb.rs:15-21 | which byte stands for which type |
| `RdbFormat.SkipAgreesWithRead` | src/storage/rdb.rs:216-264 | on any bytes from which a value of any type can be read, skipping it stops at the same byte |
| `RdbFormat.BodyEncoded` | src/storage/rdb.rs:56-141 | a written value reads back exactly when it is within the load limits and its strings are UTF-8, and is always passed over by a skip |
| `RdbFormat.BodyStable` | src/storage/rdb.rs:266-388 | reading a value does not depend on the bytes after it |
| `Rdb.NextEncoded` | src/storage/rdb.rs:199-392 | a written record is kept, skipped or refused exactly as its limits, its strings and its expiry say |
| `Rdb.NextTruncated` | src/storage/rdb.rs:199-392 | a record cut anywhere but at its start is an error |
| `Rdb.RoundTrip` | src/storage/rdb.rs:199-392 | loading a written file inserts exactly the unexpired records, in order, and ignores what follows the end mark |
| `Rdb.Truncated` | src/storage/rdb.rs:199-392 | a file cut inside a record loads the records before it and then fails; cut between records it succeeds |
| `Rdb.CutKeepsPrefix` | src/storage/rdb.rs:199-392 | for every cut the keys inserted come from the records that lie wholly before it |
| `Rdb.OverLimitStops` | src/storage/rdb.rs:266-391 | loading stops with an error at the first record over a limit or with a string that is no UTF-8, and keeps those before |
| `Rdb.ListingBuilds` | src/storage/rdb.rs:274-292 | a listing of a map in any order builds that map |
| `Rdb.RestoredIff` | src/storage/rdb.rs:266-381 | the body that lists a value, in any order for hashes and sets, builds that value again if and only if it is not a stream with groups or with a last id that is not its greatest |
| `Rdb.DeletedLastForgotten` | src/storage/rdb.rs:123-140 | a stream whose last entry was deleted comes back with the last id of the entry before it |
| `Rdb.GroupForgotten` | src/storage/rdb.rs:123-140 | a stream with a consumer group comes back without it |
| `Rdb.LoadsIff` | src/storage/rdb.rs:160-392 | a snapshot loads without an error if and only if every record is within the limits and its strings are UTF-8 |
| `Rdb.VersionIff` | src/storage/rdb.rs:188-194 | files with a version byte up to 2 load alike, and later ones change nothing and are refused |
| `Rdb.ForeignRefused` | src/storage/rdb.rs:171-185 | a file that is too short or starts with other letters changes nothing and is refused |
| `Rdb.LargeHashRefused` | src/storage/rdb.rs:274-292 | a hash of 10000001 fields is saved and cannot be loaded |
| `Rdb.BitmapRefused` | src/storage/bitmap.rs:36-46 | a bitmap whose first bit is set is saved and cannot be loaded |
| `Rdb.SnapshotRestoresIff` | src/storage/rdb.rs:26-392 | a snapshot of a store, loaded later, gives that store without the keys expired by then, if and only if every record is within the limits and of UTF-8 and every value still alive is intact |
| `RdbFile.Writer.WriteRecord` | src/storage/rdb.rs:56-141 | the writes for each of the seven types append the encoded record |
| `RdbFile.Writer.Save` | src/storage/rdb.rs:26-146 | the loops over shards and slots write the file of the unexpired records |
| `RdbFile.Reader.ReadString` | src/storage/rdb.rs:459-471 | the string that the format describes, or a failure |
| `RdbFile.Reader.SkipString` | src/storage/rdb.rs:473-483 | skipping in 8192-byte pieces passes over the string exactly |
| `RdbFile.Reader.ReadValue` | src/storage/rdb.rs:266-388 | the value built is the one that the items read determine |
| `RdbFile.Reader.SkipValue` | src/storage/rdb.rs:216-264 | the skip loops of all types pass over what the format describes |
| `RdbFile.Loader.Load` | src/storage/rdb.rs:164-395 | the store after a load, and whether it succeeds, are those of the format; the result counts the keys inserted |
| `Json.StringBack` | src/storage/value/json_value.rs:14-31 | a printed string reads back as itself if nothing was escaped, and otherwise byte by byte as code points |
| `Json.NumberBack` | src/storage/value/json_value.rs:55-62 | a printed integer reads back exactly, if no digit, dot or exponent follows |
| `Json.LiteralRead` | src/storage/value/json_value.rs:368-397 | any text that is a number as a whole reads as that number, if no digit, dot or exponent follows |
| `Json.ValueBack` | src/storage/value/json_value.rs:51-88 | any tree of finite numbers reads back with its strings reread, and reading stops where the text ends; a tree with another number does not read back |
| `Json.RereadIff` | src/storage/value/json_value.rs:304-366 | rereading changes nothing if and only if every string and key is ASCII or free of quotes and backslashes |
| `Json.RoundTripIff` | src/storage/value/json_value.rs:266-278 | the printed text of a tree parses if and only if its numbers are finite, and gives back the same tree if and only if, besides, every string and key is ASCII or free of quotes and backslashes |
| `Json.StoredTextIff` | src/storage/value/mod.rs:138-147 | every tree that the parser gives can be printed, and the same holds of it |
| `Json.HugeNumberUnreadable` | src/storage/value/json_value.rs:55-62 | the text 1e999 parses, and what it prints does not |
| `Json.AccentBeforeQuoteChanges` | src/storage/value/json_value.rs:361 | a string with a non-ASCII character and a quote that comes back different |
| `JsonCode.Out.WriteString` | src/storage/value/json_value.rs:14-31 | copying stretches between escapes writes the quoted string |
| `JsonCode.Out.Write` | src/storage/value/json_value.rs:51-88 | appends the printed tree |
| `JsonCode.ParseString` | src/storage/value/json_value.rs:304-366 | both loops together read a string as specified |
| `JsonCode.ParseNumber` | src/storage/value/json_value.rs:368-397 | the index loops find the number that is specified |
| `JsonCode.ParseArray` | src/storage/value/json_value.rs:428-445 | the loop collects the items of the array |
| `JsonCode.ParseObject` | src/storage/value/json_value.rs:399-426 | the loop collects the members of the object |
| `JsonCode.ParseText` | src/storage/value/json_value.rs:266-278 | the whole parser computes the specified result |
| `JsonText.EscapesMeanWhatTheySay` | src/storage/value/json_value.rs:331-365 | a string with any escapes is read as the code points that they stand for, by a table of the letters and the four hexadecimal digits in either case, with U+FFFD for a surrogate |
| `JsonText.OtherEscapeRefused` | src/storage/value/json_value.rs:358 | a backslash before any other letter is refused |
| `JsonText.PlusRead` | src/storage/value/json_value.rs:349-357 | of the four hexadecimal digits the first may be a plus |
| `JsonText.NumeralMeans` | src/storage/value/json_value.rs:368-397 | a number text stands for its integer, for infinity or for itself, as its sign, digits and power of ten say |
| `JsonText.DocumentsAreRead` | src/storage/value/json_value.rs:266-445 | every document of the grammar, whatever its white space, escapes and numbers, is read as the tree that it describes |
| `JsonText.MoreIsRefused` | src/storage/value/json_value.rs:271-276 | anything but white space after a document is refused |
| `Json.OverflowIsHalfWay` | src/storage/value/json_value.rs:395 | the numbers that become infinite are those from half way between the largest double and 2^1024 on |
| `Json.PointMoves` | src/storage/value/json_value.rs:395 | ten times the digits and one power of ten less are the same number |
| `Ttl.StepKeepsInv` | src/storage/store.rs:81-125 | every step of an operation, a flush, a rehash or the expiry thread that makes none of the seven overlaps keeps the counter, with what operations have yet to add or subtract, at least the number of entries with an expiry, and the pass at least what it has gone by |
| `Ttl.RunKeepsInv` | src/storage/store.rs:81-125 | the invariant holds at every point of every run without an overlap |
| `Ttl.NothingHidden` | src/storage/store.rs:81-125 | when no operation is under way in a run without an overlap, `ttl_count` is at least the number of entries with an expiry, so zero means there are none |
| `Ttl.NeverBelow` | src/storage/store.rs:81-125 | the same for every run in which operations, flushes and passes run one after another |
| `Ttl.FlushInEndHides` | src/storage/store.rs:110-125 | a run in which a flush and a new key fall between the look at the counter and the exchange, and the key goes uncounted |
| `Ttl.FlushInChunkHides` | crates/customhash/src/ops.rs:88-128 | a run in which a chunk goes on in a table that a flush has replaced, and lowers the counter for an entry that is gone |
| `Ttl.FlushInOperationHides` | src/storage/string.rs:11-24 | a run in which a flush falls between the counter and the entry of a set |
| `Ttl.FlushAfterLookupHides` | crates/customhash/src/lib.rs:348-364 | a run in which a flush falls between the lookup of a persist and its write: the persist takes the expiry off an entry that is no longer stored, and the counter is lowered for another key |
| `Ttl.OperationInFlushHides` | src/storage/server.rs:100-102 | a run in which a key is stored and counted between the clearing of the tables and the zeroing of the counter |
| `Ttl.PassBeginsInAddHides` | src/storage/string.rs:11-24 | a run in which a whole pass falls between the counter and the entry of a set |
| `Ttl.PassEndsInUncountHides` | src/storage/keys.rs:51-66 | a run in which a pass ends between the entry and the counter of a persist, which then lowers an exact counter |
| `Ttl.UncountInRemovalHides` | src/storage/server.rs:23-52 | a run in which a persist and the removal of the same expired entry both lower the counter |
| `Ttl.NothingHiddenIff` | src/storage/store.rs:81-125 | for any set of overlaps that may happen, no run hides a key if and only if the set is empty |
| `Ttl.QuietPassExact` | src/main.rs:197-237 | a pass of the expiry thread in which nothing else happens leaves the counter exact |
| `Ttl.QuietPassSweeps` | src/storage/server.rs:23-52 | such a pass takes away exactly the entries that have expired by its clock, and changes no other slot |
| `Ttl.PassEnds` | src/main.rs:197-237 | such a pass ends within six steps for each slot and each shard, and five more |
| `TtlStore.ResultIsRun` | src/storage/keys.rs:33-66 | what an operation does when nothing interrupts it is a run of the machine |
| `TtlStore.TurnIsRun` | src/main.rs:197-237 | what a turn of the expiry thread does when nothing interrupts it is a run of the machine |
| `TtlStore.Store.Set` | src/storage/string.rs:11-16 | writes the expiry given to that slot and no other, and raises counter and generation exactly if it is not zero; this is what the machine does, counter first |
| `TtlStore.Store.SetString` | src/storage/string.rs:27-36 | the same, entry first |
| `TtlStore.Store.ExpireMs` | src/storage/keys.rs:33-49 | writes the expiry given to that slot if it holds an entry that has not expired, and changes no other; true, with counter and generation raised, exactly for an entry that had none; this is what the machine does |
| `TtlStore.Store.Persist` | src/storage/keys.rs:51-66 | takes the expiry off that slot and lowers the counter, not below zero, exactly if it is true, which it is for an entry with an expiry to come; nothing else changes; this is what the machine does |
| `TtlStore.Store.GetexMs` | src/storage/string.rs:121-143 | writes the expiry given to a live string and to nothing else, raises the counter if it had none and lowers it if it has none now; this is what the machine does |
| `TtlStore.Store.Del` | src/storage/keys.rs:7-9 | empties that slot and no other; the counter stays; this is what the machine does |
| `TtlStore.Store.Flush` | src/storage/server.rs:100-102 | every slot is empty, every table has 8 slots, the counter is zero and the generation raised; this is what the machine does shard by shard |
| `TtlStore.Store.CleanupExpiredShard` | src/storage/server.rs:23-52 | removes the expired entries of the slot range, lowers the counter for each, and returns how many were removed and how many remain with an expiry |
| `TtlStore.SweptMeans` | src/storage/server.rs:36-50 | what has expired in the slot range is gone, and nothing else |
| `TtlStore.Store.FinishTtlScan` | src/storage/store.rs:110-125 | replaces the counter exactly if the generation is unchanged |
| `TtlStore.Expirer.Turn` | src/main.rs:197-237 | one turn of the loop does what the machine does for a chunk and, after the last shard, for the end of the pass |
| `Scan.UnpackIff` | src/storage/scan.rs:13-17 | packing and unpacking a position is the identity if and only if shard < 4096 and slot < 2^20 |
| `Scan.Scan` | src/storage/scan.rs:5-49 | the nested loops compute the page that is specified |
| `Scan.PageSound` | src/storage/scan.rs:19-46 | the keys of a page and those after its stop are those ahead of its start |
| `Scan.PageSize` | src/storage/scan.rs:30-40 | a page that is not the last has exactly as many keys as were asked for, and no page has more |
| `Scan.EmptyPage` | src/storage/scan.rs:22-40 | asked for no keys, a page looks at one slot |
| `Scan.ScanComplete` | src/storage/scan.rs:5-49 | following the cursor from 0 to 0 with any counts ends and lists every live matching key once, in slot order |
| `Scan.ListingMembers` | src/storage/scan.rs:22-27 | a key is listed exactly when some slot holds it, live and matching |
| `Scan.ListingUnique` | src/storage/scan.rs:22-27 | if no key is stored twice, none is listed twice |
| `Scan.RoundTable` | src/storage/scan.rs:13-40 | a table with one key at a slot after which the packed cursor leads back: following the cursor never gets past it |
| `Scan.EndsEarly` | src/storage/scan.rs:13-40 | a first shard with more than 2^20 slots: the cursor of slot 2^20 is 0, and the keys after it are not listed |
| `Scan.ReliableIff` | src/storage/scan.rs:13-40 | for given shard sizes, following lists everything for all contents if and only if there are at most 4096 shards of at most 2^20 slots |
| `Collections.CanonicalIff` | src/storage/value/collections.rs:392-395 | text is recognised as an integer if and only if it is the printed text of that 64-bit integer |
| `Bytes.DecimalOrder` | src/storage/value/collections.rs:392-395 | decimal digits, the most significant first |
| `Collections.NotCanonical` | src/storage/value/collections.rs:392-395 | text with a leading zero or plus sign stays a string |
| `Collections.ListsSwapOut` | src/storage/value/collections.rs:84-103 | removing a pair by moving the last pair into its place removes exactly its field |
| `Collections.HashInner.Get` | src/storage/value/collections.rs:39-52 | the value of the field in the map |
| `Collections.HashInner.Insert` | src/storage/value/collections.rs:61-80 | binds the field in the map across promotion; new exactly when absent |
| `Collections.HashInner.Remove` | src/storage/value/collections.rs:84-112 | unbinds the field across demotion; some result exactly when it was present, and which payload each form gives |
| `Collections.HashInner.Len` | src/storage/value/collections.rs:115-120 | the size of the map |
| `Collections.HashInner.Promote` | src/storage/value/collections.rs:153-165 | the table holds the map of the flat list |
| `Collections.HashInner.Demote` | src/storage/value/collections.rs:167-178 | the flat list, in any order, stands for the map of the table |
| `Collections.TextsHas` | src/storage/value/collections.rs:294-297 | a string is a member of an integer set exactly when it is canonical and its integer is one |
| `Collections.SetInner.Insert` | src/storage/value/collections.rs:229-260 | adds the member in every form; new exactly when absent |
| `Collections.SetInner.Remove` | src/storage/value/collections.rs:263-291 | removes the member in every form; true exactly when present |
| `Collections.SetInner.Contains` | src/storage/value/collections.rs:294-300 | membership in the set of strings |
| `Collections.SetInner.Len` | src/storage/value/collections.rs:303-309 | the size of the set |
| `Collections.SetInner.Promote` | src/storage/value/collections.rs:324-333 | the table holds the members of the list |
| `Collections.SetInner.Demote` | src/storage/value/collections.rs:335-342 | the list, in any order, holds the members of the table |

## Left out

- Weak memory: all steps are sequentially consistent; the choice of Acquire and Release orderings is not modelled.
- The orphan list of `ebr.rs`: nothing is ever pushed to it.
- Raw memory layout, the allocator and packed strings: keys and values are plain sequences.
- Revival of tombstones concurrent with growth or compaction, and `peek_slot` loading the table before it pins: these operations are sequential here.
- InsertGate.StepKeepsInv: growth is one step, so a removal does not fall between two steps of the loop that copies entries to the new table.
- InsertGate.RunKeepsInv: the same.
- Ebr.FreedOnce: that callers retire an object once is an assumption.
- ShardedMap.CustomMap.Insert: `set` and `try_set` are not separate members, because one after another they mean what `insert` and `try_insert` mean.
- ShardedMap.CustomMap.TryUpdate: `update` and `update_with` are the same with a closure that always gives a value.
- Registry.PatternIndex.Publish: the pattern part of `publish`; the exact channels, copy-on-write lists that are searched for the name, would add only an easy member.
- Lexicographic ranges and random members of sorted sets: linear filters and a pseudo-random sequence.
- ZSet.ZSetData.Insert: scores are reals, so NaN and rounding are not captured; a changed score of at most EPSILON is ignored as in the code.
- Resp.RespParser.ParseOne: the commands of `DoRead` are the bytes captured when an argument is recorded; whether they are still in the buffer is stated and not used. A header line too short for its slice is the outcome Panic.
- A connection that the peer closes, and the dispatch of commands.
- Rdb.SnapshotRestoresIff: a sorted set is the list of its entries in order, which is also the list of inserts that the loader performs; that these give the same sorted set is `ZSet.ReinsertedInOrder`. The writer sees one state of the store; changes during a save are not modelled, except that keys expire.
- RdbFile.Writer.Save: takes the records in the order in which the shards and slots are visited; what such records are for a store is the predicate `Saves` of `Rdb`.
- Rdb.LoadsIff: lengths and counts fit the 32 bits that they are written with.
- Errors of the file system, `rename`, `fsync` and the background saver.
- Json.RoundTripIff: two texts for the same double are different values, because the formatting of doubles is not modelled.
- JsonCode.Out.Write: a double that is no integer of at most 2^53 is written as the text that stands for it.
- JsonCode.ParseNumber: the loops find the text; its conversion to a double is a function of the text.
- JsonCode.ParseText: trims ASCII white space only; `str::trim` also trims other Unicode white space, which no printed text starts or ends with.
- JSON paths and in-place edits of JSON trees.
- TtlStore.Expirer.Turn: the compactions that the loop makes after a shard are rehash steps of the machine in `Ttl`, and not part of the turn.
- `cleanup_expired`, which only tests call, and operations that bypass the accounting of expiries: SET with NX, XX or GET, rename, copy and snapshot loading.
- Collections.SetInner.Insert: states no size bound for the list form, because the step from integers to strings has none.
- Bulk construction in `hset`, which does not remove duplicate fields; lists, which only switch between two equal forms.
- Subscribe and unsubscribe reply counters, command parsing, geographic commands, HyperLogLog, and the formatting of floats.
