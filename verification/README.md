# Verified models of stellar-core's storage structures

Dafny models of the parts of stellar-core that carry its hardest data-structure
arguments, with proofs of what those parts promise.

* **The bucket list** is a log-structured merge tree with eleven levels. Every ledger
  adds a batch of entries; levels spill into each other on a fixed schedule, and merges
  run in the background. `LedgerSchedule`, `BucketSizes`, `BucketEntries`,
  `BucketListModel`, `BucketHistory`, `BucketListInvariant`, `BucketListTheorems`,
  `BucketListRestart`, `BucketListInits`, `BucketListMisuse`, `BucketListContents` and
  `BucketListImproper` hold the state machine and the theorems over whole runs.
  `BucketMerge`, `BucketList`, `BucketListSnapshot`, `BucketApplicator` and
  `BucketMergeMap` are the loops and classes of the source, proved against that machine.
* **The binary fuse filter** answers membership questions with a small false-positive
  rate and no false negatives. `FuseGeometry`, `FusePlacement`, `FuseTables`, `FuseFill`,
  `FusePeeling`, `FuseAssign`, `FuseAttempt`, `FuseSeeds`, `FuseFilter` and
  `FuseSerialize` follow the population of a filter from the hashes to the fingerprints,
  and the serialised form. `FuseFailures` has keys for each way in which a population fails.
* **Self-contained algorithms**: the in-place block exchange of `getopt_long`
  (`PermuteArgs`), portable 128-bit arithmetic (`Uint128`), the base 16/32/64 codecs
  (`BaseN`) and the bitset (`Bitset`, over `BitWords`).

`DivMod`, `Bits` and `Wrappers` are shared: division by a variable divisor, bitwise
operations on naturals, and result types.

## Main results

1. For every run of consecutive well-formed batches, and whenever the background merges
   happen to finish, looking a key up from the newest bucket to the oldest gives what
   replaying all batches on a plain map gives (`LookupIsReplay`). No merge in such a run
   fails.
2. After every ledger the buckets cover exactly the ledgers so far, each once
   (`RangesPartition`, `NothingLostOrDuplicated`); a closed form of the ranges is proved
   to be what the mutually recursive size functions of the source compute.
3. In every reachable list each bucket holds, for a key that its ledgers create, update and
   delete properly, exactly the INIT, LIVE or DEAD entry, or none, that their net effect
   calls for (`HoldsNetChange`). A tombstone stays for as long as an older bucket may hold
   the key (`DeletionsKept`), and the last level never has one (`NoTombstoneAtBottom`).
4. Forgetting all pending merges and restarting them gives a list that cannot be told
   apart under any later batches (`RestartIsInvisible`).
5. A filter whose population succeeds reports every key it was given and writes no slot that
   belongs to none of them (`Populate`); it keeps the seed of the first attempt that
   succeeds. An
   attempt succeeds if and only if no 64 of the hashes it keeps share a slot and some
   peeling order of them exists (`Attempt`, `PeelingIsComplete`). The hashes kept by the
   attempts, and what they leave behind, decide the outcome of the whole population, for
   all keys; where the seeds tried hash the keys apart, the hashes themselves decide it.
6. The rotation, the 128-bit operations, the codecs and the bitset compute the
   mathematical operation they stand for, on all inputs.

## Where the code falls short of what one might expect

* Forgetting a merge output keeps the map of merge keys exact if and only if the
  forgotten keys never produced anything else (`ForgetKeepsKeysIff`;
  `ForgetCanLoseAKey` is a run where a key is lost).
* An INIT entry for a key that is already live breaks the list. The close of its own
  ledger refuses the batch if and only if that ledger is odd and the one before wrote the
  key (`RefusedIffRewritesNewest`). Where it is accepted, at any ledger and whatever the
  batches hold for other keys, a later deletion does not last: once the key has been left
  alone for three periods of the last level, a close has failed or the old value is back
  (`MisuseShows`). Deletions right after a batch last if and only if every INIT of the batch
  creates an absent key (`DeletionsLastIffInitsCreate`). At an even ledger the old value is
  back right after the deletion (`InitOverLiveRevives`, `InitInitDeadRevives`). The theorems
  on whole runs ask that INIT entries only create absent keys, and leave LIVE and DEAD
  entries unrestricted.
* A LIVE or DEAD entry for an absent key is accepted and every lookup stays right, but what
  the buckets hold then depends on the order of the merges (`MergeOrderMatters`). A bucket
  that a key is created in, deleted in and written in as LIVE can end with a LIVE entry
  where the net effect is a creation (`ImproperWriteLeavesLive`, a run of ten ledgers).
  `HoldsNetChange` asks for proper use for that reason.
* The counter-overflow branch of the filter's population also clears the sentinel slot, and
  so may the sort after an attempt, by a zero hash. Placement finds room for all hashes,
  whatever they are, if and only if the sentinel is set or there are fewer than two hashes
  (`SentinelExactlyNeeded`). `Populate` stops with `SentinelLost` at that point. With
  stand-ins for the keyed hash, 64 keys get there by an overflow, in every array
  (`CountersOverflow`), and four keys, one of them repeated, by a zero hash
  (`ZeroTakesSentinel`).
* The rotation of the seed indexes a 16-byte array with the attempt number divided by 16,
  so the 257th failed attempt would leave the array long before the limit of a million
  attempts; `Populate` stops with `SeedExhausted`. Two keys with the same three slots under
  every seed get there (`TwinsExhaust`); `SeedsRunOut` gives such keys for a stand-in of the
  keyed hash, since SipHash itself is not modelled.
* With exactly 2^32 - 1 keys the length of the slot array wraps to zero and the sentinel
  cannot be written; `Populate` answers `OutOfRange`.
* `bitset_equal` compares only the words both sets have. It answers set equality if and
  only if those words differ or the longer tail is empty (`Equal`, `EqualCanBeWrong`).
* `part_div` returns three digits that spell the value if and only if the third digit
  fits 64 bits; every value has such digits if and only if the base is at least 2^32
  (`DigitsSufficeIff`, `SmallBase`), as the base 10^19 used for printing is.
* The batched slots of a hash agree with the indexed slots for every hash if and only if
  a segment has at most 2^18 slots.
* The ranges that src/bucket/BucketListBase.h:112-113 gives for curr and snap are, as that
  file says itself, not what the code does; the model follows the code.

## Model

| member | source | states |
|---|---|---|
| LedgerSchedule.RoundDownIsMask | src/bucket/BucketListBase.h:99 | clearing the low bits of a 32-bit value with a mask is rounding down to a multiple of the power of two |
| LedgerSchedule.LevelSizesArePowers | src/bucket/BucketListBase.cpp:359-387 | level sizes and halves are the powers of two that the rounding needs |
| LedgerSchedule.SpillIffMultiple | src/bucket/BucketListBase.cpp:539-575 | a level spills exactly at the multiples of its snap's update period, and the last level never |
| LedgerSchedule.RangesAdvance | src/bucket/BucketListBase.cpp:728-772 | the ranges move exactly as snap, commit and prepare move the buckets: a spilling level's snap takes over curr's range, the next level's curr takes over the old snap's |
| LedgerSchedule.RangesOrdered | src/bucket/BucketListBase.cpp:728-772 | curr0 ends at the current ledger and every bucket ends where the next older one begins |
| LedgerSchedule.EmptyCurrIffSpillsAtNextChange | src/bucket/BucketListBase.cpp:109-136 | a merge is prepared with an empty curr exactly when the level itself spills at the next change of its curr, for every 32-bit ledger, wrap-around of the sum included |
| LedgerSchedule.EmptyCurrAdvance | src/bucket/BucketListBase.cpp:109-136 | between two changes of a level the answer stays the same, and just before a change it says whether the level spills there |
| BucketSizes.CurrSizeCycles | src/bucket/BucketListBase.cpp:389-437 | once the ledger reaches a level's half, curr holds one to four times the previous level's half, and which of the four follows from the ledger |
| BucketSizes.YoungRanges | src/bucket/BucketListBase.cpp:439-464 | below a level's half its snap is empty, below its size nothing older exists, from its size on the snap holds exactly half a level |
| BucketSizes.PreviousRelevantLedger | src/bucket/BucketListBase.cpp:412-425 | the maximum of four roundings is the last ledger at which curr changed, so the recursion descends and accounts for one spill at most |
| BucketSizes.SizeOfCurr | src/bucket/BucketListBase.cpp:389-437 | terminates, never wraps, and equals the number of ledgers curr holds |
| BucketSizes.SizeOfSpilledCurr | src/bucket/BucketListBase.cpp:405-425 | the recursive branch gives the number of ledgers in curr |
| BucketSizes.SizeOfYoungerLevels | src/bucket/BucketListBase.cpp:429-435 | the summing loop counts the ledgers newer than a level without wrapping |
| BucketSizes.SizeOfSnap | src/bucket/BucketListBase.cpp:439-464 | terminates, never wraps, and equals the number of ledgers snap holds |
| BucketSizes.OldestLedgerInCurr | src/bucket/BucketListBase.cpp:466-485 | the ledger after the newest one of the next older bucket, or the largest value for an empty curr |
| BucketSizes.OldestLedgerInSnap | src/bucket/BucketListBase.cpp:487-505 | the ledger after the newest one of the next older bucket, or the largest value for an empty snap |
| BucketSizes.GetMaxMergeLevel | src/bucket/BucketListBase.cpp:645-658 | the levels up to the result are exactly those whose curr changes at this ledger |
| BucketEntries.MergeSorted | src/bucket/BucketBase.cpp:286-337 | merging two strictly sorted buckets gives a strictly sorted bucket |
| BucketEntries.MergeFind | src/bucket/LiveBucket.cpp:192-312 | looking a key up in the merge gives the combination of the two lookups by the table of equal keys: the overlay of new over old, INIT kept under LIVE and cancelled by DEAD |
| BucketEntries.MergeSucceeds | src/bucket/LiveBucket.cpp:268-284 | the merge fails only if some key has an INIT on top of an entry that is not DEAD |
| BucketEntries.DropTombstonesFind | src/bucket/BucketOutputIterator.cpp:94-98 | eliding tombstones removes DEAD entries from lookups and changes nothing else |
| BucketHistory.StateIsReplay | src/bucket/BucketBase.h:29-31 | the last batch that touches a key decides its value, which is what replaying all batches on a map gives |
| BucketHistory.CombineStandsFor | src/bucket/BucketBase.cpp:151-183 | combining the entries for two neighbouring ledger ranges stands for the joined range, annihilation of INIT and DEAD included, and is exactly the net effect of a properly used key |
| BucketHistory.NetCombines | src/bucket/LiveBucket.cpp:192-312 | the net effects of two neighbouring ranges, created, updated, deleted or none, combine by the table of equal keys to the net effect of the joined range, for every history |
| BucketHistory.MergeStandsFor | src/bucket/BucketBase.cpp:339-427 | merging the buckets of two neighbouring ranges succeeds and stands for exactly the joined range, with its newest protocol, tombstones kept or dropped |
| BucketListInvariant.SpillDownByLevel | src/bucket/BucketListBase.cpp:728-772 | counting levels down gives every level what it would get alone: each spill sees the snap taken in the same ledger and no later change |
| BucketListInvariant.ChangingLevel | src/bucket/BucketListBase.cpp:767-770 | a level whose curr changes commits a merge that stands for its new range and starts one for the next |
| BucketListInvariant.CommittedMerge | src/bucket/BucketListBase.cpp:167-191 | the pending merge that a commit resolves succeeds and stands for the range the level then holds |
| BucketListInvariant.AbsorbBatch | src/bucket/BucketListBase.cpp:193-239 | level 0 absorbs the batch with the same outcome whether it merges in memory or through a pending merge |
| BucketListInvariant.AddBatchKeepsInvariant | src/bucket/BucketListBase.cpp:681-797 | adding a well-formed batch succeeds and keeps, on every level, the range each bucket stands for and the inputs of its pending merge |
| BucketListInvariant.RunKeepsInvariant | src/bucket/BucketListBase.cpp:681-797 | every run of well-formed batches succeeds and ends in a state satisfying the invariant |
| BucketListTheorems.LookupIsReplay | src/bucket/BucketListSnapshotBase.cpp:60-130 | for every run, every timing of merges and every key, the newest-first lookup equals the replay of all batches on a plain map |
| BucketListTheorems.BucketAtStandsFor | src/bucket/BucketListBase.cpp:389-464 | in every reachable state each bucket stands for exactly the ledgers of its range |
| BucketListTheorems.RangesPartition | src/bucket/BucketListBase.cpp:681-797 | after every ledger each ledger so far lies in exactly one of the bucket ranges |
| BucketListTheorems.NothingLostOrDuplicated | src/bucket/BucketListBase.cpp:681-797 | an entry created by one batch only is found in exactly one bucket, the one whose range holds that ledger, with its value |
| BucketListTheorems.NothingLiveUnderInit | src/bucket/BucketBase.cpp:151-183 | in every reachable state the nearest older entry under an INIT is DEAD or missing |
| BucketListTheorems.VersionsDescend | src/bucket/BucketBase.cpp:184-220 | in every reachable state bucket versions never increase from younger to older buckets, and the youngest has the newest batch's |
| BucketListInits.RefusedIffInitOverLive | src/bucket/LiveBucket.cpp:268-284 | a merge of sorted buckets is refused if and only if an INIT meets an older entry that is not DEAD, and for no other reason |
| BucketListInits.CloseByFirstLevel | src/bucket/BucketListBase.cpp:681-797 | for any entries at all, a close is refused exactly when they do not merge with level 0's curr, and otherwise differs from the close of an empty batch in that curr alone |
| BucketListInits.RefusedIffRewritesNewest | src/bucket/LiveBucket.cpp:268-284 | after every well-formed run and under every timing, a sorted batch is refused if and only if its ledger is odd and an INIT of it is for a key that the ledger before wrote and did not delete |
| BucketListInits.InitOverLiveRevives | src/bucket/BucketBase.cpp:151-183 | after every well-formed run, an INIT at an even ledger and a DEAD at the next succeed under every timing, and the lookup returns the value from before both where the replay has none |
| BucketListInits.InitInitDeadRevives | src/bucket/BucketBase.cpp:151-183 | INIT v, INIT w, DEAD of one key in the first three ledgers: the lookup returns v |
| BucketListInits.DeletesRightIffInitsCreate | src/bucket/LiveBucket.cpp:268-300 | at an even ledger the very next close deletes every key if and only if the INIT entries of the batch create absent keys |
| BucketListMisuse.CombineHolds | src/bucket/LiveBucket.cpp:192-312 | whatever merges in whatever order, as long as none fails: an INIT over a live key stays visible until it annihilates with the deletion, and then the bucket stands for what came before |
| BucketListMisuse.AddBatchHolds | src/bucket/BucketListBase.cpp:681-797 | a close that succeeds keeps, on every level and for every pending merge, what the ledger range of a bucket lets it hold for a misused key |
| BucketListMisuse.MisuseShows | src/bucket/BucketBase.cpp:151-183 | for every history with an INIT over a live key, a later deletion and no further touch, under every timing: after three periods of the last level a close has failed or the lookup returns the value from before the INIT where the replay has none |
| BucketListMisuse.DeletionsLastIffInitsCreate | src/bucket/LiveBucket.cpp:268-300 | after every well-formed run, at even and odd ledgers, deletions right after a batch last if and only if the INIT entries of the batch create absent keys |
| BucketListContents.HoldsNetChange | src/bucket/LiveBucket.cpp:192-312 | after every well-formed run and under every timing, each of the 22 buckets holds for a properly used key exactly the net effect of the ledgers of its range |
| BucketListContents.CreatedInRange | src/bucket/LiveBucket.cpp:268-300 | the net effect on a key absent before a range is an INIT with its last value, or nothing once it is deleted |
| BucketListContents.MergeOrderMatters | src/bucket/LiveBucket.cpp:268-300 | INIT, DEAD and a LIVE for the absent key give LIVE merged from the old end and INIT merged from the new end |
| BucketListImproper.ImproperWriteLeavesLive | src/bucket/BucketListBase.cpp:681-797 | after every well-formed run of ten ledgers that create a key at 4, delete it at 5 and write it as LIVE at 6, level 1 holds a LIVE entry for ledgers 4 to 7, which began without the key |
| BucketListContents.DeletionsKept | src/bucket/BucketListBase.cpp:577-582 | in every reachable list a key that lived before the range of a bucket and was last deleted in it has its DEAD entry there |
| BucketListContents.BucketsInKeyOrder | src/bucket/LedgerCmp.h:46-120 | in every reachable list the entries of a bucket ascend by kind and, within a kind, by identifier, and the bucket carries the protocol of its newest ledger |
| BucketListContents.NoTombstoneAtBottom | src/bucket/BucketListBase.cpp:577-582 | in every run that succeeds, whatever the batches hold, the last level and the outcome of its pending merge have no tombstone |
| BucketListContents.EqualKeyTable | src/bucket/LiveBucket.cpp:192-312 | the nine pairs of entries and what each becomes |
| BucketListContents.RefusedIffTooNew | src/bucket/BucketBase.cpp:184-220 | a merge is refused for its version if and only if an input is newer than the limit, and its outcome is as new as both inputs |
| BucketListContents.NoFileIff | src/bucket/BucketOutputIterator.cpp:167-195 | a merge leaves no file if and only if both inputs are older than protocol 11 and no entry is left |
| BucketListContents.InMemoryNeverTooNew | src/bucket/LiveBucket.cpp:511-573 | the in-memory merge of level 0 is never refused for a version, is resolved at once and stamped with the protocol of the ledger; the merge of files is deferred and refuses a newer curr |
| BucketListContents.PreparedRefuses | src/bucket/BucketListBase.cpp:291-317 | a merge prepared at any level is refused when the incoming snap is newer than the protocol of the ledger |
| BucketListContents.ReadyMergesResolved | src/bucket/BucketListBase.cpp:614-626 | exactly the ready merges are replaced by their outcomes, and nothing else changes |
| BucketListContents.ClosedMergesResolved | src/bucket/BucketListBase.cpp:785-796 | after a close no level whose merge is ready is still merging, and one just spilled into that is not ready is |
| BucketListRestart.RestartedLevel | src/bucket/BucketListBase.cpp:836-868 | the merge recomputed from the present buckets, with the snap's version as its limit, has the outcome of the one that was pending |
| BucketListRestart.UntouchedFrom | src/bucket/BucketListBase.cpp:838-849 | an empty snap means that all older levels are untouched, so the early return skips nothing |
| BucketListRestart.RestartRestores | src/bucket/BucketListBase.cpp:799-871 | whichever pending merges were forgotten, restarting succeeds and gives a list with the same buckets and merge outcomes |
| BucketListRestart.RestartRefusedIff | src/bucket/BucketListBase.cpp:836-868 | on any list a restart fails if and only if the scan, before it meets an empty snap, finds a level without a merge whose snap dates from before protocol 12 |
| BucketListRestart.AddBatchSame | src/bucket/BucketListBase.cpp:681-797 | lists with the same buckets and merge outcomes stay so under any batch, whenever merges resolve |
| BucketListRestart.TimingIsInvisible | src/bucket/BucketListBase.cpp:785-796 | two runs of the same batches with different merge timings end in the same list |
| BucketListRestart.RestartIsInvisible | src/bucket/BucketListBase.cpp:799-871 | forgetting and restarting merges after any run changes nothing about any later run |
| BucketMerge.OneCaseApplies | src/bucket/BucketMergeAdapter.h:56-150 | at every unfinished step exactly one of oldFirst, newFirst and equalKeys holds, for file and memory inputs alike |
| BucketMerge.BucketInputIterator.Advance | src/bucket/BucketInputIterator.cpp:153-166 | one entry of lookahead over the file: the iterator stands for the rest of the file, one entry shorter each time |
| BucketMerge.FileMergeInput.AdvanceOld | src/bucket/BucketMergeAdapter.h:93-98 | drops the first old entry and leaves the new input alone |
| BucketMerge.FileMergeInput.AdvanceNew | src/bucket/BucketMergeAdapter.h:99-103 | drops the first new entry and leaves the old input alone |
| BucketMerge.MemoryMergeInput.AdvanceOld | src/bucket/BucketMergeAdapter.h:164-169 | drops the first old entry and leaves the new input alone |
| BucketMerge.MemoryMergeInput.AdvanceNew | src/bucket/BucketMergeAdapter.h:170-175 | drops the first new entry and leaves the old input alone |
| BucketMerge.BucketOutputIterator.Put | src/bucket/BucketOutputIterator.cpp:76-165 | entries put in key order come out in that order, tombstones elided when they are not kept |
| BucketMerge.BucketOutputIterator.GetBucket | src/bucket/BucketOutputIterator.cpp:167-233 | flushes the buffered entry: the bucket holds everything put |
| BucketMerge.MergeInternalMemory | src/bucket/BucketBase.cpp:286-337 | terminates with exactly the specified merge and its error, every input entry accounted for, and each of the four pair counters counting the equal keys of its kind |
| BucketMerge.MergeInternalFile | src/bucket/BucketBase.cpp:286-337 | the same output, error and accounting over file cursors |
| BucketMerge.MergeFiles | src/bucket/BucketBase.cpp:396-416 | the merge over two whole files gives the specified merge of their entries |
| BucketList.Merge | src/bucket/BucketBase.cpp:339-427 | the version limit, the version of the result and the merged entries are those of the specification |
| BucketList.MergeEntriesInMemory | src/bucket/LiveBucket.cpp:511-573 | the in-memory merge of level 0 gives the specified bucket at the ledger's protocol |
| BucketList.BucketLevel.Snap | src/bucket/BucketListBase.cpp:319-326 | curr becomes snap and an empty bucket takes its place |
| BucketList.BucketLevel.ResolveMerge | src/bucket/BucketListBase.cpp:183-186 | a pending merge resolves to the specified bucket or error |
| BucketList.BucketLevel.Commit | src/bucket/BucketListBase.cpp:167-191 | the pending merge, if any, becomes curr and nothing is pending afterwards |
| BucketList.BucketLevel.Prepare | src/bucket/BucketListBase.cpp:291-317 | the pending merge is that of curr, or of nothing, with the incoming snap |
| BucketList.BucketLevel.PrepareFirst | src/bucket/BucketListBase.cpp:193-239 | the batch is merged into level 0 in memory or as a pending merge |
| BucketList.BucketLevel.ResolveIfMerging | src/bucket/BucketListBase.cpp:614-626 | a merge that is ready is replaced by its outcome, anything else stays |
| BucketList.BucketList.constructor | src/bucket/BucketListBase.cpp:873-879 | eleven empty levels that stand for the empty history |
| BucketList.BucketList.SpillLevels | src/bucket/BucketListBase.cpp:728-772 | the loop that counts levels down refines the specified spill, errors included |
| BucketList.BucketList.ResolveReadyMerges | src/bucket/BucketListBase.cpp:614-626 | the loop over ready merges refines the specified resolution |
| BucketList.BucketList.AddBatch | src/bucket/BucketListBase.cpp:681-797 | refines the specified step; a list that is current stays current after the next well-formed batch, and the call succeeds |
| BucketList.BucketList.Restart | src/bucket/BucketListBase.cpp:799-871 | refines the specified restart, early return and version error included; a list that lost any of its pending merges is current again |
| BucketList.BucketList.Load | src/bucket/BucketListSnapshotBase.cpp:60-130 | the scan with early exit returns the specified lookup, and on a current list the replay of its history |
| BucketListSnapshot.LoadKeysFromBucket | src/bucket/BucketSnapshot.cpp:101-185 | found keys leave the set, tombstoned ones without a result, and exactly the live ones are loaded |
| BucketListSnapshot.LoadKeys | src/bucket/BucketListSnapshotBase.cpp:132-150 | loads, once each, exactly the requested keys that a single lookup would find, with the same values |
| BucketListSnapshot.LoadKeysAt | src/bucket/BucketListSnapshotBase.cpp:132-173 | reads the snapshot asked for, and fails exactly when there is none for that ledger |
| BucketApplicator.RangeOfKind | src/bucket/BucketUtils.cpp:389-430 | the recorded boundaries delimit exactly the entries of the type |
| BucketApplicator.TypeRange | src/bucket/BucketApplicator.cpp:42-57 | in a sorted bucket the range for a type holds exactly its entries |
| BucketApplicator.Applicator.constructor | src/bucket/BucketApplicator.cpp:20-58 | skipping to the range of the offers leaves the effect of applying the bucket as it was |
| BucketApplicator.Applicator.Advance | src/bucket/BucketApplicator.cpp:96-212 | what is still to be applied after a chunk completes the same effect, the database holds exactly the keys written, each written once, and only a full chunk leaves work behind |
| BucketApplicator.ApplyWholeBucket | src/bucket/BucketApplicator.cpp:60-66 | advancing until done applies the whole bucket, wherever the chunks end |
| BucketApplicator.ApplyBucketByKey | src/bucket/BucketApplicator.cpp:137-155 | applying a bucket decides exactly the keys it holds that were not seen before |
| BucketApplicator.ApplyBuckets | src/bucket/BucketApplicator.cpp:96-212 | feeding the buckets newest first loads the offers that lookup returns and nothing else, each key written once |
| BucketApplicator.CatchUp | src/bucket/BucketApplicator.cpp:96-212 | on every reachable list the database ends up with the offers of the replayed history and nothing else |
| BucketMergeMap.ForgetKeepsKeysIff | src/bucket/BucketMergeMap.cpp:45-104 | the key map stays exact on forgetting an output if and only if its keys never produced another |
| BucketMergeMap.ForgetCanLoseAKey | src/bucket/BucketMergeMap.cpp:45-104 | a key recorded with two outputs loses its first one when the second is forgotten |
| BucketMergeMap.FunctionalOnlyProduces | src/bucket/BucketMergeMap.cpp:45-104 | when outputs are a function of keys the condition always holds, and keeps holding |
| BucketMergeMap.KeyViewFirst | src/bucket/BucketMergeMap.cpp:31-43 | a key keeps the output of the first merge recorded for it |
| BucketMergeMap.HashesAreInputs | src/bucket/BucketMergeMap.cpp:13-26 | the hashes collected for a merge are its curr, its snap and its shadows |
| BucketMergeMap.BucketMergeMap.RecordMerge | src/bucket/BucketMergeMap.cpp:31-43 | the three maps stay the views, as multisets, of one history of merges, repeats included |
| BucketMergeMap.BucketMergeMap.ForgetAllMergesProducing | src/bucket/BucketMergeMap.cpp:45-104 | the maps become the views of the history without that output, which no key finds any more; exactly its keys are returned |
| BucketMergeMap.BucketMergeMap.FindMergeFor | src/bucket/BucketMergeMap.cpp:106-117 | what it finds was recorded and not forgotten, whatever was forgotten before; on an exact map a miss shows there is none, and a hit is the output recorded first |
| BucketMergeMap.BucketMergeMap.GetOutputsUsingInput | src/bucket/BucketMergeMap.cpp:119-131 | returns exactly the outputs of the merges that had the bucket as curr, snap or shadow |
| FuseGeometry.MulHi | lib/binaryfusefilter.h:91-142 | the schoolbook high product equals the product divided by 2^64, and no intermediate value leaves 64 bits |
| FuseGeometry.SlotsAreConsecutive | lib/binaryfusefilter.h:233-244 | the three slots lie in three consecutive segments of the array |
| FuseGeometry.SlotsAreDistinct | lib/binaryfusefilter.h:233-244 | the three slots of every hash are different |
| FuseGeometry.BatchAgreesIffCapped | lib/binaryfusefilter.h:246-257 | batched and indexed slots agree for every hash if and only if a segment has at most 2^18 slots |
| FuseGeometry.ValidShapes | lib/binaryfusefilter.h:471-503 | the shapes modelled are those of 4 to 262144 slots a segment, a power of two, with fewer than 2^32 slots in all |
| FuseGeometry.SlotsExample | lib/binaryfusefilter.h:233-244 | the three slots of one hash as numbers |
| FusePlacement.BlockBits | lib/binaryfusefilter.h:288-292 | the fewest leading bits that tell the segments apart |
| FusePlacement.SomeSegmentCanWrite | lib/binaryfusefilter.h:318-328 | while fewer slots than hashes are written, some segment's next slot is free |
| FusePlacement.NeverEndless | lib/binaryfusefilter.h:318-328 | the search round the segments always ends, sentinel or not: at a free slot or past the array |
| FusePlacement.FindFree | lib/binaryfusefilter.h:322-326 | the search ends at the first segment whose next slot is free, or fails when one before it points past the array |
| FusePlacement.PlaceHashes | lib/binaryfusefilter.h:309-328 | the loop computes the specified placement or leaves the array; below a sentinel the slots become a permutation of the hashes that depends on nothing else, and nothing at or past the sentinel is written |
| FusePlacement.PlacedAlike | lib/binaryfusefilter.h:309-328 | what stands above a sentinel, and the sentinel's value, do not influence the placement |
| FusePlacement.SentinelSuffices | lib/binaryfusefilter.h:298-328 | above any hashes a non-zero sentinel makes placement end with a permutation of them |
| FusePlacement.SentinelExactlyNeeded | lib/binaryfusefilter.h:298-328 | all lists of that many hashes are placed below the sentinel if and only if it is not zero or there are fewer than two hashes |
| FuseTables.TotalWithout | lib/binaryfusefilter.h:331-344 | the tables do not depend on the order in which hashes were added: any of them may be taken out |
| FuseTables.TotalPermuted | lib/binaryfusefilter.h:331-344 | what a slot counts and combines is the same for every order of the hashes |
| FuseTables.LoneItem | lib/binaryfusefilter.h:393-402 | a slot touched once holds the hash that touches it and which of its slots it is |
| FuseTables.CancellingPair | lib/binaryfusefilter.h:345-350 | a slot touched twice whose hashes cancel was touched by equal hashes |
| FuseTables.RaisedEncodes | lib/binaryfusefilter.h:335-344 | adding four to the byte and flipping its low bits counts a hash, modulo 64 |
| FuseTables.LoweredEncodes | lib/binaryfusefilter.h:352-359 | subtracting four and flipping the low bits undoes it |
| FuseFill.RaiseSlots | lib/binaryfusefilter.h:334-344 | the three slots of a hash, and no others, count it |
| FuseFill.LowerSlots | lib/binaryfusefilter.h:352-359 | the three slots of a hash, and no others, drop it |
| FuseFill.AddHash | lib/binaryfusefilter.h:331-365 | the hash is dropped if and only if it is there already and alone in one of its slots; otherwise it joins the kept ones, or is the 64th of some slot |
| FuseFill.CancelledIffAlone | lib/binaryfusefilter.h:345-350 | a slot shows a cancelled pair if and only if the hash was there before and alone in it |
| FuseFill.KeptDistils | lib/binaryfusefilter.h:329-365 | the kept hashes are those given, less repetitions |
| FuseFill.FillTables | lib/binaryfusefilter.h:329-365 | there is an error if and only if a slot is touched by 64 of the kept hashes; without one the tables hold the kept hashes and every hash given is among them |
| FuseFill.CrowdedPermuted | lib/binaryfusefilter.h:361-365 | whether some slot is touched by 64 hashes does not depend on their order |
| FusePeeling.CollectAlone | lib/binaryfusefilter.h:381-387 | the queue gets every slot touched once, once each |
| FusePeeling.QueueStep | lib/binaryfusefilter.h:406-419 | the queue keeps every slot touched once, never holds a slot twice, nor one that was used |
| FusePeeling.StackStep | lib/binaryfusefilter.h:402-405 | a hash taken off touches none of the slots by which earlier ones were found |
| FusePeeling.PeelOne | lib/binaryfusefilter.h:393-420 | takes the lone hash off the tables and onto the stack, within the bounds of every buffer |
| FusePeeling.OnesAreLone | lib/binaryfusefilter.h:381-387 | the bytes read at first name exactly the slots that one hash touches, in increasing order |
| FusePeeling.StackPeels | lib/binaryfusefilter.h:388-421 | taking the last slot of the queue determines the next hash of the stack and the slots queued behind |
| FusePeeling.Peel | lib/binaryfusefilter.h:381-421 | the stack and what is left make up the kept hashes, each stacked hash has a slot no later one touches, what is left cannot be peeled, and the order of the stack is the specified one |
| FusePeeling.PeelingIsComplete | lib/binaryfusefilter.h:388-421 | if any order empties the tables then this one does |
| FuseAssign.AssignSolves | lib/binaryfusefilter.h:446-459 | the value written makes the three slots combine to the truncated fingerprint, whichever slot it goes to |
| FuseAssign.AssignFingerprints | lib/binaryfusefilter.h:446-459 | after the reverse pass every stacked hash is solved: no later write disturbs an earlier one; a slot by which no hash was found keeps its value |
| FuseAssign.FingerprintHalves | lib/binaryfusefilter.h:205-209 | cut to any width up to 32 bits, the fingerprint is the exclusive or of the two halves of the hash, each cut to that width |
| FuseAttempt.PeeledIffPeelable | lib/binaryfusefilter.h:422-427 | the attempt takes everything off exactly when the kept hashes can be peeled at all |
| FuseAttempt.PeelableDistinct | lib/binaryfusefilter.h:388-421 | hashes that can be peeled are all different |
| FuseAttempt.NothingRepeated | lib/binaryfusefilter.h:345-360 | of hashes that are all different, none is taken for a repetition and all are kept |
| FuseAttempt.Survivors | lib/binaryfusefilter.h:329-365 | the kept hashes have the members of those given; distinct hashes are all kept, and overfill a slot or can be peeled exactly when the kept ones do |
| FuseAttempt.PlaceAndFill | lib/binaryfusefilter.h:309-378 | the tables hold the kept hashes of the placed order, or, if and only if 64 of them share a slot, everything is cleared, the sentinel included |
| FuseAttempt.Attempt | lib/binaryfusefilter.h:309-427 | on success the stack holds every hash given and can be solved; there is an error if and only if 64 of the kept hashes share a slot, and success if and only if none do and a peeling order of them exists; for distinct hashes the same of the hashes given; without an error the slots are left with the stack and above it the placed hashes |
| FuseSeeds.SortUnique | lib/binaryfusefilter.h:428-434 | the keys in increasing order without repetition, none lost or added |
| FuseSeeds.SortKeepsDistinct | lib/binaryfusefilter.h:428-434 | the sort only shortens keys that repeat |
| FuseSeeds.SeedBytes | lib/binaryfusefilter.h:441-443 | byte j of the seed of attempt i is the first one raised, modulo 256, by how many of the attempts 16 j to 16 j + 15 came before |
| FuseSeeds.SeedsDiffer | lib/binaryfusefilter.h:441-443 | no two attempts have the same seed |
| FuseSeeds.OneOutcome | lib/binaryfusefilter.h:299-444 | of the conditions on the attempts for success, for a lost sentinel and for running out, exactly one holds |
| FuseSeeds.UncoversOnlyZero | lib/binaryfusefilter.h:428-437 | the sort brings a zero to the place of the sentinel only if a hash was zero and a key is repeated |
| FuseSeeds.DistinctKeysCovered | lib/binaryfusefilter.h:428-437 | keys that are all different never let a zero hash take the place of the sentinel, whatever their hashes |
| FuseSeeds.DistinctDecides | lib/binaryfusefilter.h:299-444 | where no attempt reached hashes two keys alike, each condition holds of the attempts if and only if it holds of the hashes of all keys |
| FuseSeeds.TracksNext | lib/binaryfusefilter.h:428-443 | that every attempt so far failed and left the sentinel, and which seed and keys are next, carries over a failed attempt |
| FuseSeeds.WhyLost | lib/binaryfusefilter.h:428-437 | without an overflow the entry above the next keys is zero if and only if the stack or the placed hashes have a zero there and the sort shortened the keys |
| FuseFailures.TwinsNotPeelable | lib/binaryfusefilter.h:388-421 | hashes of which two have the same three slots cannot be peeled |
| FuseFailures.TwinsExhaust | lib/binaryfusefilter.h:299-444 | fewer than 64 keys, two of them with the same slots under every seed tried, run the seeds out |
| FuseFailures.SeedsRunOut | lib/binaryfusefilter.h:299-444 | a stand-in for the keyed hash and two keys that do so from every first seed, in every array of fewer than 2^27 slots |
| FuseFailures.CountersOverflow | lib/binaryfusefilter.h:361-378 | a stand-in for the keyed hash and 64 keys that overflow a count at the first attempt and lose the sentinel, in every array |
| FuseFailures.SmallPlaced | lib/binaryfusefilter.h:309-328 | hashes whose leading bits are zero are placed in the order in which they come |
| FuseFailures.ZeroTakesSentinel | lib/binaryfusefilter.h:428-437 | a stand-in for the keyed hash and four keys, one repeated, whose zero hash takes the place of the sentinel after the first attempt |
| FuseFailures.RetrySucceeds | lib/binaryfusefilter.h:299-444 | a stand-in for the keyed hash and two keys that collide under the first seed and are populated with the second |
| FuseFilter.BinaryFuse.ContainIffSolved | lib/binaryfusefilter.h:533-544 | a key is reported exactly when its slots combine to its fingerprint, for all three widths |
| FuseFilter.BinaryFuse.ContainIffHalves | lib/binaryfusefilter.h:533-544 | a key is reported exactly when its three slots combine to the exclusive or of the halves of its hash, cut to the width |
| FuseFilter.BinaryFuse.ContainInZeros | lib/binaryfusefilter.h:533-544 | where all slots are zero a key is reported exactly when the halves of its hash agree in the width, and the hash 1 is not |
| FuseFilter.BinaryFuse.Assign | lib/binaryfusefilter.h:446-459 | every key is reported afterwards, and slots of no key are as before |
| FuseFilter.BinaryFuse.Attempts | lib/binaryfusefilter.h:298-461 | however many attempts it takes and whether or not keys repeat, success means every original key is reported; each outcome comes if and only if the attempts meet its condition |
| FuseFilter.BinaryFuse.Populate | lib/binaryfusefilter.h:266-462 | when population succeeds every key given is reported, the seed is that of the first attempt that succeeds, slots of no key are as before, and the keys keep their set of values; without success the fingerprints are as before; for all keys it succeeds if and only if some attempt's kept hashes can be solved and none before overflow or uncover a zero, loses the sentinel if and only if an attempt but the last is reached, cannot be solved and overflows or uncovers a zero, and runs out if and only if the last is reached and cannot be solved; if no attempt reached hashes two keys alike, the same of the hashes of all keys |
| FuseSerialize.RoundTrip | lib/binaryfusefilter.h:506-589 | fingerprints written as little-endian bytes are read back unchanged, for every width |
| FuseSerialize.WriteFingerprints | lib/binaryfusefilter.h:580-588 | each word becomes its bytes, lowest first, in order |
| FuseSerialize.LowestByteFirst | lib/binaryfusefilter.h:580-588 | the bytes of 16-bit and 32-bit words as numbers |
| FuseSerialize.ReadFingerprints | lib/binaryfusefilter.h:516-530 | reads the words their bytes spell, and fails exactly when the bytes run out |
| FuseSerialize.CopyTo | lib/binaryfusefilter.h:553-589 | seed and all fingerprints are carried over, and the five size fields are the number of segments, a power of two for their length, that less one, their product, and the product and two segments more, which is the number of fingerprints |
| FuseSerialize.FromSerialized | lib/binaryfusefilter.h:506-531 | every field is taken as it is and the words are those the bytes spell; fails exactly when the bytes run out |
| FuseSerialize.LoadedSlots | lib/binaryfusefilter.h:233-244 | masking with the length less one gives the slots of the geometry that the fields describe |
| FuseSerialize.SameAnswers | lib/binaryfusefilter.h:533-544 | a loaded filter with the fields of a filter never reads outside its fingerprints and answers as that filter |
| FuseSerialize.SaveAndLoad | lib/binaryfusefilter.h:506-589 | a filter written and read back answers every question as before |
| PermuteArgs.Gcd | lib/util/getopt_long.c:104-120 | the greatest common divisor, as an integer combination of the two numbers |
| PermuteArgs.MoveSteps | lib/util/getopt_long.c:145-149 | a move stays within its residue class, takes one step of its cycle, and undoes where the argument comes from |
| PermuteArgs.StepsInjective | lib/util/getopt_long.c:141-155 | a cycle visits each of its positions once |
| PermuteArgs.RotatingStep | lib/util/getopt_long.c:144-155 | one swap gives one more position its final argument and keeps the displaced one at the start of the cycle |
| PermuteArgs.Permute | lib/util/getopt_long.c:122-157 | the blocks change places, each keeps its order, and nothing else in the array moves |
| Uint128.Add | lib/util/uint128_t.h:294-301 | the sum modulo 2^128 |
| Uint128.Sub | lib/util/uint128_t.h:303-308 | the difference modulo 2^128 |
| Uint128.Less | lib/util/uint128_t.h:578-584 | holds exactly when the value is smaller |
| Uint128.ShiftLeft | lib/util/uint128_t.h:614-627 | multiplication by the power of two modulo 2^128, for every shift taken modulo 128 |
| Uint128.ShiftRight | lib/util/uint128_t.h:586-595 | division by the power of two, for every shift taken modulo 128 |
| Uint128.Multiply | lib/util/uint128_t.h:597-612 | the product modulo 2^128 |
| Uint128.Clz | lib/util/uint128_t.h:566-574 | the value lies between the two powers of two that the count names |
| Uint128.SlowDiv | lib/util/uint128_t.h:629-656 | quotient and remainder satisfy the division equation with a remainder below the divisor, for every non-zero divisor |
| Uint128.Div | lib/util/uint128_t.h:658-666 | the integer quotient, or an error exactly for a zero divisor |
| Uint128.Mod | lib/util/uint128_t.h:668-675 | the remainder, or an error exactly for a zero divisor |
| Uint128.PartDiv | lib/util/uint128_t.h:677-685 | the three digits in a base, which spell the value if and only if the third fits 64 bits |
| Uint128.DigitsSufficeIff | lib/util/uint128_t.h:677-685 | the third digit of every value fits if and only if the base is at least 2^32 |
| Uint128.SmallBase | lib/util/uint128_t.h:677-685 | in a smaller base the value 2^64 times the square of the base has a third digit of 2^64, which is read as zero |
| Uint128.DecimalDigitsSuffice | lib/util/uint128_t.h:884-886 | in base 10^19 the third digit of every value fits |
| BaseN.AlphabetRoundTrip | lib/util/basen.h:84-163 | every digit is read back from its character, which is neither white space nor an error |
| BaseN.EncodesAlphabet | lib/util/basen.h:84-163 | digit i is the i-th character of the alphabet, written out, in all three bases |
| BaseN.DecodesAlphabet | lib/util/basen.h:84-163 | a character stands for its place in the alphabet, and is an error if and only if it is not in it |
| BaseN.TopBits | lib/util/basen.h:62-70 | bits taken from within a byte continue the number spelt by the bits before them |
| BaseN.Overlap | lib/util/basen.h:72-80 | bits taken across a byte border continue the number spelt by the bits before them |
| BaseN.EncodeDigits | lib/util/basen.h:211-247 | the digits are the bits of the bytes in groups, the last filled up with fewer than a group of zeros |
| BaseN.Encode | lib/util/basen.h:211-254 | characters that stand for the bits of the bytes in groups, then the fewest padding characters that complete a group |
| BaseN.EncodesUnique | lib/util/basen.h:211-247 | bytes have only one encoding in digits |
| BaseN.EncodeExamples | lib/util/basen.h:211-254 | the bytes fb ff are FBFF, 7P7Q==== and +/8= in the three bases |
| BaseN.DecodeDigit | lib/util/basen.h:184-206 | a value added to the buffer extends the bits read so far, flushed or held |
| BaseN.Decode | lib/util/basen.h:166-209 | the whole bytes at the front of the bits the characters stand for; white space and other characters are skipped |
| BaseN.OutsideIgnored | lib/util/basen.h:166-209 | a character outside the alphabet, at any place in a text, does not change the digits read |
| BaseN.RoundTrip | lib/util/basen.h:166-254 | digits that encode bytes decode to those bytes |
| BaseN.EncodeThenDecode | lib/util/basen.h:166-254 | decoding what was encoded gives the bytes back, for every byte string in all three bases |
| Bitset.SumIsCardinality | lib/util/cbitset.c:182-211 | the bit counts of the words add up to the size of the set |
| Bitset.ResultMembers | lib/util/cbitset.c:213-377 | the words an operation leaves hold the members that the operation on sets gives, whichever array is longer |
| Bitset.EqualExactly | lib/util/cbitset.c:407-418 | sets are equal exactly when the common words are and the longer tail is empty |
| Bitset.EqualCanBeWrong | lib/util/cbitset.c:407-418 | two different sets with the same common words |
| Bitset.Bitset.Create | lib/util/cbitset.c:19-32 | the empty set |
| Bitset.Bitset.Resize | lib/util/cbitset.c:158-180 | the words both sizes have are kept, new ones are zero if asked for |
| Bitset.Bitset.Grow | lib/util/cbitset.h:72-91 | grows without changing the set |
| Bitset.Bitset.Set | lib/util/cbitset.h:107-119 | adds the member; the array grows to hold it and no further |
| Bitset.Bitset.Unset | lib/util/cbitset.h:124-133 | removes the member |
| Bitset.Bitset.Has | lib/util/cbitset.h:136-145 | answers membership, past the end too |
| Bitset.Bitset.InplaceUnion | lib/util/cbitset.c:213-231 | the union, with itself too; the array is as long as the longer of the two |
| Bitset.Bitset.InplaceIntersection | lib/util/cbitset.c:312-326 | the intersection |
| Bitset.Bitset.InplaceDifference | lib/util/cbitset.c:328-338 | the difference |
| Bitset.Bitset.InplaceSymmetricDifference | lib/util/cbitset.c:358-377 | the symmetric difference; the array is as long as the longer of the two |
| Bitset.Bitset.ShiftLeft | lib/util/cbitset.c:86-118 | every member moves up by the amount, in place |
| Bitset.Bitset.ShiftRight | lib/util/cbitset.c:120-147 | every member moves down by the amount, those below it are dropped, and the array is shorter by the whole words |
| Bitset.Bitset.ShiftLeftThenRight | lib/util/cbitset.c:86-147 | shifting left and then right restores the set |
| Bitset.Bitset.NextSetBit | lib/util/cbitset.h:207-234 | the least member at or above the position, or none is left |
| Bitset.Bitset.Enumerate | lib/util/cbitset.h:201-206 | stepping through visits exactly the members, in increasing order |
| Bitset.Bitset.Equal | lib/util/cbitset.c:407-418 | compares the common words; right about the sets if and only if those differ or the longer tail is empty |
| Bitset.Bitset.Count | lib/util/cbitset.c:182-211 | the size of the set, through loops unrolled by eight and four |
| Bitset.Bitset.UnionCount | lib/util/cbitset.c:261-310 | the size of the union, through unrolled loops |
| Bitset.Bitset.IntersectionCount | lib/util/cbitset.h:168-178 | the size of the intersection |
| Bitset.Bitset.DifferenceCount | lib/util/cbitset.c:340-356 | the size of the difference |
| Bitset.Bitset.SymmetricDifferenceCount | lib/util/cbitset.c:379-405 | the size of the symmetric difference |

## Left out

- Shadow buckets and protocols before 12, where merges consult younger levels: all batches are at shadow-free protocols.
- Merges restarted from saved hashes (src/bucket/BucketListBase.cpp:810-817): a restarted list has live or clear merges only.
- Hot archive buckets: the model follows the live bucket's entry types.
- Files, fsync, hashing, threads, futures, metrics and logging: a background merge is a deferred merge, and a parameter says when it is found ready.
- META entries and the metadata extension: a bucket carries its protocol version only.
- Shutdown during a merge, which throws.
- The sort that turns the three vectors of a batch into bucket entries: batches are given sorted.
- Page indexes, caches and bloom filters of buckets: a lookup in one bucket is exact.
- The protocol checks of the applicator: it is given legal buckets.
- Whether the applicator creates or updates a row: the database is a map, and a write sets the value.
- The floating-point sizing of a filter: any power-of-two segment length from 4 to 2^18 and any number of segments whose array fits 32 bits.
- FuseFilter.BinaryFuse.Populate: stops where the sentinel has been cleared, and where the seed index leaves its array; what the program does after that is not modelled. The limit of a million attempts cannot be reached before the second stop.
- The keyed hash of the filter: a function parameter.
- The rest of getopt_long: option parsing and error printing.
- The compiler-builtin 128-bit specialisation and stream printing.
- The exact sequence of reallocations of a bitset, and failure to allocate.
- `bitset_subseteq`, `nextSetBits`, `bitset_trim`, minimum, maximum and the callback iteration of the bitset: variations on what is modelled.
- JSON reading and writing, HTTP, the database glue and the scripts.
- Bitset.Bitset.ShiftLeft: asks for a non-empty array unless the shift is a whole number of words, because the source reads the last word.
- Bitset.Bitset.ShiftRight: asks that the shift leaves at least one word, or exactly none for whole words, because the source computes an index by subtraction.
