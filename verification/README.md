# A verified model of the CSV import and the data structures it stands on

The repository imports CSV files into a database table and is meant to survive being
killed. This project models the import engine, the hash table and the hash functions
it relies on, the segmented deque that ships beside them, and the decimal rounding,
and proves what they promise.

* **Hash table** (`RobinHoodSlots`, `RobinHoodTable`, `PowersOfTwo`, `BitTricks`,
  `FibonacciPolicy`). One flat array of slots, each with its distance from home. The
  class `HashSet` changes it in place as `sherwood_v3_table` does; the lemmas about
  arrays of slots say why the early stop of a probe, the displacement chain, its
  undoing, and both ways of erasing are right. Growth is bounded, so the mutually
  recursive insertion terminates for every index function. `FibonacciPolicy` puts the
  source's own there.
* **XXH3, XXH64, XXH32** (`Xxh3`, `Xxh3Stream`, `LaneHash`, `Xxh32`, `Xxh64`,
  `LaneArithmetic`, `XorDigits`, `LiteralDigests`, `Words`). The streaming states with
  their buffers, against the hash of one contiguous input. For XXH3 the mixing of
  accumulators and the short-key hashes are parameters; the arithmetic of XXH32 and
  XXH64 is written out, and fixed by their digests of literal inputs.
* **Import** (`ImportModel`, `ImportSafety`, `TableCells`, `ImportCompleteness`,
  `HalfCommit`, `CsvFile`, `CsvWriting`, `BufferedReader`, `RecordSource`,
  `QueryBuilder`, `ImportRun`, `ImportKilled`). A state machine on record positions
  carries the safety proofs. It crashes between two moves, while records are gathered,
  and between the two stores of a commit. The classes read bytes through a refilled
  buffer, hash key columns, fill the persistent hash set, and are proved to move
  exactly as the state machine does, also when builder after builder is killed, inside
  a commit included. `TableCells` and `CsvWriting` say in terms of cells and bytes what
  the table then holds.
* **Segmented deque** (`DequeMemory`, `DequeCells`, `DequeMap`, `Deque`,
  `DequeRuns`). Blocks of raw, moved-from or live cells, a map of pointers, two
  four-part iterators. Every operation is proved on the cells: which are read,
  constructed, assigned, destroyed, and which blocks are allocated and freed; and on
  the map: which slots are used and what the others still point to.
* **Decimal rounding** (`DecimalRounding`): `represent_float` on its string.

Where the code does not do what its documentation or a reader would expect, the model
follows the code, and the exact condition is proved:

* One complete run is not a complete import: at the end of the input the batch being
  gathered is dropped (`src/query_builder.cpp:46-48`), the only record of a file for
  one (`OnlyRecordIsDropped`). A run imports everything if and only if the records
  after the last one whose hash is known fill whole batches (`OneRunImportsIff`).
  What is left is exactly what follows the committed position, and a second run
  delivers it.
* A commit stores the file number and the offset one after the other
  (`src/query_builder.cpp:80-85`). Killed in between, the import stands in the new
  file at the old file's offset. That pair is the position of a record no later than
  what the table stands for, which is what keeps the import right
  (`StepKeepsInvIff`), if and only if the file has not changed or the old offset
  serves in the new one (`HalfCommitServesIff`): nothing the table lacks is passed
  over, and `peek` takes the offset for the file's end, or whole records can be read
  from it to the end and the first reads like the record it lies in, or a byte 0xFF
  stops reading after what are the file's last records. `KilledInCommit` and
  `CommitIsReached` show a run over two files in which the restart reads a record that
  neither of them holds. Killed anywhere else, the import always goes on.
* `peek` answers EOF in front of a byte 0xFF as well (`EofIsAmbiguous`).
* Inserting an empty range into the middle of a deque, or erasing one, moves elements
  onto themselves. What that does is up to the element type, and a parameter here. All
  values are kept if and only if each element moved survives its own self-move
  (`InsertKeepsValuesIff`, `EraseKeepsValuesIff`).
* The deque's header says that a map slot points to an allocated node if and only if
  it lies between start and finish. Removals keep that, and so does growing the map,
  if and only if the stretch still covers its old place and no address about to be
  handed out is in a slot outside it (`GrowingKeepsHeaderIff`, stated before the call;
  the allocator is a parameter). `MovingLeavesPointers` and `ReusingRevivesPointers`
  are short runs in which either part fails. What every operation keeps is that the
  live blocks are exactly those of the stretch, each in one slot of it.
* `next_size_over` wraps around to 2 for requests above 2^63, and `log2(0)` is 63.
* The length kept by XXH64 wraps at 2^64. A stream that long digests to the hash unless
  the wrapped length is below 32.

`dafny verify dfyconfig.toml` checks everything.

## Model

| member | source | states |
|---|---|---|
| RobinHoodTable.Run | 3rd/flat_hash_map/include/flat_hash_map.hpp:543-734 | any sequence of emplaces, erases, lookups, reserves, rehashes and clears on a new table, with any in-range index function (a constant one included), answers every call as a mathematical set would |
| RobinHoodTable.HashSet.Find | 3rd/flat_hash_map/include/flat_hash_map.hpp:543-553 | succeeds exactly on the keys of the abstract set and returns the slot holding the key; every index read is inside the array |
| RobinHoodTable.HashSet.Emplace | 3rd/flat_hash_map/include/flat_hash_map.hpp:579-591 | reports true exactly for a new key, which is then in the set and in the returned slot; nothing else changes; terminates |
| RobinHoodTable.HashSet.EmplaceNewKey | 3rd/flat_hash_map/include/flat_hash_map.hpp:827-871 | inserts a key found absent, in place, by a displacement chain, or after growing; terminates although it, grow, rehash and emplace call one another |
| RobinHoodTable.HashSet.Displace | 3rd/flat_hash_map/include/flat_hash_map.hpp:842-870 | the chain either places everything and keeps the table order, or undoes itself: the set is the old one, the new key is pending again, and growth is due |
| RobinHoodTable.HashSet.SwapBack | 3rd/flat_hash_map/include/flat_hash_map.hpp:863-868 | swapping the carried element back into the result slot makes the new key pending and leaves exactly the old elements |
| RobinHoodTable.HashSet.GrowthIsDue | 3rd/flat_hash_map/include/flat_hash_map.hpp:831-835 | whenever a growth trigger fires, the level of the table is at most its element count, so each growth uses up one of finitely many |
| RobinHoodTable.HashSet.Grow | 3rd/flat_hash_map/include/flat_hash_map.hpp:873-876 | keeps set and count and raises the level |
| RobinHoodTable.HashSet.Rehash | 3rd/flat_hash_map/include/flat_hash_map.hpp:628-661 | keeps set and count whatever size is asked for, also from the state in the middle of a failed chain; the table has at least the requested level |
| RobinHoodTable.HashSet.Reinsert | 3rd/flat_hash_map/include/flat_hash_map.hpp:652-659 | every element of the old array is in the new one exactly once, none lost or doubled, even when an insertion rehashes again |
| RobinHoodTable.HashSet.Reserve | 3rd/flat_hash_map/include/flat_hash_map.hpp:663-668 | keeps the set and leaves at least two buckets for every element asked for |
| RobinHoodTable.HashSet.EraseAt | 3rd/flat_hash_map/include/flat_hash_map.hpp:674-685 | removes exactly the designated element, restores the order invariant, and returns the next surviving element in iteration order |
| RobinHoodTable.HashSet.Erase | 3rd/flat_hash_map/include/flat_hash_map.hpp:714-724 | removes the key if it is there and says whether it was |
| RobinHoodTable.HashSet.EraseRange | 3rd/flat_hash_map/include/flat_hash_map.hpp:687-712 | removes exactly the elements of the range, keeps the order and sequence of the others, and returns the first one after the range |
| RobinHoodTable.HashSet.Compact | 3rd/flat_hash_map/include/flat_hash_map.hpp:699-711 | the shift by a shrinking distance restores a proper table with the elements before and after the range in their old sequence |
| RobinHoodTable.HashSet.Clear | 3rd/flat_hash_map/include/flat_hash_map.hpp:726-734 | empties the set |
| RobinHoodTable.HashSet.NextOccupied | 3rd/flat_hash_map/include/flat_hash_map.hpp:911-929 | moves to the next stored element and skips none |
| RobinHoodTable.HashSet.ToSeq | 3rd/flat_hash_map/include/flat_hash_map.hpp:477-541 | iteration visits every element of the set once |
| RobinHoodSlots.EarlyStopSafe | 3rd/flat_hash_map/include/flat_hash_map.hpp:543-553 | a slot whose distance is below the probe distance proves the key absent from the whole table |
| RobinHoodSlots.ProbeBoundedByCount | 3rd/flat_hash_map/include/flat_hash_map.hpp:579-591 | a probe distance never exceeds the number of elements |
| RobinHoodSlots.SwapCarried | 3rd/flat_hash_map/include/flat_hash_map.hpp:854-859 | swapping the carried element for the one in a slot keeps the order invariant and the elements, and the slot is not the end sentinel |
| RobinHoodSlots.PlaceCarried | 3rd/flat_hash_map/include/flat_hash_map.hpp:848-853 | putting the carried element into an empty slot gives a proper table with one element more |
| RobinHoodSlots.SkipCarried | 3rd/flat_hash_map/include/flat_hash_map.hpp:860-863 | passing a slot keeps the state of the chain |
| RobinHoodSlots.BackwardShift | 3rd/flat_hash_map/include/flat_hash_map.hpp:674-685 | the array after a backward shift is a proper table with one element fewer and the others in their old sequence |
| RobinHoodSlots.CompactingStep | 3rd/flat_hash_map/include/flat_hash_map.hpp:699-711 | each turn of the range shift keeps its invariant |
| PowersOfTwo.NextSizeOverIsLeast | 3rd/flat_hash_map/include/flat_hash_map.hpp:1283-1287 | the next size is a power of two, and no smaller power of two from two up would do |
| PowersOfTwo.NextSizeGrows | 3rd/flat_hash_map/include/flat_hash_map.hpp:873-876 | asking for twice the buckets lands at least one level up |
| BitTricks.NextSizeIsLeastIff | 3rd/flat_hash_map/include/flat_hash_map.hpp:253-264 | on 64 bits the smeared next size is that least power of two exactly for requests up to 2^63; beyond, it wraps around to 2 |
| BitTricks.SmearFills | 3rd/flat_hash_map/include/flat_hash_map.hpp:253-264 | the six or-shifts copy the highest bit into every lower one |
| BitTricks.TableIsRight | 3rd/flat_hash_map/include/flat_hash_map.hpp:208-228 | the multiplier sends each of the 64 powers of two to the table entry holding its exponent |
| BitTricks.Log2ByTableIsLog2 | 3rd/flat_hash_map/include/flat_hash_map.hpp:208-228 | log2 is the exponent of the highest bit for every non-zero word, and 63 for zero |
| BitTricks.IndexIsInRange | 3rd/flat_hash_map/include/flat_hash_map.hpp:1272-1298 | for every 64-bit hash and every request up to 2^63 the Fibonacci index is below the bucket count |
| FibonacciPolicy.PolicyIsInRange | 3rd/flat_hash_map/include/flat_hash_map.hpp:1272-1301 | with the shift that goes with the number of buckets, 63 before there are any, the index of any hash is what the table asks of its index function |
| BitTricks.IndexIsTopOfProduct | 3rd/flat_hash_map/include/flat_hash_map.hpp:1272-1278 | the index is the high part of hash times 11400714819323198485 modulo 2^64 |
| FibonacciPolicy.FirstIndexIsHighestBit | 3rd/flat_hash_map/include/flat_hash_map.hpp:1272-1298 | before there are buckets the index is the highest bit of the product |
| FibonacciPolicy.RunWithPolicy | 3rd/flat_hash_map/include/flat_hash_map.hpp:543-734 | any run under that policy, for any hash function, answers as a mathematical set would |
| Xxh3Stream.HashInChunks | 3rd/xxhash/include/xxhash.h:4754-4960 | for every keying and every cutting of an input into updates, the digest after each update is the one-shot hash of what has been fed by then |
| Xxh3Stream.State.Update | 3rd/xxhash/include/xxhash.h:4786-4899 | the state stands for the concatenation of everything fed, through buffering, whole blocks and the 256-byte boundary |
| Xxh3Stream.State.Digest | 3rd/xxhash/include/xxhash.h:4944-4960 | the digest is the one-shot hash of everything fed; which short-key hash up to 16, 128 and 240 bytes, and beyond that which bytes of the secret key the last stripe and the merge, for each way of keying |
| Xxh3Stream.State.DigestLong | 3rd/xxhash/include/xxhash.h:4910-4942 | the last stripe is completed from the tail of the buffer where too few bytes are buffered |
| Xxh3Stream.State.LastStripe | 3rd/xxhash/include/xxhash.h:4928-4941 | the bytes accumulated last are the last 64 fed, wherever they are kept |
| Xxh3Stream.State.ConsumeStripes | 3rd/xxhash/include/xxhash.h:4754-4776 | consuming stripes across a block end, with its scramble, is taking them one by one |
| Xxh3Stream.State.IngestBlocks | 3rd/xxhash/include/xxhash.h:4840-4867 | the path for at least a block of input takes whole stripes, leaves at least one byte, and remembers the last stripe |
| Xxh3Stream.State.IngestBuffers | 3rd/xxhash/include/xxhash.h:4868-4883 | so does the path by buffers |
| Xxh3Stream.State.Reset | 3rd/xxhash/include/xxhash.h:4708-4714 | an empty stream keyed by the default secret; the cached secret stays sound |
| Xxh3Stream.State.ResetWithSecret | 3rd/xxhash/include/xxhash.h:4716-4725 | fails exactly for a null or short secret, and the cached secret stays sound even then |
| Xxh3Stream.State.ResetWithSeed | 3rd/xxhash/include/xxhash.h:4727-4737 | whatever resets came before, failed ones included, skipping the derivation leaves the secret of the new seed |
| Xxh3Stream.State.ResetWithSecretAndSeed | 3rd/xxhash/include/xxhash.h:4739-4749 | fails exactly for a null or short secret, changing nothing |
| Xxh3.HashLongLoop | 3rd/xxhash/include/xxhash.h:4375-4462 | the one-shot loop over blocks and stripes is the stripe-by-stripe definition |
| Xxh3.ShortHashIs | 3rd/xxhash/include/xxhash.h:4535-4590 | up to 16, 128 and 240 bytes, which short-key hash it is, and under which secret and seed, for each way of keying; each is only defined on the lengths it asserts |
| Xxh3.LongHashIs | 3rd/xxhash/include/xxhash.h:4375-4462 | beyond 240 bytes: the last 64 bytes under the 64 bytes of the secret that end 7 before its end, and the merge under those from 11 on, with the length times the first prime |
| Xxh3.StripeByStripe | 3rd/xxhash/include/xxhash.h:4358-4399 | stripe n of a block is keyed by the secret from 8n on, a block ends where the secret does, and the last 64 bytes key the scramble |
| Xxh3.AbsorbConcat | 3rd/xxhash/include/xxhash.h:4754-4776 | whole stripes first and the rest afterwards is all of it at once |
| Xxh3.AbsorbWithinBlock | 3rd/xxhash/include/xxhash.h:4358-4373 | stripes inside a block accumulate without a scramble until the block is full |
| Xxh3.BlocksAndStripes | 3rd/xxhash/include/xxhash.h:4383-4399 | whole blocks and the remaining stripes of the last one cover everything up to the last byte |
| LaneArithmetic.Mult64To128IsExact | 3rd/xxhash/include/xxhash.h:3344-3358 | the portable product is exact on 128 bits |
| LaneArithmetic.Mult64To128Sums | 3rd/xxhash/include/xxhash.h:3344-3358 | no 64-bit addition on the way overflows |
| LaneArithmetic.AccumulateScalar | 3rd/xxhash/include/xxhash.h:4196-4212 | the scalar loop, with its swapped lanes, adds to each lane its neighbour's data and its own keyed product modulo 2^64 |
| LaneArithmetic.AccumulateVector | 3rd/xxhash/include/xxhash.h:3931-3964 | the vector loop, with its word shuffles, leaves the same lanes |
| LaneArithmetic.LaneAccumulates | 3rd/xxhash/include/xxhash.h:4196-4212 | a lane in numbers: its neighbour's data and the product of the two halves of its keyed data are added |
| LaneArithmetic.LaneScrambles | 3rd/xxhash/include/xxhash.h:4214-4229 | a lane in numbers: combined with itself shifted by 47 and with the key, and multiplied by the prime |
| XorDigits.LastDigit | 3rd/xxhash/include/xxhash.h:3882-3886 | exclusive or on numbers is the machine's on each hexadecimal digit |
| LaneArithmetic.AccumulateVecIsScalar | 3rd/xxhash/include/xxhash.h:3931-3964 | one register step is the scalar step on both lanes |
| LaneArithmetic.HalvesOfProduct | 3rd/xxhash/include/xxhash.h:3882-3886 | the low-half product plus the shifted high-half product is the 64-bit product modulo 2^64 |
| LaneArithmetic.ScrambleVecIsScalar | 3rd/xxhash/include/xxhash.h:3966-3992 | one register of the vector scramble is the scalar scramble of both lanes |
| LaneArithmetic.ScrambleVector | 3rd/xxhash/include/xxhash.h:3966-3992 | the vector scramble leaves the same lanes |
| Xxh32.HashInChunks | 3rd/xxhash/include/xxhash.h:2158-2245 | for every cutting of an input of any length, each digest on the way is the one-shot hash of what has been fed by then, although the counted length wraps at 2^32 |
| LiteralDigests.Digest32 | 3rd/xxhash/include/xxhash.h:2083-2114 | the digest of the bytes 0 to 20 under a seed, as a number: a stripe, four bytes and one |
| LiteralDigests.EmptyDigest32 | 3rd/xxhash/include/xxhash.h:2083-2114 | the digest of nothing under a seed, as a number |
| LiteralDigests.Digest64 | 3rd/xxhash/include/xxhash.h:2497-2531 | the digest of the bytes 0 to 44 under a seed, as a number: a stripe, eight bytes, four and one |
| LiteralDigests.EmptyDigest64 | 3rd/xxhash/include/xxhash.h:2497-2531 | the digest of nothing under a seed, as a number |
| Xxh32.OneShot | 3rd/xxhash/include/xxhash.h:2083-2114 | the one-shot loop computes the hash as defined on the whole input |
| Xxh32.Finalize | 3rd/xxhash/include/xxhash.h:1994-2022 | the tail is mixed four bytes at a time, then one at a time |
| Xxh32.State.Update | 3rd/xxhash/include/xxhash.h:2174-2225 | the state stands for everything fed; large_len says whether 16 bytes have been seen, whatever the wrapped length says |
| Xxh32.State.Digest | 3rd/xxhash/include/xxhash.h:2229-2245 | the digest is the one-shot hash of everything fed |
| Xxh32.State.BufferedIsRemainder | 3rd/xxhash/include/xxhash.h:2174-2225 | memsize is always the length modulo 16 |
| Xxh32.State.ThirdLaneIsSeed | 3rd/xxhash/include/xxhash.h:2239 | below 16 bytes the third lane is the seed |
| Xxh64.HashInChunks | 3rd/xxhash/include/xxhash.h:2574-2658 | the same for XXH64 and total lengths below 2^64 |
| Xxh64.OneShot | 3rd/xxhash/include/xxhash.h:2497-2531 | the one-shot loop computes the hash as defined on the whole input |
| Xxh64.Finalize | 3rd/xxhash/include/xxhash.h:2461-2484 | the tail is mixed eight bytes at a time, then four at most once, then one at a time |
| Xxh64.State.Update | 3rd/xxhash/include/xxhash.h:2589-2637 | the state stands for everything fed |
| Xxh64.State.Digest | 3rd/xxhash/include/xxhash.h:2641-2658 | the digest is the hash of everything fed unless the 64-bit length has wrapped around to below 32, and what it is then |
| Xxh64.State.BufferedIsRemainder | 3rd/xxhash/include/xxhash.h:2589-2637 | memsize is always the length modulo 32 |
| LaneHash.AbsorbConcat | 3rd/xxhash/include/xxhash.h:2604-2634 | whole stripes first and the rest afterwards is all of it at once |
| ImportSafety.TableIsAlwaysAFold | src/query_builder.cpp:36-110 | after every schedule of moves and crashes, those inside a commit landing on a record already applied, the table is the last-write-wins fold of a record prefix at least as long as the committed one, and no statement has been rejected; for any hash function |
| ImportSafety.BulkInsertsOnlyNewKeys | src/query_builder.cpp:36-73 | a bulk insert never carries a key that is in the table, nor one key twice |
| ImportSafety.EveryRunKeepsInv | src/query_builder.cpp:7-110 | the invariant over every such sequence of moves and crashes, crashes inside next_query and inside commit included |
| ImportSafety.StepKeepsInvIff | src/query_builder.cpp:36-110 | each single move and each crash keeps it, except a crash between the two stores of a commit: that one keeps it if and only if the position it leaves is that of a record not beyond the applied ones |
| ImportSafety.OtherCrashesLand | src/query_builder.cpp:80-85 | a schedule without that crash meets the condition the theorems on schedules ask for |
| ImportCompleteness.OneRunImportsIff | src/query_builder.cpp:41-60 | from any idle state, a complete run leaves the fold of all records but the last, partial batch after the last known hash; it is complete if and only if that batch is empty, which can be computed before the run |
| ImportCompleteness.RunDelivers | src/query_builder.cpp:36-87 | what a run delivers, from any idle state, pending statements included |
| ImportCompleteness.GatherScans | src/query_builder.cpp:42-60 | a gathering stops at the first known hash, a full batch or the end, whichever is first, and records what it read |
| ImportCompleteness.BatchIsFullIff | src/query_builder.cpp:41-60 | a batch is full exactly if the next 501 records all have unknown hashes, and then holds these |
| ImportCompleteness.OnlyRecordIsDropped | src/query_builder.cpp:46-48 | for every record: an import of it alone ends with an empty table |
| HalfCommit.HalfCommitServesIff | src/query_builder.cpp:80-85 | after the first store only, the stored pair is the position of one of the first m records, or of the end of them, if and only if the file is the old one or the old offset serves in the new file: for every m not below what was committed, so for the number of records the table stands for |
| HalfCommit.SeemsToEnd | src/buffered_reader.cpp:17-34 | an offset at the end of a file, beyond it, or in front of a byte 0xFF leaves the records of the files that follow |
| HalfCommit.StopsEarly | src/buffered_reader.cpp:17-28 | the exact condition where a byte 0xFF stops reading on the way |
| HalfCommit.SameRecord | src/query_builder.cpp:89-110 | where whole records can be read from inside a record, that record ends at the same byte, so only its own cells can differ |
| HalfCommit.KilledInCommit | src/query_builder.cpp:80-85 | two files where it does not serve: the pair stands for no record, and what is read from it is in neither file |
| HalfCommit.CommitIsReached | src/query_builder.cpp:36-87 | the run over these files that comes to that commit |
| ImportSafety.CompleteRunStops | src/query_builder.cpp:36-87 | the caller's loop ends, and a run that starts with all hashes known drops nothing |
| ImportSafety.WhatACompleteRunLeaves | src/query_builder.cpp:46-48 | when a run ends, the table is the fold of the committed prefix, so what is undelivered is what follows it, and all hashes are known |
| ImportSafety.TwoRunsImportEverything | src/query_builder.cpp:36-110 | after any such history, a restart and two complete runs leave the fold of all records |
| ImportSafety.UpdateThenInsertIsUpsert | src/query_builder.cpp:141-206 | the conditional update followed by the insert-if-absent is the upsert |
| ImportSafety.BatchExtendsFold | src/query_builder.cpp:166-185 | a batch of new keys is accepted and extends the fold by the whole batch |
| ImportSafety.ReplayHarmless | src/query_builder.cpp:141-164 | applying a record again changes nothing |
| ImportSafety.GatherFacts | src/query_builder.cpp:42-60 | a batch holds only records whose hashes were new, and what it passes is known |
| ImportSafety.GatherStartsAtApplied | src/query_builder.cpp:42-60 | below the applied position the loop meets a duplicate at once |
| ImportSafety.FoldIsNewest | src/query_builder.cpp:141-164 | in the fold no record with the same key is newer than the row |
| ImportSafety.FoldRowIsARecord | src/query_builder.cpp:141-206 | every row of the fold is one of the records with its key |
| ImportSafety.FoldKeys | src/query_builder.cpp:141-206 | the fold has a row for exactly the keys of the records |
| TableCells.KeyHasUniqueCells | src/query_builder.cpp:121-139 | the key of a record has one cell for each unique column: the cell of unique column c stands behind those of the unique columns before c |
| TableCells.SameKeyIff | src/query_builder.cpp:121-139 | two records of the same length have the same key if and only if they agree on every unique column |
| TableCells.RowIsFirstNewest | src/query_builder.cpp:141-164 | a row is a record all[i] with its key such that no record with that key has a newer last cell than all[i], and every earlier one has a different last cell: newest by updated_at, and the first of equals |
| TableCells.RowOfRecord | src/query_builder.cpp:141-206 | in the cells: for every record there is a row that agrees with it on the unique columns and is not older, and every other row differs from it in a unique column |
| TableCells.UpdateReplacesIff | src/query_builder.cpp:141-164 | the update replaces a row exactly if it has the key and the last cell is older than the record's, and changes no other row |
| TableCells.InsertAddsIff | src/query_builder.cpp:187-206 | the insert-if-absent adds the record exactly if no row has its key |
| TableCells.BulkInsertAcceptedIff | src/query_builder.cpp:166-185 | a bulk insert is accepted if and only if its records have different keys, none of them in the table |
| TableCells.BulkInsertAdds | src/query_builder.cpp:166-185 | an accepted one adds exactly its records |
| ImportRun.ImportAll | src/query_builder.cpp:7-110 | two complete runs of real query builders over fresh shared memory leave the fold of all records of all files |
| ImportRun.RunOnce | src/query_builder.cpp:36-87 | the loop over a real query builder is exactly a complete run of the state machine |
| ImportRun.RestartAndRun | src/query_builder.cpp:7-34 | a restart from what shared memory holds, followed by a complete run |
| ImportKilled.ImportDespiteKills | src/query_builder.cpp:7-110 | real query builders over one shared segment, any number of them killed after any number of rounds, while gathering, after asking, before committing or between the two stores: the table is where the state machine is, the fold of a record prefix, and two more builders that run to the end complete the import, unless a cut commit has left no position; then its bytes are such that the offset does not serve |
| ImportKilled.KilledProcess | src/query_builder.cpp:7-87 | one builder from its start to its being killed leaves in shared memory and in the table exactly what the state machine has after the same moves; or it is killed between the two stores of a commit and no position is left |
| ImportKilled.KilledAfterFirstStore | src/query_builder.cpp:80-85 | whatever record the pair stands for after the first store, up to what the table stands for, the state machine has landed there; where it stands for none, the old offset does not serve |
| ImportKilled.Landed | src/query_builder.cpp:7-34 | a restart recovers that record as its position |
| ImportKilled.GatherInPart | src/query_builder.cpp:42-60 | a gathering stopped after any number of turns has put into shared memory exactly the hashes the crashing state machine has |
| QueryBuilding.QueryBuilder.constructor | src/query_builder.cpp:7-34 | recovery: the builder stands at the committed position with the persistent hashes and nothing pending |
| QueryBuilding.QueryBuilder.NextQuery | src/query_builder.cpp:36-73 | statement and new state are those of the state machine on record positions |
| QueryBuilding.QueryBuilder.GatherBatch | src/query_builder.cpp:41-60 | the loop over files, hash state and hash table is the gathering on record positions |
| QueryBuilding.QueryBuilder.Commit | src/query_builder.cpp:75-87 | commits where the state machine does: not while a statement is owed, and before a record set aside |
| QueryBuilding.QueryBuilder.StoreHandleIdx | src/query_builder.cpp:80-85 | the first of its two stores, and when a restart right after it stands at one of the first m records, or their end, for every m not below what was committed |
| QueryBuilding.QueryBuilder.InsertHash | src/query_builder.cpp:50-53 | a record counts as new exactly when its hash was not in the persistent set |
| QueryBuilding.HashRecord | src/query_builder.cpp:112-119 | feeding the unique columns one by one gives the unkeyed XXH3 hash of their concatenation |
| RecordSourcing.RecordSource.NextRecord | src/query_builder.cpp:89-110 | returns the next record of all the files in order, and none exactly at the end |
| RecordSourcing.RecordSource.constructor | src/query_builder.cpp:7-34 | from any recorded (file, offset) pair the rest of the records is left to read |
| RecordSourcing.RecordSource.ReadCells | src/query_builder.cpp:103-108 | reads the cells of one record, normalising the float columns |
| RecordSourcing.RecordSource.ToNextRecord | src/query_builder.cpp:93-99 | moving on to the next file loses and repeats no record |
| CsvFile.RestNext | src/query_builder.cpp:89-110 | a record and the rest after it make up the rest before it |
| CsvFile.RestAcrossFiles | src/query_builder.cpp:93-99 | where peek takes a file to end, an offset beyond it included, the same records are left as at the start of the next file |
| CsvFile.NothingLeft | src/query_builder.cpp:95-98 | nothing is left exactly where peek takes the last file to end |
| CsvFile.EndsInSeparator | src/buffered_reader.cpp:40-54 | a file of whole records ends in a separator, so a field never runs over the end |
| CsvWriting.LinesRead | src/query_builder.cpp:101-109 | fields without comma and newline, written with byte 44 between them and byte 10 behind the last, are read back cell by cell, those of float columns normalised and the others as they were written |
| CsvWriting.FilesRead | src/query_builder.cpp:89-110 | so are the records of any number of files, in order |
| CsvWriting.LineReads | src/query_builder.cpp:103-108 | one line, from any offset of a file |
| CsvWriting.ImportWritten | src/query_builder.cpp:7-110 | an import of written files by real query builders leaves the fold of the records that were written |
| BufferedReading.BufferedReader.Peek | src/buffered_reader.cpp:17-28 | the next byte as a signed char, or EOF, whatever the buffer holds; nothing is consumed |
| BufferedReading.BufferedReader.Seek | src/buffered_reader.cpp:30-34 | from any state the reader stands at the given offset, which may be beyond the end of the file |
| BufferedReading.BufferedReader.GetValue | src/buffered_reader.cpp:40-54 | the bytes up to the next byte 44 or 10, which is consumed too and is none of them; the offset moves past it |
| BufferedReading.EofIsAmbiguous | src/buffered_reader.cpp:17-28 | peek says EOF at the end or beyond it, and in front of a byte 0xFF, and nowhere else |
| DequeRuns.Run | 3rd/boost.ipc/include/boost/container/deque.hpp:1742-2140 | any sequence of pushes, pops, insertions, erasures and clears, for any block size, leaves what the same operations on a sequence leave |
| DequeRuns.RunIsOnSequence | 3rd/boost.ipc/include/boost/container/deque.hpp:1742-2140 | for elements that survive self-move these are the elements of a sequence after the same appends, prepends, insertions and removals |
| SegmentedDeque.Deque.constructor | 3rd/boost.ipc/include/boost/container/deque.hpp:604-607 | an empty deque has no map |
| SegmentedDeque.Deque.Insert | 3rd/boost.ipc/include/boost/container/deque.hpp:2063-2140 | at any position and for any number of elements: prefix, new elements, suffix, and the iterator of the position; on an empty deque it makes the map; the slots outside the stretch are as before, and the header's statement about them is kept exactly under the condition computed before |
| SegmentedDeque.Deque.InsertNearFront | 3rd/boost.ipc/include/boost/container/deque.hpp:2075-2103 | the same for the half that moves the elements before the position |
| SegmentedDeque.Deque.InsertNearBack | 3rd/boost.ipc/include/boost/container/deque.hpp:2104-2138 | and for the half that moves those after it |
| SegmentedDeque.Deque.MoveFrontSmall | 3rd/boost.ipc/include/boost/container/deque.hpp:2083-2091 | two moves and a copy: only initialised cells are read, raw cells are constructed, others assigned |
| SegmentedDeque.Deque.MoveFrontLarge | 3rd/boost.ipc/include/boost/container/deque.hpp:2092-2101 | the same when more elements come than stand before |
| SegmentedDeque.Deque.MoveBackSmall | 3rd/boost.ipc/include/boost/container/deque.hpp:2113-2121 | the same at the back |
| SegmentedDeque.Deque.MoveBackLarge | 3rd/boost.ipc/include/boost/container/deque.hpp:2122-2137 | the same at the back when more elements come than stand after |
| SegmentedDeque.Deque.ReserveFront | 3rd/boost.ipc/include/boost/container/deque.hpp:2260-2283 | owns enough raw cells before start and not one block too many; start and finish keep their cells; which slots are used then, which addresses were handed out, and that the others are unchanged in a map that stays |
| SegmentedDeque.Deque.ReserveBack | 3rd/boost.ipc/include/boost/container/deque.hpp:2285-2308 | the same behind finish |
| SegmentedDeque.Deque.ReallocateMap | 3rd/boost.ipc/include/boost/container/deque.hpp:2310-2341 | contents and both ends are unchanged, there is room for the blocks asked for, and the used slots stand where the source puts them, in the same map exactly if it is more than twice as large as needed, else in a larger one |
| SegmentedDeque.Deque.PlaceInMap | 3rd/boost.ipc/include/boost/container/deque.hpp:2310-2338 | the used pointers are copied to that place, forwards or backwards, without overwriting one not yet read |
| SegmentedDeque.Deque.InitializeMap | 3rd/boost.ipc/include/boost/container/deque.hpp:426-453 | one empty block, in the middle of a map of eight |
| SegmentedDeque.Deque.PushBack | 3rd/boost.ipc/include/boost/container/deque.hpp:2002-2015 | appends, and what Insert says about the map |
| SegmentedDeque.Deque.PushFront | 3rd/boost.ipc/include/boost/container/deque.hpp:1987-2000 | prepends, and what Insert says about the map |
| SegmentedDeque.Deque.PopFront | 3rd/boost.ipc/include/boost/container/deque.hpp:1742-1754 | removes the first element; the block it leaves is freed; the header's statement about the map is kept |
| SegmentedDeque.Deque.PopBack | 3rd/boost.ipc/include/boost/container/deque.hpp:1761-1773 | removes the last element, with the same about the map |
| SegmentedDeque.Deque.PopFrontAux | 3rd/boost.ipc/include/boost/container/deque.hpp:2249-2258 | the last cell of the first block: a second block exists, the first is raw when freed |
| SegmentedDeque.Deque.PopBackAux | 3rd/boost.ipc/include/boost/container/deque.hpp:2234-2243 | the first cell of the last block: a block before it exists |
| SegmentedDeque.Deque.Erase | 3rd/boost.ipc/include/boost/container/deque.hpp:1783-1797 | removes exactly the element and returns its position; the header's statement about the map is kept |
| SegmentedDeque.Deque.EraseRange | 3rd/boost.ipc/include/boost/container/deque.hpp:1808-1837 | removes exactly the range, from the nearer side, and returns its position; what an empty range does is spelled out; the header's statement about the map is kept |
| SegmentedDeque.Deque.CloseRangeFromFront | 3rd/boost.ipc/include/boost/container/deque.hpp:1819-1825 | closing the gap from the front frees exactly the blocks before the new start |
| SegmentedDeque.Deque.CloseRangeFromBack | 3rd/boost.ipc/include/boost/container/deque.hpp:1826-1832 | closing it from the back frees exactly the blocks after the new finish |
| SegmentedDeque.Deque.DestroyNodes | 3rd/boost.ipc/include/boost/container/deque.hpp:469-473 | each block is live, raw and freed once |
| SegmentedDeque.Deque.Clear | 3rd/boost.ipc/include/boost/container/deque.hpp:1857-1878 | destroys every object once, frees every block but the first, and leaves an empty deque; the header's statement about the map is kept |
| SegmentedDeque.Deque.WhatBlocksHold | 3rd/boost.ipc/include/boost/container/deque.hpp:98-105 | which cells hold objects, block by block, as the header's prose has it |
| SegmentedDeque.Deque.Add | 3rd/boost.ipc/include/boost/container/deque.hpp:240-259 | iterator plus offset points that many cells on, over any number of blocks |
| SegmentedDeque.Deque.Distance | 3rd/boost.ipc/include/boost/container/deque.hpp:189-198 | iterator difference counts the cells between |
| DequeMemory.PlusMovesBy | 3rd/boost.ipc/include/boost/container/deque.hpp:240-259 | adding n moves n cells, negative offsets included, and reads a map slot that exists |
| DequeMemory.MinusCounts | 3rd/boost.ipc/include/boost/container/deque.hpp:189-198 | subtraction is the difference of cell numbers |
| DequeMemory.PlusMinusRoundTrip | 3rd/boost.ipc/include/boost/container/deque.hpp:189-259 | adding a difference leads to the other iterator |
| DequeMemory.NextMovesByOne | 3rd/boost.ipc/include/boost/container/deque.hpp:200-211 | ++ moves one cell |
| DequeMemory.PrevMovesByOne | 3rd/boost.ipc/include/boost/container/deque.hpp:220-231 | -- moves one cell |
| DequeMemory.ShrinkFrontBy | 3rd/boost.ipc/include/boost/container/deque.hpp:1822-1824 | freeing the first k blocks leaves the cells of the others |
| DequeCells.FrontInserts | 3rd/boost.ipc/include/boost/container/deque.hpp:2075-2103 | both ways near the front leave the old elements with the new ones in between, and nothing else initialised |
| DequeCells.BackInserts | 3rd/boost.ipc/include/boost/container/deque.hpp:2104-2138 | both ways near the back do too |
| DequeCells.FrontSmallSteps | 3rd/boost.ipc/include/boost/container/deque.hpp:2083-2091 | every cell a move or a copy touches is in the state that step needs |
| DequeCells.FrontLargeSteps | 3rd/boost.ipc/include/boost/container/deque.hpp:2092-2101 | the same for the second way |
| DequeCells.BackSmallSteps | 3rd/boost.ipc/include/boost/container/deque.hpp:2113-2121 | the same for the third |
| DequeCells.BackLargeSteps | 3rd/boost.ipc/include/boost/container/deque.hpp:2122-2137 | the same for the fourth |
| DequeCells.EraseFrontCells | 3rd/boost.ipc/include/boost/container/deque.hpp:1819-1825 | moving the elements before the gap up leaves the others in order |
| DequeCells.EraseBackCells | 3rd/boost.ipc/include/boost/container/deque.hpp:1826-1832 | moving those after it down does too |
| DequeCells.InsertKeepsValuesIff | 3rd/boost.ipc/include/boost/container/deque.hpp:2063-2140 | an insertion keeps all values if and only if it inserts something, or every element on the shorter side of the position survives being moved onto itself; for any self-move |
| DequeCells.InsertNothingLosesAnElement | 3rd/boost.ipc/include/boost/container/deque.hpp:2113-2121 | inserting nothing before the second of two elements leaves it as its self-move does, so one that does not survive it is lost |
| DequeCells.EraseKeepsValuesIff | 3rd/boost.ipc/include/boost/container/deque.hpp:1808-1837 | erasing a range keeps the values of the others if and only if the range is not empty, or every element on the shorter side survives being moved onto itself |
| DequeMap.GrowingKeepsHeaderIff | 3rd/boost.ipc/include/boost/container/deque.hpp:2260-2341 | where a map that stays satisfies the header's statement, it does after growing if and only if the stretch covers its old place and no address about to be handed out is in a slot outside; all of it known before the call, for any allocator |
| DequeMap.HeaderHoldsIff | 3rd/boost.ipc/include/boost/container/deque.hpp:107-109 | in any map, a new one included, the header's statement is that no slot outside the stretch has a live address |
| DequeMap.ShrinkingKeepsHeader | 3rd/boost.ipc/include/boost/container/deque.hpp:1742-1878 | giving up blocks at either end keeps it |
| DequeMap.MovedAndFilled | 3rd/boost.ipc/include/boost/container/deque.hpp:2260-2341 | moving the used slots and taking the new blocks come to what growing is said to do |
| DequeMap.MiddleInNumbers | 3rd/boost.ipc/include/boost/container/deque.hpp:2310-2341 | the size of the map after the used slots have moved, and where they start |
| DequeRuns.MovingLeavesPointers | 3rd/boost.ipc/include/boost/container/deque.hpp:2310-2337 | a run of pushes and pops, whatever the allocator, after which a slot outside the stretch points to a live block because the stretch was moved |
| DequeRuns.ReusingRevivesPointers | 3rd/boost.ipc/include/boost/container/deque.hpp:2260-2283 | a run without a move after which one does because its address was handed out again |
| DequeRuns.EmptyInsertInARun | 3rd/boost.ipc/include/boost/container/deque.hpp:2063-2140 | the shortest run of operations in which nothing is inserted and an element is left as its self-move leaves it |
| DecimalRounding.RepresentFloat | src/utils.cpp:145-193 | the result denotes the input rounded half up to six significant digits and is again a decimal number |
| DecimalRounding.SixDigits | src/utils.cpp:146-165 | reading stops behind the sixth significant digit, or at the end, and the dot is found wherever it is |
| DecimalRounding.CarryNines | src/utils.cpp:170-184 | the carry adds one to the digits kept, through nines, the dot and a new leading digit |
| DecimalRounding.RoundsUpIsHalf | src/utils.cpp:169 | one character decides as the whole part left out would |
| DecimalRounding.RoundParts | src/utils.cpp:145-193 | rounding goes up exactly when the part left out is at least half |
| DecimalRounding.SixDigitsAreKept | src/utils.cpp:145-193 | a number of 6 + k digits goes to a multiple of 10^k, not further than half of that away, and up from the middle |
| DecimalRounding.Denotes | src/utils.cpp:145-165 | what a string of digits with a dot denotes |
| DecimalRounding.DecimalIff | src/utils.cpp:145-165 | the strings meant: digits and at most one dot |
| DecimalRounding.RoundToSixIsNearest | src/utils.cpp:145-193 | the rounded number is the nearest, the upper of two, and unchanged for six digits or fewer |
| DecimalRounding.RoundToSixFits | src/utils.cpp:145-193 | it has at most six significant digits |

## Left out

- Database connection, process handling, directory listing, argument parsing, DDL parsing and task distribution (`src/main.cpp` and the rest of `src/utils.cpp`): input and output, and plain string handling.
- SQL text, quoting, escaping and collations: statements are modelled by their effect on a table from keys to records.
- `normalize_float`: a function parameter of the schema; so is the comparison behind `updated_at`, required to be a strict order.
- Column masks are sets of column numbers; the source's `1 << i` holds for the columns an `int` has bits for.
- Shared memory is an object that survives a crash; each insertion into the persistent hash set is atomic, and so is each of the two stores of a commit.
- CSV files have at least one record, whole records only, and none that starts with a byte 0xFF; the fields of a record are short enough for a key of fewer than 2^64 bytes; the number of files fits in the type of the file index.
- A record set aside is moved from in `next_query`; a moved-from `std::string` is taken to be empty.
- Bucket counts, element counts and file offsets are unbounded in the classes; `BitTricks` has the 64-bit facts. Allocation never fails, so exception paths are absent.
- The hash table's load factor is one half; its setter, copying, moving, swapping, `shrink_to_fit` and the prime-number policy are absent. The index function is a parameter that stays below the bucket count, `FibonacciPolicy.FibonacciIndex` being one.
- XXH3 with 128-bit results, the remaining SIMD variants, endianness and alignment variants, and the jump-table form of the XXH32 tail.
- Xxh3Stream.HashInChunks: total lengths of 2^64 bytes and more are outside the contract, as the counted length wraps.
- Xxh64.HashInChunks: the same bound; `Digest` says what happens beyond it.
- Deque blocks are values in a store under the addresses the allocator picked, and an iterator's `m_cur` is an offset in its block. Constructors from ranges, `resize`, assignment, comparison, `swap`, `shrink_to_fit` and `stable_emplace` are absent.
- DequeMap.GrowingKeepsHeaderIff: is about a map that stays; in a newly allocated one the slots outside the stretch are uninitialised, and `HeaderHoldsIff` is all that can be said.
- ImportKilled.ImportDespiteKills: a schedule ends at the first kill in a commit that leaves no position; what the original reads from there on, and a buffer read past its end, are not modelled.
- The deque's allocator answers by how many blocks it has handed out and which are live; it never fails.
- DecimalRounding.RepresentFloat: non-negative numbers only; a carry out of all digits of a negative number would reach its sign.
