# audioDB LSH index and result reporters in Dafny

This project models two parts of audioDB.

- **The locality-sensitive hashing index** in `lshlib.cpp`: the classes `H` and `G`.
  - A vector's integer hash values `g` are folded into two keys per table with the coefficient vectors `r1` and `r2`:
    - `t1`, the row;
    - `t2`, the bucket identity, below the prime `P = 2^32 - 5`.
  - `insert_point` adds a point ID to the row `t1` of each of the `L` tables. A row is a chain of buckets keyed by `t2`, and each bucket holds a chain of point IDs.
    - Point IDs must arrive in strictly ascending order.
    - With `LSH_BLOCK_FULL_ROWS`, a head node counts the insertions into its row and refuses points once the count reaches `C`.
  - `retrieve_point` reports every point of the matching bucket of each table.
  - The tables are stored in one of two file formats:
    - FORMAT1 holds dense rows of `numCols` `(hashValue, pointID)` slots, each ended by `IFLAG`. They are written, merged, read back and scanned in place by a query.
    - FORMAT2 is a token stream `{ [T1 t1 [T2 t2 p+]+ ]* E }^L`. It is written, and read back by a state machine.
  - The file header arithmetic is also modelled: `align_up`, the file sizes, the table offsets and `serial_can_merge`.
- **The result reporters** in `include/reporter.h`. Each one receives the retrieval callback's `(trackID, qpos, spos, dist)`:
  - `pointQueryReporter` and `trackAveragingReporter` keep bounded priority queues;
  - `trackSequenceQueryRadReporter` counts distinct query positions per track through a set of triples;
  - `trackSequenceQueryRadNNReporter` does both;
  - `trackSequenceQueryRadNNReporterOneToOne` keeps the nearest result per query position.

The model is organised as follows.

- **The index object** is the class `Index.LshIndex`:
  - its tables, counters and `maxp` are fields that the methods update in place;
  - every method is proved against a specification function on values (`Tables.Put`, `Tables.Insert`, `Tables.Retrieve`, `SerialTables.LoadTables`, `Format2.ReadTables`, `Format2.FileWords`, …);
  - the properties of those specification functions are proved as lemmas.
- **Rows and chains.** A row is `Row(counter, chain)`, where the chain is a non-empty sequence of `Bucket(t2, points)`. A freshly allocated bucket is `Bucket(IFLAG, [])`. An unallocated row is `None`.
- **FORMAT1 tables** are `array<Element>` values of `N * numCols` slots when written, and read-only sequences when read or queried. A mapped file is read-only there.
- **FORMAT2 files** are sequences of 32-bit words.
- **Integer widths.** `Uns32T` is a subtype of `int` below 2^32. Counters wrap (`Common.Add32`). `align_up` truncates to 32 bits.
- **Errors.** Every path that ends in `H::error` (which exits) or `CR_ASSERT` returns an `Err` value of `Common.Error`.
- **Reporters.** NaN distances are `Dist.NaN`. A priority queue is a sequence of ranked entries; a pop removes an entry of highest rank.

Constants from `lshlib.h`, a file that is not part of this model:
- `IFLAG = 0xFFFFFFFF`;
- `P = 2^32 - 5`;
- the tokens `T1`, `T2` and `E` = `0xFFFFFFFC`, `0xFFFFFFFD` and `0xFFFFFFFE`, as the comment at lshlib.cpp:554-556 gives them;
- the format flags FORMAT1 = 1 and FORMAT2 = 2;
- an element size of 8 bytes.

## Model

| member | source | states |
|---|---|---|
| Common.Add32 | lshlib.cpp:458 | unsigned 32-bit addition: the sum when it is below 2^32, otherwise the sum less 2^32 |
| HashKeys.ComputeProductModDefaultPrime | lshlib.cpp:320-332 | the accumulate-and-fold loop. On success it returns a value below P that is congruent to the dot product of a and b modulo P. It never reaches the CR_ASSERT failure when every coefficient is at most 2^29 (the randr range) |
| HashKeys.FoldCorrect | lshlib.cpp:320-332 | for the fold as a function: a completed fold is below P and congruent to the dot product modulo P, and it always completes under randr coefficients |
| HashKeys.FoldStepFacts | lshlib.cpp:324-329 | one step never overflows the 64-bit accumulator and keeps h + a[i]·b[i] modulo P. It stays below P when the coefficient is at most 2^29 |
| HashKeys.ReduceFacts | lshlib.cpp:325-328 | the low-word-plus-5-times-high-word fold and the conditional subtraction of P keep the residue modulo P. For sums in range they bring the value below P |
| HashKeys.FoldWordCongruent | lshlib.cpp:325 | 2^32 ≡ 5 (mod P): replacing s by (s mod 2^32) + 5·(s div 2^32) keeps s modulo P |
| HashKeys.FoldAbortPersists | lshlib.cpp:330 | once the CR_ASSERT fails in one step, the whole fold has failed |
| HashKeys.KeysCorrect | lshlib.cpp:312-315 | t1 = ((g·r1) mod P) mod N < N. t2 = (g·r2) mod P < P, so t2 is neither IFLAG nor a FORMAT2 token. Both keys exist under randr coefficients |
| HashKeys.GenerateHashKeys | lshlib.cpp:312-315 | the method computes those keys, and fails only through the fold's CR_ASSERT |
| Buckets.SBucketInsert | lshlib.cpp:383-398 | the point takes the first IFLAG slot of the sbucket chain, or is appended at the end when there is none. There is no duplicate check |
| Buckets.SBucketInsertGrows | lshlib.cpp:383-398 | the point chain grows by one slot unless it held an IFLAG slot, and it is never empty afterwards |
| Buckets.Stop | lshlib.cpp:358-381 | the first bucket of the chain that is unset or carries t2; every bucket before it carries another real key |
| Buckets.BucketInsertWalk | lshlib.cpp:358-381 | the bucket walk does one of three things. It claims the first unset bucket (a new bucket is counted), or it adds p to the bucket carrying t2 (not counted), or it appends a new bucket (t2, [p]) at the chain end (counted). Every other bucket is unchanged |
| Buckets.BucketInsertKeepsShape | lshlib.cpp:358-398 | insertion keeps the chain either a single blank bucket or keyed buckets with distinct keys, so exactly one bucket carries t2. It adds exactly one point |
| Buckets.RowInsertCap | lshlib.cpp:334-356 | a missing row is allocated with counter 0 and one blank bucket. The point is inserted iff the counter is below C, and the counter then grows by one. A full row is left unchanged. The returned collision count is the counter afterwards |
| Buckets.RowInsertKeepsRowOk | lshlib.cpp:334-356 | the head counter stays equal to the number of points and never exceeds C. A point is refused exactly when the row is full |
| Buckets.ChainPointsPresent | lshlib.cpp:1442-1458 | the bucket walk reports exactly the points of the bucket that carries the key |
| Buckets.ChainPointsAbsent | lshlib.cpp:1442-1458 | a key that no bucket carries reports nothing |
| Buckets.RetrieveAfterInsert | lshlib.cpp:358-398 | after inserting p under t2, a walk for t2 reports its old points with p inserted as the sbucket insertion does. Every other key reports what it did before |
| Buckets.InsertPairsAppend | lshlib.cpp:1189-1198 | inserting the pairs a + b one by one is inserting a, then b |
| Buckets.RebuildRow | lshlib.cpp:1189-1198 | re-inserting a well-formed keyed row's (t2, pointID) pairs, in chain order, into an empty slot rebuilds exactly that row |
| Tables.EmptyTables | lshlib.cpp:28-57 | the constructor's tables: L tables of N unallocated rows |
| Tables.InsertOutcome | lshlib.cpp:449-461 | insert_point fails with the ordering error iff maxp ≠ 0 and pp ≤ maxp; otherwise maxp becomes pp |
| Tables.ZeroReinserted | lshlib.cpp:452-454 | while maxp is 0, inserting point ID 0 keeps maxp at 0, so ID 0 is accepted again |
| Tables.InsertKeepsConsistent | lshlib.cpp:449-461 | a successful insertion of a non-IFLAG point keeps every row well formed |
| Tables.InsertUpToTables | lshlib.cpp:455-458 | the table loop changes exactly row t1 of each table, once per table |
| Tables.InsertThenRetrieveTable | lshlib.cpp:449-485 | after insert_point, table j reports the new point appended to the matching bucket's points when the row had room, and its old points otherwise |
| Tables.InsertedPointIsRetrieved | lshlib.cpp:449-485 | a point just inserted is reported by a query with the same keys whenever one of its rows had room |
| Tables.TableHitsAt | lshlib.cpp:476-483 | table j of a query reports the points of row t1 under key t2, and nothing for an unallocated row |
| Tables.FlattenContains | lshlib.cpp:476-483 | every table's hits are among the hits of the whole query |
| Tables.FlagFreePoints | lshlib.cpp:1453-1458 | no IFLAG point ID is ever reported |
| Tables.PutAllAppend | lshlib.cpp:1189-1198 | inserting pairs a + b into a row is inserting a, then b |
| Index.KeysUpTo | lshlib.cpp:455-457 | the keys of all tables exist iff each table's keys exist. When they exist, each key is below N and no t2 is IFLAG |
| Index.NoKeys | lshlib.cpp:330 | a fold that aborts in any table leaves no keys for the vector |
| Index.LshIndex.AllKeys | lshlib.cpp:455-457 | the keys of every table for a vector's hash values, each row key below N |
| Index.LshIndex.constructor | lshlib.cpp:28-57 | L tables of N unallocated rows, with maxp, pointCount and bucketCount at 0 |
| Index.LshIndex.BucketInsertPoint | lshlib.cpp:334-356 | the in-place update of row t1 of table j, of pointCount (+1 when inserted) and of bucketCount (+1 when a bucket was created), with the returned collision count |
| Index.LshIndex.InsertPoint | lshlib.cpp:449-461 | ordering error with nothing changed when maxp ≠ 0 and pp ≤ maxp. A fold that aborts gives the assert error. Otherwise the new state and the summed collision count are those of the insertion specification, and the tables stay well formed |
| Index.LshIndex.InsertIntoTables | lshlib.cpp:455-459 | the loop inserts the point into row t1 of each table in turn under t2, adding up the collision counts in 32 bits |
| Index.LshIndex.RetrievePoint | lshlib.cpp:472-485 | one callback per point of each table's matching bucket, in chain order and table order, each with the query's qpos and H::radius. Nothing is reported for an unallocated row |
| Index.LshIndex.SerializeTableFormat1 | lshlib.cpp:785-809 | every allocated row of table x is written (or merged) into its slots in ascending row order, and unallocated rows are skipped |
| Index.LshIndex.SerializeFormat1 | lshlib.cpp:757-819 | a merge that serial_can_merge (as written) refuses is refused with the file unchanged. For FORMAT1 that test is the intended one: no FORMAT2 bit and the same dimensions. Otherwise each table's image is as the table writer leaves it |
| Index.LshIndex.UnserializeRowFormat1 | lshlib.cpp:1189-1198 | each slot of the row, up to numCols slots or the first IFLAG, goes through bucket_insert_point with t2 = hashValue and p = pointID |
| Index.LshIndex.UnserializeTableFormat1 | lshlib.cpp:1173-1179 | every row of table x is read into row y of the in-core table x |
| Index.LshIndex.UnserializeFormat1 | lshlib.cpp:1157-1187 | every table of the file is read into the in-core table of the same number |
| Index.LshIndex.SerialScanTable | lshlib.cpp:1376-1388 | the query keys of table j, then a scan of row t1 of the file's table for t2 |
| Index.LshIndex.SerialRetrievePoint | lshlib.cpp:1358-1390 | a FORMAT2 file is refused. Otherwise there is one callback per slot with key t2 in row t1 of each table, up to numCols slots or the first IFLAG, in slot order and table order |
| Index.LshIndex.SerialRetrieveTables | lshlib.cpp:1373-1389 | the table loop of the file query |
| Index.LshIndex.UnserializePointsFormat2 | lshlib.cpp:1279-1287 | every word up to the next token is inserted under the group's key, and the token is returned |
| Index.LshIndex.UnserializeRowFormat2 | lshlib.cpp:1256-1295 | the row state machine. It fails when the first word is neither E nor T2, or when a T2 group has no point, or when the stream ends. It otherwise inserts exactly the entries of the reader specification and returns the token that ended the row |
| Index.LshIndex.UnserializeRowsFormat2 | lshlib.cpp:1218-1252 | the row loop of one table. It rejects a row start other than T1 and a row index of N or more, reads each row into row y, and stops after a row that ends with E |
| Index.LshIndex.UnserializeFormat2 | lshlib.cpp:1200-1254 | the whole reader: the same errors and the same insertions as the reader specification, in stream order |
| Index.LshIndex.SerializeFormat2 | lshlib.cpp:877-953 | a merge that serial_can_merge as written refuses is refused with nothing changed. So a FORMAT2 merge into a FORMAT1 file of the same dimensions goes ahead (see Findings). A merge first reads the file's hash-table words into core with the FORMAT2 reader, failing as that reader fails. The words written are then those of the writer specification for the resulting tables |
| Index.LshIndex.WriteTables | lshlib.cpp:891-949 | the table loop of the FORMAT2 writer, which stops at the first error |
| Serial.ClearLowBelow | lshlib.cpp:14 | clearing the low w bits lowers v by less than 2^w and leaves a multiple of 2^w |
| Serial.AlignUpAligned | lshlib.cpp:14 | align_up returns a multiple of 2^w |
| Serial.AlignUpLeast | lshlib.cpp:14 | without 32-bit overflow, align_up returns the least multiple of 2^w that is not below x |
| Serial.AlignUpOfAligned | lshlib.cpp:14 | an aligned value is unchanged |
| Serial.AlignUpWraps | lshlib.cpp:14 | when x + 2^w - 1 overflows 32 bits, align_up returns 0 |
| Serial.HashTableOffsetIsHeaderPart | lshlib.cpp:590-592 | the hash-table offset computed at lshlib.cpp:614-620 equals the header part of the FORMAT1 file size |
| Serial.Format1FileSizeIsLayout | lshlib.cpp:576-599 | the FORMAT1 file ends where the last of L page-aligned tables ends, with the tables placed from the hash-table offset |
| Serial.TableOffsetsDisjoint | lshlib.cpp:590 | in the layout the file size reserves, the tables are page aligned, ordered, disjoint and inside the file |
| Serial.TableOffsetsOverlapAsWritten | lshlib.cpp:772-773 | the offsets the FORMAT1 code actually uses let two tables overlap (see Findings) |
| Serial.NotFlagsNeverFormat2 | lshlib.cpp:683 | (!flags) & FORMAT2 is 0 for every flags value |
| Serial.CanMergeAsWrittenAccepts | lshlib.cpp:681-697 | the merge test as written accepts any file of matching dimensions for a FORMAT2 merge. For other formats it accepts a matching file without the FORMAT2 bit |
| Serial.CanMergeRefinesAsWritten | lshlib.cpp:681-697 | the intended test accepts exactly what the as-written test accepts, except FORMAT2 merges into files without the FORMAT2 bit |
| Serial.Format2IntoFormat1File | lshlib.cpp:683 | a FORMAT2 merge into a FORMAT1 file of equal dimensions passes the as-written test and fails the intended one |
| Format1.FirstFlag | lshlib.cpp:1432-1440 | the first slot of a row whose hashValue is IFLAG, or the row length. No slot before it holds IFLAG |
| Format1.WriteElement | lshlib.cpp:861-875 | the point loop of one bucket writes (t2, pointID) pairs until the row is full, then writes IFLAG after them |
| Format1.WriteRow | lshlib.cpp:853-859 | the row writer's effect on the table is that of the row-write specification |
| Format1.WrittenRowStores | lshlib.cpp:853-875 | the reader sees exactly the chain's first numCols (t2, pointID) pairs, bucket by bucket in chain order. colCount is their number. No slot outside the row and the slot after it changes. A write beyond the table happens only after a full last row |
| Format1.WrittenRowPastRow | lshlib.cpp:873 | a chain of exactly numCols pairs writes IFLAG into the first slot of the next row, or beyond the table after the last row. A shorter chain writes nothing past its row |
| Format1.WrittenRowFullBucket | lshlib.cpp:861-875 | whenever the pairs of the first k buckets fill the row exactly, so that a bucket's last point takes the row's last slot, IFLAG is written to the first slot after the row, or beyond the table after the last row, however many buckets follow |
| Format1.PastRowExample | lshlib.cpp:873 | one bucket of two points in a row of two slots marks the next row's first slot IFLAG; in the last row the write falls outside |
| Format1.HitsOfPairs | lshlib.cpp:1432-1451 | selecting a chain's pairs by key gives what the in-core bucket walk reports |
| Format1.ScanRow | lshlib.cpp:1432-1440 | the scan visits at most numCols slots, stops at the first IFLAG, and returns the point IDs of the slots with key t2, in order |
| Format1.ScanMatchesChain | lshlib.cpp:1432-1451 | for a row written from a chain of at most numCols points, the scan reports what the in-core walk reports |
| Format1.FindFlag | lshlib.cpp:837-846 | the merge search returns the first IFLAG slot of the row, or numCols |
| Format1.Place | lshlib.cpp:838-843 | the pair goes into slot c, and the following slot, when it is inside the row, becomes IFLAG |
| Format1.MergeElement | lshlib.cpp:829-851 | the merge loop of one bucket has the effect of the merge specification |
| Format1.MergeRow | lshlib.cpp:821-827 | the row merge has the effect of the merge specification |
| Format1.MergedRowStores | lshlib.cpp:821-851 | a merge appends the chain's pairs after the pairs the row already held, up to numCols in all. Occupied slots and slots outside the row are untouched, and colCount never exceeds numCols |
| Format1Tables.TableStores | lshlib.cpp:785-809 | a written row holds its chain's first numCols pairs. A merged row holds its old pairs followed by the chain's, up to numCols. An unallocated row is untouched, except that a write may put IFLAG in its first slot |
| Format1Tables.RoundTrip | lshlib.cpp:757-819 | rows written into a blank table with numCols = C and read back through bucket_insert_point come back as they were. An allocated row with no point yet comes back unallocated |
| Format1Tables.ScanMatchesCore | lshlib.cpp:1358-1390 | querying a blank table written from well-formed rows reports, row by row, what the in-core query reports |
| Format1Tables.ZeroImageAsCreated | lshlib.cpp:1014-1020 | a table created zero-filled reads an unwritten row back as numCols copies of point 0, and a merge into it drops the new point (see Findings) |
| Format1Tables.BlankImageCreated | lshlib.cpp:785-809 | with IFLAG slots at creation, an unwritten row comes back unallocated and a merge into it stores the point |
| Format1Tables.ReadSlotsStored | lshlib.cpp:1189-1198 | the slot-by-slot read loop takes exactly the pairs before the first IFLAG, at most numCols |
| SerialTables.LoadTablesTables | lshlib.cpp:1157-1187 | after loading tables 0..n-1, each row of those tables has received the pairs stored in its file row, and every other row is as before |
| SerialTables.WrittenThenLoaded | lshlib.cpp:757-819 | the FORMAT1 round trip for the whole index: well-formed tables written into blank tables and loaded into an empty index come back row for row. Rows without points come back unallocated |
| SerialTables.SerialHitsMatch | lshlib.cpp:1358-1390 | the per-table hits of a query on the written file equal those of the in-core query |
| SerialTables.SerialRetrieveIsRetrieve | lshlib.cpp:1358-1390 | the file query reports exactly what the in-core retrieve_point reports |
| Format2.ReadPoints | lshlib.cpp:1279-1287 | the point loop ends on a token, past at least one word, and fails only by running out of words |
| Format2.ReaderNeverStateErrors | lshlib.cpp:1240-1273 | the checks "State machine error T2 token" and "State machine error end of row/table" can never fail |
| Format2.ReaderRejects | lshlib.cpp:1210-1290 | the reader fails on an empty stream, on a first word that is neither T1 nor E, on a row index of N or more, on a row index followed by neither T2 nor E, and on a T2 group whose key is followed by a token |
| Format2.InsertionsInRange | lshlib.cpp:1228-1233 | every insertion the reader makes lies in an existing table and in a row below N |
| Format2.FileRead | lshlib.cpp:1200-1295 | the reader consumes exactly the words the writer wrote and inserts every written pair, table by table and row by row |
| Format2.ReadMerges | lshlib.cpp:883-885 | reading a written stream into existing tables adds each written row's pairs to the same row, and leaves unwritten rows alone (the FORMAT2 in-core merge) |
| Format2.ApplyFileAt | lshlib.cpp:1200-1254 | reading the entries of tables x and later changes exactly their allocated rows |
| Format2.WriterSucceeds | lshlib.cpp:898-974 | on well-formed tables the writer fails exactly when an allocated row has an unset first bucket, and then with that error. The empty-collision-chain error is never reached |
| Format2.RoundTrip | lshlib.cpp:877-1295 | writing well-formed tables whose point IDs are not tokens and reading the stream into empty tables gives the same tables |
| Format2Loops.WriteElements | lshlib.cpp:976-985 | the point IDs of one bucket, in chain order |
| Format2Loops.WriteGroups | lshlib.cpp:955-974 | the row writer emits T2, the key and the points for each bucket up to the first unset one. It fails on a bucket without points |
| Format2Loops.WriteTableRows | lshlib.cpp:898-930 | T1, the row index and the row's groups for each allocated row in ascending order. It fails on an allocated row whose first bucket is unset |
| Queues.Pop | include/reporter.h:72-79 | removes one entry of highest rank: the remaining entries are the queue without it |
| Queues.PushKeepsBest | include/reporter.h:68-81 | a bounded push keeps at most the bound, and no entry dropped outranks one kept |
| Queues.DrainedOrder | include/reporter.h:87-91 | popping a queue empty lists every entry once, by non-increasing rank |
| Queues.DrainQueue | include/reporter.h:87-91 | the pop loop lists the entries in the order of the drain specification |
| Queues.ReverseWalk | include/reporter.h:94-104 | walking the popped entries in reverse lists their items from last to first |
| Queues.AscendingOrder | include/reporter.h:83-105 | reversing the drained queue lists every entry once, by non-decreasing rank |
| Reporters.RankOrders | include/reporter.h:25-31 | std::less on NNresult orders by distance; as a max-priority queue, the top entry under std::less is the farthest and under std::greater the nearest |
| Reporters.RadRankOrders | include/reporter.h:37-39 | std::greater on Radresult orders by count, so the queue's top entry is the lowest count |
| Reporters.TripleOrder | include/reporter.h:307-314 | operator< is the lexicographic order on (a, b, c). Neither t1 < t2 nor t2 < t1 holds iff operator== holds, iff the triples are equal |
| Reporters.KeepsBest | include/reporter.h:68-81 | every kept result is at least as good as every dropped one: smaller distance under std::less, larger under std::greater |
| Reporters.ReportOrder | include/reporter.h:83-105 | report lists every queued result once. The list runs by increasing distance under std::less and by decreasing distance under std::greater |
| Reporters.PointQueryReporter.AddPoint | include/reporter.h:68-81 | a NaN distance is ignored. Otherwise the result is pushed, and the top is popped when the queue exceeds pointNN. The queue keeps the pointNN best results seen so far |
| Reporters.PointQueryReporter.Report | include/reporter.h:83-105 | the listed results are the queue drained and reversed, and the queue is then empty |
| Reporters.TrackAveragingReporter.AddPoint | include/reporter.h:129-142 | only the queue of trackID changes, by the same bounded push that keeps the best results. Every other track's queue is untouched |
| Reporters.RadAddCounts | include/reporter.h:353-373 | after add_point, count[t] is the number of distinct qpos seen with track t, and the triple set has gained (trackID, qpos, spos) |
| Reporters.RadAddIdempotent | include/reporter.h:353-373 | adding the same (trackID, qpos, spos) again changes nothing |
| Reporters.RadReporter.AddPoint | include/reporter.h:353-373 | the in-place update of the triple set, the pair set and the counters, as the counting specification says |
| Reporters.SelectTracks | include/reporter.h:379-390 | the push loop keeps at most trackNN tracks with a positive count, and no track dropped outranks one kept. The int loop counter does not run for more than 2^31 files |
| Reporters.TopLength | include/reporter.h:375-409 | report lists min(trackNN, number of tracks with a positive count) tracks |
| Reporters.TopListed | include/reporter.h:375-409 | the listed tracks are distinct, carry their counts (all positive), and come in non-increasing order of count. No track left out has a higher count than a listed one |
| Reporters.TopTracks | include/reporter.h:375-409 | the push, pop and reverse loops of report list the top tracks as TopListed describes |
| Reporters.RadReporter.Report | include/reporter.h:375-409 | report lists the top trackNN tracks by count |
| Reporters.RadNNReporter.AddPoint | include/reporter.h:451-481 | the same triple and pair counting. A new triple with a non-NaN distance is also pushed into the queue of trackID, which keeps at most pointNN of the nearest. A repeated triple or a NaN distance pushes nothing |
| Reporters.RadNNReporter.Count | include/reporter.h:457-478 | a triple is new iff it had not been seen, and the counters follow the counting specification |
| Reporters.RadNNReporter.Report | include/reporter.h:483-560 | for pointNN > 1 it lists the top tracks by count, each with the points of its queue nearest first. For pointNN ≤ 1 the work is handed to another reporter (None) |
| Reporters.PointsListed | include/reporter.h:540-556 | moving a track's queue into a std::greater queue and popping it lists its points nearest first, each exactly once |
| Reporters.Resized | include/reporter.h:610-613 | resize keeps the old slots and value-initialises the new ones |
| Reporters.OneToOneShape | include/reporter.h:601-618 | after add_point the vector has a slot qpos. Every other old slot keeps its content, and every other new slot is value-initialised |
| Reporters.OneToOneNearest | include/reporter.h:601-618 | slot qpos ends as the nearer of what it held (or the 1e6 seed) and the new result. A tie or a NaN keeps what it held |
| Reporters.GapSlotStays | include/reporter.h:610-616 | a value-initialised slot has distance 0, so no later non-negative distance replaces it |
| Reporters.OneToOneReporter.AddPoint | include/reporter.h:601-618 | the in-place update of the vector, as OneToOneAdd describes |

## Left out

- File and operating-system plumbing is not modelled:
  - `open`, `lseek`, `read`, `write`, `serial_mmap` and `serial_munmap`, `madvise`, `serial_open` and `serial_close`;
  - file preallocation in `serial_create`;
  - `get_lock` and `release_lock`.

  The FORMAT1 tables are arrays or sequences, and FORMAT2 is a word sequence. A short read or write is modelled only as running out of words.
- Random coefficient generation (`randn`, `ranf`, `randr`, `initialize_lsh_functions`) is not modelled. The coefficients `r1` and `r2` are constructor parameters.
- `compute_hash_functions` (a float dot product and `floor`) is not modelled. The integer hash values `g` are parameters.
- `H::H`'s derivation of `L` from `m` (`L = m(m-1)/2`, with `m < 2` forced to `m = 2, L = 1`) is not modelled: the constructor takes `L`. The `k` adjustment of `USE_U_FUNCTIONS` is not modelled because that mode is compiled out.
- `insert_point_set` and `retrieve_point_set` are not modelled. They are loops of `insert_point` and `retrieve_point` over a vector set.
- `G::G(char*, bool)` opens a file and reads the header and hash functions, so it is I/O. Its table loading is `UnserializeFormat1` and `UnserializeFormat2`.
- Destructors, dumps (`dump_hashtable_row`, `serial_dump_tables`, `serial_bucket_dump`), column statistics, `serial_print_header` and all console output are not modelled.
- Index.LshIndex.InsertPoint: when a fold aborts (`CR_ASSERT`, which exits), the tables are partly updated. The contract does not describe them.
- Index.LshIndex.SerializeFormat1: each table is given its own array. The file offsets at which the source maps the tables are modelled separately (`Serial.TableOffsetAsWritten`), and so is their overlap (Findings).
- Format1.ScanRow: the source tests `pe->hashValue == IFLAG` before `pe == pend`, so it reads the slot one past the row. That read cannot change the result, and the model does not make it.
- Serial.Format2FileSize follows the code's `2 + sizeof(Uns32T)` bytes for the two coefficients. Nothing in the model depends on that size.
- Reporters.RadNNReporter.Report: for `pointNN <= 1`, the source hands every queued point to a `trackSequenceQueryNNReporter`, whose report averages floats. The model returns `None` there.
- The float averaging in `trackAveragingReporter::report` and `trackSequenceQueryNNReporter::report` is not modelled.
- `trackSequenceQueryRadNNReporterOneToOne::report` is not modelled: it only prints the vector.
- The reports print their lists. The model returns those lists, and `audiodb_index_key` naming is left out.
- Queues.Pop: among entries of equal rank the model pops the first in queue order. `std::priority_queue` decides that by its heap layout, which is not modelled. On ties, the exact lists that Reporters.PointQueryReporter.Report, Reporters.RadReporter.Report and Reporters.RadNNReporter.Report pin may differ from the program's output, and so may the entry that a bounded push drops. Queues.PushKeepsBest, Reporters.KeepsBest, Reporters.ReportOrder and Reporters.TopListed hold whichever entry of highest rank is popped.
- Reporters.OneToOneReporter.AddPoint: for qpos = 0xFFFFFFFF and a vector of at most qpos slots, `r.qpos + 1` wraps to 0, the resize at include/reporter.h:610-613 is skipped, and the source indexes past the vector's end, which is undefined behaviour. The requires excludes that case.
- Reporters.RadNNReporter.AddPoint and Reporters.OneToOneReporter.AddPoint: the source never sets `rot` in these results, so it holds an indeterminate value. The model uses 0.
- Distances are real numbers plus NaN. Floating-point rounding, infinities and the `double` to `float` conversions are not modelled.
- insert.cpp, query.cpp and audioDBws.h are not part of this model. They hold file I/O, the floating-point matched-filter query and web-service declarations.

## Findings

| source | as written | input that shows it | evidently intended | confidence | as-written member | corrected member |
|---|---|---|---|---|---|---|
| lshlib.cpp:683 | `!that->flags&O2_SERIAL_FILEFORMAT2` parses as `(!flags) & 2`, which is always 0 | a FORMAT2 merge into a FORMAT1 file (flags = 1) of equal dimensions passes the test | refuse a FORMAT2 merge into a file without the FORMAT2 bit | high, not executed | Serial.Format2IntoFormat1File | Serial.CanMergeRefinesAsWritten |
| lshlib.cpp:772-773 | table x is mapped at `align_up(base + x*hashTableSize)` | with a 4096-byte page, base 4096 and tables of 5000 bytes, table 1 covers 12288-17288 and table 2 starts at 16384 | table x at `base + x*align_up(hashTableSize)`, the layout the file size reserves | high, not executed | Serial.TableOffsetsOverlapAsWritten | Serial.TableOffsetsDisjoint |
| lshlib.cpp:1014-1020 | `serial_create` extends the file with zero bytes, and the FORMAT1 writer skips unallocated rows | an index with one unallocated row of two slots: the row reads back as two copies of point 0, and a later merge into it drops its point | every slot's hashValue IFLAG at creation, so that an unwritten row reads as empty | medium, not executed | Format1Tables.ZeroImageAsCreated | Format1Tables.RoundTrip |
