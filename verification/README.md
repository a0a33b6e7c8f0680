# OriginDB model

A Dafny model of OriginDB, a disk-backed vector store written in C, and proofs about it. `dafny verify dfyconfig.toml`
checks everything.

- **Record log** (`RecordLog`, `FileLayout`, `TornLog`, `Tombstone`, `RamTable`, `Storage`, `FlatDatabase`): the file
  is a byte sequence, the mapping a prefix of it. A vector is heap data, or a position in the file as it was mapped
  the n-th time; once the file has been mapped again, it can no longer be read. Encoding, replay, fetch by offset,
  one-byte tombstones and compaction.
- **Delete life cycle** (`PendingDelete`, `BatchDelete`, `FlatDatabase`): pending, tombstoned, physically removed.
- **Search** (`TopK`, `Rankwise`, `ResultSlots`, `FlatSearch`, `KMeans`, `LloydDescent`, `Ivf`, `Agreement`,
  `Distance`, `StoredFloats`, `IndexFile`): the linear scan, k-means training, the probe, and how far the index agrees
  with the scan.
- **Server table** (`TableProtocol`, `ServerTable`, `LiveSearch`, `TrainedIndex`): inserts, drains, searches,
  trainings, tombstones and compactions as atomic steps under the table lock, the log of records that every run of
  them refines, when the vectors of the array can be read, what a search of a running table sees, and how long a
  trained index agrees with it.
- **Connection reader** (`HttpText`, `Connection`, `Chunking`, `RequestText`): reassembly of requests from arbitrary
  reads.
- **JSON** (`Utf8`, `JsonString`, `StringReader`, `JsonEscapes`, `JsonNumber`, `Json`, `StringGrammar`,
  `NumberGrammar`, `JsonGrammar`, `JsonReader`, `JsonWriter`, `JsonRoundTrip`, `ChildList`): the texts of RFC 8259,
  string escapes, the two-pass string parser, the recursive parser, the growing print buffer and the child list.
- `Bytes`, `CStrings`, `Decimals` and `Multisets` hold what several of these share.

What a byte, a word or a text means is stated in literals, apart from the functions that compute it (`FileLayout`,
`StoredFloats`, `RequestText` and the three grammars).

Code that works step by step is a class or a method here, proved against a function that states its result; the theorems
are lemmas about those functions. Distances and coordinates are exact reals, the square root is any function that
satisfies its defining equation, and layouts are little-endian. Input and output enter as parameters: the room left on
the disk, whether a file can be written or renamed, the contents of the delete queue file, the clock, the random seeds of
the clusters, the chunks that a socket hands over, and the contents of newly allocated memory.

## Where the code departs from its intent

- `storage_init` leaves the cursor at the end of the file, so the replay of `db_init` finds nothing
  (`ServerTable.ReplayFromEndLoadsNothing`). The replay theorems start at offset 0.
- A drain that grows the file maps it again at an address of the kernel's choice, and the vectors of mapped records keep
  pointing to the old one. `TableProtocol.DrainSafeIff` and `TableProtocol.RunKeepsPointersIff` say when this does no harm,
  to the live records, which searches and compactions read, and to all records (`TableProtocol.StaleAfterDrain`).
- Training draws its seeds from all records, deleted ones included, so it needs all of them to be readable
  (`TableProtocol.EverySeedingIff`, `TableProtocol.StaleSeed`).
- A compaction that fails to rename its file has mapped the old one again, with the same effect
  (`TableProtocol.RemapSafeIff`, `FlatDatabase.FailedAttemptIff`).
- A failed append leaves torn bytes in the file, and later appends go behind them. Fetches still find everything, but the
  next replay loses the record behind the torn one (`TornLog.FetchSurvivesTear`, `TornLog.ReplayAfterTearIff`,
  `TornLog.TearHidesNext`).
- The assignment loop of training starts from a distance of 1e30 and cluster 0, so a record without a centroid nearer than
  that goes to cluster 0 (`LloydDescent.AssignStepIff`).
- Compaction drops the in-memory vectors of records that were not memory-mapped, and writes only the array: it is safe
  exactly under the guard of `TableProtocol.CompactionSafeIff` (see also `TableProtocol.LostInsert`).
- A probe of more clusters than are in reach visits cluster 0 again (`Ivf.ProbedDistinctIff`, `Ivf.RepeatWitness`).
- A search leaks the metadata copy of a last slot that is overwritten without a shift (`ResultSlots.NothingLostIff`,
  `ResultSlots.LeakWitness`); nothing is freed twice.
- The search for `Connection: close` covers the whole header buffer, so body bytes that came along with the headers can
  close the connection (`Chunking.ResetIff`, `Chunking.BodyCloses`).
- A `Content-Length` of -1 passes the length test and gets a buffer of no bytes: bytes behind such a header block are
  copied past it (`Chunking.OverrunIff`, `Chunking.MinusOneWitness`). Without any, the handler is given that block, which
  lacks the terminator that reading the body as a string looks for (`Chunking.BlockEndsIff`).
- The loaders add up a record's size in 64 bits, so a corrupt metadata length can wrap around and pass
  (`RecordLog.SizeCheckIff`, `RecordLog.SizeCheckWitness`).
- A database opened with an initial capacity of 0 loses its array on the first insert, because 0 doubled is 0
  (`FlatDatabase.FlatDb.Insert`).
- `\u` followed by characters that are not hexadecimal digits reads as NUL instead of being refused
  (`JsonEscapes.LiteralsAreEscapes`, `JsonEscapes.NoDigitsWitness`).
- `include/distance.h:17-26` gives [-1, 1] for the cosine metric; the code returns one minus the similarity, in [0, 2].
- `test/test_flat_search.c` expects results to share the record's metadata pointer; the code hands out copies.
- Empty metadata is written like no metadata and reads back as none.

## Model

| member | source | states |
|---|---|---|
| `RecordLog.PaddedSize` | src/storage.c:90-93 | a record takes a multiple of 8 bytes, at least header, vector and metadata and fewer than 8 bytes more |
| `RecordLog.EncodedFields` | src/storage.c:95-143 | each field of a written record lies at its documented position: id at 0, flags at 8, metadata length at 16, vector at 24, metadata behind it, zero padding to the end |
| `FileLayout.WordsAreLaidOut` | src/storage.c:102-119 | a 64-bit word has its value in eight bytes, a 32-bit word in four, least significant byte first |
| `FileLayout.RecordLayout` | src/storage.c:95-143 | a written record byte by byte: id, flag word 0 or 1, metadata length, the words of the vector in order, the metadata, and zeros up to a multiple of 8 |
| `FileLayout.RecordReading` | src/storage.c:358-395 | any bytes are read as a record exactly when they hold a whole one; it is deleted when its flag word is odd, and id, vector and metadata come from their positions |
| `RecordLog.DecodeEncoded` | src/storage.c:358-395 | a record read back at the place where it was written is the record, except that empty metadata comes back as none |
| `RecordLog.DecodeTorn` | src/storage.c:161-186 | a record whose bytes are cut off anywhere is not read at all |
| `RecordLog.FetchFindsRecord` | src/storage.c:358-395 | for every log, fetching at the byte offset of record i yields record i |
| `RecordLog.OffsetsAligned` | src/storage.c:76-93 | every record of every log starts on an 8-byte boundary |
| `RecordLog.OffsetMonotone` | src/storage.c:209-216 | byte offsets are distinct and increase along the log by at least a header |
| `RecordLog.EncodeAllSlice` | src/storage.c:95-143 | between two neighbouring offsets the log holds exactly the encoding of that record |
| `RecordLog.CrashPrefixReplay` | src/storage.c:156-207 | for every record sequence and every byte prefix of its log, replay from the start yields exactly the records that lie wholly inside the prefix, with their offsets, and stops |
| `RecordLog.ReplayWholeLog` | src/db.c:141-165 | replaying the whole log yields every record in order with its offset |
| `RecordLog.SizeCheckIff` | src/storage.c:161-182 | the loaders' size check, in 64-bit arithmetic, is right about whether a record lies inside the mapping if and only if its true end is below 2^64 or wraps around to a position past the mapping |
| `RecordLog.SizeCheckWitness` | src/storage.c:161-182 | for every dimension, a stored metadata length for which the check lets a record through that does not fit |
| `RecordLog.LogSizesAreChecked` | src/storage.c:161-182 | on every byte prefix of every log under 2^64 bytes the check is right about every record |
| `TornLog.TornAppendKeepsLog` | src/storage.c:156-186 | after an append that failed half way, replay yields the old log |
| `TornLog.FetchSurvivesTear` | src/storage.c:358-395 | after a torn append and any further ones, fetching by byte offset finds every acknowledged record, in front of the torn bytes and behind them |
| `TornLog.ReplayAfterTearIff` | src/storage.c:156-207 | replay of such a file yields every acknowledged record if and only if nothing was torn or nothing was appended behind it |
| `TornLog.TearHidesNext` | src/storage.c:156-207 | otherwise it yields the old log and then takes the torn bytes for a record that covers the beginning of the next one, which it never finds |
| `Tombstone.PatchRefinesReencoding` | src/db.c:369-402 | overwriting one byte at offset + 8 gives the log that re-encoding that record as deleted would give |
| `Tombstone.PatchKeepsOffsets` | src/db.c:369-402 | no offset of the log moves when a record is marked deleted |
| `Tombstone.PatchSeenByFetch` | src/storage.c:369-371 | after the patch every other record decodes as before and the patched one decodes as deleted |
| `RamTable.VectorInLog` | src/storage.c:188-189 | the vector pointer 24 bytes into a record reads that record's vector, whole and inside the file |
| `RamTable.FirstLive` | src/db.c:366-368 | the index found is the first live record with the id, or the count when there is none |
| `RamTable.MirrorReads` | src/storage.c:188-189 | a record of a mirrored array can be read if and only if its vector does not point into an earlier mapping, and then reads back as its record of the log |
| `RamTable.MirrorReadsLive` | src/storage.c:474-510 | reading the live records of a mirrored array one by one gives the live part of its log |
| `RamTable.LiveOnlyReadable` | src/storage.c:474-484 | the live records, taken out in order, can be read if and only if each live record of the array can |
| `RamTable.TombstoneMirror` | src/db.c:361-387 | marking record k in memory and patching its byte on disk keeps array and log in agreement |
| `TableProtocol.Grown` | src/server.c:262-269 | the doubling loop ends with room for all records and never shrinks the array |
| `TableProtocol.InsertStep` | src/server.c:829-867 | an insert appends one record to the log and keeps the protocol invariant |
| `TableProtocol.DrainStep` | src/server.c:258-284 | draining the queue keeps the log and leaves every record of it in the array, in order, with its byte offset; whether the vectors can still be read is the matter of DrainSafeIff |
| `TableProtocol.DrainSafeIff` | src/storage.c:410-433 | a drain, whose remap moves a grown file to another address, keeps every vector in scope (those of the live records, or those of all) readable if and only if the queue is empty or no record in scope is mapped |
| `TableProtocol.RemapSafeIff` | src/storage.c:515-530 | a compaction that fails to rename leaves the log alone and keeps every vector in scope readable if and only if no record in scope is mapped |
| `TableProtocol.EverySeedingIff` | src/search/kmeans.c:16-21 | training, which copies the vectors of randomly drawn records, deleted ones included, follows only readable pointers for every draw if and only if the vectors of all records can be read |
| `TableProtocol.StaleAfterDrain` | src/server.c:258-284 | one mapped record, an insert, a drain and a delete of the insert: the remaining record can be neither searched nor compacted |
| `TableProtocol.StaleSeed` | src/search/kmeans.c:16-21 | one deleted mapped record, an insert and a drain: the table can be searched and compacted, but training with the deleted record as a seed reads where the file used to be mapped |
| `TableProtocol.DeleteStep` | src/db.c:361-387 | a delete marks exactly the first live drained record with the id, in the array and in the file, and keeps the invariant |
| `TableProtocol.CompactedArray` | src/storage.c:554-570 | when all live records can be read, the array after compaction mirrors exactly them, each with the offset of its own record, if and only if every live record was memory-mapped |
| `TableProtocol.CompactStep` | src/storage.c:436-580 | guarded compaction keeps the invariant and leaves the vectors of all records readable, and the new log is the live part of the old one in order |
| `TableProtocol.CompactionSafeIff` | src/server.c:303-305 | compaction reads only valid memory and leaves a consistent table exactly when the insert queue is empty and every live vector is in the current mapping |
| `TableProtocol.LostInsert` | src/server.c:303-305 | an acknowledged insert still in the queue when the table is compacted is gone from the disk |
| `TableProtocol.StepRefines` | src/server.c:258-305 | every enabled step keeps the invariant and refines its effect on a plain log of records; an insert of the wrong dimension leaves the log alone |
| `TableProtocol.StepKeepsPointers` | src/server.c:258-305 | a step keeps every vector in scope readable if and only if it neither drains a non-empty queue nor fails to rename while a record in scope is mapped |
| `TableProtocol.RunRefines` | src/server.c:258-305 | in every state of every interleaving the file decodes to the records followed by the queue, in order, with right offsets and capacities |
| `TableProtocol.RunKeepsPointersIff` | src/server.c:258-305 | every vector in scope, of the live records or of all, can be read in every state of a run if and only if no step of it maps the file anew while a record in scope is mapped |
| `TableProtocol.HeapTablesKeepPointers` | src/server.c:258-305 | a table that starts without mapped records in scope, such as a new one, keeps every vector in scope readable in every run |
| `TableProtocol.QueuedUntilDrained` | src/server.c:843-867 | the entry of an acknowledged insert stays in the queue up to the next drain, whatever happens in between |
| `TableProtocol.AcknowledgedInsertStays` | src/server.c:843-867 | that very entry, with its own vector, metadata and byte offset, is in the array after the next drain, deletes before that drain notwithstanding, and stays until its id is deleted after it |
| `LiveSearch.SearchSeesLog` | src/search/baseline-flat.c:16-29 | in a state whose live vectors can be read, the scan of the array, or of any number of records from its beginning, offers exactly what a scan of that part of the log offers |
| `LiveSearch.EverySearchSeesLog` | src/search/baseline-flat.c:16-29 | every search of every run scans the drained part of the log that the specification has reached |
| `LiveSearch.SearchFindsInsert` | src/server.c:843-867 | every later search offers an acknowledged and drained insert, at the distance of the vector it was sent with, unless its id is deleted or pending |
| `LiveSearch.OfferIsRecord` | src/search/baseline-flat.c:23-29 | every candidate of a scan is a record that is neither deleted nor pending, at the distance of its stored vector |
| `LiveSearch.OffersAreLiveIds` | src/search/baseline-flat.c:23-27 | a scan offers every live id as often as it is there, and no pending one |
| `LiveSearch.SlotIsRecord` | src/search/baseline-flat.c:9-57 | every slot of a search is empty, with id 0 and the largest float, or shows id, distance and a metadata copy of a record that is neither deleted nor pending |
| `BatchDelete.DeleteFirstTakesOne` | src/db.c:366-386 | one deletion takes one occurrence of the id from the live ids, or none when there is none |
| `BatchDelete.BatchConservation` | src/db.c:424-429 | a batch leaves the live ids minus the queued ids as multisets, and counts exactly their intersection |
| `BatchDelete.BatchTouchesFlagsOnly` | src/db.c:424-429 | a batch changes nothing but deletion marks, and never takes one back |
| `BatchDelete.SurvivorsKeepOrder` | src/storage.c:474-510 | the survivors of a compaction are the live records at strictly increasing old positions |
| `BatchDelete.SurvivorIds` | src/storage.c:474-510 | compaction keeps the multiset of live ids |
| `PendingDelete.EntryCount` | src/pending-delete.c:58-59 | a trailing partial entry of the queue file is ignored |
| `PendingDelete.LoadPendingDeletes` | src/pending-delete.c:44-76 | the loaded ids are those of the entries, in ascending order, whatever their time stamps |
| `PendingDelete.QueuedAreRequested` | src/pending-delete.c:58-72 | a queue file made of entries of eight bytes of id and eight bytes of time stamp, with fewer than 16 more bytes at its end, queues exactly those ids in that order |
| `PendingDelete.EveryFileIsAQueue` | src/pending-delete.c:58-72 | every file is made up like that |
| `PendingDelete.IsPendingDelete` | src/pending-delete.c:78-82 | binary search over the sorted ids says exactly whether the id is among them |
| `PendingDelete.SortingKeepsMembership` | src/pending-delete.c:73-75 | sorting neither adds nor loses a queued id |
| `Storage.Store.constructor` | src/storage.c:45-60 | an opened file is mapped whole and its cursor stands at the end |
| `Storage.Store.CurrentOffset` | src/storage.c:209-216 | the offset reported for the next record is the end of the file |
| `Storage.Store.WriteHeader` | src/storage.c:102-119 | the three header words are appended in order; without room a prefix of them is |
| `Storage.Store.WriteRecord` | src/storage.c:95-143 | a record is appended as its encoding, or as the prefix of it that found room, and success is reported exactly in the first case |
| `Storage.Store.LoadRecord` | src/storage.c:156-207 | reads the record at the cursor of the mapping and steps over it, or leaves the cursor where it is |
| `Storage.Store.FetchByOffset` | src/storage.c:358-395 | decodes the record at a byte offset of the mapping, or fails |
| `Storage.Store.Remap` | src/storage.c:410-433 | afterwards the mapping covers the whole file; it is a new mapping, which earlier vector pointers do not lead into, exactly when the size has changed |
| `Storage.Store.PatchFlag` | src/db.c:389-402 | exactly one byte is overwritten, and nothing when the file cannot be written |
| `FlatDatabase.FlatDb.LoadRecords` | src/db.c:141-165 | the replay loop loads exactly what the log decodes to from the cursor on, growing the array as needed, from capacity 0 too |
| `FlatDatabase.FlatDb.constructor` | src/db.c:97-172 | an opened database holds the replayed records and the sorted pending ids |
| `FlatDatabase.FlatDb.Insert` | src/db.c:185-258 | it succeeds exactly when there is room and the array has a positive capacity; then one record is in the file and, as heap data with its offset, in the array; on failure the array is as before, and with capacity 0 its memory has been given back |
| `FlatDatabase.FlatDb.Delete` | src/db.c:361-387 | the first live record with the id is marked in memory and on disk; nothing changes when there is none or the file cannot be written |
| `FlatDatabase.FlatDb.WriteSurvivors` | src/storage.c:474-515 | the temporary file is the concatenation of the encodings of the live records in order, with their offsets, exactly when there is room |
| `FlatDatabase.FlatDb.Repoint` | src/storage.c:556-570 | every survivor gets its new offset; a mapped one points at its vector in the new file |
| `FlatDatabase.FlatDb.Compact` | src/db.c:443-460 | compaction succeeds exactly when the file has room and the rename works, and then the file holds the survivors; otherwise file and array stay as they are, and after a failed rename the file is mapped anew |
| `FlatDatabase.FailedAttemptIff` | src/storage.c:515-530 | a failed compaction keeps every vector in scope readable if and only if it failed for want of room or no record in scope is mapped |
| `FlatDatabase.FlatDb.RunQueue` | src/db.c:424-429 | queued ids are deleted one after another and the successes counted |
| `FlatDatabase.FlatDb.RunAutoDelete` | src/db.c:404-440 | when the schedule is due, the live ids lose exactly the ids of the entries in the queue file as a multiset, the count returned is their intersection, and queue and schedule are cleared; when it is not due nothing happens |
| `FlatDatabase.AutoDeleteKeepsIds` | src/db.c:424-436 | compaction after a batch does not change which ids are live, whether it succeeds or fails |
| `ServerTable.OpenTable.Insert` | src/server.c:829-867 | the insert route is the insert step: record on disk, entry in the queue, queue doubled when full; a wrong dimension changes nothing, and a failed write leaves a torn record in the file and nothing else |
| `ServerTable.OpenTable.Drain` | src/server.c:258-284 | the worker's copy loop with its remap is the drain step, new mapping included |
| `ServerTable.OpenTable.RefreshPending` | src/server.c:286-301 | pending ids are reloaded exactly when the dirty flag is set, which is then cleared |
| `ServerTable.NormalSameBytes` | src/storage.c:190-200 | none and empty metadata have the same bytes |
| `ServerTable.ReplayedTableSatisfiesInv` | src/db.c:141-165 | a table replayed from the start of its log satisfies the protocol invariant, and the vectors of all its records can be read |
| `ServerTable.ReplayFromEndLoadsNothing` | src/storage.c:51-52 | replay from where the file was opened, its end, loads no record |
| `Distance.Cosine` | src/distance.c:6-20 | the accumulation loop computes one minus the quotient of the dot product and the product of the norms, and 1 for a zero vector |
| `Distance.Euclidean` | src/distance.c:22-29 | the accumulation loop computes the non-negative root of the sum of squared differences |
| `Distance.CauchySchwarz` | src/distance.c:6-20 | the squared dot product is at most the product of the squared norms, in any dimension |
| `Distance.CosineBound` | src/distance.c:6-20 | the cosine distance lies in [0, 2], and is 1 when a vector is zero |
| `Distance.SameDirectionIsZero` | src/distance.c:17-18 | vectors of the same direction have cosine distance 0 |
| `StoredFloats.SignNegates` | src/storage.c:188-189 | the top bit of a stored word is the sign of its number |
| `StoredFloats.ValuesIncrease` | src/storage.c:188-189 | stored words without the sign bit are in the order of their numbers |
| `StoredFloats.ExponentDoubles` | src/storage.c:188-189 | one more in the exponent field doubles a normal number |
| `StoredFloats.EvenlySpaced` | src/storage.c:188-189 | the numbers of one exponent are evenly spaced, up to the first one of the next |
| `StoredFloats.KnownValues` | src/search/baseline-flat.c:16-20 | 0x3F800000 stands for 1, 0 for 0, and 0x7F7FFFFF for the largest float, the distance of an empty slot |
| `StoredFloats.VectorInOrder` | src/storage.c:188-189 | a stored vector stands for the numbers of its words, in order |
| `StoredFloats.CosineTable` | src/distance.c:30-39 | a table with the cosine metric, or an unknown one, uses one minus the dot product over the product of the lengths, and 1 for a zero vector |
| `StoredFloats.ParallelTable` | src/distance.c:30-39 | in such a table vectors of the same direction are at distance 0, whatever their lengths |
| `StoredFloats.EveryCoordinateCounts` | src/distance.c:6-29 | each coordinate adds the product of its two numbers to the dot product and the square of their difference to the squared distance |
| `TopK.StableSortSorts` | src/search/baseline-flat.c:30-49 | the reference sort is ordered by distance and a permutation of its input |
| `TopK.StableSortIsStable` | src/search/baseline-flat.c:33-36 | candidates at equal distance stay in scan order |
| `TopK.RankingIsSortedPrefix` | src/search/baseline-flat.c:16-49 | bounded insertion keeps exactly the first k entries of the stable sort of the candidates nearer than the sentinel, padded with sentinels |
| `Rankwise.FewerCandidatesRankFarther` | src/db.c:293-300 | a ranking over fewer candidates is at no rank nearer |
| `Rankwise.SameCandidatesSameDistances` | src/db.c:293-300 | the same candidates in another order give the same distance at every rank |
| `Rankwise.NearPairsAreAllRanked` | src/db.c:293-300 | every candidate strictly nearer than the last rank is ranked, as often as it occurs |
| `ResultSlots.ShiftBack` | src/search/baseline-flat.c:38-44 | the shift moves slots back by one, frees only the copy that falls off, and leaves no slot with it |
| `ResultSlots.Offer` | src/search/baseline-flat.c:30-54 | one candidate is placed by the scan, its metadata copied, and nothing else changes |
| `ResultSlots.OfferedSound` | src/search/baseline-flat.c:38-53 | after every candidate each slot's copy is live and owned by that slot alone: nothing is freed twice or kept after being freed |
| `ResultSlots.HeldSound` | src/search/baseline-flat.c:16-55 | the same after any candidates from empty slots |
| `ResultSlots.OfferedLeak` | src/search/baseline-flat.c:46-53 | a copy is lost exactly when a candidate overwrites a last slot that holds one without any shift |
| `ResultSlots.SearchLoses` | src/search/baseline-flat.c:30-54 | over a whole search the blocks without an owner are those from before it and the copies written over, all of them new |
| `ResultSlots.NothingLostIff` | src/search/baseline-flat.c:30-54 | a search leaks nothing if and only if no candidate lands in the last rank while a candidate with metadata is ranked there |
| `ResultSlots.LeakWitness` | src/search/baseline-flat.c:46-53 | two candidates and one slot lose a copy |
| `ResultSlots.SlotsShowRanking` | src/search/baseline-flat.c:30-53 | each slot shows id, distance and metadata of the candidate that the ranking puts there |
| `FlatSearch.OfferVisible` | src/search/baseline-flat.c:23-54 | a record is offered exactly when it is neither deleted nor pending, at its own distance |
| `FlatSearch.FlatSearch` | src/search/baseline-flat.c:9-57 | the search of the array offers exactly the records that are neither deleted nor pending, in array order, ranked as the sort ranks them, and fails exactly when no result is asked for |
| `FlatSearch.FlatSearchRefinesSort` | src/search/baseline-flat.c:14-56 | what the slots hold after any candidates is the first k entries of their stable sort by distance, padded with sentinels, each with a live copy of its metadata |
| `FlatSearch.SortedCandidatesAreStrict` | src/search/baseline-flat.c:33-36 | that sort is strict: nearer first, and among equals the record that comes first in the array |
| `KMeans.NearestIsNearest` | src/search/kmeans.c:43-52 | the assignment loop picks a centroid at least as near as every other when one is nearer than 1e30, and cluster 0 otherwise |
| `KMeans.Assign` | src/search/kmeans.c:37-56 | the loop over the record array puts each live record into the list of its nearest centroid, in scan order, following only the vectors of live records |
| `KMeans.MeanOf` | src/search/kmeans.c:62-75 | the loops compute the coordinate-wise mean of a cluster, read through the members' vector pointers, and leave an empty cluster's centroid alone |
| `KMeans.KMeansBuild` | src/search/kmeans.c:9-133 | the goto loop over the record array builds the clusters of the iteration and counts its passes: seeds, assignment, means, convergence or iteration limit, offsets |
| `KMeans.TrainingStops` | src/search/kmeans.c:92-115 | in every pass before the last some coordinate of some centroid moved by more than 0.000001, and unless the iteration limit ended the training, none did in the last; its centroids and the members of its assignment are handed out |
| `KMeans.TrainedSame` | src/search/kmeans.c:9-133 | training never looks at the vector of a deleted record unless it is one of its seeds |
| `LloydDescent.AssignedPartitions` | src/search/kmeans.c:40-56 | each live record is in exactly one cluster and no deleted record is in any |
| `LloydDescent.TrainingContract` | src/search/kmeans.c:16-132 | for every seeding: at most max(1, max_iterations) passes, clusters partition the live records, each member is nearest to its centroid of the last assignment, non-empty centroids are means, offsets mirror the index lists |
| `LloydDescent.EuclideanTable` | src/distance.c:22-29 | the euclidean metric of a table is non-negative with the squared distance as its square |
| `LloydDescent.AssignStepDescends` | src/search/kmeans.c:40-56 | an assignment step never increases the sum of squared distances, whatever partition it starts from, when each live record has some centroid in reach or the first one nearest |
| `LloydDescent.AssignStepIff` | src/search/kmeans.c:43-52 | the assignment step finds a partition of least cost if and only if each live record has some centroid nearer than 1e30 or the first centroid is its nearest |
| `LloydDescent.MeanStepDescends` | src/search/kmeans.c:61-76 | a mean step never increases it, empty clusters included |
| `LloydDescent.ParallelAxis` | src/search/kmeans.c:61-76 | the scatter around a point is the scatter around the mean plus count times squared distance to the mean |
| `LloydDescent.ReachKept` | src/search/kmeans.c:61-76 | means of records within reach of each other stay within reach |
| `LloydDescent.LloydDescends` | src/search/kmeans.c:32-115 | from any centroids, the sum of squared distances never increases in a run whose assignments find each live record in reach of some centroid |
| `LloydDescent.TrainingDescends` | src/search/kmeans.c:32-115 | for every seeding and limit, the sum of squared distances never increases from step to step of a run in reach |
| `LloydDescent.CloseTrainingInReach` | src/search/kmeans.c:43-52 | a run is in reach when every record is closer than 1e30 to every live record |
| `Ivf.InsertCluster` | src/search/kmeans.c:149-157 | the in-place shift is the bounded insertion of one cluster |
| `Ivf.IvfSearch` | src/search/kmeans.c:135-187 | the offsets gathered are those of the ranked clusters, in rank order |
| `Ivf.AnnSearch` | src/db.c:260-328 | the result holds the fetched, visible records of the probed clusters, ranked as the scan ranks |
| `Ivf.ProbedShape` | src/search/kmeans.c:141-158 | the probe visits the clusters nearer than 1e30 in strict order and then cluster 0 over and over |
| `Ivf.ProbedDistinctIff` | src/search/kmeans.c:141-158 | no cluster is probed twice if and only if nprobe is at most the number of clusters in reach, or one more with cluster 0 out of reach |
| `Ivf.RepeatWitness` | src/search/kmeans.c:141-158 | two probes of a one-cluster index visit it twice |
| `Ivf.ProbedNearest` | src/search/kmeans.c:145-158 | with all clusters in reach and nprobe at most k, the probed clusters are distinct and no other is nearer |
| `Agreement.AnnPairsAmongScanPairs` | src/db.c:276-322 | the index ranks only candidates that the scan ranks too, and all of them when every cluster is probed |
| `Agreement.ApproximateNeverBeatsExact` | src/db.c:260-328 | at every rank the distance found by the index is at least the one found by the scan |
| `Agreement.IndexAgreesWithScan` | src/db.c:260-328 | probing every cluster gives the scan's distance at every rank, and the same ids up to ties at the last rank |
| `Agreement.TrainingGivesIndex` | src/search/kmeans.c:117-132 | clusters trained on any points, with any records deleted since, form an index of them |
| `Agreement.MirroredTableFetches` | src/storage.c:358-395 | in a table whose mapping covers its array, inserts queued behind it or not, every record's byte offset fetches that record |
| `TrainedIndex.AllPointsAreLogged` | src/search/kmeans.c:43-49 | when all vectors can be read, the points that training reads through the array are those of the log |
| `TrainedIndex.TrainingSeesLog` | src/server.c:960-967 | whatever its seeds, an enabled training on the array comes to the clusters of a training on the log, also when vectors of deleted records can no longer be read |
| `TrainedIndex.RunOutlives` | src/server.c:258-305 | short of a compaction, the records of an array keep their places in array and file through every run, and none is revived |
| `TrainedIndex.IndexOutlives` | src/db.c:276-285 | clusters trained on an earlier state index its records in every later one, and their byte offsets fetch those records |
| `TrainedIndex.IndexNeverBeatsScan` | src/db.c:260-328 | in every run, whatever happens after a training short of a compaction, a search through the index finds at no rank anything nearer than the scan of the array does |
| `TrainedIndex.IndexAgreesInRun` | src/db.c:260-328 | and one that probes every cluster has, at every rank, the distance that a scan of the records trained on has, with the same ids up to ties at the last rank |
| `IndexFile.SaveIvfIndex` | src/storage.c:217-265 | the saved file is the documented layout of the clusters |
| `IndexFile.ReadCluster` | src/storage.c:298-352 | a cluster is read from its position, or refused when any of its bytes is missing |
| `IndexFile.LoadIvfIndex` | src/storage.c:267-356 | the loop reads cluster after cluster, or fails |
| `FileLayout.ClusterLayout` | src/storage.c:238-262 | a saved cluster byte by byte: the words of the centroid, the number of offsets, the capacity, the offsets in order |
| `FileLayout.IndexLayout` | src/storage.c:217-265 | the index file holds the number of clusters, the dimension, and the clusters one after another |
| `IndexFile.IndexRoundTrip` | src/storage.c:217-356 | loading a saved index returns the same clusters, empty ones included, and every strict prefix of the file fails to load |
| `ChildList.Item.GetArrayItem` | src/cJSON.c:1922-1949 | walks to the item at an index, or to null behind the end |
| `ChildList.Item.AddItemToArray` | src/cJSON.c:2027-2058 | appends to the sequence; null and self are refused, keeping all links mutual and head.prev at the tail, and touching no list of the items themselves |
| `ChildList.Item.AdoptParsed` | src/cJSON.c:1527-1583 | takes in the parsed items in order, as the parsers link them, keeping all links mutual and head.prev at the tail, and touching no list of the items themselves |
| `ChildList.Item.InsertItemInArray` | src/cJSON.c:2334-2366 | inserts at the index, appends behind the end, refuses a negative index, null, and itself behind the end, keeping all links mutual and head.prev at the tail, and touching no list of the items themselves |
| `ChildList.Item.DetachItemViaPointer` | src/cJSON.c:2258-2293 | removes the item from the sequence and unlinks it, keeping all links mutual and head.prev at the tail, and touching no list of the items themselves |
| `ChildList.Item.DetachItemFromArray` | src/cJSON.c:2294-2302 | removes the item at the index, keeping all links mutual and head.prev at the tail, and touching no list of the items themselves |
| `ChildList.Item.ReplaceItemViaPointer` | src/cJSON.c:2368-2415 | puts the replacement in the item's place, keeping all links mutual and head.prev at the tail, and touching no list of the items themselves |
| `ChildList.Item.ReplaceItemInArray` | src/cJSON.c:2417-2425 | replaces at the index, keeping all links mutual and head.prev at the tail, and touching no list of the items themselves |
| `HttpText.FindInExtension` | src/server.c:421 | text behind the first match does not move it |
| `HttpText.AtoiStable` | src/server.c:429 | a number that ends inside its line is read the same whatever follows |
| `HttpText.AtoiIsRead` | src/server.c:429 | white space, a sign and digits are read as the number that the digits spell, cut to 32 bits beyond the range of int |
| `HttpText.OtherTextIsZero` | src/server.c:429 | text that begins, behind white space, with anything else reads as 0 |
| `RequestText.AnnouncedIsRead` | src/server.c:421-431 | a header block announces the number behind the first Content-Length name, in any case, behind any white space and with or without a sign; without such a name it announces 0 |
| `RequestText.ReadSizes` | src/server.c:388-403 | a read takes at most what is left of 4095 header bytes, or of the announced body |
| `RequestText.OtherLengthsAreRefused` | src/server.c:435-442 | a header block that announces no length, or 0, or less than -1, or more than 10485760, closes the connection |
| `RequestText.ClosesIff` | src/server.c:484-500 | after a request the connection closes exactly when the header buffer has the text `Connection: close` in any case, and otherwise starts afresh |
| `Connection.Receive` | src/server.c:386-502 | a read that does not overrun leaves header and body within their buffers, and a request that it completes is within them too |
| `Connection.Reader.Accept` | src/server.c:417-477 | one read advances the state machine as specified, and overruns exactly when the specification says so |
| `Connection.Reader.HandleEvent` | src/server.c:386-502 | one readiness event reads until no data is left, the peer closes, a read fails or a request is complete; it delivers the request's header and body block, and resets or closes the connection |
| `Chunking.OneRead` | src/server.c:417-477 | any chunk of a framed request leaves the reader knowing exactly the bytes so far, or delivers the body and its terminator at the last one |
| `Chunking.FramedDelivers` | src/server.c:386-502 | however a request with a body of the length that the reader takes it to announce is cut into reads, exactly its body is delivered, with a terminator behind it |
| `RequestText.ChunkingIndependence` | src/server.c:386-502 | the same for requests spelled out: a block of at most 4095 bytes up to its first blank line, and a body of 1 to 10485760 bytes whose length the block announces |
| `RequestText.ExtraBytesAreLost` | src/server.c:455-471 | bytes behind the body that come along in the header buffer are not part of the body and are lost |
| `Chunking.ResetIff` | src/server.c:484-502 | the connection returns to its initial state for every cutting if and only if the close option is neither in the header block nor in the body bytes that fit behind it in the header buffer |
| `Chunking.BodyCloses` | src/server.c:484-486 | a concrete request whose body closes the connection when read in one piece and leaves it open when read in two |
| `Chunking.OverrunIff` | src/server.c:429-461 | a read overruns its body buffer exactly when it completes a header block that announces a length of -1 and brings bytes behind it |
| `Chunking.BlockEndsIff` | src/server.c:444 | the block of a delivered request holds a terminator, so that the handler can read the body as a C string, exactly when the announced length is not -1 |
| `Chunking.MinusOneOutcome` | src/server.c:429-461 | however a header block that announces -1 is cut into reads, a block of no bytes is delivered when nothing follows it and overrun otherwise |
| `Chunking.MinusOneWitness` | src/server.c:429-461 | a concrete header block with a length of -1: delivered with a block of no bytes on its own, an overrun with one byte behind it |
| `Chunking.SessionDelivers` | src/server.c:386-502 | any number of such requests on one connection deliver their bodies in order and end in the initial state |
| `Utf8.Write` | src/cJSON.c:770-814 | the backward loop writes the UTF-8 bytes of the code point and nothing else |
| `Utf8.DecodeEncode` | src/cJSON.c:770-814 | every scalar value is decoded from its bytes as section 3 of RFC 3629 prescribes |
| `Utf8.EncodeDecode` | src/cJSON.c:770-814 | and from no other bytes |
| `StringGrammar.Utf8Table` | src/cJSON.c:770-814 | a code point has the bytes of the table in section 3 of RFC 3629 and no others |
| `JsonString.ParseHex4` | src/cJSON.c:666-699 | the value of four hexadecimal digits of either case, or 0 |
| `JsonString.StepFits` | src/cJSON.c:889-933 | a decoding step writes no more than the sizing scan counted for the bytes it takes, also when it starts in the middle of a scanned pair |
| `JsonString.DecodedFits` | src/cJSON.c:842-945 | no input decodes to more bytes than the scan counted |
| `StringReader.Utf16LiteralToUtf8` | src/cJSON.c:703-821 | a literal is decoded into the output at the pointer, or nothing is written |
| `StringReader.Scan` | src/cJSON.c:842-866 | the scan finds the closing quote and the number of escapes, or fails at the end of the buffer |
| `StringReader.DecodePass` | src/cJSON.c:883-936 | the decoding pass computes the text and writes at most the counted bytes, into an output of any size from that up |
| `StringReader.ParseString` | src/cJSON.c:824-951 | every string token, malformed ones included, is parsed or refused within its allocation, terminator included |
| `StringGrammar.TokenIsRead` | src/cJSON.c:824-951 | a string token of plain characters, the eight two-character escapes, basic escapes and surrogate pairs reads as what they mean, one after another, and what follows is left alone |
| `StringGrammar.OtherLettersAreRefused` | src/cJSON.c:889-922 | a token with any other letter behind a backslash is refused |
| `StringGrammar.LoneSurrogatesAreRefused` | src/cJSON.c:715-756 | so is one with a surrogate on its own |
| `JsonEscapes.EscapeReadsAsUtf8` | src/cJSON.c:703-821 | every escape of a code point, pair or single, decodes to its UTF-8, and a decoder reads that code point back (RFC 8259 section 7) |
| `JsonEscapes.LiteralsAreEscapes` | src/cJSON.c:703-821 | what decodes is the escape of a code point, or six bytes without four digits, which read as NUL |
| `JsonEscapes.NoDigitsWitness` | src/cJSON.c:688-691 | a `\u` followed by four letters Z is accepted and decodes to NUL |
| `JsonEscapes.RefusedLiterals` | src/cJSON.c:715-756 | refused are exactly the literals cut short, lone low surrogates, and high surrogates without a low one |
| `JsonEscapes.ClosesAtEnd` | src/cJSON.c:1021-1068 | in printed text the closing quote is the first unescaped one |
| `JsonEscapes.EscapedIsPrintable` | src/cJSON.c:1028-1065 | no control character is printed bare |
| `JsonEscapes.CountEscapes` | src/cJSON.c:980-1005 | the counting pass gives the exact length of the escaped text |
| `JsonEscapes.ParseQuoted` | src/cJSON.c:954-1073 | a printed C string reads back as itself, whatever follows |
| `StringGrammar.PrintedIsToken` | src/cJSON.c:954-1073 | a printed string is such a token: short escapes where there are some, six characters for other control characters, and all else as it is |
| `JsonNumber.ParseNumber` | src/cJSON.c:307-408 | the longest decimal number at the offset is read and stepped over, or refused |
| `NumberGrammar.NumeralIsRead` | src/cJSON.c:307-408 | a number of digits, a fraction and a signed exponent reads as the number that its digits spell over ten to the length of the fraction, times ten to the exponent |
| `NumberGrammar.NoDigitsIsRefused` | src/cJSON.c:378-382 | without a digit behind the sign, or behind a point there, no number is read |
| `NumberGrammar.PrintedIsNumeral` | src/cJSON.c:596-663 | a printed integer is its sign and its digits, without leading zeros, and has its value |
| `JsonNumber.ParseIntText` | src/cJSON.c:596-663 | a printed integer reads back as itself |
| `JsonNumber.IntRange` | src/cJSON.c:388-400 | every integer of the int range equals its saturated integer value |
| `JsonNumber.ValueIntIs` | src/cJSON.c:388-400 | the integer of a number is the number truncated toward zero and held to 32 bits, and equals it exactly when it is a 32-bit integer |
| `JsonReader.ParseBuffer.SkipWhitespace` | src/cJSON.c:1090-1113 | skips bytes up to 32 and stays on the last byte of the buffer |
| `JsonReader.ParseBuffer.ReadValue` | src/cJSON.c:1368-1420 | reads the value that the grammar assigns to the text, with cursor and depth as specified, or fails; it terminates on every input |
| `JsonReader.ParseBuffer.ReadArray` | src/cJSON.c:1497-1592 | reads an array within the nesting limit and restores the depth |
| `JsonReader.ParseBuffer.ReadObject` | src/cJSON.c:1662-1777 | reads an object within the nesting limit and restores the depth |
| `JsonReader.Parse` | src/cJSON.c:1147-1224 | a whole buffer, with byte order mark and optional terminator check |
| `JsonReader.ParseCString` | src/cJSON.c:1131-1144 | a C string is parsed with its terminator |
| `JsonGrammar.TextIsRead` | src/cJSON.c:1368-1777 | every text of RFC 8259, with any white space, reads as its value at any depth and leaves what follows alone, unless more than 1000 arrays and objects are open |
| `JsonGrammar.BufferIsRead` | src/cJSON.c:1147-1224 | the same for a whole buffer, with or without byte order mark and terminator check, if and only if it is nested at most 1000 deep |
| `JsonGrammar.OtherStartsAreRefused` | src/cJSON.c:1368-1420 | text that starts like no value is refused |
| `JsonGrammar.KeysNeedColons` | src/cJSON.c:1710-1741 | a member without a quoted key, or without a colon behind it, is refused |
| `JsonGrammar.BytesBehindTheValue` | src/cJSON.c:1179-1187 | bytes behind the value are refused exactly when the text has to end there |
| `JsonWriter.PrintBuffer.Ensure` | src/cJSON.c:490-573 | the text is kept, and room for the request and one more byte is there, exactly when the limit allows |
| `JsonWriter.PrintBuffer.UpdateOffset` | src/cJSON.c:576-586 | the offset moves to the end of the pending C string, which joins the text |
| `JsonWriter.PrintBuffer.PrintNumber` | src/cJSON.c:596-663 | appends the digits of an integer |
| `JsonWriter.PrintBuffer.PrintString` | src/cJSON.c:954-1073 | appends the quoted, escaped string; all writes stay in the buffer |
| `JsonWriter.PrintBuffer.PrintValue` | src/cJSON.c:1423-1494 | appends the text of the value and restores the depth; it succeeds exactly when the nesting and the buffer, with one byte to spare beyond the terminator, allow it |
| `JsonWriter.PrintBuffer.PrintArray` | src/cJSON.c:1595-1659 | appends the text of an array, with separators as the format says, exactly when nesting and buffer allow it |
| `JsonWriter.PrintBuffer.PrintObject` | src/cJSON.c:1780-1896 | appends the text of an object, indented as the format and depth say, exactly when nesting and buffer allow it |
| `JsonWriter.Print` | src/cJSON.c:1239-1301 | printing succeeds exactly within the nesting and size limits and returns the text with its terminator |
| `JsonWriter.PrintPreallocated` | src/cJSON.c:1348-1363 | printing into the caller's memory never grows it, succeeds exactly when the memory is at least two bytes longer than the text, and leaves the text as its C string |
| `JsonRoundTrip.ParseRendered` | src/cJSON.c:1368-1896 | any printed value, at any depth, formatted or not, reads back as itself and leaves what follows alone; it is refused exactly when nested too deep |
| `JsonRoundTrip.RenderedIsText` | src/cJSON.c:1423-1896 | what is printed is a text of RFC 8259: on one line with a space behind each comma for arrays, a line and a tab per level for each member of an object, or without any white space |
| `JsonRoundTrip.BufferRoundTrip` | src/cJSON.c:1147-1224 | printed text parses to the same tree if and only if the tree is nested at most 1000 deep |
| `JsonRoundTrip.TextRoundTrip` | src/cJSON.c:1131-1144 | the same for the C string that a caller passes on |
| `JsonRoundTrip.ParsedValue` | src/cJSON.c:1497-1505 | the parser never accepts a tree nested beyond the limit, and its strings are C strings |
| `JsonRoundTrip.PrintableIff` | src/cJSON.c:596-663 | what the printer model covers is exactly the trees of C strings and integers of the int range |
| `JsonRoundTrip.Reprint` | src/cJSON.c:1147-1224 | whatever text a tree came from, printing and parsing it again gives the same tree |
| `JsonRoundTrip.RenderIsCString` | src/cJSON.c:1423-1494 | printed text holds no NUL |

## Left out

- Sockets, epoll, threads, locks, timeouts and HTTP responses: operating-system plumbing around the modelled steps. The
  insert route and the worker take two locks in opposite orders, so only safety is stated, not progress.
- Freshness of the cached index after compaction: the table lock is released before the index is cleared.
- The in-memory pending ids after an auto-delete: the queue file is cleared without reloading them.
- `append_pending_delete`: it returns before it writes, so the contents of the queue file are a parameter.
- Command line, request field extraction, API keys and the auth cache: only easy members.
- Allocation failure, and file paths, modes and `fsync`. A failing write, rename or patch is modelled through the room and
  flag parameters.
- Storage.Store.Remap: every remap counts as moving the file; a kernel that happens to pick the old address again would hide a stale pointer.
- Storage.Store.LoadRecord: a stored length for which the size check is wrong (`RecordLog.SizeCheckIff`) is refused here; what lies behind the mapping is not modelled.
- Storage.Store.FetchByOffset: the same.
- IndexFile.LoadIvfIndex: a corrupt header whose dimension or count overflows the size of an allocation.
- FlatDatabase.FlatDb.constructor: it replays from the cursor of the store it is given, wherever that stands; `db_init` passes the end of the file.
- PendingDelete.LoadPendingDeletes: `qsort` is an insertion sort, and `bsearch` a plain binary search.
- Ivf.AnnSearch: the temporary metadata copy of a fetched record is a value, not a heap block.
- Distance.Cosine: rounding, NaN and infinities; stored bit patterns with exponent 255 are read like the others.
- LloydDescent.TrainingDescends: runs in which some live record has no centroid nearer than 1e30 and the first one is not nearest; there a single assignment can raise the sum (`LloydDescent.AssignStepIff`).
- TableProtocol.RunRefines: runs hold no append that fails; what one leaves behind is stated in `TornLog`.
- Connection.Receive: what an overrun does to memory.
- FlatDatabase.FlatDb.Delete: a failing `fseek`, which leaves the mark in memory although nothing reached the disk.
- KMeans.KMeansBuild: no clusters or no records, for which the source divides by zero or reads past its arrays.
- JsonReader.ParseBuffer.ReadValue: the offset at which a failed parse stops, and rounding and overflow in `strtod`.
- JsonReader.ParseBuffer.ReadArray: items are collected in a sequence; the linking loop is `ChildList.Item.AdoptParsed`.
- JsonReader.ParseBuffer.ReadObject: the same.
- ChildList.Item.InsertItemInArray: the list itself, inserted in front of one of its own items, which links it into itself.
- JsonWriter.PrintBuffer.PrintNumber: numbers that are not integers of the `int` range, which need `sprintf`.
- Raw and reference items, `cJSON_Minify`, allocator hooks, locales, and the one-line type queries and constructors.
