# DistLog storage engine: a verified model

A Dafny model of DistLog, a log store built as an LSM tree, with proofs of what its documentation promises. It
has three layers, each tying the form the program uses to a plain map or list.

**The engine as a state machine.** `EngineState` has memory (active MemTable, frozen queue with its sealed WAL
segments, SSTable list, DocID allocator, any number of writers, the flush worker) and disk (WAL segments as bytes,
SSTables, temporary files). One step is one region the program runs without interruption: one critical section, one
append, one rename, one delete, one crash, one recovery. Writers and the flush worker interleave freely. The
abstract specification is one map from DocID to record.

- `EngineReads`: reads refine the map over every run, with no proviso; from one recovery to the next crash the map
  is what was recovered and the puts completed since.
- `EngineInv`, `EngineSteps`, `EngineFlush`, `EngineRecovery`, `EngineOpen`: the disk and memory invariant. Its
  provisos (`Careful`): a segment is written to only while it ends at a record boundary, and the allocator stays
  below 2^64.
- `EngineDurability`: acknowledged writes survive any number of crashes, under two more provisos: no SSTable is
  quarantined, and no writer holds a DocID below one already in a table being rotated (`InOrder`). The program does
  not guarantee the latter, because `Write` takes its DocID before the read lock. `EngineLoss` proves the converse:
  with a positive soft limit, whenever it fails a run exists that acknowledges a write and loses it.
  `CrashLosesExactly` says what one crash costs without it.
- `EngineSafety`: unique DocIDs in the WAL, MemTables contained in the WAL, what Open shows. `EngineFresh`: DocIDs over
  any number of restarts, what is never handed out again and exactly what can be.
- `EngineTail`: exactly when a write acknowledged off a record boundary survives. `EngineWitness`: the
  order proviso and the boundary proviso are each broken by a run from the empty directory that ends in a lost write.
- `EngineBackpressure`: the bound on the active MemTable and the stall gate.
- `EngineNode`, `EngineBoot`, `FlushWorker`, `WalManager`, `Allocator`, `MemTable`: the same operations as objects
  and loops. `Engine` owns the MemTable, the WAL manager and the allocator. Rotation is proved against `RotateMem`
  and the loops of Open against `OpenedMem`; an undisturbed `Write` leaves what six steps of the machine do
  (`AfterWrite`); the flush worker states the queue, the SSTable list and the WAL it leaves.

**Files.** `WalRecord`, `Wal`, `WalLog`: the record codec, torn-tail replay, the segment writer. `SSTableFormat`,
`SSTableLayout`, `SSTableWriter`, `SSTableReader`, `SSTableFlush`: the SSTable format byte by byte, the writer that
cuts a stream of records into blocks, the reader with its sparse index, and the round trip between them. `Bytes.dfy`
holds the little-endian codecs and the IEEE CRC-32 (section 8 of RFC 1952) as a byte fold; `CrcPolynomial` proves it to
be polynomial division by the IEEE generator, `CrcCheck` computes its check value, and `CrcBursts` shows which changes
it always catches. `Corruption` draws the consequence for the formats: after a change of up to four consecutive bytes a
record (its length field aside) or a file is turned away or reads as before.

**Queries.** `MergeSpec`, `ScanHeap`, `Scan`: the k-way heap merge against the priority-ordered union of maps.
`Evaluator`, `Scope`, `Planner`, `Executor`, `QueryResults`: WHERE evaluation, the tenant rewrite, pushdown, LIMIT
and projection. `Pushdown` says exactly which statements their planned bounds cannot change. `EngineQueries` puts a
query on a reachable engine state.

The record codec (JSON in the program) and the parsing and formatting of RFC 3339 times are parameters; theorems
that need it assume that decoding a record inverts encoding it. Check the project with `dafny verify dfyconfig.toml`.

Where the program and its comments differ, the model follows the program: the comment on `Open` says that step 8
seals the active segment, but the code keeps appending to it; the package comment's strict pairing of active
MemTable and active segment therefore becomes containment in the union of undeleted segments after a recovery.

## Model

| member | source | states |
|---|---|---|
| EngineReads.GetRefinesView | internal/engine/engine.go:581-611 | From an empty directory on, over every run with any interleaving of writers, rotation, flush phases, failures, crashes and recoveries, Get answers from the map made of what the last Open recovered and the puts since; the structural invariants of the engine hold in the same states. |
| EngineReads.GetAnswersCompletedPuts | internal/engine/engine.go:581-611 | From any reachable state and up to the next crash, with no proviso, Get answers exactly from what was visible there and the puts completed since: none missing, none invented, later puts first. |
| EngineReads.StepAnswers | internal/engine/engine.go:1050-1234 | While the node is up only a completed put changes what Get answers, and only for its own DocID: rotation, the phase 4 swap, failed flushes and retries, and failed writes leave every answer alone. |
| EngineReads.RunKeepsReads | internal/engine/engine.go:9-26 | Read refinement and the structural invariant are inductive over runs. |
| EngineReads.SwapKeepsLayers | internal/engine/engine.go:1205-1215 | Moving the oldest frozen table to the head of the SSTable list leaves the search order of contents as it was. |
| EngineReads.LoggedWriterCanPut | internal/engine/engine.go:547-576 | The retry loop of Write never runs twice: a writer between append and put never meets a frozen table. |
| EngineReads.CommittedFlushCanSwap | internal/engine/engine.go:1205-1215 | The "frozen list mutated" branch of phase 4 cannot be taken in a reachable state. |
| EngineOpen.StepKeepsInv | internal/engine/engine.go:9-26 | Every step, Open included, keeps the disk and memory invariant: framed logs, unique DocIDs, agreement of logs and SSTables with the visible map, MemTables contained in undeleted segments, sync points, allocator bounds. |
| EngineSafety.MemTablesAreLogged | internal/engine/engine.go:9-26 | In every reachable state each MemTable entry is readable in some segment still on disk, although one table may span several segments after recovery. |
| EngineSafety.WalDocIDsAreUnique | internal/engine/engine.go:540-577 | No two readable WAL records share a DocID, in any reachable state, up or down. |
| EngineFresh.NextIsFresh | internal/engine/engine.go:453-468 | A DocID handed out exceeds everything visible, every SSTable entry, every readable WAL record, every DocID another writer holds and every DocID handed out since the last Open, abandoned ones included. |
| EngineFresh.AcknowledgedNeverReissued | internal/types/allocator.go:24-46 | Across any number of crashes and recoveries, with tables rotated in any order and no SSTable quarantined, every DocID handed out exceeds the DocID of every write completed since the directory was empty, even of one a crash has lost. |
| EngineFresh.HandedOutAgainIff | internal/engine/engine.go:453-468 | After any recovery, quarantine included, a DocID can be handed out again if and only if it is above every loaded SSTable and above every record readable in the WAL. |
| EngineWitness.DocIDHandedOutTwice | internal/engine/engine.go:453-468 | Such a DocID is real: on a run from the empty directory DocID 1 is handed out, its append is torn by a crash, and it is handed out again; no write has completed. |
| EngineSafety.AllocNeverDecreases | internal/types/allocator.go:27-29 | Within one run of the node the counter grows by one exactly when a DocID is handed out and never goes back. |
| EngineDurability.AcknowledgedWritesSurvive | internal/engine/engine.go:327-507 | Durability: a record whose Write completed is answered by Get after any further run with any number of crashes (between any two steps) and recoveries, given rotation in DocID order, appends at record boundaries and no quarantine. |
| EngineDurability.CompletedPutsAreAnswered | internal/engine/engine.go:327-507 | Over a whole run from the empty directory, with a history of completed puts that no recovery resets: Get answers each of them with its record, under the same provisos. |
| EngineSafety.NothingUnattemptedAppears | internal/engine/engine.go:327-507 | Whatever Get answers in any reachable state, rotated in order or not, recovered or not, was given to some Write under that DocID. |
| EngineDurability.CutoffInvariant | internal/engine/engine.go:394-396 | In every reachable state a visible DocID at or below the largest SSTable DocID is in an SSTable and a larger one is in an undeleted segment, so neither delete removes a last copy. |
| EngineDurability.StepKeepsDurable | internal/engine/engine.go:1205-1223 | The durability invariant survives every single step, including a WAL delete that works or fails. |
| EngineDurability.CrashLosesExactly | internal/engine/engine.go:394-396 | Without the proviso on order: a visible record is visible after crash and recovery if and only if it is in an SSTable or above every SSTable. |
| EngineLoss.OutOfOrderRotationLoses | internal/engine/engine.go:540-554 | The converse, with a positive soft limit: from every reachable state in which a rotation out of order (InOrder fails) can happen, some run acknowledges the write of a writer it leaves behind and loses it. |
| EngineSizes.StepKeepsSized | internal/engine/engine.go:1050-1093 | With a positive soft limit the size counter stays exact over every step, recovery included, and no empty table enters the queue. |
| EngineWitness.OutOfOrderIsReachable | internal/engine/engine.go:540-554 | Such a state is real: two writers reach it from the empty directory in ten steps. |
| EngineWitness.OutOfOrderLoses | internal/engine/engine.go:526-577 | The whole loss, from the empty directory on: writer 0 takes DocID 1, writer 1 writes DocID 2, the table rotates, DocID 1 is acknowledged, and after a crash Get does not find it. |
| EngineLoss.OpenIsEnabled | internal/engine/engine.go:327-507 | Recovery never gets stuck: on every disk the invariant allows, Open can run. |
| EngineSafety.OpenShowsExactly | internal/engine/engine.go:1331-1336 | What Open makes visible, quarantined files included in the account: the loaded SSTables and the WAL entries above their cut-off, nothing else; the MemTable holds exactly the logged DocIDs above the largest of every loaded SSTable. |
| EngineSafety.OpenDeletesExactly | internal/engine/engine.go:443-451 | What Open deletes: a segment with a newer one beside it in which every readable DocID is at or below the largest of some loaded SSTable, unless the delete fails; besides these only quarantined files and temporary SSTables leave the directory. |
| EngineTail.CrashLeavesTornByte | internal/wal/wal.go:74-122 | A crash in the middle of an append can leave one torn byte at the end of the active segment. |
| EngineTail.AppendSurvivesExactly | internal/wal/wal.go:74-125 | What the boundary proviso is for: whatever bytes replay gets stuck on at the end of the active segment and whatever part of another append the crash leaves, a write acknowledged behind them is answered after recovery with the last record replay finds under its DocID in those bytes, its frame and what is behind it, if the DocID is above every SSTable that opens, and not at all otherwise. |
| EngineTail.AppendSurvivesIff | internal/wal/wal.go:74-125 | In particular, when no CRC-32 in leftover and frame matches by accident (NoStrayRecord) and the crash comes between two appends: the write survives if and only if the leftover followed by its frame starts with the frame and its DocID is above every SSTable. |
| EngineTail.AckThenCrashRuns | internal/wal/wal.go:74-125 | From every such state without a stray record a run exists that acknowledges the write, crashes and recovers. |
| EngineTail.BoundaryIsFound | internal/wal/wal.go:96-125 | One end of the condition: at a record boundary it always holds. |
| EngineTail.TornByteLosesAcknowledged | internal/wal/wal.go:74-125 | The other end: behind one torn byte every write below 16 MiB is acknowledged and gone after the next crash. |
| EngineWitness.TornTailIsReachable | internal/wal/wal.go:74-125 | A torn tail with a writer about to append behind it is real: eleven steps from the empty directory, each within the provisos. |
| EngineWitness.TornTailLoses | internal/wal/wal.go:74-125 | The whole loss, from the empty directory on, for any record below 16 MiB. |
| EngineBackpressure.ActiveIsBounded | internal/engine/engine.go:913-1007 | Over any stretch with the frozen queue full, W writers and records of size at most S, the active MemTable stays at or below max(its size at the start, hard limit) + W*S. |
| EngineBackpressure.GateOpensIff | internal/engine/engine.go:913-919 | A checked writer can pass the gate if and only if the active table is below MemTableHardLimit or the frozen queue has room. |
| EngineBackpressure.RotatesIff | internal/engine/engine.go:1050-1068 | With the write lock free a rotation, working or failing, can happen if and only if the engine is not fatal, the WAL is open, the active table has reached MemTableSizeLimit and the queue has room. |
| EngineBackpressure.FatalStartsNothing | internal/engine/engine.go:526-532 | The fatal flag never goes down while the node is up, and under it no write, rotation or flush starts. |
| EngineBackpressure.WaitForStallClear | internal/engine/engine.go:938-1007 | The gate returns nil only on a read that saw the stall predicate false; each error result names the read that caused it. |
| EngineNode.Engine.Get | internal/engine/engine.go:581-611 | The newest table that has the DocID answers: the active one, else the last of the queue that has it, else the first SSTable of the list that has it; none only if nowhere. The same as lookup in the overlay of all layers. |
| EngineNode.Engine.DoFreeze | internal/engine/engine.go:1050-1093 | Nothing changes when the engine is fatal, the active table is below MemTableSizeLimit or the queue is full; otherwise the frozen table and its segment join the queue and an empty table takes its place, or the failed seal freezes the table and turns fatal. Field by field, and as the machine step. |
| EngineNode.Engine.Write | internal/engine/engine.go:526-577 | ErrFatal exactly when fatal, ErrBackpressure exactly when the active table is at MemTableHardLimit with the queue full, neither taking a DocID; otherwise the DocID is the counter plus one modulo 2^64. Success leaves the memory and segments the machine reaches by the steps of a Write (AfterWrite); failure leaves the table alone, and giving up against a frozen table leaves the frame three times in the segment. |
| EngineNode.Engine.Attempt | internal/engine/engine.go:554-570 | The read-locked section: append then put; a failed append leaves nothing or a prefix of the frame behind and never touches the table. |
| EngineNode.WriteIsSixSteps | internal/engine/engine.go:526-577 | The state Write leaves is where the machine steps check, gate, allocate, lock, append, put of an idle writer lead. |
| EngineNode.Engine.SwapIn | internal/engine/engine.go:1205-1215 | Phase 4: refused unless the head of the queue is the flushed table, else the queue loses its head and the list gains the new SSTable in front. |
| FlushWorker.FlushOneIfAny | internal/engine/engine.go:1153-1234 | From MemTable to file to queue swap: on success, which no I/O fault allows, the new SSTable holds exactly the head table with exact ranges, and head and segment leave the queue; on failure queue, list and WAL are unchanged; it fails only for the listed reasons, and does nothing when fatal or with nothing queued. |
| EngineBoot.Open | internal/engine/engine.go:327-507 | The loops of Open build exactly the memory and disk of the machine's Open step, and fail exactly when replay meets a record it cannot decode or a segment it cannot read; a lone segment 0 is adopted without being replayed. |
| EngineReads.NoSegmentZero | internal/wal/wal.go:217-260 | No run of the engine creates segment 0. |
| EngineBoot.ReplaySegment | internal/engine/engine.go:385-412 | The replay callback over one segment: it succeeds exactly when every record above the cut-off decodes and the file can be read, and then leaves the table of the recursive specification; the segment may be deleted exactly when all its DocIDs are covered. |
| EngineBoot.DeleteCovered | internal/engine/engine.go:443-451 | Recovery step 6 removes exactly the covered sealed segments whose delete works. |
| EngineBoot.SortNewestFirst | internal/engine/engine.go:1354-1364 | The exchange sort leaves a permutation in newest-first order. |
| EngineBoot.NewestFirstMeans | internal/engine/engine.go:1354-1364 | That order: larger greatest DocIDs first, among equals larger least DocIDs first. |
| EngineBoot.MaxSSTableDocID | internal/engine/engine.go:348-354 | The cut-off loop computes the largest DocID over the loaded SSTables. |
| EngineBoot.SameCutoff | internal/engine/engine.go:348-357 | The cut-off does not depend on the order of the SSTable list. |
| EngineBoot.SeedAllocator | internal/engine/engine.go:453-468 | The allocator starts at the larger of the cut-off and the largest recovered DocID. |
| WalManager.Manager.Open | internal/wal/wal.go:217-260 | A fresh directory gets segment 1; otherwise all but the newest segment are sealed and the newest is adopted with its bytes as they are. |
| WalManager.Manager.Seal | internal/wal/wal.go:284-313 | The active segment joins the sealed list and the next id opens; both failure branches leave the state the source leaves. |
| WalManager.Manager.Delete | internal/wal/wal.go:187-192 | Deleting is idempotent and leaves every other segment alone. |
| WalRecord.EncodeRecord | internal/wal/record.go:44-61 | The record is built in the caller's buffer: checksum of everything behind it, length, type, payload, in 9 bytes and the payload; payloads above 64 MiB and short buffers are refused and the buffer is untouched. |
| WalRecord.ByteReader.DecodeRecord | internal/wal/record.go:63-98 | Reading the header, then the payload, then feeding the checksum in two pieces equals the specification with its one-shot checksum, I/O errors included: one inside the header passes for a torn tail, any other is reported; after a record the reader stands behind it. |
| WalRecord.DecodeAfterEncode | internal/wal/record.go:44-98 | Decoding inverts encoding, whatever follows. |
| WalRecord.EncodeAfterDecode | internal/wal/record.go:63-98 | A decoded record re-encodes to the very bytes it came from. |
| WalRecord.DecodedFields | internal/wal/record.go:63-98 | What a decoded record has passed: the length field is its size and at most 64 MiB, and the stored checksum is that of length, type and payload. |
| WalRecord.StrictPrefixIsTorn | internal/wal/record.go:63-98 | A strict, non-empty prefix of a record reads as torn, never as a record. |
| Crc32.UpdateInPieces | internal/wal/record.go:92-97 | The incremental CRC-32 over two pieces is the one-shot checksum of their concatenation. |
| CrcPolynomial.ChecksumIsRemainder | internal/wal/record.go:41 | The checksum is the IEEE one: its inverse, bit-reversed, is the remainder of x^32 times the message, first 32 coefficients inverted, by long division modulo x^32 + x^26 + x^23 + x^22 + x^16 + x^12 + x^11 + x^10 + x^8 + x^7 + x^5 + x^4 + x^2 + x + 1. |
| CrcPolynomial.FoldDivides | internal/wal/record.go:92-93 | The same for the incremental form, from any register: the table-driven byte fold is long division of the message behind the register. |
| CrcCheck.CheckValue | internal/wal/record.go:41 | The check value: the checksum of the nine bytes "123456789" is 0xCBF43926. |
| CrcCheck.StepOf | internal/wal/record.go:92-93 | One byte of the fold on numbers is the shift-and-xor step on 32-bit machine words. |
| CrcBursts.BurstDetected | internal/wal/record.go:92-98 | Messages that differ in up to four consecutive bytes and nowhere else have different checksums. |
| CrcBursts.FiveBytesMayPass | internal/wal/record.go:92-98 | Four is the most: any five consecutive bytes of any message can be changed without changing its checksum. |
| CrcBursts.StoredBurst | internal/sstable/format.go:124-141 | A message with its checksum behind it is rejected after a change of up to four consecutive bytes anywhere in it, the checksum included. |
| Corruption.RecordBurst | internal/wal/record.go:63-98 | A WAL record in which up to four consecutive bytes changed, the length field excepted, decodes as corrupt. |
| Corruption.ReplayStopsAtBurst | internal/wal/wal.go:412-451 | Replay delivers what stands in front of such a record and stops there. |
| Wal.ReplayIsExact | internal/wal/wal.go:412-451 | On any byte string the delivered records re-encode to a prefix of the file and the rest does not start with a valid record. |
| Wal.ReplayOfEncodings | internal/wal/wal.go:412-451 | On encodings followed by a strict prefix of another, replay delivers precisely the originals at the offsets Append returned. |
| Wal.AppendAll | internal/wal/wal.go:96-125 | Successful appends keep the offset equal to the file length and hand out the LSNs replay later reports. |
| Wal.SegmentWriter.Append | internal/wal/wal.go:96-125 | Only a successful append moves the offset; a failed one may leave any part of the record behind. |
| Wal.AppendDeliveredIff | internal/wal/wal.go:74-92 | A record appended behind an arbitrary leftover is delivered exactly when its encoding is what the leftover followed by it starts with; behind a record boundary that always holds. |
| Wal.TornByteLosesNextAppend | internal/wal/wal.go:74-92 | Behind a single torn byte no append of 1 byte to 16 MiB is ever replayed. |
| Wal.ReplayPath | internal/wal/wal.go:412-451 | For any file and any callback: a missing file is an empty log; the records go to the callback in order, each under the id of its segment, up to its first error; without one all of them do, and an I/O error is reported with the offset replay reached exactly when it does not strike inside a record header. |
| Wal.UnreadableIff | internal/wal/record.go:63-90 | An I/O error is reported exactly when the readable bytes end between two records or inside a payload of permitted size; inside a header it passes for a torn tail. |
| WalLog.EncodeWALPayload | internal/engine/codec.go:26-31 | The payload is the DocID in eight little-endian bytes and the record behind it. |
| WalLog.FrameIs | internal/engine/codec.go:26-31 | What one Write appends: checksum, size 8 plus the record, type 1, the DocID, the record. |
| WalLog.PayloadRoundTrip | internal/engine/codec.go:26-39 | Payload framing is inverted by its decoder. |
| WalLog.LogAppend | internal/wal/wal.go:412-451 | Appending any bytes to any segment adds exactly the entries replay finds from the old leftover onwards. |
| WalLog.LogAfterWrite | internal/wal/wal.go:412-451 | After a whole or torn frame at a record boundary the log is the old log, with the entry if and only if the frame is whole. |
| Names.SegmentNameRoundTrip | internal/wal/wal.go:366-384 | Every segment id is found again under its zero-padded name. |
| Names.SSTableNameRoundTrip | internal/engine/engine.go:1249-1275 | Every SSTable id is found again under its name and under the name of its temporary file. |
| Names.SegmentNameIs | internal/wal/wal.go:364-368 | wal-, the decimal id padded to six places, .log |
| Names.SSTableNameIs | internal/engine/engine.go:1249-1251 | sst-, the decimal number padded to sixteen places, .sst |
| Decimal.DigitsAre | internal/wal/wal.go:366-368 | Every place of a printed number is the decimal digit of its weight, with none to spare. |
| Allocator.AllocatorIsMonotonic | internal/types/allocator.go:27-46 | Below 2^64, under any interleaving of additions, loads and compare-and-swaps, the counter never decreases and issued DocIDs strictly increase. |
| Allocator.StepKeepsInv | internal/types/allocator.go:27-46 | Each atomic step keeps that invariant, and an addition exceeds everything issued or observed. |
| Allocator.DocIDAllocator.Observe | internal/types/allocator.go:36-46 | The compare-and-swap loop ends with the counter at or above both its old value and the observed DocID. |
| MemTable.SkipMemTable.Put | internal/memtable/skiplist.go:39-60 | Put is map update with exact size accounting; a frozen table refuses and does not change. |
| MemTable.PutKeepsSizeExact | internal/memtable/skiplist.go:39-60 | The size counter equals the sum of record sizes over the current entries, overwrites included. |
| MemTable.PutAllIsSortedMap | internal/memtable/skiplist.go:39-60 | After any sequence of puts the table is the map of last values, with the exact size. |
| MemTable.Drain | internal/memtable/skiplist.go:92-145 | Draining the iterator yields the listing of the table: the one list with every key once, in ascending order, with its record. |
| MemTable.SkipMemTable.Freeze | internal/memtable/skiplist.go:82-86 | Freezing changes nothing but the flag. |
| MemTable.RecordSizeBytes | internal/memtable/memtable.go:67-76 | The loop over the fields computes the record size. |
| MemTable.RecordSizeGrows | internal/memtable/memtable.go:67-76 | A record without fields counts 64 bytes and its three strings; each field adds 16 bytes, its key and its value. |
| EntryList.ListingIs | internal/memtable/skiplist.go:92-145 | That listing is unique: any ascending list with the entries of a map is its listing. |
| SSTableFormat.MarshalIndexEntry | internal/sstable/format.go:86-93 | The buffer filled field by field is the encoding of the index entry: 24 bytes, each field at its offset. |
| SSTableFormat.MarshalMetaBlock | internal/sstable/format.go:124-141 | The buffer filled field by field, checksum last, is the encoding of the meta block: 88 bytes, each field at its offset, the checksum over the first 84. |
| SSTableFormat.MarshalFooter | internal/sstable/format.go:182-197 | The buffer is the encoding of the footer: 48 bytes, each field at its offset, the checksum over the first 32, zero padding, and DLSSTBL with a zero byte at the end. |
| SSTableFormat.EncodeRecordHeader | internal/sstable/format.go:232-237 | The header fills the first twenty bytes and nothing else. |
| SSTableFormat.IndexEntryRoundTrip | internal/sstable/format.go:86-105 | An index entry decodes to itself, whatever follows. |
| SSTableFormat.MetaRoundTrip | internal/sstable/format.go:124-170 | A meta block decodes to itself, negative timestamps included. |
| SSTableFormat.FooterRoundTrip | internal/sstable/format.go:182-229 | A footer survives the file exactly when its version is the supported one. |
| SSTableFormat.IndexEntryReencode | internal/sstable/format.go:96-107 | And back: the entry decoded from 24 bytes is encoded as those bytes. |
| SSTableFormat.MetaReencode | internal/sstable/format.go:144-164 | Only encodings are accepted: a meta block that decodes is, byte for byte, the encoding of what it decodes to. |
| SSTableFormat.FooterReencode | internal/sstable/format.go:200-229 | A footer that decodes has version 1 and is the encoding of what it decodes to, but for four bytes of padding. |
| Bytes.LittleEndian32 | internal/sstable/format.go:20 | A 32-bit field is its four bytes, least significant first. |
| Bytes.LittleEndian64 | internal/sstable/format.go:20 | A 64-bit field is its eight bytes, least significant first. |
| Bytes.TwosComplement | internal/sstable/format.go:128-129 | A negative int64 is stored as its value modulo 2^64. |
| SSTableFormat.HeaderRoundTrip | internal/sstable/format.go:232-247 | A record header decodes to itself. |
| SSTableWriter.Writer.Add | internal/sstable/writer.go:78-129 | Which error or success, a failed block write included, the exact new list of records, and the layout invariant: blocks tile the output from 0, index and aggregates are exact, the open block is below the target size unless its write failed. |
| SSTableWriter.Writer.FlushBlock | internal/sstable/writer.go:133-164 | The pending block goes out behind its count and checksum and the index gains its entry; no record is lost or repeated. |
| SSTableWriter.Writer.Finish | internal/sstable/writer.go:242-259 | Block, index, meta block and footer together are the file the format describes for the records added. |
| SSTableWriter.Writer.Close | internal/sstable/writer.go:229-283 | The file appears whole or not at all; an empty writer is refused; a writer whose block write failed leaves no file; a second call does nothing. |
| SSTableWriter.Writer.Abort | internal/sstable/writer.go:295-312 | Nothing committed is taken back. |
| SSTableWriter.BlockBodyBound | internal/sstable/format.go:48-60 | Every block body is below 16384 + 20 + the payload of its last record, and every block but the last reaches 16384. |
| SSTableWriter.CappedPayloadsFit | internal/wal/record.go:21-25 | With payloads under the 64 MiB cap every block size fits its uint32. |
| SSTableWriter.AreaSnoc | internal/sstable/writer.go:133-164 | One more block keeps tiling, count, offset and index in step. |
| SSTableWriter.AggregatesSnoc | internal/sstable/writer.go:104-119 | Minimum and maximum stay exact and attained as records are added. |
| SSTableLayout.IndexPoints | internal/sstable/writer.go:153-158 | Index entry i names the first DocID of block i and exactly the bytes of block i. |
| SSTableLayout.BlockRoundTrip | internal/sstable/reader.go:179-229 | A block read back gives exactly the records it was built from. |
| SSTableLayout.BlockLoadsIff | internal/sstable/reader.go:179-229 | Any bytes load as a block exactly when they are well formed down to the last one: records framed one by one with nothing between or after them, their number, and the checksum of it all. |
| SSTableLayout.IndexRoundTrip | internal/sstable/reader.go:126-138 | The index loop accepts and returns every strictly increasing index. |
| SSTableLayout.OpenRoundTrip | internal/sstable/reader.go:72-147 | A finished file passes every check of openSource. |
| SSTableReader.OpenSource | internal/sstable/reader.go:72-147 | The checks in their order, on any file, equal the specification. |
| SSTableReader.OpenedIndexAscends | internal/sstable/reader.go:126-138 | Whatever file opens has strictly increasing first DocIDs, as many as its meta block says. |
| SSTableReader.IndexAcceptedIff | internal/sstable/reader.go:108-138 | Any bytes are accepted as an index block exactly when they are that of a strictly increasing index as long as the meta block says. |
| SSTableReader.OpenedIsWellFormed | internal/sstable/reader.go:72-147 | What Open has checked of any file: footer, meta block and index stand in it as the encodings of what the reader holds, where the footer says. |
| SSTableReader.LoadBlock | internal/sstable/reader.go:179-229 | The offset loop over any bytes equals the recursive block decoder, errors included. |
| SSTableReader.Search | internal/sstable/reader.go:234-241 | sort.Search brackets a change of its predicate, whatever the predicate. |
| SSTableReader.FindBlock | internal/sstable/reader.go:234-241 | The binary search finds what a linear search from the end finds. |
| SSTableReader.Get | internal/sstable/reader.go:252-275 | Range check, block search and early-exit scan equal the specification, and a block error is never turned into "not found". |
| SSTableReader.FindIsLookup | internal/sstable/reader.go:252-275 | On a written file Get finds record r under d exactly when (d, r) was added. |
| SSTableReader.SSTableIterator.Next | internal/sstable/reader.go:300-329 | Each call yields the next record of what is pending, or ends with the pending error; empty blocks are skipped. |
| SSTableReader.ReadAll | internal/sstable/reader.go:300-329 | Draining the iterator yields the whole stream and its error. |
| SSTableReader.WrittenFileServes | internal/sstable/reader.go:72-329 | The round trip: a written file opens, iterates back to its records in full and in order, and answers every lookup as the list of records would. |
| Corruption.LookupNeverLies | internal/sstable/reader.go:72-275 | With any four consecutive bytes of a finished file changed, Open refuses it, or the lookup fails, or it answers as the records the file was written from. |
| Corruption.IterationNeverLies | internal/sstable/reader.go:300-329 | On such a file the iterator yields a prefix of the records, and all of them unless it ends in an error. |
| Corruption.ChangeIsNoticed | internal/sstable/reader.go:72-329 | Such a file never opens and iterates to its end without an error, unless nothing but the four padding bytes of the footer differs. |
| SSTableFlush.WriteTable | internal/engine/engine.go:1173-1195 | A MemTable drained into a writer becomes the file of exactly its entries, or fails for a stated reason. |
| SSTableFlush.WrittenIsExact | internal/sstable/writer.go:104-119 | A written file is what the machine assumes of an SSTable: contents of the MemTable, ranges attained and bounding. |
| ScanHeap.ScanHeap.Down | internal/engine/engine.go:800-817 | Sift-down restores heap order from the node on and permutes the cursors. |
| ScanHeap.ScanHeap.Init | internal/engine/engine.go:736-737 | Heap order over the same cursors. |
| ScanHeap.ScanHeap.Pop | internal/engine/engine.go:811-817 | The root leaves, the rest is a heap. |
| ScanHeap.RootIsLeast | internal/engine/engine.go:800-808 | In a heap by (DocID, priority) nothing comes before the root. |
| ScanHeap.ScanCursor.Advance | internal/engine/engine.go:789-797 | A cursor moves to its source's next entry or records the error that ended it. |
| MergeSpec.RoundKeepsInv | internal/engine/engine.go:739-768 | One round hands out the smallest unread DocID with the record of the first source that has it and passes all its copies. |
| MergeSpec.ReadIsPrefix | internal/engine/engine.go:739-768 | At any moment what was visited is a prefix of the whole listing. |
| MergeSpec.AllRead | internal/engine/engine.go:739-768 | At the end the visited list is the ascending listing of the priority-ordered union. |
| Scan.ScanWithOptions | internal/engine/engine.go:681-777 | For any number of sorted sources the visitor sees the priority-ordered union of the unpruned ones, strictly ascending, each DocID once. It has seen all of it when the scan ends Done or Failed, the records before the first at which the context was done when Cancelled, and those up to the first it stopped at when Stopped; nothing could have ended the scan earlier, and a failure is that of an unpruned source that yielded a record first. |
| Scan.ScanIsView | internal/engine/engine.go:660-777 | An unrestricted scan over an engine's sources visits exactly what Get answers, in DocID order. |
| Scan.PruneIff | internal/engine/engine.go:636-656 | Pruned are exactly the SSTables whose whole timestamp range lies below the lower bound or above the upper one. |
| Scan.SilentFailure | internal/engine/engine.go:703-710 | With any number of sources and any visitor, a scan runs as if every source that fails before its first record, or is pruned, had not failed at all. |
| Decimal.ParseAfterPrint | internal/query/evaluator.go:85-92 | Re-parsing a printed integer gives it back exactly when it is an int64. |
| Decimal.PrintInjective | internal/query/evaluator.go:72-76 | String equality of canonical decimals is integer equality. |
| Evaluator.RunOr | internal/query/evaluator.go:28-40 | The OR loop equals the left-to-right specification that OrMeans characterises, errors and short-circuit order included. |
| Evaluator.OrMeans | internal/query/evaluator.go:28-40 | A disjunction is true, or errs, exactly when its first branch that is not false does, and false exactly when all are. |
| Evaluator.RunAnd | internal/query/evaluator.go:42-54 | The AND loop likewise. |
| Evaluator.AndMeans | internal/query/evaluator.go:42-54 | A conjunction is false, or errs, exactly when its first conjunct that is not true does, and true exactly when all are. |
| Evaluator.NumericCompare | internal/query/evaluator.go:63-105 | On ts and doc_id all six operators are integer comparison of the timestamp or DocID with the number the literal gives, for ts also as RFC 3339 text; the one exception is an ordered test on a DocID of 2^63 or more, which errs. |
| Evaluator.TextCompare | internal/query/evaluator.go:63-184 | source, message, tenant_id and fields.<key> compare as strings, a missing field as the empty one; ordered operators and number literals err. |
| Evaluator.WellTypedNeverErrs | internal/query/evaluator.go:63-184 | A leaf errs on no record below 2^63 if it is well typed and on every record if it is not. |
| Evaluator.WellTypedOr | internal/query/evaluator.go:21-61 | A well-typed WHERE errs on no record, however deep its nesting. |
| Scope.TenantFilterMeans | internal/query/scope.go:22-48 | The rewritten clause is the caller's clause and then the tenant test, for every nesting: errors first and unchanged, false hides the test. |
| Scope.TenantFilterIsWellTyped | internal/query/scope.go:22-48 | The rewrite is well typed exactly when the caller's clause is. |
| Planner.Plan | internal/query/planner.go:25-92 | The in-place narrowing over the top-level AND chain equals its specification. |
| Planner.PlanOptions.ApplyCmp | internal/query/planner.go:52-92 | One conjunct narrows the options in place as specified, 0 standing for "unset". |
| Planner.PlanIsImplied | internal/query/planner.go:25-92 | Every record a WHERE accepts lies within the bounds planned for it. |
| Planner.PlanIsTightest | internal/query/planner.go:36-92 | And they are the tightest its AND chain gives: the largest lower and the smallest upper bound on ts over all conjuncts, none when there is none; a bound of 0 is the exception and never limits the scan. |
| Planner.DisjunctionPlansNothing | internal/query/planner.go:25-34 | A missing WHERE and a top-level OR plan no bounds. |
| Planner.ScopedPlansNothing | internal/query/planner.go:52-55 | A tenant-rewritten clause plans no bounds. |
| Executor.ResolveColumns | internal/query/executor.go:85-106 | SELECT * gives the six top-level columns in their order; a list gives its columns in SELECT order, fields.<key> under that name, or the error of the first column that cannot be selected. |
| Executor.Project | internal/query/executor.go:111-143 | A row holds exactly the requested columns: doc_id, the formatted timestamp, tenant_id, source, message and fields each under its own name, and fields.<key> as the value of the field or the empty string. |
| Executor.ResolvedHaveValues | internal/query/executor.go:85-143 | Every column a SELECT resolves to has a value in every row. |
| Executor.Collector.Visit | internal/query/executor.go:60-74 | One call of the visitor: rows are the projected matches so far, and its answer is the one the scan was told to expect. |
| Executor.Execute | internal/query/executor.go:48-79 | The result is the answer over the merged listing under the planned bounds; the limit sentinel never surfaces, and a context done before anything else ends the query makes it fail. |
| Executor.AnswerIs | internal/query/executor.go:48-79 | What ends a statement, with any context and any failing source: at the first record where one strikes, the context, an evaluation error or the limit, in this order; otherwise the end of the scan, as an error when a source failed. |
| Executor.SomethingEnds | internal/query/executor.go:48-79 | Every statement comes to such a record or to the end, so AnswerIs leaves no case out. |
| QueryResults.TakeFilterProject | internal/query/executor.go:48-79 | Execute answers unless an evaluation errs before the limit is reached, and the answer is the first rows of the matches in ascending DocID order. |
| QueryResults.MatchesAre | internal/query/executor.go:60-68 | The matches are the scanned records on which the WHERE evaluates to true. |
| QueryResults.MatchesAscend | internal/query/executor.go:60-68 | They come in ascending DocID order, each once. |
| QueryResults.LimitIsMin | internal/query/executor.go:69-72 | LIMIT L gives the first min(L, n) rows exactly when L is at least 1 or nothing matches: LIMIT 0 gives one row. |
| Pushdown.PushdownPreservesAnswer | internal/query/planner.go:10-92 | With agreeing copies, exact ranges and sources that do not fail, the planned bounds do not change the answer, errors included, when no record outside them makes the WHERE err. |
| Pushdown.PushdownUnnoticedIff | internal/query/planner.go:10-92 | Exactly which statements pushdown can never change: those whose WHERE errs on no record outside its own planned bounds. |
| Pushdown.LoudDecides | internal/query/executor.go:48-79 | An answer, rows or error, depends only on the records the WHERE does not quietly reject. |
| Pushdown.PushdownHidesErrors | internal/query/planner.go:10-92 | A statement of the other kind: the bound prunes the SSTable whose record would have failed the query. |
| Pushdown.PushdownNeedsAgreeingCopies | internal/engine/engine.go:645-656 | Without the proviso on copies a bound can let an older copy show through. |
| QueryResults.ScopedRows | internal/query/scope.go:22-48 | A scoped query's matches are exactly the tenant's among the caller's, and it errs on exactly the same records. |
| EngineQueries.LayersAgree | internal/engine/engine.go:9-26 | In every reachable state each MemTable and SSTable repeats the visible records, so copies of a DocID agree. |
| EngineQueries.QueryAnswersView | internal/query/executor.go:48-79 | In every reachable state of the engine a query none of whose visible records errs outside the planned bounds answers over exactly the records Get sees, pushdown and errors included. |

## Left out

- fsync and directory sync as separate operations, file permissions and descriptors: a rename is atomic, and what one node adopts at `Open` counts as durable from then on.
- The contents of temporary SSTable files: only their ids exist.
- `Open` failing halfway through (a quarantine or listing error): it either completes or leaves the disk as it was.
- Liveness of the stall condition: a broadcast between reading the predicate and waiting can be missed, so only the safety of the gate is stated.
- Goroutine plumbing, channels, timers, backoff durations, the `OnFatal` callback, `Stats`, use after `Close`.
- EngineNode.Engine.Write: states the call with nobody else running; interleavings are the machine's, and `WriteIsSixSteps` connects the two.
- EngineNode.Engine.Get: reads an SSTable as its map; the bytes behind it are the subject of `SSTableReader.FindIsLookup`, and a block error during Get is stated there.
- EngineTail.AckThenCrashRuns: asks for no stray record; with one, recovery may meet bytes no Write was given and refuse to open.
- EngineLoss.OutOfOrderRotationLoses: with a soft limit of zero or less an empty table can enter the queue and block its flush, so the loss need not follow.
- SSTableReader.WrittenFileServes: asks that offsets fit int64 and the index block fits uint32 (`Fit`); block sizes follow from the payload cap by `CappedPayloadsFit`.
- Scan.ScanWithOptions: which of several failing sources supplies the reported error depends on heap order and is not stated; the visitor is a function of the records it has been handed.
- SSTableWriter.Writer.Add: says nothing of an Add after a failed one; the flush aborts there.
- Corruption.RecordBurst: spares the length field of a WAL record; with another length the checksum is taken over other bytes, and CRC-32 promises nothing.
- Changes of more than four consecutive bytes: a checksum of 32 bits cannot catch them all (`CrcBursts.FiveBytesMayPass`), and nothing is said of how many it does.
- A nil `Fields` map is not told apart from an empty one.
- The SQL grammar and lexer: queries start from the parsed tree.
- HTTP server, authentication, console, client library, configuration files and `cmd/distlog`.
- Scan's and Execute's snapshot of the source lists is atomic, as the read lock makes it.
