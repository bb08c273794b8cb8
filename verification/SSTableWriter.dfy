/** The SSTable writer (internal/sstable/writer.go): it cuts an ascending stream of records into a file. */
module SSTableWriter {
  import opened Bytes
  import opened Types
  import opened EntryList
  import opened SSTableFormat
  import opened SSTableLayout
  import Crc32
  import WalRecord

  // ---- how the stream is cut --------------------------------------------------------------------

  /** A block is closed by the record that takes its body to the target size, and no earlier. */
  ghost predicate ClosedBlock(c: Codec, b: seq<Entry>)
    requires AllStorable(c, b)
  {
    b != [] && AllStorable(c, b[..|b| - 1]) && |Body(c, b[..|b| - 1])| < DEFAULT_BLOCK_SIZE <= |Body(c, b)|
  }

  /** The last block may also be cut short by Close. */
  ghost predicate Cut(c: Codec, bs: seq<seq<Entry>>)
    requires BlocksStorable(c, bs)
  {
    && (forall i :: 0 <= i < |bs| - 1 ==> bs[i] in bs && ClosedBlock(c, bs[i]))
    && (bs == [] || (bs[|bs| - 1] in bs && (ClosedBlock(c, bs[|bs| - 1]) || |Body(c, bs[|bs| - 1])| < DEFAULT_BLOCK_SIZE)))
  }

  ghost predicate AllClosed(c: Codec, bs: seq<seq<Entry>>)
    requires BlocksStorable(c, bs)
  {
    forall b | b in bs :: ClosedBlock(c, b)
  }

  /** Whole-file aggregates: the first and last DocID, and the exact least and greatest timestamp. */
  ghost predicate Aggregates(es: seq<Entry>, minID: DocID, maxID: DocID, minTS: Timestamp, maxTS: Timestamp) {
    es != [] ==>
      && minID == es[0].id && maxID == es[|es| - 1].id
      && (forall e | e in es :: minTS <= e.rec.timestamp <= maxTS)
      && (exists e :: e in es && e.rec.timestamp == minTS)
      && (exists e :: e in es && e.rec.timestamp == maxTS)
  }

  lemma AggregatesSnoc(es: seq<Entry>, e: Entry, minID: DocID, maxID: DocID, minTS: Timestamp, maxTS: Timestamp)
    requires Aggregates(es, minID, maxID, minTS, maxTS)
    ensures es == [] ==> Aggregates(es + [e], e.id, e.id, e.rec.timestamp, e.rec.timestamp)
    ensures es != [] ==> Aggregates(es + [e], minID, e.id,
              if e.rec.timestamp < minTS then e.rec.timestamp else minTS,
              if e.rec.timestamp > maxTS then e.rec.timestamp else maxTS)
  {
    var all := es + [e];
    assert forall x | x in all :: x in es || x == e;
    assert forall x | x in es :: x in all;
    assert all[|es|] == e && e in all;
  }

  ghost predicate MetaOf(es: seq<Entry>, blockCount: nat, m: MetaBlock) {
    && Aggregates(es, m.minDocID, m.maxDocID, m.minTimestamp, m.maxTimestamp)
    && m.recordCount == |es| % U64 && m.dataBlockCount == blockCount % U32
    && m.reserved == seq(32, _ => 0)
  }

  // ---- appending a block ------------------------------------------------------------------------

  lemma BlocksSnoc(c: Codec, bs: seq<seq<Entry>>, b: seq<Entry>)
    requires BlocksStorable(c, bs) && AllStorable(c, b) && b != []
    ensures BlocksStorable(c, bs + [b])
    ensures Blocks(c, bs + [b]) == Blocks(c, bs) + BlockBytes(c, b)
    ensures Flatten(bs + [b]) == Flatten(bs) + b
  {
    hide BlockBytes;
    assert (bs + [b])[..|bs|] == bs;
    assert forall x | x in bs + [b] :: x in bs || x == b;
  }

  lemma IndexSnoc(c: Codec, bs: seq<seq<Entry>>, b: seq<Entry>)
    requires BlocksStorable(c, bs + [b]) && Fit(c, bs + [b])
    ensures BlocksStorable(c, bs) && Fit(c, bs) && AllStorable(c, b) && b != []
    ensures |Blocks(c, bs)| + |BlockBytes(c, b)| < I63 && |BlockBytes(c, b)| < U32
    ensures Index(c, bs + [b]) == Index(c, bs) + [IndexEntry(b[0].id, |Blocks(c, bs)|, |BlockBytes(c, b)|, 0)]
  {
    hide BlockBytes, Flatten;
    var all := bs + [b];
    assert all[..|bs|] == bs && all[|bs|] == b && b in all;
    FitPrefix(c, all);
    BlocksSnoc(c, bs, b);
  }

  lemma ClosedSnoc(c: Codec, bs: seq<seq<Entry>>, b: seq<Entry>)
    requires BlocksStorable(c, bs) && AllStorable(c, b) && b != [] && AllClosed(c, bs)
    ensures BlocksStorable(c, bs + [b])
    ensures ClosedBlock(c, b) ==> AllClosed(c, bs + [b])
    ensures ClosedBlock(c, b) || |Body(c, b)| < DEFAULT_BLOCK_SIZE ==> Cut(c, bs + [b])
  {
    hide Body, ClosedBlock;
    var all := bs + [b];
    assert forall x | x in all :: x in bs || x == b;
    assert forall i | 0 <= i < |bs| :: all[i] == bs[i] && bs[i] in bs;
    assert all[|bs|] == b && b in all;
  }

  lemma ClosedIsCut(c: Codec, bs: seq<seq<Entry>>)
    requires BlocksStorable(c, bs) && AllClosed(c, bs)
    ensures Cut(c, bs)
  {
  }

  /** A block never outgrows the target by more than one record, and all but the last reach it. */
  lemma BlockBodyBound(c: Codec, bs: seq<seq<Entry>>, b: seq<Entry>)
    requires BlocksStorable(c, bs) && Cut(c, bs) && b in bs
    ensures AllStorable(c, b) && b != []
    ensures |Body(c, b)| < 16 * 1024 + 20 + |c.marshal(b[|b| - 1].rec)|
    ensures forall i | 0 <= i < |bs| - 1 :: bs[i] in bs && |Body(c, bs[i])| >= 16 * 1024
  {
    hide Body;
    var n := |b| - 1;
    var i :| 0 <= i < |bs| && bs[i] == b;
    if ClosedBlock(c, b) {
      assert b == b[..n] + [b[n]];
      BodySnoc(c, b[..n], b[n]);
    }
  }

  /** With every payload under the WAL's cap each block size fits its uint32, so only the totals are left to ask for. */
  lemma CappedPayloadsFit(c: Codec, bs: seq<seq<Entry>>)
    requires BlocksStorable(c, bs) && Cut(c, bs)
    requires forall b, e | b in bs && e in b :: |c.marshal(e.rec)| <= WalRecord.MAX_PAYLOAD
    requires |Blocks(c, bs)| + |bs| * INDEX_ENTRY_SIZE + 200 < I63
    requires |bs| * INDEX_ENTRY_SIZE + BLOCK_TRAILER_SIZE < U32 && |Flatten(bs)| < U64
    ensures Fit(c, bs)
  {
    hide Body, Cut, Blocks, Flatten;
    forall b | b in bs ensures |BlockBytes(c, b)| < U32 {
      BlockBodyBound(c, bs, b);
      assert b[|b| - 1] in b;
    }
  }

  // ---- what the fields stand for ------------------------------------------------------------------

  /** The block being assembled. */
  ghost predicate CurIs(c: Codec, cur: seq<Entry>, block: seq<byte>, records: uint32, first: DocID) {
    AllStorable(c, cur) && block == Body(c, cur) && records == |cur| && (cur != [] ==> first == cur[0].id)
  }

  /** The blocks written so far: they tile the output from 0, and the index points at each. */
  ghost predicate AreaIs(c: Codec, blocks: seq<seq<Entry>>, out: seq<byte>, count: uint32, offset: int64,
                         index: seq<IndexEntry>) {
    && BlocksStorable(c, blocks)
    && out == Blocks(c, blocks) && count == |blocks| % U32
    && (Fit(c, blocks) ==> offset == |out| && index == Index(c, blocks))
  }

  ghost predicate TotalsAre(items: seq<Entry>, hasRecord: bool, last: DocID, minID: DocID, maxID: DocID,
                            minTS: Timestamp, maxTS: Timestamp, count: uint64)
  {
    && Ascending(items) && (hasRecord <==> items != []) && (hasRecord ==> last == maxID)
    && Aggregates(items, minID, maxID, minTS, maxTS) && count == |items| % U64
  }

  lemma CurSnoc(c: Codec, cur: seq<Entry>, block: seq<byte>, records: uint32, first: DocID, e: Entry)
    requires CurIs(c, cur, block, records, first) && |block| < DEFAULT_BLOCK_SIZE && Storable(c, e)
    ensures CurIs(c, cur + [e], block + RecordBytes(c, e), (records + 1) % U32, if records == 0 then e.id else first)
    ensures |Body(c, cur + [e])| >= DEFAULT_BLOCK_SIZE ==> ClosedBlock(c, cur + [e])
    ensures |RecordBytes(c, e)| == RECORD_HEADER_SIZE + |c.marshal(e.rec)|
  {
    BodySnoc(c, cur, e);
    assert (cur + [e])[..|cur|] == cur;
  }

  lemma ModSucc(n: nat)
    ensures (n % U32 + 1) % U32 == (n + 1) % U32
    ensures (n % U64 + 1) % U64 == (n + 1) % U64
  {
  }

  lemma AreaSnoc(c: Codec, blocks: seq<seq<Entry>>, out: seq<byte>, count: uint32, offset: int64,
                 index: seq<IndexEntry>,
                 cur: seq<Entry>, first: DocID)
    requires AreaIs(c, blocks, out, count, offset, index)
    requires AllStorable(c, cur) && cur != [] && first == cur[0].id
    ensures var size := |BlockBytes(c, cur)| % U32;
      AreaIs(c, blocks + [cur], out + BlockBytes(c, cur), (count + 1) % U32, AddI64(offset, size),
             index + [IndexEntry(first, ToU64(offset), size, 0)])
  {
    hide BlockBytes, Blocks, Flatten, Index, Fit, BlocksStorable;
    BlocksSnoc(c, blocks, cur);
    ModSucc(|blocks|);
    if Fit(c, blocks + [cur]) {
      IndexSnoc(c, blocks, cur);
    }
  }

  lemma CurFacts(c: Codec, cur: seq<Entry>, block: seq<byte>, records: uint32, first: DocID)
    requires CurIs(c, cur, block, records, first)
    ensures AllStorable(c, cur) && |block| == |Body(c, cur)| && block == Body(c, cur)
    ensures records == 0 <==> cur == []
    ensures records == 0 ==> block == []
    ensures records == |cur|
    ensures cur != [] ==> first == cur[0].id
    ensures CurIs(c, [], [], 0, 0)
  {
  }

  lemma AreaStorable(c: Codec, blocks: seq<seq<Entry>>, out: seq<byte>, count: uint32, offset: int64,
                     index: seq<IndexEntry>)
    requires AreaIs(c, blocks, out, count, offset, index)
    ensures BlocksStorable(c, blocks) && count == |blocks| % U32
  {
  }

  lemma TotalsFacts(items: seq<Entry>, hasRecord: bool, last: DocID, minID: DocID, maxID: DocID,
                    minTS: Timestamp, maxTS: Timestamp, count: uint64)
    requires TotalsAre(items, hasRecord, last, minID, maxID, minTS, maxTS, count)
    ensures Ascending(items) && (hasRecord <==> items != []) && count == |items| % U64
    ensures Aggregates(items, minID, maxID, minTS, maxTS)
    ensures hasRecord ==> last == items[|items| - 1].id
  {
  }

  lemma BlockParts(c: Codec, es: seq<Entry>, out: seq<byte>, body: seq<byte>, trailer: seq<byte>)
    requires AllStorable(c, es) && body == Body(c, es) && trailer == Trailer(|es|, body)
    ensures out + body + trailer == out + BlockBytes(c, es) && |BlockBytes(c, es)| == |body| + BLOCK_TRAILER_SIZE
  {
    hide Body, Trailer;
  }

  lemma LastOf(items: seq<Entry>, minID: DocID, maxID: DocID, minTS: Timestamp, maxTS: Timestamp)
    requires Aggregates(items, minID, maxID, minTS, maxTS)
    ensures items != [] ==> maxID == items[|items| - 1].id
  {
  }

  lemma AscendingSnoc(items: seq<Entry>, e: Entry)
    requires Ascending(items)
    ensures items == [] || items[|items| - 1].id < e.id ==> Ascending(items + [e])
  {
  }

  lemma TotalsSnoc(items: seq<Entry>, hasRecord: bool, last: DocID, minID: DocID, maxID: DocID,
                   minTS: Timestamp, maxTS: Timestamp, count: uint64, e: Entry)
    requires TotalsAre(items, hasRecord, last, minID, maxID, minTS, maxTS, count)
    requires hasRecord ==> last < e.id
    ensures var t := e.rec.timestamp;
      TotalsAre(items + [e], true, e.id, if hasRecord then minID else e.id, e.id,
                if hasRecord && minTS <= t then minTS else t, if hasRecord && maxTS >= t then maxTS else t, (count + 1) % U64)
  {
    hide Aggregates, Ascending;
    LastOf(items, minID, maxID, minTS, maxTS);
    AscendingSnoc(items, e);
    ModSucc(|items|);
    AggregatesSnoc(items, e, minID, maxID, minTS, maxTS);
    var t := e.rec.timestamp;
    if items == [] {
      assert Aggregates(items + [e], e.id, e.id, t, t);
    } else {
      assert Aggregates(items + [e], minID, e.id, if minTS <= t then minTS else t, if maxTS >= t then maxTS else t);
    }
  }

  /** What a finished file is to the records it was written for. */
  ghost predicate Written(c: Codec, es: seq<Entry>, bs: seq<seq<Entry>>, m: MetaBlock, file: seq<byte>) {
    && es != [] && Ascending(es) && BlocksStorable(c, bs) && Cut(c, bs) && Flatten(bs) == es
    && MetaOf(es, |bs|, m)
    && (Fit(c, bs) ==> file == FileOf(c, bs, m))
  }

  /** Under Fit no offset wraps, so the sections stand where the footer says. */
  lemma FinishedFile(c: Codec, bs: seq<seq<Entry>>, area: seq<byte>, count: uint32, offset: int64,
                     index: seq<IndexEntry>,
                     m: MetaBlock, out: seq<byte>)
    requires AreaIs(c, bs, area, count, offset, index) && |m.reserved| == 32
    requires var ix := IndexBytes(index);
      var idxSize := |ix| % U32;
      var metaOff := ToU64(AddI64(offset, idxSize));
      out == area + ix + EncodeMeta(m) + EncodeFooter(Footer(FORMAT_VERSION, 0, ToU64(offset), idxSize, metaOff, META_BLOCK_SIZE))
    ensures Fit(c, bs) ==> out == FileOf(c, bs, m)
  {
    hide Blocks, Index, IndexBody, EncodeMeta, EncodeFooter, BlocksStorable, Trailer;
  }

  // ---- the writer -------------------------------------------------------------------------------

  datatype WriteError = WriterClosed | NotIncreasing | PayloadTooLarge | ZeroRecords | IOFailed

  /** Where the file system lets Close down, if it does. */
  datatype Fault = NoFault | BeforeRename | AfterRename

  class Writer {
    const codec: Codec
    var out: seq<byte>             // everything handed to the buffered writer
    var curBlock: seq<byte>
    var curRecords: uint32
    var curFirstDocID: DocID
    var indexEntries: seq<IndexEntry>
    var minDocID: DocID
    var maxDocID: DocID
    var minTS: Timestamp
    var maxTS: Timestamp
    var recordCount: uint64
    var dataBlockCount: uint32
    var lastDocID: DocID
    var hasRecord: bool
    var offset: int64
    var closed: bool
    var aborted: bool
    var finished: bool
    var broken: bool               // the buffered writer has failed, and fails from then on
    var tmp: bool                  // the temporary file exists
    var final: Option<seq<byte>>   // the file at the final path
    ghost var blocks: seq<seq<Entry>>
    ghost var cur: seq<Entry>
    ghost var items: seq<Entry>    // everything added, in order

    ghost predicate Building()
      reads this
    {
      && CurIs(codec, cur, curBlock, curRecords, curFirstDocID)
      && AreaIs(codec, blocks, out, dataBlockCount, offset, indexEntries) && AllClosed(codec, blocks)
      && items == Flatten(blocks) + cur
      && TotalsAre(items, hasRecord, lastDocID, minDocID, maxDocID, minTS, maxTS, recordCount)
    }

    ghost predicate Open()
      reads this
    {
      && Building() && |curBlock| < DEFAULT_BLOCK_SIZE
      && !broken && !closed && !finished && !aborted && tmp && final.None?
    }

    /** A block could not be written: it stays pending, and nothing more gets out. */
    ghost predicate Stuck()
      reads this
    {
      && Building() && |curBlock| >= DEFAULT_BLOCK_SIZE
      && broken && !closed && !finished && !aborted && tmp && final.None?
    }

    constructor (codec: Codec)
      ensures Open() && items == [] && this.codec == codec
    {
      this.codec := codec;
      out, curBlock, curRecords, curFirstDocID, indexEntries := [], [], 0, 0, [];
      minDocID, maxDocID, minTS, maxTS, recordCount, dataBlockCount := 0, 0, 0, 0, 0, 0;
      lastDocID, hasRecord, offset, closed, aborted, finished, broken := 0, false, 0, false, false, false, false;
      tmp, final, blocks, cur, items := true, None, [], [], [];
    }

    /** Adds one record; works tells whether the block write this may trigger succeeds. A failed write leaves the record
        counted and its block pending; from then on the writer is only good for Close and Abort. */
    method Add(docID: DocID, record: LogRecord, works: bool) returns (r: Result<(), WriteError>)
      requires closed || Open()
      modifies `out, `offset, `indexEntries, `dataBlockCount, `curBlock, `curRecords, `curFirstDocID, `blocks, `cur, `items
      modifies `minDocID, `maxDocID, `minTS, `maxTS, `hasRecord, `lastDocID, `recordCount, `broken
      ensures closed || if broken then Stuck() else Open()
      ensures r ==
        if closed then Err(WriterClosed)
        else if old(items) != [] && docID <= old(items)[|old(items)| - 1].id then Err(NotIncreasing)
        else if |codec.marshal(record)| > 0xFFFF_FFFF then Err(PayloadTooLarge)
        else if broken then Err(IOFailed)
        else Ok(())
      ensures r.Ok? || r == Err(IOFailed) ==>
        && items == old(items) + [Entry(docID, record)]
        && (broken <==> !works && |old(curBlock)| + 20 + |codec.marshal(record)| >= 16 * 1024)
      ensures !r.Ok? && r != Err(IOFailed) ==> unchanged(this)
    {
      hide CurIs, AreaIs, TotalsAre, AllClosed, ClosedBlock, Flatten;
      if closed { return Err(WriterClosed); }
      TotalsFacts(items, hasRecord, lastDocID, minDocID, maxDocID, minTS, maxTS, recordCount);
      if hasRecord && docID <= lastDocID { return Err(NotIncreasing); }
      var payload := codec.marshal(record);
      if |payload| > 0xFFFF_FFFF { return Err(PayloadTooLarge); }
      Append(docID, record, payload, works);
      r := if broken then Err(IOFailed) else Ok(());
    }

    method Append(docID: DocID, record: LogRecord, payload: seq<byte>, works: bool)
      requires Building() && !broken && |curBlock| < DEFAULT_BLOCK_SIZE && (hasRecord ==> lastDocID < docID)
      requires payload == codec.marshal(record) && |payload| < U32
      modifies `out, `offset, `indexEntries, `dataBlockCount, `curBlock, `curRecords, `curFirstDocID, `blocks, `cur, `items
      modifies `minDocID, `maxDocID, `minTS, `maxTS, `hasRecord, `lastDocID, `recordCount, `broken
      ensures Building() && (broken <==> |curBlock| >= DEFAULT_BLOCK_SIZE)
      ensures broken <==> !works && |old(curBlock)| + RECORD_HEADER_SIZE + |payload| >= DEFAULT_BLOCK_SIZE
      ensures items == old(items) + [Entry(docID, record)]
    {
      hide AreaIs, AllClosed, ClosedBlock, CurIs, TotalsAre, Flatten, Cut, BlocksStorable;
      ghost var e := Entry(docID, record);
      assert Flatten(blocks) + (cur + [e]) == items + [e];
      Assemble(docID, record, payload);
      Track(docID, record.timestamp, items, e);
      cur, items := cur + [e], items + [e];
      assert items == Flatten(blocks) + cur;
      FlushIfFull(works);
    }

    method FlushIfFull(works: bool)
      requires CurIs(codec, cur, curBlock, curRecords, curFirstDocID)
      requires AreaIs(codec, blocks, out, dataBlockCount, offset, indexEntries) && AllClosed(codec, blocks)
      requires items == Flatten(blocks) + cur
      requires !broken && (|curBlock| >= DEFAULT_BLOCK_SIZE ==> ClosedBlock(codec, cur))
      modifies `out, `offset, `indexEntries, `dataBlockCount, `curBlock, `curRecords, `curFirstDocID, `blocks, `cur, `broken
      ensures CurIs(codec, cur, curBlock, curRecords, curFirstDocID) && (broken <==> |curBlock| >= DEFAULT_BLOCK_SIZE)
      ensures AreaIs(codec, blocks, out, dataBlockCount, offset, indexEntries) && AllClosed(codec, blocks)
      ensures items == Flatten(blocks) + cur
      ensures broken <==> !works && old(|curBlock|) >= DEFAULT_BLOCK_SIZE
    {
      hide AreaIs, AllClosed, ClosedBlock, CurIs, Flatten, Cut;
      if |curBlock| >= DEFAULT_BLOCK_SIZE {
        if !works {
          broken := true;
          return;
        }
        FlushBlock();
        assert items == Flatten(blocks) + cur;
      }
    }

    /** The record goes behind the pending ones. */
    method Assemble(docID: DocID, record: LogRecord, payload: seq<byte>)
      requires CurIs(codec, cur, curBlock, curRecords, curFirstDocID) && |curBlock| < DEFAULT_BLOCK_SIZE
      requires payload == codec.marshal(record) && |payload| < U32
      modifies `curBlock, `curRecords, `curFirstDocID
      ensures CurIs(codec, cur + [Entry(docID, record)], curBlock, curRecords, curFirstDocID)
      ensures |curBlock| >= DEFAULT_BLOCK_SIZE ==> ClosedBlock(codec, cur + [Entry(docID, record)])
      ensures |curBlock| == old(|curBlock|) + RECORD_HEADER_SIZE + |payload|
    {
      hide ClosedBlock, Body, EncodeHeader;
      ghost var e := Entry(docID, record);
      CurSnoc(codec, cur, curBlock, curRecords, curFirstDocID, e);
      var hdr := EncodeHeader(RecordHeader(docID, record.timestamp, |payload|));
      assert curBlock + hdr + payload == curBlock + RecordBytes(codec, e);
      if curRecords == 0 { curFirstDocID := docID; }
      curBlock := curBlock + hdr + payload;
      curRecords := (curRecords + 1) % U32;
    }

    /** The record counts towards the whole-file aggregates. */
    method Track(docID: DocID, ts: Timestamp, ghost items: seq<Entry>, ghost e: Entry)
      requires TotalsAre(items, hasRecord, lastDocID, minDocID, maxDocID, minTS, maxTS, recordCount)
      requires e.id == docID && e.rec.timestamp == ts && (hasRecord ==> lastDocID < docID)
      modifies `minDocID, `maxDocID, `minTS, `maxTS, `hasRecord, `lastDocID, `recordCount
      ensures TotalsAre(items + [e], hasRecord, lastDocID, minDocID, maxDocID, minTS, maxTS, recordCount)
    {
      hide TotalsAre;
      TotalsSnoc(items, hasRecord, lastDocID, minDocID, maxDocID, minTS, maxTS, recordCount, e);
      if !hasRecord {
        minDocID, maxDocID, minTS, maxTS, hasRecord := docID, docID, ts, ts, true;
      } else {
        maxDocID := docID;
        if ts < minTS { minTS := ts; }
        if ts > maxTS { maxTS := ts; }
      }
      lastDocID := docID;
      recordCount := (recordCount + 1) % U64;
    }

    /** The pending block goes out whole, behind its record count and checksum. */
    method FlushBlock()
      requires CurIs(codec, cur, curBlock, curRecords, curFirstDocID)
      requires AreaIs(codec, blocks, out, dataBlockCount, offset, indexEntries) && AllClosed(codec, blocks)
      requires items == Flatten(blocks) + cur
      requires cur == [] || ClosedBlock(codec, cur) || |curBlock| < DEFAULT_BLOCK_SIZE
      modifies `out, `offset, `indexEntries, `dataBlockCount, `curBlock, `curRecords, `curFirstDocID, `blocks, `cur
      ensures items == Flatten(blocks) && cur == [] && curBlock == []
      ensures blocks == if old(cur) == [] then old(blocks) else old(blocks) + [old(cur)]
      ensures CurIs(codec, cur, curBlock, curRecords, curFirstDocID)
      ensures AreaIs(codec, blocks, out, dataBlockCount, offset, indexEntries)
      ensures Cut(codec, blocks)
      ensures old(cur) == [] || ClosedBlock(codec, old(cur)) ==> AllClosed(codec, blocks)
    {
      hide CurIs, AreaIs, AllClosed, Cut, ClosedBlock, Flatten, Blocks, Fit, Index, TotalsAre, Crc32.Checksum, PutU32,
           BlockBytes;
      CurFacts(codec, cur, curBlock, curRecords, curFirstDocID);
      AreaStorable(codec, blocks, out, dataBlockCount, offset, indexEntries);
      ClosedIsCut(codec, blocks);
      if curRecords == 0 { return; }
      ClosedSnoc(codec, blocks, cur);
      AreaSnoc(codec, blocks, out, dataBlockCount, offset, indexEntries, cur, curFirstDocID);
      BlocksSnoc(codec, blocks, cur);
      BlockParts(codec, cur, out, curBlock, PutU32(curRecords) + PutU32(Crc32.Checksum(curBlock)));
      var body := curBlock;
      var trailer := PutU32(curRecords) + PutU32(Crc32.Checksum(body));
      var blockOffset := ToU64(offset);
      out := out + body + trailer;
      var blockSize := (|body| + BLOCK_TRAILER_SIZE) % U32;
      offset := AddI64(offset, blockSize);
      indexEntries := indexEntries + [IndexEntry(curFirstDocID, blockOffset, blockSize, 0)];
      dataBlockCount := (dataBlockCount + 1) % U32;
      blocks, cur := blocks + [cur], [];
      curBlock, curRecords, curFirstDocID := [], 0, 0;
    }

    method WriteIndexBlock() returns (off: uint64, size: uint32)
      modifies `out, `offset
      ensures out == old(out) + IndexBytes(indexEntries)
      ensures off == ToU64(old(offset)) && size == |IndexBytes(indexEntries)| % U32 && offset == AddI64(old(offset), size)
    {
      hide EncodeIndexEntry, Crc32.Checksum, PutU32;
      off := ToU64(offset);
      var body, i := [], 0;
      while i < |indexEntries|
        invariant out == old(out) && offset == old(offset)
        invariant i <= |indexEntries| && body == IndexBody(indexEntries[..i])
      {
        var b := MarshalIndexEntry(indexEntries[i]);
        assert indexEntries[..i + 1][..i] == indexEntries[..i];
        body := body + b[..];
        i := i + 1;
      }
      assert indexEntries[..i] == indexEntries;
      var trailer := PutU32(|indexEntries| % U32) + PutU32(Crc32.Checksum(body));
      assert out + body + trailer == out + IndexBytes(indexEntries);
      out := out + body + trailer;
      size := (|body| + BLOCK_TRAILER_SIZE) % U32;
      offset := AddI64(offset, size);
    }

    method WriteMetaBlock(now: int64) returns (off: uint64, size: uint32, ghost m: MetaBlock)
      modifies `out, `offset
      ensures |m.reserved| == 32 && out == old(out) + EncodeMeta(m)
      ensures m == MetaBlock(minDocID, maxDocID, minTS, maxTS, recordCount, dataBlockCount, now, seq(32, _ => 0))
      ensures off == ToU64(old(offset)) && size == META_BLOCK_SIZE && offset == AddI64(old(offset), META_BLOCK_SIZE)
    {
      off := ToU64(offset);
      var meta := MetaBlock(minDocID, maxDocID, minTS, maxTS, recordCount, dataBlockCount, now, seq(32, _ => 0));
      var b := MarshalMetaBlock(meta);
      out := out + b[..];
      offset := AddI64(offset, META_BLOCK_SIZE);
      size, m := META_BLOCK_SIZE, meta;
    }

    method WriteFooter(idxOff: uint64, idxSize: uint32, metaOff: uint64, metaSize: uint32)
      modifies `out, `offset
      ensures out == old(out) + EncodeFooter(Footer(FORMAT_VERSION, 0, idxOff, idxSize, metaOff, metaSize))
      ensures offset == AddI64(old(offset), FOOTER_SIZE)
    {
      var b := MarshalFooter(Footer(FORMAT_VERSION, 0, idxOff, idxSize, metaOff, metaSize));
      out := out + b[..];
      offset := AddI64(offset, FOOTER_SIZE);
    }

    /** Everything Close writes: the pending block, the index, the meta block and the footer. */
    method Finish(now: int64) returns (ghost m: MetaBlock)
      requires Building() && items != [] && (cur == [] || ClosedBlock(codec, cur) || |curBlock| < DEFAULT_BLOCK_SIZE)
      modifies `out, `offset, `indexEntries, `dataBlockCount, `curBlock, `curRecords, `curFirstDocID, `blocks, `cur
      ensures items == old(items) && Written(codec, items, blocks, m, out)
    {
      hide TotalsAre, AllClosed, ClosedBlock, Cut, Aggregates, Ascending, CurIs, AreaIs, Flatten, BlocksStorable,
           IndexBytes,
           EncodeMeta, EncodeFooter, Fit, FileOf, Body;
      TotalsFacts(items, hasRecord, lastDocID, minDocID, maxDocID, minTS, maxTS, recordCount);
      CurFacts(codec, cur, curBlock, curRecords, curFirstDocID);
      AreaStorable(codec, blocks, out, dataBlockCount, offset, indexEntries);
      FlushBlock();
      AreaStorable(codec, blocks, out, dataBlockCount, offset, indexEntries);
      ghost var area, areaEnd := out, offset;
      var idxOff, idxSize := WriteIndexBlock();
      var metaOff, metaSize;
      metaOff, metaSize, m := WriteMetaBlock(now);
      WriteFooter(idxOff, idxSize, metaOff, metaSize);
      FinishedFile(codec, blocks, area, dataBlockCount, areaEnd, indexEntries, m, out);
    }

    /** Writes what is left and renames; the temporary file is gone either way. */
    method Commit(fault: Fault, now: int64) returns (r: Result<(), WriteError>, ghost m: MetaBlock)
      requires Building() && items != [] && |curBlock| < DEFAULT_BLOCK_SIZE && final.None? && !finished
      modifies `out, `offset, `indexEntries, `dataBlockCount, `curBlock, `curRecords, `curFirstDocID, `blocks, `cur
      modifies `tmp, `final, `finished
      ensures !tmp && (finished <==> r.Ok?) && items == old(items)
      ensures r == if fault == NoFault then Ok(()) else Err(IOFailed)
      ensures final.Some? <==> fault != BeforeRename
      ensures final.Some? ==> Written(codec, items, blocks, m, final.value)
    {
      hide CurIs, AreaIs, TotalsAre, AllClosed, ClosedBlock, Written, Flatten;
      m := Finish(now);
      tmp := false;
      if fault == BeforeRename { return Err(IOFailed), m; }
      final := Some(out);
      if fault == AfterRename { return Err(IOFailed), m; }
      finished := true;
      r := Ok(());
    }

    /** Finishes the file. It appears at the final path whole or not at all. */
    method Close(fault: Fault, now: int64) returns (r: Result<(), WriteError>, ghost m: MetaBlock)
      requires closed || Open() || Stuck()
      modifies this
      ensures closed
      ensures old(closed) ==> unchanged(this) && r == Ok(())
      ensures !old(closed) ==> !tmp && (finished <==> r.Ok?) && items == old(items) && broken == old(broken)
      ensures old(closed) || r ==
        if items == [] then Err(ZeroRecords) else if fault == NoFault && !broken then Ok(()) else Err(IOFailed)
      ensures !old(closed) ==> (final.Some? <==> items != [] && fault != BeforeRename && !broken)
      ensures !old(closed) && final.Some? ==> Written(codec, items, blocks, m, final.value)
    {
      hide CurIs, AreaIs, TotalsAre, AllClosed, ClosedBlock, Written, Flatten;
      m := MetaBlock(0, 0, 0, 0, 0, 0, 0, []);
      if closed { return Ok(()), m; }
      TotalsFacts(items, hasRecord, lastDocID, minDocID, maxDocID, minTS, maxTS, recordCount);
      closed := true;
      if !hasRecord || broken {
        tmp := false;
        return Err(if hasRecord then IOFailed else ZeroRecords), m;
      }
      r, m := Commit(fault, now);
    }

    /** Gives the file up. Nothing committed is ever taken back. */
    method Abort()
      requires aborted ==> closed
      modifies this
      ensures final == old(final) && finished == old(finished)
      ensures !finished ==> closed && aborted
      ensures !finished && !old(aborted) ==> !tmp
      ensures finished || old(aborted) ==> unchanged(this)
    {
      if finished || aborted { return; }
      aborted, closed, tmp := true, true, false;
    }
  }
}
