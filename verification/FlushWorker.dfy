/** flushOneIfAny from end to end (internal/engine/engine.go): the oldest frozen MemTable becomes an SSTable file and
    leaves the queue. */
module FlushWorker {
  import opened Bytes
  import opened Types
  import opened EntryList
  import opened MemTable
  import opened SSTableFormat
  import opened SSTableLayout
  import opened SSTableWriter
  import opened SSTableReader
  import opened SSTableFlush
  import opened WalManager
  import opened EngineState
  import opened EngineNode

  /** The worker's next SSTable: what the queue's head holds, with the ranges read back from the file. */
  ghost predicate FlushedAs(c: Codec, mt: SkipMemTable, sst: Sst, file: seq<byte>, bs: seq<seq<Entry>>, m: MetaBlock)
    reads mt
  {
    && Written(c, mt.list, bs, m, file) && sst.contents == ToMap(mt.list)
    && (Invertible(c) && Fit(c, bs) ==> Exact(sst))
  }

  /** The reasons an attempt can fail: I/O, a record or a file beyond the format's fields, or a codec that loses
      records. */
  ghost predicate MayFail(c: Codec, es: seq<Entry>, writes: nat -> bool, fault: Fault, file: seq<byte>,
                          bs: seq<seq<Entry>>, m: MetaBlock) {
    || fault != NoFault || (exists i :: !writes(i)) || es == [] || !Encodable(c, es) || !Invertible(c)
    || (Written(c, es, bs, m, file) && !Fit(c, bs))
  }

  method FlushOneIfAny(e: Engine, writes: nat -> bool, fault: Fault, now: int64, deleteOk: bool)
    returns (done: bool, failed: bool, ghost file: seq<byte>, ghost bs: seq<seq<Entry>>, ghost m: MetaBlock)
    requires e.Valid() && |e.frozenWALs| == |e.frozen|
    requires e.wal.active != null ==> e.wal.active.id !in e.frozenWALs
    modifies e`frozen, e`frozenWALs, e`sstables, e`sstSeq, e.wal`files
    ensures e.Valid()
    ensures e.fatal || old(e.frozen) == [] ==> !done && !failed && unchanged(e) && unchanged(e.wal)
    ensures !e.fatal && old(e.frozen) != [] ==> e.sstSeq == old(e.sstSeq) + 1 && (done <==> !failed)
    ensures !done ==> unchanged(e`frozen) && unchanged(e`frozenWALs) && unchanged(e`sstables) && unchanged(e.wal)
    ensures done ==> old(e.frozen) != [] && e.frozen == old(e.frozen)[1..] && e.frozenWALs == old(e.frozenWALs)[1..]
    ensures done ==> e.sstables != [] && e.sstables[1..] == old(e.sstables) && e.sstables[0].id == e.sstSeq
    ensures done ==> fault == NoFault && old(e.frozen)[0].list != []
    ensures done ==> FlushedAs(e.env.c, old(e.frozen)[0], e.sstables[0], file, bs, m)
    ensures done ==> e.wal.Segs() == if deleteOk then old(e.wal.Segs()) - {old(e.frozenWALs)[0]} else old(e.wal.Segs())
    ensures failed ==> old(e.frozen) != [] && MayFail(e.env.c, old(e.frozen)[0].list, writes, fault, file, bs, m)
  {
    hide Written, Fit, ToMap, Exact, OpenFile, Encodable, SkipMemTable.Valid, Manager.Valid;
    done, failed, file, bs, m := false, false, [], [], MetaBlock(0, 0, 0, 0, 0, 0, 0, []);
    if e.fatal || |e.frozen| == 0 { return; }
    var mt, walSeg := e.frozen[0], e.frozenWALs[0];
    e.sstSeq := e.sstSeq + 1;
    var r, written;
    r, written, bs, m := WriteTable(e.env.c, mt, writes, fault, now);
    if r.Err? {
      failed := true;
      return;
    }
    file := written.value;
    var rd := OpenSource(written.value);
    Reopened(e.env.c, mt, e.sstSeq, bs, m, written.value);
    if rd.Err? {
      failed := true;
      return;
    }
    var meta := rd.value.meta;
    var sst := Sst(e.sstSeq, ToMap(mt.list), meta.minDocID, meta.maxDocID, meta.minTimestamp, meta.maxTimestamp);
    var ok := e.SwapIn(mt, sst);
    e.wal.Delete(walSeg, deleteOk);
    done := true;
  }

  lemma Reopened(c: Codec, mt: SkipMemTable, id: nat, bs: seq<seq<Entry>>, m: MetaBlock, file: seq<byte>)
    requires Written(c, mt.list, bs, m, file)
    ensures Invertible(c) && Fit(c, bs) ==> OpenFile(file).Ok? && OpenFile(file).value.meta == m
    ensures Invertible(c) && Fit(c, bs) ==>
      Exact(Sst(id, ToMap(mt.list), m.minDocID, m.maxDocID, m.minTimestamp, m.maxTimestamp))
  {
    hide Fit, ToMap, Exact, OpenFile, Invertible;
    if Invertible(c) && Fit(c, bs) {
      WrittenFileServes(c, mt.list, bs, m, file);
      WrittenIsExact(c, id, mt.list, bs, m, file);
    }
  }
}
