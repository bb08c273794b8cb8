/** Phase 2 of flushOneIfAny (internal/engine/engine.go): a frozen MemTable becomes an SSTable file. */
module SSTableFlush {
  import opened Bytes
  import opened Types
  import opened EntryList
  import opened MemTable
  import opened SSTableLayout
  import opened SSTableFormat
  import opened SSTableWriter
  import opened SSTableReader
  import EngineState

  /** Every record of the list fits the payload length field. */
  ghost predicate Encodable(c: Codec, es: seq<Entry>) {
    forall i :: 0 <= i < |es| ==> |c.marshal(es[i].rec)| < U32
  }

  lemma InOrder(mt: SkipMemTable)
    requires mt.Valid()
    ensures Ascending(mt.list)
  {
  }

  /** writes(i) tells whether the block write that adding record i may trigger succeeds. */
  method WriteTable(c: Codec, mt: SkipMemTable, writes: nat -> bool, fault: Fault, now: int64)
    returns (r: Result<(), WriteError>, file: Option<seq<byte>>, ghost bs: seq<seq<Entry>>, ghost m: MetaBlock)
    requires mt.Valid()
    ensures r.Ok? ==> mt.list != [] && Encodable(c, mt.list) && fault == NoFault
    ensures file.Some? ==> mt.list != [] && Encodable(c, mt.list) && fault != BeforeRename
    ensures (forall i :: writes(i)) ==>
      && (r.Ok? <==> mt.list != [] && Encodable(c, mt.list) && fault == NoFault)
      && (file.Some? <==> mt.list != [] && Encodable(c, mt.list) && fault != BeforeRename)
    ensures file.Some? ==> (r.Ok? <==> fault == NoFault)
    ensures r.Ok? ==> file.Some?
    ensures file.Some? ==> Written(c, mt.list, bs, m, file.value)
  {
    hide Written, Writer.Building, SkipMemTable.Valid;
    InOrder(mt);
    var w := new Writer(c);
    bs := [];
    var it := new SkipIterator(mt);
    var more := it.Next();
    while more
      invariant it.Valid() && !it.closed && it.parent == mt && fresh(it)
      invariant fresh(w) && w.codec == c && w.Open()
      invariant it.yielded == if more then |w.items| + 1 else |w.items|
      invariant more ==> it.cur == Some(|w.items|)
      invariant !more ==> it.yielded == |mt.list|
      invariant w.items == mt.list[..|w.items|]
      invariant Encodable(c, w.items)
      decreases |mt.list| - |w.items|
    {
      var e := mt.list[it.cur.value];
      var added := w.Add(e.id, e.rec, writes(it.cur.value));
      if added.Err? {
        w.Abort();
        return added, w.final, bs, MetaBlock(0, 0, 0, 0, 0, 0, 0, []);
      }
      more := it.Next();
    }
    assert w.items == mt.list;
    r, m := w.Close(fault, now);
    file, bs := w.final, w.blocks;
  }

  /** The file's meta block as the engine keeps it. */
  ghost function SstOf(id: nat, es: seq<Entry>, m: MetaBlock): EngineState.Sst {
    EngineState.Sst(id, ToMap(es), m.minDocID, m.maxDocID, m.minTimestamp, m.maxTimestamp)
  }

  /**
   A flushed file is what the engine's commit step assumes of one: its contents are the MemTable's and its meta
   ranges are exact.
   */
  lemma WrittenIsExact(c: Codec, id: nat, es: seq<Entry>, bs: seq<seq<Entry>>, m: MetaBlock, file: seq<byte>)
    requires Written(c, es, bs, m, file)
    ensures EngineState.Exact(SstOf(id, es, m)) && SstOf(id, es, m).contents == ToMap(es)
  {
    hide ToMap, Cut, Flatten, FileOf, Fit, BlocksStorable;
    ToMapRepresented(es);
    var contents := ToMap(es);
    forall d | d in contents
      ensures m.minDocID <= d <= m.maxDocID && m.minTimestamp <= contents[d].timestamp <= m.maxTimestamp
    {
      var k :| 0 <= k < |es| && es[k].id == d;
      assert es[k] in es;
    }
    Attained(es, contents, m.minTimestamp);
    Attained(es, contents, m.maxTimestamp);
    assert es[0].id in contents && es[|es| - 1].id in contents;
  }

  lemma Attained(es: seq<Entry>, contents: map<DocID, LogRecord>, ts: Timestamp)
    requires Represents(es, contents) && exists e :: e in es && e.rec.timestamp == ts
    ensures exists d :: d in contents && contents[d].timestamp == ts
  {
    var e :| e in es && e.rec.timestamp == ts;
    var k :| 0 <= k < |es| && es[k] == e;
    assert es[k].id in contents && contents[es[k].id] == es[k].rec;
  }
}
