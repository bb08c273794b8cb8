/**
 The running engine as an object (internal/engine/engine.go): each critical section changes its fields exactly as
 the step of EngineState that stands for it.
 */
module EngineNode {
  import opened Bytes
  import opened Types
  import opened EntryList
  import opened MemTable
  import opened Wal
  import opened WalRecord
  import opened WalLog
  import opened WalManager
  import Allocator
  import opened EngineState
  import opened EngineReads

  const MAX_WRITE_ATTEMPTS := 3

  datatype EngineError = ErrFatal | ErrBackpressure | AppendFailed(err: AppendError) | TooManyRetries

  ghost function Models(ts: seq<SkipMemTable>): (r: seq<Table>)
    reads ts
    ensures |r| == |ts|
  {
    seq(|ts|, i requires 0 <= i < |ts| reads ts => ts[i].Model())
  }

  /** r is the record of the newest table, the last one in the queue, that has d. */
  ghost predicate FromFrozen(tables: seq<SkipMemTable>, d: DocID, r: Option<LogRecord>)
    reads tables
  {
    exists i :: 0 <= i < |tables| && d in tables[i].Model().contents && r == Some(tables[i].Model().contents[d])
                && forall j :: i < j < |tables| ==> d !in tables[j].Model().contents
  }

  /** r is the record of the first SSTable in the list that has d. */
  ghost predicate FromSSTable(ssts: seq<Sst>, d: DocID, r: Option<LogRecord>) {
    exists i :: 0 <= i < |ssts| && d in ssts[i].contents && r == Some(ssts[i].contents[d])
                && forall j :: 0 <= j < i ==> d !in ssts[j].contents
  }

  /** The same bytes n times over. */
  function Times(bytes: seq<byte>, n: nat): seq<byte> {
    if n == 0 then [] else Times(bytes, n - 1) + bytes
  }

  /** What a failed append may leave behind: nothing, or the first bytes of the frame. */
  ghost predicate TornFrame(c: Codec, e: Entry, torn: seq<byte>) {
    torn == [] || (Fits(c, e) && torn <= Frame(c, e))
  }

  /** The state after an undisturbed Write of rec. */
  ghost function AfterWrite(env: Env, w: World, rec: LogRecord): World
    requires w.node.Up? && Fits(env.c, Entry(NextID(w.node.mem.alloc), rec))
  {
    var m, e := w.node.mem, Entry(NextID(w.node.mem.alloc), rec);
    var d := WriteSeg(w.disk, m.activeSeg, Frame(env.c, e));
    World(Up(m.(active := PutTable(m.active, e.id, rec), alloc := e.id, synced := |SegBytes(d, m.activeSeg)|)),
          d, w.view[e.id := rec], w.attempted + {e})
  }

  class Engine {
    const env: Env
    const wal: Manager
    const alloc: Allocator.DocIDAllocator
    var active: SkipMemTable
    var frozen: seq<SkipMemTable>
    var frozenWALs: seq<nat>
    var sstables: seq<Sst>
    var sstSeq: nat
    var fatal: bool

    ghost predicate Valid()
      reads this, active, frozen, wal, wal.active
    {
      && active.Valid() && active !in frozen
      && (forall t | t in frozen :: t.Valid())
      && wal.Valid() && !wal.closed
      && (wal.active == null || wal.active.closed ==> fatal)
    }

    ghost predicate WalOpen()
      reads this, wal, wal.active
    {
      wal.active != null && !wal.active.closed
    }

    /** The engine's memory as the state machine has it; what other goroutines are at is not the object's. */
    ghost function Now(activeSeg: nat, synced: nat, writers: seq<WriterPc>, flush: FlushPc): Mem
      reads this, active, frozen, wal, wal.active, alloc
    {
      Mem(active.Model(), Models(frozen), frozenWALs, sstables, alloc.next, activeSeg, wal.nextID, synced, sstSeq,
          WalOpen(), fatal, writers, flush)
    }

    ghost function LayersNow(): seq<map<DocID, LogRecord>>
      reads this, active, frozen
    {
      [active.Model().contents] + FrozenLayers(Models(frozen)) + SstLayers(sstables)
    }

    /** What Open hands over. */
    constructor (env: Env, active: SkipMemTable, sstables: seq<Sst>, wal: Manager, alloc: Allocator.DocIDAllocator,
                 sstSeq: nat)
      requires active.Valid() && !active.frozen && wal.Valid() && !wal.closed && wal.active != null && !wal.active.closed
      ensures Valid() && this.env == env && this.active == active && this.sstables == sstables
      ensures this.wal == wal && this.alloc == alloc && this.sstSeq == sstSeq
      ensures frozen == [] && frozenWALs == [] && !fatal
    {
      this.env, this.active, this.sstables, this.wal, this.alloc, this.sstSeq := env, active, sstables, wal, alloc, sstSeq;
      frozen, frozenWALs, fatal := [], [], false;
    }

    /** Get, through the range check on each SSTable: the newest table that has the DocID answers. */
    method Get(docID: DocID) returns (r: Option<LogRecord>)
      requires Valid() && forall s | s in sstables :: Exact(s)
      ensures r == Lookup(Overlay(LayersNow()), docID)
      ensures docID in active.Model().contents ==> r == Some(active.Model().contents[docID])
      ensures docID !in active.Model().contents && r.Some? ==>
        || FromFrozen(frozen, docID, r)
        || (FromSSTable(sstables, docID, r) && forall t | t in frozen :: docID !in t.Model().contents)
      ensures r.None? ==>
        && docID !in active.Model().contents && (forall t | t in frozen :: docID !in t.Model().contents)
        && forall s | s in sstables :: docID !in s.contents
    {
      hide Exact, FrozenLayers, SstLayers, Overlay, FromFrozen, FromSSTable;
      ghost var layers := LayersNow();
      SearchIsLookup(layers, docID);
      assert layers[1..] == FrozenLayers(Models(frozen)) + SstLayers(sstables);
      SearchConcat(FrozenLayers(Models(frozen)), SstLayers(sstables), docID);
      r := active.Get(docID);
      if r.Some? { return; }
      r := SearchFrozen(frozen, docID);
      if r.Some? { return; }
      r := SearchTables(sstables, docID);
    }

    /**
     doFreeze: rotates when the active MemTable has reached MemTableSizeLimit and the queue has room, and does nothing
     otherwise; a failed seal is fatal. Said twice: field by field, and as the step of the machine.
     */
    method DoFreeze(how: SealOutcome, ghost activeSeg: nat, ghost synced: nat, ghost writers: seq<WriterPc>,
                    ghost flush: FlushPc)
      requires Valid() && (WalOpen() ==> activeSeg == wal.active.id)
      modifies `active, `frozen, `frozenWALs, `fatal, active, wal, wal.active
      ensures Valid()
      ensures old(fatal || active.sizeBytes < env.cfg.softLimit || |frozen| >= env.cfg.maxFrozen) ==>
        unchanged(`active) && unchanged(`frozen) && unchanged(`frozenWALs) && unchanged(`fatal) && unchanged(active)
      ensures old(!fatal && active.sizeBytes >= env.cfg.softLimit && |frozen| < env.cfg.maxFrozen) ==>
        if how.SealDone? then
          && fresh(active) && active.Model() == EMPTY && !fatal
          && frozen == old(frozen) + [old(active)] && old(active).frozen && old(active).list == old(active.list)
          && frozenWALs == old(frozenWALs) + [old(wal.active.id)] && wal.active.id == old(wal.nextID)
        else
          && fatal && active == old(active) && active.frozen && active.list == old(active.list)
          && unchanged(`frozen) && unchanged(`frozenWALs)
      ensures var m := old(Now(activeSeg, synced, writers, flush));
        if !MayRotate(env.cfg, m) then Now(activeSeg, synced, writers, flush) == m && wal.Segs() == old(wal.Segs())
        else if how.SealDone? then
          && Now(m.nextSeg, |FileAt(old(wal.Segs()), m.nextSeg)|, writers, flush)
             == RotateMem(m, |FileAt(old(wal.Segs()), m.nextSeg)|)
          && wal.Segs() == old(wal.Segs())[m.nextSeg := FileAt(old(wal.Segs()), m.nextSeg)]
        else Now(activeSeg, synced, writers, flush) == SealFailMem(m)
    {
      hide SkipMemTable.Valid, Manager.Valid, ToMap;
      if fatal { return; }
      if active.sizeBytes < env.cfg.softLimit { return; }
      if |frozen| >= env.cfg.maxFrozen { return; }
      ghost var models := Models(frozen);
      active.Freeze();
      var sealed := wal.Seal(how);
      assert Models(frozen) == models;
      if sealed.Err? {
        fatal := true;
        return;
      }
      Enqueue(sealed.value);
    }

    /** The frozen table joins the queue with its segment; an empty one takes its place. */
    method Enqueue(sealed: nat)
      requires active.Valid() && active !in frozen && forall t | t in frozen :: t.Valid()
      modifies `active, `frozen, `frozenWALs
      ensures fresh(active) && active.Valid() && active.Model() == EMPTY && active !in frozen
      ensures frozen == old(frozen) + [old(active)] && Models(frozen) == old(Models(frozen)) + [old(active.Model())]
      ensures frozenWALs == old(frozenWALs) + [sealed] && forall t | t in frozen :: t.Valid()
    {
      hide SkipMemTable.Valid, ToMap;
      var empty := new SkipMemTable();
      frozen := frozen + [active];
      frozenWALs := frozenWALs + [sealed];
      active := empty;
    }

    /** Phase 4 of a flush: the metadata swap, refused when the queue's head is not the flushed table. */
    method SwapIn(mt: SkipMemTable, sst: Sst) returns (ok: bool)
      requires Valid() && |frozenWALs| == |frozen|
      modifies `frozen, `frozenWALs, `sstables
      ensures Valid() && ok == (old(frozen) != [] && old(frozen)[0] == mt)
      ensures ok ==> frozen == old(frozen)[1..] && frozenWALs == old(frozenWALs)[1..] && sstables == [sst] + old(sstables)
      ensures !ok ==> unchanged(this)
    {
      if |frozen| == 0 || frozen[0] != mt { return false; }
      frozen, frozenWALs, sstables := frozen[1..], frozenWALs[1..], [sst] + sstables;
      ok := true;
    }

    /** The section of Write under the read lock: append, then put into the table bound before. */
    method Attempt(e: Entry, payload: seq<byte>, ctxDone: bool, io: IoOutcome)
      returns (appended: Result<nat, AppendError>, put: Result<(), PutError>)
      requires Valid() && !fatal && payload == Payload(env.c, e)
      requires io.PartialWrite? ==> io.written < Size(payload)
      modifies active, wal.active, wal.active.buf
      ensures Valid() && wal.active == old(wal.active) && active.frozen == old(active.frozen)
      ensures wal.active.buf == old(wal.active.buf) || fresh(wal.active.buf)
      ensures appended.Err? || put.Err? ==> active.Model() == old(active.Model())
      ensures put == if appended.Ok? && active.frozen then Err(ErrFrozen) else Ok(())
      ensures appended.Ok? && put.Ok? ==> Fits(env.c, e) && active.Model() == PutTable(old(active.Model()), e.id, e.rec)
      ensures appended.Ok? ==> Fits(env.c, e) && wal.active.file == old(wal.active.file) + Frame(env.c, e)
      ensures appended.Err? ==>
        exists torn: seq<byte> :: wal.active.file == old(wal.active.file) + torn && TornFrame(env.c, e, torn)
    {
      hide PutTable, Encode, PutU64;
      var mt, w := active, wal.active;
      appended := w.Append(ctxDone, RECORD_PUT, payload, io);
      put := Ok(());
      if appended.Err? {
        ghost var torn := if appended.error.WriteFailed? then Frame(env.c, e)[..io.written]
                          else if appended.error.SyncFailed? then Frame(env.c, e) else [];
        assert old(wal.active.file) + [] == old(wal.active.file);
        assert wal.active.file == old(wal.active.file) + torn && TornFrame(env.c, e, torn);
        return;
      }
      put := mt.Put(e.id, e.rec);
    }

    /** Write behind the gate: DocID, then append and put until the table takes the record. */
    method AppendAndPut(record: LogRecord, ctxDone: bool, io: IoOutcome) returns (r: Result<DocID, EngineError>)
      requires Valid() && !fatal
      requires io.PartialWrite? ==> io.written < Size(EncodePayload(0, env.c.marshal(record)))
      modifies active, alloc, wal.active, wal.active.buf
      ensures Valid() && wal.active == old(wal.active)
      ensures alloc.next == NextID(old(alloc.next)) && (r.Ok? ==> r.value == alloc.next)
      ensures r.Ok? ==> Fits(env.c, Entry(r.value, record)) && !old(active.frozen)
      ensures r.Ok? ==> active.Model() == PutTable(old(active.Model()), r.value, record)
      ensures r.Ok? ==> wal.active.file == old(wal.active.file) + Frame(env.c, Entry(r.value, record))
      ensures r.Err? ==> active.Model() == old(active.Model())
      ensures r.Err? ==> r == Err(TooManyRetries) || r.error.AppendFailed?
      ensures r == Err(TooManyRetries) ==>
        && active.frozen && Fits(env.c, Entry(alloc.next, record))
        && wal.active.file == old(wal.active.file) + Times(Frame(env.c, Entry(alloc.next, record)), 3)
      ensures r.Err? && r.error.AppendFailed? && !active.frozen ==> exists torn: seq<byte> ::
        wal.active.file == old(wal.active.file) + torn && TornFrame(env.c, Entry(alloc.next, record), torn)
    {
      hide PutTable, Encode, PutU64, SkipMemTable.Model, Fits, Frame;
      var docID := alloc.Next();
      var payload := EncodePayload(docID, env.c.marshal(record));
      var attempt := 0;
      while attempt < MAX_WRITE_ATTEMPTS
        invariant attempt <= MAX_WRITE_ATTEMPTS && Valid() && alloc.next == docID
        invariant active.Model() == old(active.Model()) && active.frozen == old(active.frozen) && wal.active == old(wal.active)
        invariant wal.active.buf == old(wal.active.buf) || fresh(wal.active.buf)
        invariant attempt == 0 ==> wal.active.file == old(wal.active.file)
        invariant attempt > 0 ==>
          && active.frozen && Fits(env.c, Entry(docID, record))
          && wal.active.file == old(wal.active.file) + Times(Frame(env.c, Entry(docID, record)), attempt)
      {
        var appended, put := Attempt(Entry(docID, record), payload, ctxDone, io);
        if appended.Err? { return Err(AppendFailed(appended.error)); }
        if put.Ok? { return Ok(docID); }
        OnceMore(old(wal.active.file), Frame(env.c, Entry(docID, record)), attempt);
        attempt := attempt + 1;
      }
      r := Err(TooManyRetries);
    }

    /**
     Write with nobody else running. A stalled or fatal engine takes no DocID; a failed append takes one and may leave
     part of the frame in the segment, but nothing in the MemTable. Success leaves the memory and the segments of
     AfterWrite: the state six steps of the machine lead to (WriteIsSixSteps). What the object does not hold - the
     other goroutines, the SSTables on disk, the histories - comes in as ghosts.
     */
    method Write(record: LogRecord, ctxDone: bool, io: IoOutcome, ghost others: World, ghost synced: nat,
                 ghost writers: seq<WriterPc>, ghost flush: FlushPc)
      returns (r: Result<DocID, EngineError>)
      requires Valid()
      requires io.PartialWrite? ==> io.written < Size(EncodePayload(0, env.c.marshal(record)))
      modifies active, alloc, wal.active, if wal.active == null then {} else {wal.active.buf}
      ensures Valid()
      ensures r == Err(ErrFatal) <==> fatal
      ensures r == Err(ErrBackpressure) <==>
        !fatal && old(active.sizeBytes) >= env.cfg.hardLimit && |frozen| >= env.cfg.maxFrozen
      ensures r == Err(ErrFatal) || r == Err(ErrBackpressure) ==>
        && alloc.next == old(alloc.next)
        && active.Model() == old(active.Model())
        && wal.Segs() == old(wal.Segs())
      ensures r != Err(ErrFatal) && r != Err(ErrBackpressure) ==> alloc.next == (old(alloc.next) + 1) % U64
      ensures r.Ok? ==> r.value == alloc.next && Lookup(active.Model().contents, r.value) == Some(record)
      ensures r.Ok? ==> Fits(env.c, Entry(r.value, record)) && wal.active != null
      ensures r.Ok? ==>
        var seg := wal.active.id;
        var w := others.(node := Up(old(Now(seg, synced, writers, flush))), disk := others.disk.(segs := old(wal.Segs())));
        && !w.node.mem.fatal && w.node.mem.walOpen && !w.node.mem.active.frozen
        && (w.node.mem.active.size < env.cfg.hardLimit || |w.node.mem.frozen| < env.cfg.maxFrozen)
        && Now(seg, |wal.active.file|, writers, flush) == AfterWrite(env, w, record).node.mem
        && wal.Segs() == AfterWrite(env, w, record).disk.segs
      ensures r.Err? ==> active.Model() == old(active.Model())
      ensures r == Err(TooManyRetries) ==>
        && active.frozen && wal.active != null && Fits(env.c, Entry(alloc.next, record))
        && wal.active.file == old(wal.active.file) + Times(Frame(env.c, Entry(alloc.next, record)), 3)
      ensures r.Err? && r.error.AppendFailed? && !active.frozen ==> wal.active != null && exists torn: seq<byte> ::
        wal.active.file == old(wal.active.file) + torn && TornFrame(env.c, Entry(alloc.next, record), torn)
    {
      hide PutTable, Encode, PutU64, Frame, Fits, EncodePayload, ToMap, SizeExact;
      if fatal { return Err(ErrFatal); }
      if active.sizeBytes >= env.cfg.hardLimit && |frozen| >= env.cfg.maxFrozen { return Err(ErrBackpressure); }
      ghost var models := Models(frozen);
      r := AppendAndPut(record, ctxDone, io);
      assert Models(frozen) == models;
    }
  }

  lemma OnceMore(s: seq<byte>, f: seq<byte>, n: nat)
    ensures Times(f, 0) == [] && s + Times(f, n) + f == s + Times(f, n + 1)
  {
  }

  lemma {:induction false} SearchConcat(a: seq<map<DocID, LogRecord>>, b: seq<map<DocID, LogRecord>>, d: DocID)
    ensures SearchLayers(a + b, d) == if SearchLayers(a, d).Some? then SearchLayers(a, d) else SearchLayers(b, d)
    decreases |a|
  {
    if a == [] {
      assert a + b == b;
    } else {
      assert (a + b)[1..] == a[1..] + b;
      SearchConcat(a[1..], b, d);
    }
  }

  /** The frozen MemTables, newest to oldest. */
  method SearchFrozen(tables: seq<SkipMemTable>, docID: DocID) returns (r: Option<LogRecord>)
    requires forall t | t in tables :: t.Valid()
    ensures r == SearchLayers(FrozenLayers(Models(tables)), docID)
    ensures r.Some? ==> FromFrozen(tables, docID, r)
    ensures r.None? ==> forall t | t in tables :: docID !in t.Model().contents
  {
    hide SkipMemTable.Valid, FrozenLayers, ToMap;
    var i := |tables|;
    assert tables[..i] == tables;
    while i > 0
      invariant i <= |tables|
      invariant forall j | i <= j < |tables| :: docID !in tables[j].Model().contents
      invariant SearchLayers(FrozenLayers(Models(tables)), docID) == SearchLayers(FrozenLayers(Models(tables[..i])), docID)
    {
      i := i - 1;
      OldestLast(tables[..i + 1]);
      assert tables[..i + 1][..i] == tables[..i];
      r := tables[i].Get(docID);
      if r.Some? {
        assert FromFrozen(tables, docID, r);
        return;
      }
    }
    NoneFrozen(Models([]), docID);
    r := None;
  }

  /** The SSTables in list order; one whose range excludes the DocID is not read. */
  method SearchTables(ssts: seq<Sst>, docID: DocID) returns (r: Option<LogRecord>)
    requires forall s | s in ssts :: Exact(s)
    ensures r == SearchLayers(SstLayers(ssts), docID)
    ensures r.Some? ==> FromSSTable(ssts, docID, r)
    ensures r.None? ==> forall s | s in ssts :: docID !in s.contents
  {
    hide Exact;
    var j := 0;
    assert ssts[0..] == ssts;
    while j < |ssts|
      invariant j <= |ssts| && forall i | 0 <= i < j :: docID !in ssts[i].contents
      invariant SearchLayers(SstLayers(ssts), docID) == SearchLayers(SstLayers(ssts[j..]), docID)
    {
      assert SstLayers(ssts[j..])[0] == ssts[j].contents;
      assert SstLayers(ssts[j..])[1..] == SstLayers(ssts[j + 1..]);
      assert Exact(ssts[j]);
      OutOfRange(ssts[j], docID);
      if ssts[j].minDoc <= docID <= ssts[j].maxDoc {
        r := Lookup(ssts[j].contents, docID);
        if r.Some? { return; }
      }
      j := j + 1;
    }
    r := None;
  }

  lemma NoneFrozen(none: seq<Table>, d: DocID)
    requires none == []
    ensures SearchLayers(FrozenLayers(none), d) == None
  {
  }

  lemma OutOfRange(s: Sst, d: DocID)
    requires Exact(s)
    ensures !(s.minDoc <= d <= s.maxDoc) ==> d !in s.contents
  {
  }

  lemma OldestLast(tables: seq<SkipMemTable>)
    requires tables != []
    ensures var n := |tables| - 1;
      FrozenLayers(Models(tables)) == [tables[n].Model().contents] + FrozenLayers(Models(tables[..n]))
  {
    var n := |tables| - 1;
    assert Models(tables)[..n] == Models(tables[..n]);
  }
  // ---- the object and the machine ---------------------------------------------------------------

  lemma RunsThen(env: Env, w: World, s: Step, w1: World, rest: seq<Step>, w': World)
    requires Enabled(env, w, s) && w1 == Do(env, w, s) && Runs(env, w1, rest, w')
    ensures Runs(env, w, [s] + rest, w')
  {
    hide Enabled, Do;
    assert ([s] + rest)[1..] == rest;
  }

  function WriteSteps(t: nat, rec: LogRecord): seq<Step> {
    [Check(t, rec)] + ([Gate(t)] + ([Step.Alloc(t)] + ([Step.Lock(t)] + ([Step.Append(t)] + ([Step.Put(t)] + [])))))
  }

  /** An undisturbed Write by an idle writer is a run of six machine steps, and ends where the method does. */
  lemma WriteIsSixSteps(env: Env, w: World, t: nat, rec: LogRecord)
    requires w.node.Up? && CanCheck(w.node.mem, t)
    requires w.node.mem.active.size < env.cfg.hardLimit || |w.node.mem.frozen| < env.cfg.maxFrozen
    requires w.node.mem.walOpen && !w.node.mem.active.frozen && Fits(env.c, Entry(NextID(w.node.mem.alloc), rec))
    ensures Runs(env, w, WriteSteps(t, rec), AfterWrite(env, w, rec))
  {
    hide PutTable, Fits, Frame, Runs;
    var w1 := Do(env, w, Check(t, rec));
    var w2 := Do(env, w1, Gate(t));
    var w3 := Do(env, w2, Step.Alloc(t));
    var w4 := Do(env, w3, Step.Lock(t));
    var w5 := Do(env, w4, Step.Append(t));
    var w6 := Do(env, w5, Step.Put(t));
    assert w6.node.mem.writers == w.node.mem.writers;
    assert w6 == AfterWrite(env, w, rec);
    NoSteps(env, w6);
    RunsThen(env, w5, Step.Put(t), w6, [], w6);
    RunsThen(env, w4, Step.Append(t), w5, [Step.Put(t)] + [], w6);
    RunsThen(env, w3, Step.Lock(t), w4, [Step.Append(t)] + ([Step.Put(t)] + []), w6);
    RunsThen(env, w2, Step.Alloc(t), w3, [Step.Lock(t)] + ([Step.Append(t)] + ([Step.Put(t)] + [])), w6);
    RunsThen(env, w1, Gate(t), w2, [Step.Alloc(t)] + ([Step.Lock(t)] + ([Step.Append(t)] + ([Step.Put(t)] + []))), w6);
    RunsThen(env, w, Check(t, rec), w1,
             [Gate(t)] + ([Step.Alloc(t)] + ([Step.Lock(t)] + ([Step.Append(t)] + ([Step.Put(t)] + [])))), w6);
  }

  lemma NoSteps(env: Env, w: World)
    ensures Runs(env, w, [], w)
  {
  }
}
