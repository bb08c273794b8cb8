/** Rotation, flush and crash keep the invariant of EngineInv. */
module EngineFlush {
  import opened Bytes
  import opened Types
  import opened Wal
  import opened WalLog
  import opened MemTable
  import opened EngineState
  import opened EngineReads
  import opened EngineInv
  import opened EngineSteps

  // ---- rotation ---------------------------------------------------------------------------------

  lemma EmptySegment(c: Codec)
    ensures Log(c, []) == [] && WellFramed(c, [])
  {
    hide WalRecord.Decode;
    EmptyReplay();
  }

  /** A fresh, empty segment changes nothing replay can see. */
  lemma FreshSegment(c: Codec, d: Disk, seg: nat)
    requires seg !in d.segs
    ensures var logs, logs' := Logs(c, d.segs), Logs(c, WriteSeg(d, seg, []).segs);
      && logs' == logs[seg := []] && seg !in logs
      && (AllFramed(c, d.segs) ==> AllFramed(c, WriteSeg(d, seg, []).segs))
  {
    hide Log, WellFramed;
    EmptySegment(c);
    assert SegBytes(d, seg) + [] == [];
  }

  lemma EmptyLogKeeps(logs: map<nat, seq<Entry>>, seg: nat)
    requires seg !in logs
    ensures var logs' := logs[seg := []];
      && (forall x :: InLogs(logs', x) <==> InLogs(logs, x))
      && (forall x :: IDInLogs(logs', x) <==> IDInLogs(logs, x))
      && (forall s :: LogAt(logs', s) == LogAt(logs, s))
      && (UniqueIDs(logs) ==> UniqueIDs(logs'))
  {
    var logs' := logs[seg := []];
    forall x ensures InLogs(logs', x) <==> InLogs(logs, x) {
      if InLogs(logs, x) {
        var s :| s in logs && x in logs[s];
        assert x in logs'[s];
      }
    }
    forall x ensures IDInLogs(logs', x) <==> IDInLogs(logs, x) {
      if IDInLogs(logs, x) {
        var s, i :| s in logs && 0 <= i < |logs[s]| && logs[s][i].id == x;
        assert logs'[s][i].id == x;
      }
    }
  }

  lemma EmptyLogKeepsDiskInv(c: Codec, d: Disk, d': Disk, seg: nat, view: map<DocID, LogRecord>, attempted: set<Entry>)
    requires DiskInv(c, d, view, attempted)
    requires seg !in d.segs && d'.ssts == d.ssts && AllFramed(c, d'.segs)
    requires Logs(c, d'.segs) == Logs(c, d.segs)[seg := []]
    ensures DiskInv(c, d', view, attempted)
  {
    hide AllFramed, Exact;
    EmptyLogKeeps(Logs(c, d.segs), seg);
  }

  /** The parts of the running-node invariant that only look at which entries the logs hold. */
  lemma EmptyLogKeepsMem(m: Mem, logs: map<nat, seq<Entry>>, seg: nat, view: map<DocID, LogRecord>,
                         attempted: set<Entry>)
    requires seg !in logs
    requires TablesInv(m, logs, view) && CoverInv(m, logs, view) && AllocInv(m, logs, view)
    requires WritersInv(m, logs, view, attempted)
    ensures TablesInv(m, logs[seg := []], view) && CoverInv(m, logs[seg := []], view)
    ensures AllocInv(m, logs[seg := []], view) && WritersInv(m, logs[seg := []], view, attempted)
  {
    var logs' := logs[seg := []];
    EmptyLogKeeps(logs, seg);
    hide InLogs, IDInLogs, UniqueIDs, SstHas, LogAt;
    assert TableInv(m.active.contents, logs', view);
    forall i | 0 <= i < |m.frozen| ensures TableInv(m.frozen[i].contents, logs', view) {
      assert TableInv(m.frozen[i].contents, logs, view);
    }
    assert LogsBounded(logs', m.alloc) by { EmptyLogBounded(logs, seg, m.alloc); }
    forall t | 0 <= t < |m.writers|
      ensures WriterInv(m.writers[t], m.alloc, logs', m.activeSeg, view, attempted)
    {
      assert WriterInv(m.writers[t], m.alloc, logs, m.activeSeg, view, attempted);
    }
  }

  lemma EmptyLogBounded(logs: map<nat, seq<Entry>>, seg: nat, alloc: DocID)
    requires LogsBounded(logs, alloc)
    ensures LogsBounded(logs[seg := []], alloc)
  {
  }

  lemma FreezeKeepsInv(env: Env, m: Mem, d: Disk, view: map<DocID, LogRecord>, attempted: set<Entry>)
    requires DiskInv(env.c, d, view, attempted) && MemInv(env, m, d, view, attempted)
    requires CanFreeze(env.cfg, m)
    ensures DiskInv(env.c, WriteSeg(d, m.nextSeg, []), view, attempted)
    ensures MemInv(env, RotateMem(m, |SegBytes(d, m.nextSeg)|), WriteSeg(d, m.nextSeg, []), view, attempted)
  {
    hide View, Exact, Log, Logs, DiskInv, TablesInv, CoverInv, AllocInv, WritersInv, AllFramed, SyncInv;
    var m', d' := RotateMem(m, |SegBytes(d, m.nextSeg)|), WriteSeg(d, m.nextSeg, []);
    var logs, logs' := Logs(env.c, d.segs), Logs(env.c, d'.segs);
    FreshSegment(env.c, d, m.nextSeg);
    DiskParts(env.c, d, view, attempted);
    EmptyLogKeepsDiskInv(env.c, d, d', m.nextSeg, view, attempted);
    EmptyLogKeepsMem(m, logs, m.nextSeg, view, attempted);
    RotateKeepsView(m, |SegBytes(d, m.nextSeg)|);
    RotatedTables(m, |SegBytes(d, m.nextSeg)|, logs', view);
    RotatedCover(m, |SegBytes(d, m.nextSeg)|, logs', view);
    RotatedWriters(m, |SegBytes(d, m.nextSeg)|, logs', view, attempted);
    FreshSync(env.c, m', d', view);
  }

  lemma RotatedTables(m: Mem, n: nat, logs: map<nat, seq<Entry>>, view: map<DocID, LogRecord>)
    requires TablesInv(m, logs, view)
    ensures TablesInv(RotateMem(m, n), logs, view)
    ensures AllocInv(m, logs, view) == AllocInv(RotateMem(m, n), logs, view)
  {
    hide InLogs, SstHas;
    var m' := RotateMem(m, n);
    forall i | 0 <= i < |m'.frozen|
      ensures TableInv(m'.frozen[i].contents, logs, view) && Apart(m'.frozen[i].contents, m'.sstables)
    {
    }
  }

  lemma RotatedCover(m: Mem, n: nat, logs: map<nat, seq<Entry>>, view: map<DocID, LogRecord>)
    requires CoverInv(m, logs, view) && LogAt(logs, m.nextSeg) == []
    ensures CoverInv(RotateMem(m, n), logs, view)
  {
    hide SstHas;
    var m' := RotateMem(m, n);
    forall i | 0 <= i < |m'.frozen|
      ensures CoveredBy(LogAt(logs, m'.frozenWALs[i]), view, m'.frozen[i].contents, m'.sstables)
    {
    }
  }

  lemma RotatedWriters(m: Mem, n: nat, logs: map<nat, seq<Entry>>, view: map<DocID, LogRecord>, attempted: set<Entry>)
    requires WritersInv(m, logs, view, attempted) && NoReaders(m)
    ensures WritersInv(RotateMem(m, n), logs, view, attempted)
  {
    hide IDInLogs;
    var m' := RotateMem(m, n);
    forall t | 0 <= t < |m'.writers|
      ensures WriterInv(m'.writers[t], m'.alloc, logs, m'.activeSeg, view, attempted)
    {
      assert WriterInv(m.writers[t], m.alloc, logs, m.activeSeg, view, attempted);
      assert !HoldsReadLock(m.writers[t]);
    }
  }

  lemma FreshSync(c: Codec, m: Mem, d: Disk, view: map<DocID, LogRecord>)
    requires m.synced == |SegBytes(d, m.activeSeg)|
    ensures SyncInv(c, m, d, view)
  {
    hide Log;
    var file := SegBytes(d, m.activeSeg);
    assert file[..|file|] == file;
  }

  lemma SealFailsKeepsInv(env: Env, m: Mem, d: Disk, view: map<DocID, LogRecord>, attempted: set<Entry>, created: bool)
    requires DiskInv(env.c, d, view, attempted) && MemInv(env, m, d, view, attempted)
    requires CanFreeze(env.cfg, m)
    ensures var d' := if created then WriteSeg(d, m.nextSeg, []) else d;
      DiskInv(env.c, d', view, attempted) && MemInv(env, SealFailMem(m), d', view, attempted)
  {
    hide View, Exact, Log, Logs, DiskInv, TablesInv, CoverInv, AllocInv, WritersInv, AllFramed;
    var m', d' := SealFailMem(m), if created then WriteSeg(d, m.nextSeg, []) else d;
    var logs, logs' := Logs(env.c, d.segs), Logs(env.c, d'.segs);
    SealFailKeepsView(m);
    if created {
      FreshSegment(env.c, d, m.nextSeg);
      DiskParts(env.c, d, view, attempted);
      EmptyLogKeepsDiskInv(env.c, d, d', m.nextSeg, view, attempted);
      EmptyLogKeepsMem(m, logs, m.nextSeg, view, attempted);
    }
    SealedSame(m, logs', view, attempted);
  }

  lemma SealedSame(m: Mem, logs: map<nat, seq<Entry>>, view: map<DocID, LogRecord>, attempted: set<Entry>)
    ensures TablesInv(SealFailMem(m), logs, view) == TablesInv(m, logs, view)
    ensures CoverInv(SealFailMem(m), logs, view) == CoverInv(m, logs, view)
    ensures AllocInv(SealFailMem(m), logs, view) == AllocInv(m, logs, view)
    ensures WritersInv(SealFailMem(m), logs, view, attempted) == WritersInv(m, logs, view, attempted)
  {
  }

  // ---- flush ------------------------------------------------------------------------------------

  /** Flush steps that touch neither tables, logs nor the SSTable list. */
  lemma FlushPcKeepsMem(env: Env, m: Mem, m': Mem, d: Disk, d': Disk, view: map<DocID, LogRecord>,
                        attempted: set<Entry>)
    requires MemInv(env, m, d, view, attempted)
    requires m' == m.(flush := m'.flush, sstSeq := m'.sstSeq, fatal := m'.fatal) && d'.segs == d.segs
    requires !m'.flush.FSwapped?
    requires Structure(env.cfg, m') && SstsInv(m', d'.ssts, d'.tmps)
    ensures MemInv(env, m', d', view, attempted)
  {
    hide View, Exact, Log, Logs, TablesInv, AllocInv, SstsInv, CoveredBy, WriterInv;
    SameLayers(m, m');
    SameTables(m, m', Logs(env.c, d.segs), view);
  }

  lemma FlushLookKeepsInv(env: Env, m: Mem, d: Disk, view: map<DocID, LogRecord>, attempted: set<Entry>, f: FlushPc)
    requires MemInv(env, m, d, view, attempted)
    requires (m.flush.FIdle? && f.FChecked?) || (m.flush.FChecked? && f.FIdle?)
    ensures MemInv(env, m.(flush := f), d, view, attempted)
  {
    hide View, Exact, Log, Logs, TablesInv, AllocInv, CoveredBy, WriterInv, SyncInv;
    FlushPcKeepsMem(env, m, m.(flush := f), d, d, view, attempted);
  }

  lemma FlushStepKeepsInv(env: Env, m: Mem, d: Disk, view: map<DocID, LogRecord>, attempted: set<Entry>)
    requires DiskInv(env.c, d, view, attempted) && MemInv(env, m, d, view, attempted)
    ensures CanSnap(m) ==> MemInv(env, SnapMem(m), d, view, attempted)
    ensures m.flush.FSnapped? ==>
      MemInv(env, CreateMem(m), CreateDisk(m, d), view, attempted) && DiskInv(env.c, CreateDisk(m, d), view, attempted)
  {
    hide View, Exact, Log, Logs, TablesInv, AllocInv, CoveredBy, WriterInv, UniqueIDs, LogsAgree, SstsAgree, SyncInv;
    if CanSnap(m) {
      FlushPcKeepsMem(env, m, SnapMem(m), d, d, view, attempted);
    }
    if m.flush.FSnapped? {
      FlushPcKeepsMem(env, m, CreateMem(m), d, CreateDisk(m, d), view, attempted);
    }
  }

  lemma FlushFailsKeepsInv(env: Env, m: Mem, d: Disk, view: map<DocID, LogRecord>, attempted: set<Entry>,
                           dropTmp: bool, fatal: bool)
    requires DiskInv(env.c, d, view, attempted) && MemInv(env, m, d, view, attempted)
    requires FlushHasSnapshot(m.flush)
    ensures DiskInv(env.c, FlushFailDisk(m, d, dropTmp), view, attempted)
    ensures MemInv(env, m.(flush := FIdle, fatal := m.fatal || fatal), FlushFailDisk(m, d, dropTmp), view, attempted)
  {
    hide View, Exact, Log, Logs, TablesInv, AllocInv, CoveredBy, WriterInv, UniqueIDs, LogsAgree, SstsAgree, SyncInv;
    FlushPcKeepsMem(env, m, m.(flush := FIdle, fatal := m.fatal || fatal), d, FlushFailDisk(m, d, dropTmp), view, attempted);
  }

  /** The rename: the new SSTable repeats the oldest frozen table, all of which is visible. */
  lemma OldestTable(env: Env, m: Mem, d: Disk, view: map<DocID, LogRecord>, attempted: set<Entry>)
    requires MemInv(env, m, d, view, attempted)
    ensures m.frozen != [] ==> TableInv(m.frozen[0].contents, Logs(env.c, d.segs), view)
  {
    hide Structure, SegsInv, CoverInv, SstsInv, AllocInv, WritersInv, SyncInv, View, TableInv, Apart;
  }

  lemma CommitKeepsInv(env: Env, m: Mem, d: Disk, view: map<DocID, LogRecord>, attempted: set<Entry>, sst: Sst)
    requires DiskInv(env.c, d, view, attempted) && MemInv(env, m, d, view, attempted)
    requires CanCommit(m, sst)
    ensures DiskInv(env.c, CommitDisk(d, sst), view, attempted)
    ensures MemInv(env, CommitMem(m, sst), CommitDisk(d, sst), view, attempted)
  {
    hide View, Exact, Logs, AllocInv, CoverInv, WritersInv, UniqueIDs, LogsAgree, SyncInv, SstHas, TablesInv, SegsInv;
    OldestTable(env, m, d, view, attempted);
    assert SstsInv(CommitMem(m, sst), CommitDisk(d, sst).ssts, CommitDisk(d, sst).tmps);
    FlushPcKeepsMem(env, m, CommitMem(m, sst), d, CommitDisk(d, sst), view, attempted);
  }

  lemma SstHasAfterSwap(m: Mem, sst: Sst)
    ensures forall x :: SstHas([sst] + m.sstables, x) <==> x in sst.contents || SstHas(m.sstables, x)
  {
    var l := [sst] + m.sstables;
    forall x ensures SstHas(l, x) <==> x in sst.contents || SstHas(m.sstables, x) {
      if x in sst.contents {
        assert x in l[0].contents;
      }
      if SstHas(m.sstables, x) {
        var i :| 0 <= i < |m.sstables| && x in m.sstables[i].contents;
        assert x in l[i + 1].contents;
      }
    }
  }

  lemma SwapKeepsInv(env: Env, m: Mem, d: Disk, view: map<DocID, LogRecord>, attempted: set<Entry>)
    requires DiskInv(env.c, d, view, attempted) && MemInv(env, m, d, view, attempted)
    requires CanSwap(m)
    ensures MemInv(env, SwappedMem(m), d, view, attempted)
  {
    hide View, Exact, Log, Logs, DiskInv, TablesInv, CoverInv, AllocInv, WriterInv, SstHas;
    var m' := SwappedMem(m);
    var logs := Logs(env.c, d.segs);
    SwappedKeepsView(env.cfg, m);
    SwapKeepsTables(env.cfg, m, logs, view);
    SwapKeepsCover(env.cfg, m, logs, view);
    SwapKeepsSsts(env.cfg, m, d.ssts, d.tmps);
  }

  lemma SwapKeepsTables(cfg: Config, m: Mem, logs: map<nat, seq<Entry>>, view: map<DocID, LogRecord>)
    requires Structure(cfg, m) && CanSwap(m) && TablesInv(m, logs, view)
    ensures TablesInv(SwappedMem(m), logs, view)
    ensures AllocInv(SwappedMem(m), logs, view) == AllocInv(m, logs, view)
  {
    hide TableInv, SstHas;
    var m' := SwappedMem(m);
    SstHasAfterSwap(m, m.flush.sst);
    forall i | 0 <= i < |m'.frozen| ensures Apart(m'.frozen[i].contents, m'.sstables) {
      assert m'.frozen[i] == m.frozen[i + 1];
      assert Apart(m.frozen[i + 1].contents, m.sstables);
      assert m.frozen[0].contents.Keys !! m.frozen[i + 1].contents.Keys;
    }
    assert m.frozen[0].contents.Keys !! m.active.contents.Keys;
  }

  lemma SwapKeepsCover(cfg: Config, m: Mem, logs: map<nat, seq<Entry>>, view: map<DocID, LogRecord>)
    requires Structure(cfg, m) && CanSwap(m) && CoverInv(m, logs, view)
    ensures CoverInv(SwappedMem(m), logs, view)
  {
    hide SstHas, LogAt;
    var m' := SwappedMem(m);
    SstHasAfterSwap(m, m.flush.sst);
    forall i | 0 <= i < |m'.frozen|
      ensures CoveredBy(LogAt(logs, m'.frozenWALs[i]), view, m'.frozen[i].contents, m'.sstables)
    {
      assert CoveredBy(LogAt(logs, m.frozenWALs[i + 1]), view, m.frozen[i + 1].contents, m.sstables);
    }
    assert CoveredBy(LogAt(logs, m.frozenWALs[0]), view, m.frozen[0].contents, m.sstables);
  }

  lemma SwapKeepsSsts(cfg: Config, m: Mem, ssts: map<nat, Sst>, tmps: set<nat>)
    requires Structure(cfg, m) && CanSwap(m) && SstsInv(m, ssts, tmps)
    ensures SstsInv(SwappedMem(m), ssts, tmps)
  {
    hide SstHas;
    var m' := SwappedMem(m);
    SstHasAfterSwap(m, m.flush.sst);
    forall id | id in ssts ensures forall x | x in ssts[id].contents :: SstHas(m'.sstables, x) {
    }
  }

  /** Phase 5: what the deleted segment held of the abstract map is in SSTables. */
  lemma DeleteKeepsInv(env: Env, m: Mem, d: Disk, view: map<DocID, LogRecord>, attempted: set<Entry>, ok: bool)
    requires DiskInv(env.c, d, view, attempted) && MemInv(env, m, d, view, attempted)
    requires m.flush.FSwapped?
    ensures DiskInv(env.c, DeleteDisk(m, d, ok), view, attempted)
    ensures MemInv(env, m.(flush := FIdle), DeleteDisk(m, d, ok), view, attempted)
  {
    hide View, Exact, Log, Logs, DiskInv, TablesInv, CoverInv, AllocInv, WritersInv;
    var m', d' := m.(flush := FIdle), DeleteDisk(m, d, ok);
    var logs, logs' := Logs(env.c, d.segs), Logs(env.c, d'.segs);
    SameLayers(m, m');
    if ok {
      assert logs' == logs - {m.flush.seg} by { LogsWithout(env.c, d.segs, m.flush.seg); }
      WithoutKeepsDiskInv(env.c, d, d', m.flush.seg, view, attempted);
      WithoutKeepsTables(m, logs, view);
      LogsKeys(env.c, d.segs);
      WithoutKeepsRest(m, logs, view, attempted);
    }
    SameTables(m, m', logs', view);
    IdleFlush(m, logs', view, attempted);
  }

  lemma IdleFlush(m: Mem, logs: map<nat, seq<Entry>>, view: map<DocID, LogRecord>, attempted: set<Entry>)
    requires CoverInv(m, logs, view) && WritersInv(m, logs, view, attempted)
    ensures CoverInv(m.(flush := FIdle), logs, view) && WritersInv(m.(flush := FIdle), logs, view, attempted)
  {
  }

  lemma LogsWithout(c: Codec, segs: map<nat, seq<byte>>, s: nat)
    ensures Logs(c, segs - {s}) == Logs(c, segs) - {s}
  {
    hide Log;
  }

  lemma WithoutKeepsDiskInv(c: Codec, d: Disk, d': Disk, seg: nat, view: map<DocID, LogRecord>, attempted: set<Entry>)
    requires DiskInv(c, d, view, attempted)
    requires d' == d.(segs := d.segs - {seg}) && Logs(c, d'.segs) == Logs(c, d.segs) - {seg}
    ensures DiskInv(c, d', view, attempted)
  {
    hide Logs, SstsAgree, WellFramed;
    var logs, logs' := Logs(c, d.segs), Logs(c, d'.segs);
    assert UniqueIDs(logs') by { FewerLogsUnique(logs, seg); }
  }

  lemma FewerLogsUnique(logs: map<nat, seq<Entry>>, seg: nat)
    requires UniqueIDs(logs)
    ensures UniqueIDs(logs - {seg})
  {
    var logs' := logs - {seg};
    assert forall s | s in logs' :: s in logs && logs'[s] == logs[s];
  }

  lemma WithoutKeepsTable(t: map<DocID, LogRecord>, logs: map<nat, seq<Entry>>, seg: nat,
                          view: map<DocID, LogRecord>, sstables: seq<Sst>)
    requires TableInv(t, logs, view) && Apart(t, sstables)
    requires CoveredBy(LogAt(logs, seg), view, map[], sstables)
    ensures TableInv(t, logs - {seg}, view)
  {
    hide SstHas;
    forall x | x in t ensures InLogs(logs - {seg}, Entry(x, t[x])) {
      assert InLogs(logs, Entry(x, t[x]));
      var s :| s in logs && Entry(x, t[x]) in logs[s];
      assert s in logs - {seg};
    }
  }

  lemma WithoutKeepsTables(m: Mem, logs: map<nat, seq<Entry>>, view: map<DocID, LogRecord>)
    requires m.flush.FSwapped? && TablesInv(m, logs, view) && CoverInv(m, logs, view)
    ensures TablesInv(m, logs - {m.flush.seg}, view)
  {
    var seg := m.flush.seg;
    hide TableInv, Apart, CoveredBy;
    WithoutKeepsTable(m.active.contents, logs, seg, view, m.sstables);
    forall i | 0 <= i < |m.frozen| ensures TableInv(m.frozen[i].contents, logs - {seg}, view) {
      WithoutKeepsTable(m.frozen[i].contents, logs, seg, view, m.sstables);
    }
  }

  lemma WithoutKeepsRest(m: Mem, logs: map<nat, seq<Entry>>, view: map<DocID, LogRecord>, attempted: set<Entry>)
    requires m.flush.FSwapped? && SegsInv(m, logs.Keys)
    requires CoverInv(m, logs, view) && AllocInv(m, logs, view) && WritersInv(m, logs, view, attempted)
    ensures var logs' := logs - {m.flush.seg};
      CoverInv(m, logs', view) && AllocInv(m, logs', view) && WritersInv(m, logs', view, attempted)
  {
    hide SstHas, InLogs;
    var logs' := logs - {m.flush.seg};
    assert forall s | s != m.flush.seg :: LogAt(logs', s) == LogAt(logs, s);
    assert LogAt(logs', m.flush.seg) == [];
    forall x | IDInLogs(logs', x) ensures IDInLogs(logs, x) {
      var s, i :| s in logs' && 0 <= i < |logs'[s]| && logs'[s][i].id == x;
      assert s in logs && logs[s][i].id == x;
    }
    hide IDInLogs, LogAt;
    forall t | 0 <= t < |m.writers|
      ensures WriterInv(m.writers[t], m.alloc, logs', m.activeSeg, view, attempted)
    {
      assert WriterInv(m.writers[t], m.alloc, logs, m.activeSeg, view, attempted);
    }
  }
}
