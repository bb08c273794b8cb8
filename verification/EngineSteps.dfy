/** Every step that respects the provisos keeps the invariant of EngineInv. */
module EngineSteps {
  import opened Bytes
  import opened Types
  import opened Wal
  import opened WalLog
  import opened MemTable
  import opened EngineState
  import opened EngineReads
  import opened EngineInv

  // ---- what an appended entry does to the logs --------------------------------------------------

  /** logs' is logs with es added at the end of segment seg. */
  ghost predicate Extends(logs: map<nat, seq<Entry>>, seg: nat, es: seq<Entry>, logs': map<nat, seq<Entry>>) {
    logs' == logs[seg := LogAt(logs, seg) + es]
  }

  lemma WriteExtends(c: Codec, d: Disk, seg: nat, bytes: seq<byte>, es: seq<Entry>)
    requires Log(c, SegBytes(d, seg) + bytes) == Log(c, SegBytes(d, seg)) + es
    requires seg !in d.segs ==> Log(c, []) == []
    ensures Extends(Logs(c, d.segs), seg, es, Logs(c, WriteSeg(d, seg, bytes).segs))
  {
    hide Log;
  }

  lemma ExtendOne(logs: map<nat, seq<Entry>>, seg: nat, e: Entry, logs': map<nat, seq<Entry>>)
    requires Extends(logs, seg, [e], logs')
    ensures InLogs(logs', e) && IDInLogs(logs', e.id)
    ensures forall x | InLogs(logs, x) :: InLogs(logs', x)
    ensures forall x | InLogs(logs', x) :: x == e || InLogs(logs, x)
    ensures forall d | IDInLogs(logs', d) :: d == e.id || IDInLogs(logs, d)
  {
    var n := |LogAt(logs, seg)|;
    assert logs'[seg][n] == e;
    forall x | InLogs(logs, x) ensures InLogs(logs', x) {
      var s :| s in logs && x in logs[s];
      assert x in logs'[s];
    }
    forall x | InLogs(logs', x) ensures x == e || InLogs(logs, x) {
      var s :| s in logs' && x in logs'[s];
      assert s == seg || x in logs[s];
      assert s == seg ==> x == e || x in LogAt(logs, seg);
    }
    forall d | IDInLogs(logs', d) ensures d == e.id || IDInLogs(logs, d) {
      var s, i :| s in logs' && 0 <= i < |logs'[s]| && logs'[s][i].id == d;
      if !(s == seg && i == n) {
        assert s in logs && i < |logs[s]| && logs[s][i] == logs'[s][i];
      }
    }
  }

  lemma ExtendKeepsUnique(logs: map<nat, seq<Entry>>, seg: nat, e: Entry, logs': map<nat, seq<Entry>>)
    requires Extends(logs, seg, [e], logs') && UniqueIDs(logs) && !IDInLogs(logs, e.id)
    ensures UniqueIDs(logs')
  {
    var n := |LogAt(logs, seg)|;
    forall s1, i1, s2, i2 |
      s1 in logs' && 0 <= i1 < |logs'[s1]| && s2 in logs' && 0 <= i2 < |logs'[s2]| &&
      logs'[s1][i1].id == logs'[s2][i2].id
      ensures s1 == s2 && i1 == i2
    {
      var new1, new2 := s1 == seg && i1 == n, s2 == seg && i2 == n;
      assert !new1 ==> s1 in logs && i1 < |logs[s1]| && logs[s1][i1] == logs'[s1][i1];
      assert !new2 ==> s2 in logs && i2 < |logs[s2]| && logs[s2][i2] == logs'[s2][i2];
      assert new1 && !new2 ==> IDInLogs(logs, e.id);
      assert new2 && !new1 ==> IDInLogs(logs, e.id);
    }
  }

  /** In a log without repeated DocIDs an entry is determined by its DocID. */
  lemma UniqueEntry(logs: map<nat, seq<Entry>>, a: Entry, b: Entry)
    requires UniqueIDs(logs) && InLogs(logs, a) && InLogs(logs, b) && a.id == b.id
    ensures a == b
  {
    var s :| s in logs && a in logs[s];
    var i :| 0 <= i < |logs[s]| && logs[s][i] == a;
    var t :| t in logs && b in logs[t];
    var j :| 0 <= j < |logs[t]| && logs[t][j] == b;
  }

  lemma InLogsHasID(logs: map<nat, seq<Entry>>, e: Entry)
    requires InLogs(logs, e)
    ensures IDInLogs(logs, e.id)
  {
    var s :| s in logs && e in logs[s];
    var i :| 0 <= i < |logs[s]| && logs[s][i] == e;
  }

  // ---- writers ----------------------------------------------------------------------------------

  /** Writer t moves without anything else changing. */
  lemma WriterStepKeepsInv(env: Env, m: Mem, m': Mem, d: Disk, view: map<DocID, LogRecord>, attempted: set<Entry>,
                           t: nat, pc: WriterPc)
    requires MemInv(env, m, d, view, attempted)
    requires t < |m.writers| && m' == SetWriter(m, t, pc)
    requires || (!Pending(m.writers[t]) && !Pending(pc))
             || (m.writers[t].Allocated? && pc == Locked(m.writers[t].e) && m.walOpen)
    ensures MemInv(env, m', d, view, attempted)
  {
    hide Logs, View, TablesInv, CoverInv, Exact, AllocInv, Log, SegsInv, SstsInv;
    var logs := Logs(env.c, d.segs);
    SameLayers(m, m');
    SameTables(m, m', logs, view);
    SameCover(m, m', logs, view);
    SameSegs(m, m', d);
    forall e | e in Log(env.c, SegBytes(d, m.activeSeg)) &&
      (e.id in view || (exists u :: 0 <= u < |m'.writers| && m'.writers[u] == Logged(e)))
      ensures e in Log(env.c, SegBytes(d, m.activeSeg)[..m.synced])
    {
      if e.id !in view {
        var u :| 0 <= u < |m'.writers| && m'.writers[u] == Logged(e);
        assert m.writers[u] == Logged(e);
      }
    }
  }

  lemma SameSegs(m: Mem, m': Mem, d: Disk)
    requires m'.activeSeg == m.activeSeg && m'.nextSeg == m.nextSeg && m'.walOpen == m.walOpen
    requires m'.frozenWALs == m.frozenWALs && m'.flush == m.flush
    requires m'.sstables == m.sstables && m'.frozen == m.frozen && m'.sstSeq == m.sstSeq
    ensures SegsInv(m', d.segs.Keys) == SegsInv(m, d.segs.Keys)
    ensures SstsInv(m', d.ssts, d.tmps) == SstsInv(m, d.ssts, d.tmps)
  {
  }

  lemma ActiveOnDisk(m: Mem, segs: set<nat>)
    requires SegsInv(m, segs)
    ensures m.activeSeg in segs
  {
  }

  lemma SameTables(m: Mem, m': Mem, logs: map<nat, seq<Entry>>, view: map<DocID, LogRecord>)
    requires m'.active == m.active && m'.frozen == m.frozen && m'.sstables == m.sstables
    ensures TablesInv(m', logs, view) == TablesInv(m, logs, view)
    ensures m'.alloc == m.alloc ==> AllocInv(m', logs, view) == AllocInv(m, logs, view)
  {
  }

  lemma AllocKeepsInv(env: Env, m: Mem, d: Disk, view: map<DocID, LogRecord>, attempted: set<Entry>, t: nat)
    requires DiskInv(env.c, d, view, attempted) && MemInv(env, m, d, view, attempted)
    requires CanAlloc(m, t) && m.alloc + 1 < U64
    ensures DiskInv(env.c, d, view, attempted + {AllocEntry(m, t)})
    ensures MemInv(env, AllocMem(m, t), d, view, attempted + {AllocEntry(m, t)})
  {
    hide View, TablesInv, CoverInv, Exact, Log, SstsAgree, AllFramed, UniqueIDs, SegsInv, SstsInv;
    var m' := AllocMem(m, t);
    var logs := Logs(env.c, d.segs);
    SameLayers(m, m');
    SameTables(m, m', logs, view);
    SameCover(m, m', logs, view);
    SameSegs(m, m', d);
    assert forall x: DocID | IDInLogs(logs, x) :: x <= m.alloc;
  }

  /** A frame written in full at a record boundary is one more log entry; a part of one is none. */
  lemma FrameExtends(c: Codec, d: Disk, seg: nat, e: Entry, k: nat)
    requires Invertible(c) && Fits(c, e) && AtBoundary(SegBytes(d, seg)) && k <= |Frame(c, e)|
    requires seg in d.segs
    ensures var d' := WriteSeg(d, seg, Frame(c, e)[..k]);
      && Extends(Logs(c, d.segs), seg, if k == |Frame(c, e)| then [e] else [], Logs(c, d'.segs))
      && (AllFramed(c, d.segs) ==> AllFramed(c, d'.segs))
  {
    hide Log, WellFramed, AtBoundary, Frame, Fits;
    LogAfterWrite(c, SegBytes(d, seg), e, k);
    var es := if k == |Frame(c, e)| then [e] else [];
    assert Log(c, SegBytes(d, seg)) + [] == Log(c, SegBytes(d, seg));
    WriteExtends(c, d, seg, Frame(c, e)[..k], es);
  }

  lemma ExtendNone(logs: map<nat, seq<Entry>>, seg: nat, logs': map<nat, seq<Entry>>)
    requires Extends(logs, seg, [], logs') && seg in logs
    ensures logs' == logs
  {
    assert logs[seg] + [] == logs[seg];
  }

  /** What one new entry, under a DocID not visible yet, leaves true of the disk. */
  lemma ExtendKeepsDiskInv(c: Codec, d: Disk, d': Disk, seg: nat, e: Entry, view: map<DocID, LogRecord>,
                           attempted: set<Entry>)
    requires DiskInv(c, d, view, attempted)
    requires d'.ssts == d.ssts && AllFramed(c, d'.segs)
    requires Extends(Logs(c, d.segs), seg, [e], Logs(c, d'.segs))
    requires !IDInLogs(Logs(c, d.segs), e.id) && e.id !in view && e in attempted
    ensures DiskInv(c, d', view, attempted)
  {
    hide Logs, AllFramed, SstsAgree, ViewAttempted;
    ExtendKeepsUnique(Logs(c, d.segs), seg, e, Logs(c, d'.segs));
    var logs, logs' := Logs(c, d.segs), Logs(c, d'.segs);
    hide UniqueIDs;
    forall s, x | s in logs' && x in logs'[s] ensures x in attempted && (x.id in view ==> view[x.id] == x.rec) {
      if x != e {
        ExtendOne(logs, seg, e, logs');
        assert InLogs(logs', x);
        var t :| t in logs && x in logs[t];
      }
    }
  }

  /** The invariant of the running node after its active segment gained the entry e of writer t. */
  lemma ExtendKeepsTables(m: Mem, logs: map<nat, seq<Entry>>, logs': map<nat, seq<Entry>>, e: Entry,
                          view: map<DocID, LogRecord>)
    requires Extends(logs, m.activeSeg, [e], logs') && m.activeSeg in logs
    requires TablesInv(m, logs, view) && CoverInv(m, logs, view) && AllocInv(m, logs, view)
    requires SegsInv(m, logs.Keys)
    requires e.id !in view && e.id <= m.alloc
    ensures TablesInv(m, logs', view) && CoverInv(m, logs', view) && AllocInv(m, logs', view)
    ensures logs'.Keys == logs.Keys
  {
    ExtendOne(logs, m.activeSeg, e, logs');
    hide InLogs, IDInLogs, SstHas;
    ExtendKeepsTable(m.active.contents, logs, logs', e, view);
    forall i | 0 <= i < |m.frozen| ensures TableInv(m.frozen[i].contents, logs', view) {
      ExtendKeepsTable(m.frozen[i].contents, logs, logs', e, view);
    }
  }

  lemma ExtendKeepsTable(t: map<DocID, LogRecord>, logs: map<nat, seq<Entry>>, logs': map<nat, seq<Entry>>, e: Entry,
                         view: map<DocID, LogRecord>)
    requires forall x | InLogs(logs, x) :: InLogs(logs', x)
    requires TableInv(t, logs, view)
    ensures TableInv(t, logs', view)
  {
  }

  lemma AppendKeepsInv(env: Env, m: Mem, d: Disk, view: map<DocID, LogRecord>, attempted: set<Entry>, t: nat)
    requires Invertible(env.c) && DiskInv(env.c, d, view, attempted) && MemInv(env, m, d, view, attempted)
    requires CanAppend(env.c, m, t) && AtBoundary(SegBytes(d, m.activeSeg))
    ensures DiskInv(env.c, AppendDisk(env.c, m, d, t), view, attempted)
    ensures MemInv(env, AppendMem(env.c, m, d, t), AppendDisk(env.c, m, d, t), view, attempted)
  {
    hide View, Exact, Log, Frame, Fits, AtBoundary, Logs, DiskInv, TablesInv, CoverInv, AllocInv, AllFramed, SegsInv,
         SstsInv;
    var m', d' := AppendMem(env.c, m, d, t), AppendDisk(env.c, m, d, t);
    var e := m.writers[t].e;
    var logs, logs' := Logs(env.c, d.segs), Logs(env.c, d'.segs);
    assert WriterInv(m.writers[t], m.alloc, logs, m.activeSeg, view, attempted);
    DiskParts(env.c, d, view, attempted);
    assert Frame(env.c, e) == Frame(env.c, e)[..|Frame(env.c, e)|];
    ActiveOnDisk(m, d.segs.Keys);
    FrameExtends(env.c, d, m.activeSeg, e, |Frame(env.c, e)|);
    ExtendKeepsDiskInv(env.c, d, d', m.activeSeg, e, view, attempted);
    LogsKeys(env.c, d.segs);
    LogsKeys(env.c, d'.segs);
    ExtendKeepsTables(m, logs, logs', e, view);
    SameLayers(m, m');
    SameTables(m, m', logs', view);
    SameCover(m, m', logs', view);
    SameSegs(m, m', d');
    ExtendKeepsWriters(m, m', t, logs, logs', view, attempted);
    assert SegBytes(d', m.activeSeg)[..m'.synced] == SegBytes(d', m.activeSeg);
  }

  lemma LogsKeys(c: Codec, segs: map<nat, seq<byte>>)
    ensures Logs(c, segs).Keys == segs.Keys
  {
  }

  lemma DiskParts(c: Codec, d: Disk, view: map<DocID, LogRecord>, attempted: set<Entry>)
    requires DiskInv(c, d, view, attempted)
    ensures AllFramed(c, d.segs) && UniqueIDs(Logs(c, d.segs))
  {
  }

  lemma SameCover(m: Mem, m': Mem, logs: map<nat, seq<Entry>>, view: map<DocID, LogRecord>)
    requires m'.active == m.active && m'.frozen == m.frozen && m'.sstables == m.sstables
    requires m'.activeSeg == m.activeSeg && m'.frozenWALs == m.frozenWALs && m'.flush == m.flush
    ensures CoverInv(m', logs, view) == CoverInv(m, logs, view)
  {
  }

  /** Writer t turns from Locked to Logged as its entry reaches the log. */
  lemma ExtendKeepsWriters(m: Mem, m': Mem, t: nat, logs: map<nat, seq<Entry>>, logs': map<nat, seq<Entry>>,
                           view: map<DocID, LogRecord>, attempted: set<Entry>)
    requires WritersInv(m, logs, view, attempted)
    requires t < |m.writers| && m.writers[t].Locked?
    requires Extends(logs, m.activeSeg, [m.writers[t].e], logs')
    requires m'.writers == m.writers[t := Logged(m.writers[t].e)] && m'.alloc == m.alloc && m'.activeSeg == m.activeSeg
    ensures WritersInv(m', logs', view, attempted)
  {
    ExtendOne(logs, m.activeSeg, m.writers[t].e, logs');
    hide InLogs, IDInLogs;
    forall u | 0 <= u < |m'.writers|
      ensures WriterInv(m'.writers[u], m'.alloc, logs', m'.activeSeg, view, attempted)
    {
      assert WriterInv(m.writers[u], m.alloc, logs, m.activeSeg, view, attempted);
      assert WriterInv(m.writers[t], m.alloc, logs, m.activeSeg, view, attempted);
    }
  }

  /** Writer t is out of the protocol: what held of the writers still does. */
  lemma RetireWriter(m: Mem, m': Mem, t: nat, logs: map<nat, seq<Entry>>, logs': map<nat, seq<Entry>>,
                     view: map<DocID, LogRecord>, attempted: set<Entry>)
    requires WritersInv(m, logs, view, attempted)
    requires t < |m.writers| && m.writers[t].Locked?
    requires logs' == logs || Extends(logs, m.activeSeg, [m.writers[t].e], logs')
    requires m'.writers == m.writers[t := Idle] && m'.alloc == m.alloc && m'.activeSeg == m.activeSeg
    ensures WritersInv(m', logs', view, attempted)
  {
    var e := m.writers[t].e;
    if logs' != logs {
      ExtendOne(logs, m.activeSeg, e, logs');
    }
    hide InLogs, IDInLogs;
    forall u | 0 <= u < |m'.writers|
      ensures WriterInv(m'.writers[u], m'.alloc, logs', m'.activeSeg, view, attempted)
    {
      assert WriterInv(m.writers[u], m.alloc, logs, m.activeSeg, view, attempted);
      assert WriterInv(m.writers[t], m.alloc, logs, m.activeSeg, view, attempted);
    }
  }

  /** The synced prefix still holds what matters when the file grows by entries nobody can see. */
  lemma GrowKeepsSync(c: Codec, m: Mem, m': Mem, d: Disk, d': Disk, es: seq<Entry>, view: map<DocID, LogRecord>, t: nat)
    requires SyncInv(c, m, d, view)
    requires t < |m.writers| && m.writers[t].Locked? && m'.writers == m.writers[t := Idle]
    requires m'.activeSeg == m.activeSeg && m'.synced == m.synced
    requires SegBytes(d, m.activeSeg) <= SegBytes(d', m.activeSeg)
    requires Log(c, SegBytes(d', m.activeSeg)) == Log(c, SegBytes(d, m.activeSeg)) + es
    requires forall x | x in es ::
               x.id !in view && forall u :: 0 <= u < |m.writers| ==> m.writers[u] != Logged(x)
    ensures SyncInv(c, m', d', view)
  {
    hide Log;
    var file, file' := SegBytes(d, m.activeSeg), SegBytes(d', m.activeSeg);
    assert file'[..m.synced] == file[..m.synced];
    forall x | x in Log(c, file') &&
      (x.id in view || (exists u :: 0 <= u < |m'.writers| && m'.writers[u] == Logged(x)))
      ensures x in Log(c, file'[..m'.synced])
    {
      if exists u :: 0 <= u < |m'.writers| && m'.writers[u] == Logged(x) {
        var u :| 0 <= u < |m'.writers| && m'.writers[u] == Logged(x);
        assert m.writers[u] == Logged(x);
      }
    }
  }

  lemma AppendFailsKeepsInv(env: Env, m: Mem, d: Disk, view: map<DocID, LogRecord>, attempted: set<Entry>, t: nat,
                            k: nat)
    requires Invertible(env.c) && DiskInv(env.c, d, view, attempted) && MemInv(env, m, d, view, attempted)
    requires CanAppendFail(env.c, m, t, k) && (k > 0 ==> AtBoundary(SegBytes(d, m.activeSeg)))
    ensures DiskInv(env.c, AppendFailDisk(env.c, m, d, t, k), view, attempted)
    ensures MemInv(env, SetWriter(m, t, Idle), AppendFailDisk(env.c, m, d, t, k), view, attempted)
  {
    hide View, Exact, Log, Frame, Fits, AtBoundary, Logs, DiskInv, TablesInv, CoverInv, AllocInv, AllFramed, SyncInv,
         SegsInv, SstsInv;
    var m', d' := SetWriter(m, t, Idle), AppendFailDisk(env.c, m, d, t, k);
    var e := m.writers[t].e;
    var logs, logs' := Logs(env.c, d.segs), Logs(env.c, d'.segs);
    assert WriterInv(m.writers[t], m.alloc, logs, m.activeSeg, view, attempted);
    SameLayers(m, m');
    SameSegs(m, m', d);
    LogsKeys(env.c, d.segs);
    if k == 0 {
      RetireWriter(m, m', t, logs, logs, view, attempted);
      SameTables(m, m', logs, view);
      SameCover(m, m', logs, view);
      assert Log(env.c, SegBytes(d, m.activeSeg)) + [] == Log(env.c, SegBytes(d, m.activeSeg));
      GrowKeepsSync(env.c, m, m', d, d', [], view, t);
    } else {
      DiskParts(env.c, d, view, attempted);
      ActiveOnDisk(m, d.segs.Keys);
      FrameExtends(env.c, d, m.activeSeg, e, k);
      var es := if k == |Frame(env.c, e)| then [e] else [];
      LogsAt(env.c, d.segs, m.activeSeg);
      LogsAt(env.c, d'.segs, m.activeSeg);
      NotLogged(m, t, logs, view, attempted);
      GrowKeepsSync(env.c, m, m', d, d', es, view, t);
      LogsKeys(env.c, d'.segs);
      if k == |Frame(env.c, e)| {
        ExtendKeepsDiskInv(env.c, d, d', m.activeSeg, e, view, attempted);
        ExtendKeepsTables(m, logs, logs', e, view);
      } else {
        ExtendNone(logs, m.activeSeg, logs');
        SameLogsDiskInv(env.c, d, d', view, attempted);
      }
      RetireWriter(m, m', t, logs, logs', view, attempted);
      SameTables(m, m', logs', view);
      SameCover(m, m', logs', view);
    }
  }

  lemma LogsAt(c: Codec, segs: map<nat, seq<byte>>, s: nat)
    requires s in segs
    ensures LogAt(Logs(c, segs), s) == Log(c, segs[s])
  {
  }

  lemma NotLogged(m: Mem, t: nat, logs: map<nat, seq<Entry>>, view: map<DocID, LogRecord>, attempted: set<Entry>)
    requires WritersInv(m, logs, view, attempted) && t < |m.writers| && m.writers[t].Locked?
    ensures forall u :: 0 <= u < |m.writers| ==> m.writers[u] != Logged(m.writers[t].e)
  {
  }

  lemma SameLogsDiskInv(c: Codec, d: Disk, d': Disk, view: map<DocID, LogRecord>, attempted: set<Entry>)
    requires DiskInv(c, d, view, attempted)
    requires d'.ssts == d.ssts && AllFramed(c, d'.segs) && Logs(c, d'.segs) == Logs(c, d.segs)
    ensures DiskInv(c, d', view, attempted)
  {
  }

  // ---- put --------------------------------------------------------------------------------------

  /** Making the logged entry e visible agrees with the disk: its DocID is nowhere else. */
  lemma PutKeepsDiskInv(c: Codec, d: Disk, e: Entry, view: map<DocID, LogRecord>, attempted: set<Entry>)
    requires DiskInv(c, d, view, attempted)
    requires InLogs(Logs(c, d.segs), e) && e.id !in view && e in attempted
    ensures DiskInv(c, d, view[e.id := e.rec], attempted)
  {
    hide Logs, AllFramed, Exact;
    var logs, view' := Logs(c, d.segs), view[e.id := e.rec];
    forall s, x | s in logs && x in logs[s]
      ensures x in attempted && (x.id in view' ==> view'[x.id] == x.rec)
    {
      if x.id == e.id {
        assert InLogs(logs, x);
        UniqueEntry(logs, x, e);
      }
    }
    forall x | x in view' ensures Entry(x, view'[x]) in attempted {
      assert x == e.id ==> Entry(x, view'[x]) == e;
    }
  }

  lemma PutKeepsTables(m: Mem, m': Mem, logs: map<nat, seq<Entry>>, e: Entry, view: map<DocID, LogRecord>)
    requires TablesInv(m, logs, view) && View(m) == view
    requires InLogs(logs, e) && e.id !in view
    requires m'.active.contents == m.active.contents[e.id := e.rec]
    requires m'.frozen == m.frozen && m'.sstables == m.sstables
    requires forall x | SstHas(m.sstables, x) :: x in view
    ensures TablesInv(m', logs, view[e.id := e.rec])
  {
    hide View, InLogs, SstHas;
    forall i | 0 <= i < |m.frozen|
      ensures TableInv(m.frozen[i].contents, logs, view[e.id := e.rec]) && e.id !in m.frozen[i].contents
    {
      assert TableInv(m.frozen[i].contents, logs, view);
    }
  }

  lemma PutKeepsCover(m: Mem, m': Mem, logs: map<nat, seq<Entry>>, e: Entry, view: map<DocID, LogRecord>)
    requires CoverInv(m, logs, view) && UniqueIDs(logs) && SegsInv(m, logs.Keys)
    requires e in LogAt(logs, m.activeSeg)
    requires m'.active.contents == m.active.contents[e.id := e.rec]
    requires m'.frozen == m.frozen && m'.sstables == m.sstables
    requires m'.activeSeg == m.activeSeg && m'.frozenWALs == m.frozenWALs && m'.flush == m.flush
    ensures CoverInv(m', logs, view[e.id := e.rec])
  {
    hide SstHas;
    forall i | 0 <= i < |m.frozen|
      ensures CoveredBy(LogAt(logs, m.frozenWALs[i]), view[e.id := e.rec], m.frozen[i].contents, m.sstables)
    {
      OnlyInOneSegment(logs, m.activeSeg, m.frozenWALs[i], e);
    }
    if m.flush.FSwapped? {
      OnlyInOneSegment(logs, m.activeSeg, m.flush.seg, e);
    }
  }

  lemma OnlyInOneSegment(logs: map<nat, seq<Entry>>, s: nat, t: nat, e: Entry)
    requires UniqueIDs(logs) && e in LogAt(logs, s) && s != t
    ensures forall x | x in LogAt(logs, t) :: x.id != e.id
  {
    var i :| 0 <= i < |LogAt(logs, s)| && LogAt(logs, s)[i] == e;
    forall x | x in LogAt(logs, t) ensures x.id != e.id {
      var j :| 0 <= j < |LogAt(logs, t)| && LogAt(logs, t)[j] == x;
      assert logs[s][i] == e && logs[t][j] == x;
    }
  }

  /** Everything in a listed SSTable is visible. */
  lemma ListedIsVisible(m: Mem, d: Disk, view: map<DocID, LogRecord>)
    requires SstsInv(m, d.ssts, d.tmps) && SstsAgree(d.ssts, view)
    ensures forall x | SstHas(m.sstables, x) :: x in view
  {
    hide Exact;
    forall x | SstHas(m.sstables, x) ensures x in view {
      var i :| 0 <= i < |m.sstables| && x in m.sstables[i].contents;
      assert m.sstables[i] in m.sstables;
      assert SubMap(d.ssts[m.sstables[i].id].contents, view);
    }
  }

  lemma PutKeepsWriters(m: Mem, m': Mem, t: nat, logs: map<nat, seq<Entry>>, view: map<DocID, LogRecord>,
                        attempted: set<Entry>)
    requires WritersInv(m, logs, view, attempted)
    requires t < |m.writers| && m.writers[t].Logged?
    requires m'.writers == m.writers[t := Idle] && m'.alloc == m.alloc && m'.activeSeg == m.activeSeg
    ensures WritersInv(m', logs, view[m.writers[t].e.id := m.writers[t].e.rec], attempted)
  {
    hide IDInLogs;
    var e := m.writers[t].e;
    forall u | 0 <= u < |m'.writers|
      ensures WriterInv(m'.writers[u], m'.alloc, logs, m'.activeSeg, view[e.id := e.rec], attempted)
    {
      assert WriterInv(m.writers[u], m.alloc, logs, m.activeSeg, view, attempted);
      assert u != t && Pending(m.writers[u]) ==> m.writers[u].e.id != e.id;
    }
  }

  lemma PutKeepsSync(c: Codec, m: Mem, m': Mem, d: Disk, t: nat, view: map<DocID, LogRecord>)
    requires SyncInv(c, m, d, view) && UniqueIDs(Logs(c, d.segs)) && m.activeSeg in d.segs
    requires t < |m.writers| && m.writers[t].Logged?
    requires m.writers[t].e in LogAt(Logs(c, d.segs), m.activeSeg)
    requires m'.writers == m.writers[t := Idle] && m'.activeSeg == m.activeSeg && m'.synced == m.synced
    ensures SyncInv(c, m', d, view[m.writers[t].e.id := m.writers[t].e.rec])
  {
    hide Log;
    var file, e := SegBytes(d, m.activeSeg), m.writers[t].e;
    var view' := view[e.id := e.rec];
    var logs := Logs(c, d.segs);
    forall x | x in Log(c, file) &&
      (x.id in view' || (exists u :: 0 <= u < |m'.writers| && m'.writers[u] == Logged(x)))
      ensures x in Log(c, file[..m'.synced])
    {
      if x.id == e.id {
        assert x in logs[m.activeSeg] && e in logs[m.activeSeg];
        UniqueEntry(logs, x, e);
        assert m.writers[t] == Logged(x);
      } else if x.id !in view {
        var u :| 0 <= u < |m'.writers| && m'.writers[u] == Logged(x);
        assert m.writers[u] == Logged(x);
      }
    }
  }

  lemma PutKeepsInv(env: Env, m: Mem, d: Disk, view: map<DocID, LogRecord>, attempted: set<Entry>, t: nat)
    requires DiskInv(env.c, d, view, attempted) && MemInv(env, m, d, view, attempted)
    requires CanPut(m, t)
    ensures DiskInv(env.c, d, PutView(m, view, t), attempted)
    ensures MemInv(env, PutMem(m, t), d, PutView(m, view, t), attempted)
  {
    hide View, Exact, Log, Logs, DiskInv, TablesInv, CoverInv, SyncInv, InLogs, SstHas, SstsAgree, SegsInv, SstsInv;
    var m' := PutMem(m, t);
    var e := m.writers[t].e;
    var logs := Logs(env.c, d.segs);
    assert WriterInv(m.writers[t], m.alloc, logs, m.activeSeg, view, attempted);
    assert InLogs(logs, e) by { LoggedInLogs(logs, m.activeSeg, e); }
    DiskParts(env.c, d, view, attempted);
    assert SstsAgree(d.ssts, view) by { DiskSsts(env.c, d, view, attempted); }
    LogsKeys(env.c, d.segs);
    PutKeepsDiskInv(env.c, d, e, view, attempted);
    SameSegs(m, m', d);
    ListedIsVisible(m, d, view);
    PutUpdatesView(m, e.id, e.rec);
    SameLayers(m.(active := PutTable(m.active, e.id, e.rec)), m');
    PutKeepsTables(m, m', logs, e, view);
    PutKeepsCover(m, m', logs, e, view);
    PutKeepsWriters(m, m', t, logs, view, attempted);
    PutKeepsSync(env.c, m, m', d, t, view);
  }

  lemma LoggedInLogs(logs: map<nat, seq<Entry>>, seg: nat, e: Entry)
    requires e in LogAt(logs, seg)
    ensures InLogs(logs, e)
  {
  }

  lemma DiskSsts(c: Codec, d: Disk, view: map<DocID, LogRecord>, attempted: set<Entry>)
    requires DiskInv(c, d, view, attempted)
    ensures SstsAgree(d.ssts, view)
  {
  }
}
