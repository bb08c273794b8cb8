/**
 The disk and memory invariant: what the WAL, the SSTables and the MemTables hold of the abstract map in every
 reachable state, with writers interleaving freely. Its provisos are those of Careful.
 */
module EngineInv {
  import opened Bytes
  import opened Types
  import opened Wal
  import opened WalLog
  import opened MemTable
  import opened EngineState
  import opened EngineReads

  // ---- vocabulary -------------------------------------------------------------------------------

  /** The entries replay would find in each segment. */
  function Logs(c: Codec, segs: map<nat, seq<byte>>): map<nat, seq<Entry>> {
    map s | s in segs :: Log(c, segs[s])
  }

  ghost predicate InLogs(logs: map<nat, seq<Entry>>, e: Entry) {
    exists s :: s in logs && e in logs[s]
  }

  ghost predicate IDInLogs(logs: map<nat, seq<Entry>>, d: DocID) {
    exists s, i :: s in logs && 0 <= i < |logs[s]| && logs[s][i].id == d
  }

  ghost predicate SubMap(a: map<DocID, LogRecord>, b: map<DocID, LogRecord>) {
    forall d | d in a :: d in b && b[d] == a[d]
  }

  ghost predicate SstHas(sstables: seq<Sst>, d: DocID) {
    exists i :: 0 <= i < |sstables| && d in sstables[i].contents
  }

  /** No two readable WAL records share a DocID. */
  ghost predicate UniqueIDs(logs: map<nat, seq<Entry>>) {
    forall s1, i1, s2, i2 |
      s1 in logs && 0 <= i1 < |logs[s1]| && s2 in logs && 0 <= i2 < |logs[s2]| &&
      logs[s1][i1].id == logs[s2][i2].id :: s1 == s2 && i1 == i2
  }

  /** The logs hold attempted entries, and for visible DocIDs the visible record. */
  ghost predicate LogsAgree(logs: map<nat, seq<Entry>>, view: map<DocID, LogRecord>, attempted: set<Entry>) {
    forall s, e | s in logs && e in logs[s] ::
      e in attempted && (e.id in view ==> view[e.id] == e.rec)
  }

  ghost predicate LogsBounded(logs: map<nat, seq<Entry>>, alloc: DocID) {
    forall s, e | s in logs && e in logs[s] :: e.id <= alloc
  }

  ghost predicate ViewAttempted(view: map<DocID, LogRecord>, attempted: set<Entry>) {
    forall d | d in view :: Entry(d, view[d]) in attempted
  }

  ghost predicate SstsAgree(ssts: map<nat, Sst>, view: map<DocID, LogRecord>) {
    forall id | id in ssts :: ssts[id].id == id && Exact(ssts[id]) && SubMap(ssts[id].contents, view)
  }

  ghost predicate AllFramed(c: Codec, segs: map<nat, seq<byte>>) {
    forall s | s in segs :: WellFramed(c, segs[s])
  }

  /** What holds of the disk whether or not a node is running on it. */
  ghost predicate DiskInv(c: Codec, d: Disk, view: map<DocID, LogRecord>, attempted: set<Entry>) {
    && AllFramed(c, d.segs)
    && UniqueIDs(Logs(c, d.segs))
    && LogsAgree(Logs(c, d.segs), view, attempted)
    && SstsAgree(d.ssts, view)
    && ViewAttempted(view, attempted)
  }

  // ---- the running node -------------------------------------------------------------------------

  ghost predicate SegsInv(m: Mem, segs: set<nat>) {
    && m.activeSeg in segs && m.activeSeg < m.nextSeg
    && (m.walOpen ==> forall s | s in segs :: s < m.nextSeg)
    && (forall i :: 0 <= i < |m.frozenWALs| ==> m.frozenWALs[i] < m.activeSeg)
    && (forall i, j :: 0 <= i < j < |m.frozenWALs| ==> m.frozenWALs[i] < m.frozenWALs[j])
    && (m.flush.FSwapped? ==> m.flush.seg < m.activeSeg)
    && (m.flush.FSwapped? ==> forall i :: 0 <= i < |m.frozenWALs| ==> m.flush.seg < m.frozenWALs[i])
  }

  /** Every entry of a MemTable is visible and readable in some segment still on disk. */
  ghost predicate TableInv(t: map<DocID, LogRecord>, logs: map<nat, seq<Entry>>, view: map<DocID, LogRecord>) {
    SubMap(t, view) && forall d | d in t :: InLogs(logs, Entry(d, t[d]))
  }

  ghost predicate Apart(t: map<DocID, LogRecord>, sstables: seq<Sst>) {
    forall d | d in t :: !SstHas(sstables, d)
  }

  ghost predicate TablesInv(m: Mem, logs: map<nat, seq<Entry>>, view: map<DocID, LogRecord>) {
    && TableInv(m.active.contents, logs, view)
    && (forall i :: 0 <= i < |m.frozen| ==> TableInv(m.frozen[i].contents, logs, view))
    && Apart(m.active.contents, m.sstables)
    && (forall i :: 0 <= i < |m.frozen| ==> Apart(m.frozen[i].contents, m.sstables))
    && (forall i :: 0 <= i < |m.frozen| ==> m.frozen[i].contents.Keys !! m.active.contents.Keys)
    && (forall i, j :: 0 <= i < j < |m.frozen| ==> m.frozen[i].contents.Keys !! m.frozen[j].contents.Keys)
  }

  /** The visible entries of a segment are all in the table t or in an SSTable. */
  ghost predicate CoveredBy(log: seq<Entry>, view: map<DocID, LogRecord>, t: map<DocID, LogRecord>,
                            sstables: seq<Sst>) {
    forall e | e in log && e.id in view :: e.id in t || SstHas(sstables, e.id)
  }

  function LogAt(logs: map<nat, seq<Entry>>, seg: nat): seq<Entry> {
    if seg in logs then logs[seg] else []
  }

  ghost predicate CoverInv(m: Mem, logs: map<nat, seq<Entry>>, view: map<DocID, LogRecord>) {
    && |m.frozenWALs| == |m.frozen|
    && CoveredBy(LogAt(logs, m.activeSeg), view, m.active.contents, m.sstables)
    && (forall i :: 0 <= i < |m.frozen| ==>
          CoveredBy(LogAt(logs, m.frozenWALs[i]), view, m.frozen[i].contents, m.sstables))
    && (m.flush.FSwapped? ==> CoveredBy(LogAt(logs, m.flush.seg), view, map[], m.sstables))
  }

  /** Every SSTable in the list is on disk; every SSTable on disk repeats listed ones or the oldest frozen table. */
  ghost predicate SstsInv(m: Mem, ssts: map<nat, Sst>, tmps: set<nat>) {
    && (forall s | s in m.sstables :: s.id in ssts && ssts[s.id] == s)
    && (forall id | id in ssts ::
          || (forall d | d in ssts[id].contents :: SstHas(m.sstables, d))
          || (m.frozen != [] && ssts[id].contents == m.frozen[0].contents))
    && (m.flush.FCommitted? ==> m.flush.sst.id in ssts && ssts[m.flush.sst.id] == m.flush.sst)
    && (forall id | id in ssts :: id <= m.sstSeq)
    && (forall id | id in tmps :: id <= m.sstSeq)
    && (m.flush.FWriting? ==> m.flush.sstID !in ssts && m.flush.sstID <= m.sstSeq)
  }

  ghost predicate WriterInv(pc: WriterPc, alloc: DocID, logs: map<nat, seq<Entry>>, activeSeg: nat,
                            view: map<DocID, LogRecord>, attempted: set<Entry>) {
    && (Pending(pc) ==> pc.e.id <= alloc && pc.e.id !in view && pc.e in attempted)
    && (pc.Allocated? || pc.Locked? ==> !IDInLogs(logs, pc.e.id))
    && (pc.Logged? ==> pc.e in LogAt(logs, activeSeg))
  }

  ghost predicate WritersInv(m: Mem, logs: map<nat, seq<Entry>>, view: map<DocID, LogRecord>, attempted: set<Entry>) {
    && (forall t :: 0 <= t < |m.writers| ==> WriterInv(m.writers[t], m.alloc, logs, m.activeSeg, view, attempted))
    && (forall t, u :: 0 <= t < u < |m.writers| && Pending(m.writers[t]) && Pending(m.writers[u]) ==>
          m.writers[t].e.id != m.writers[u].e.id)
  }

  ghost predicate AllocInv(m: Mem, logs: map<nat, seq<Entry>>, view: map<DocID, LogRecord>) {
    LogsBounded(logs, m.alloc) && forall d | d in view :: d <= m.alloc
  }

  /** What survives when the active segment loses everything behind its last fsync. */
  ghost predicate SyncInv(c: Codec, m: Mem, d: Disk, view: map<DocID, LogRecord>) {
    var file := SegBytes(d, m.activeSeg);
    && m.synced <= |file|
    && (forall e | e in Log(c, file) && (e.id in view || (exists t :: 0 <= t < |m.writers| && m.writers[t] == Logged(e))) ::
          e in Log(c, file[..m.synced]))
  }

  ghost predicate MemInv(env: Env, m: Mem, d: Disk, view: map<DocID, LogRecord>, attempted: set<Entry>) {
    var logs := Logs(env.c, d.segs);
    && Structure(env.cfg, m)
    && view == View(m)
    && SegsInv(m, d.segs.Keys)
    && TablesInv(m, logs, view)
    && CoverInv(m, logs, view)
    && SstsInv(m, d.ssts, d.tmps)
    && AllocInv(m, logs, view)
    && WritersInv(m, logs, view, attempted)
    && SyncInv(env.c, m, d, view)
  }

  ghost predicate Inv(env: Env, w: World) {
    && DiskInv(env.c, w.disk, w.view, w.attempted)
    && (w.node.Up? ==> MemInv(env, w.node.mem, w.disk, w.view, w.attempted))
  }

  // ---- provisos ---------------------------------------------------------------------------------

  /** A step that puts bytes into the active segment. */
  ghost predicate WritesSegment(env: Env, m: Mem, s: Step) {
    || s.Append?
    || (s.AppendFails? && s.k > 0)
    || (s.Crash? && InFlight(env.c, m, s.t, s.k) != [])
  }

  /** A segment is only written to while it ends at a record boundary, and the allocator does not wrap. */
  ghost predicate Careful(env: Env, w: World, s: Step) {
    w.node.Up? ==>
      && (WritesSegment(env, w.node.mem, s) ==> AtBoundary(SegBytes(w.disk, w.node.mem.activeSeg)))
      && (s.Alloc? ==> w.node.mem.alloc + 1 < U64)
  }
}
