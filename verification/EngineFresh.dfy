/** DocIDs over the whole life of a directory: what is never handed out again, and exactly what can be. */
module EngineFresh {
  import opened Bytes
  import opened Types
  import opened Wal
  import opened WalLog
  import opened MemTable
  import opened EngineState
  import opened EngineReads
  import opened EngineInv
  import opened EngineSteps
  import opened EngineRecovery
  import opened EngineOpen
  import opened EngineDurability
  import opened EngineLoss
  import opened EngineSafety

  // ---- since the last Open ----------------------------------------------------------------------

  ghost function IssuedBy(w: World, s: Step, acc: set<DocID>): set<DocID> {
    if s.Open? then {}
    else if w.node.Up? && s.Alloc? && CanAlloc(w.node.mem, s.t) then acc + {AllocEntry(w.node.mem, s.t).id}
    else acc
  }

  /** The DocIDs handed out along a list of steps since its last Open, on top of acc. */
  ghost function IssuedSince(env: Env, w: World, steps: seq<Step>, acc: set<DocID>): set<DocID>
    decreases |steps|
  {
    if steps == [] || !Enabled(env, w, steps[0]) then acc
    else IssuedSince(env, Do(env, w, steps[0]), steps[1..], IssuedBy(w, steps[0], acc))
  }

  lemma StepIssuedBelow(env: Env, w: World, s: Step, acc: set<DocID>)
    requires Enabled(env, w, s) && Careful(env, w, s)
    requires w.node.Up? ==> forall d | d in acc :: d <= w.node.mem.alloc
    ensures Do(env, w, s).node.Up? ==> forall d | d in IssuedBy(w, s, acc) :: d <= Do(env, w, s).node.mem.alloc
  {
    hide CanOpen, OpenedMem, OpenedDisk, View, SegBytes, AtBoundary, InFlight, Exact, CanFreeze, CanSwap, CanCommit, Fits,
         PutTable;
  }

  lemma {:induction false} IssuedBelow(env: Env, w: World, steps: seq<Step>, w': World, acc: set<DocID>)
    requires CarefulRun(env, w, steps, w')
    requires w.node.Up? ==> forall d | d in acc :: d <= w.node.mem.alloc
    ensures w'.node.Up? ==> forall d | d in IssuedSince(env, w, steps, acc) :: d <= w'.node.mem.alloc
    decreases |steps|
  {
    hide Enabled, Careful, Do, IssuedBy;
    if steps != [] {
      StepIssuedBelow(env, w, steps[0], acc);
      IssuedBelow(env, Do(env, w, steps[0]), steps[1..], w', IssuedBy(w, steps[0], acc));
    }
  }

  /** A DocID handed out is above everything visible, everything in an SSTable, everything readable in the WAL,
      every DocID another writer still holds and every DocID handed out since the last Open. */
  lemma NextIsFresh(env: Env, steps: seq<Step>, w: World, t: nat)
    requires Invertible(env.c) && CarefulRun(env, INITIAL, steps, w) && w.node.Up?
    requires CanAlloc(w.node.mem, t) && w.node.mem.alloc + 1 < U64
    ensures var id := AllocEntry(w.node.mem, t).id;
      && (forall d | d in w.view :: d < id)
      && (forall e | InLogs(Logs(env.c, w.disk.segs), e) :: e.id < id)
      && (forall k, d: DocID | k in w.disk.ssts && d in w.disk.ssts[k].contents :: d < id)
      && (forall d | d in IssuedSince(env, INITIAL, steps, {}) :: d < id)
      && (forall u :: 0 <= u < |w.node.mem.writers| && Pending(w.node.mem.writers[u]) ==> w.node.mem.writers[u].e.id < id)
  {
    hide CarefulRun, Logs, View, CoverInv, SyncInv, TablesInv, SegsInv, SstsInv, Structure, UniqueIDs, AllFramed,
         LogsAgree, Exact,
         IDInLogs;
    CarefulRunInv(env, steps, w);
    IssuedBelow(env, INITIAL, steps, w, {});
    var m, logs := w.node.mem, Logs(env.c, w.disk.segs);
    forall u | 0 <= u < |m.writers| && Pending(m.writers[u]) ensures m.writers[u].e.id <= m.alloc {
      assert WriterInv(m.writers[u], m.alloc, logs, m.activeSeg, w.view, w.attempted);
    }
    forall k, d: DocID | k in w.disk.ssts && d in w.disk.ssts[k].contents ensures d in w.view {
      assert SubMap(w.disk.ssts[k].contents, w.view);
    }
  }

  // ---- acknowledged writes, over all restarts ---------------------------------------------------

  /** Every completed DocID is visible or at or below some SSTable; while the node is down the disk can show every
      visible DocID again. */
  ghost predicate Kept(env: Env, w: World, done: map<DocID, LogRecord>) {
    && (forall d | d in done :: d in w.view || !AboveSsts(w.disk.ssts, d))
    && (w.node.Down? ==> Readable(env.c, w.disk, w.view))
  }

  ghost predicate Readable(c: Codec, d: Disk, view: map<DocID, LogRecord>) {
    forall x | x in view :: OnSst(d.ssts, x) || InLogs(Logs(c, d.segs), Entry(x, view[x]))
  }

  /** No step but a recovery that quarantines takes an SSTable away or changes one. */
  lemma SstsStay(env: Env, w: World, s: Step)
    requires Inv(env, w) && Enabled(env, w, s) && NothingQuarantined(s)
    ensures forall id | id in w.disk.ssts :: id in Do(env, w, s).disk.ssts && Do(env, w, s).disk.ssts[id] == w.disk.ssts[id]
  {
    hide DiskInv, Logs, View, TablesInv, CoverInv, SyncInv, AllocInv, SegsInv, Structure, WritersInv, SegBytes, Exact,
         CanOpen, OpenedMem, PutTable, Fits, Frame, InFlight, SstHas;
  }

  lemma AboveFewer(ssts: map<nat, Sst>, ssts': map<nat, Sst>, d: DocID)
    requires forall id | id in ssts :: id in ssts' && ssts'[id] == ssts[id]
    ensures AboveSsts(ssts', d) ==> AboveSsts(ssts, d)
  {
  }

  lemma UpStepKept(env: Env, w: World, s: Step, done: map<DocID, LogRecord>)
    requires Inv(env, w) && Positive(w.attempted) && Kept(env, w, done)
    requires w.node.Up? && !s.Crash? && Enabled(env, w, s) && Careful(env, w, s)
    ensures Kept(env, Do(env, w, s), DonePut(w, s, done))
  {
    hide Inv, Positive, AboveSsts, Enabled, Careful, Do, Readable;
    StepKeepsSubMap(env, w, s);
    NoOpenWhileUp(env, w, s);
    SstsStay(env, w, s);
    StepView(env, w, s);
    forall d | d in DonePut(w, s, done) ensures d in Do(env, w, s).view || !AboveSsts(Do(env, w, s).disk.ssts, d) {
      if d in done {
        AboveFewer(w.disk.ssts, Do(env, w, s).disk.ssts, d);
      }
    }
  }

  lemma CrashStepKept(env: Env, w: World, s: Step, done: map<DocID, LogRecord>)
    requires Inv(env, w) && Kept(env, w, done)
    requires w.node.Up? && s.Crash? && Enabled(env, w, s)
    ensures Kept(env, Do(env, w, s), DonePut(w, s, done))
  {
    hide Inv, AboveSsts, Enabled, Do, OnSst, InLogs, Logs, CanCrash, CrashDisk;
    CrashStepShape(env, w, s);
    InvParts(env, w);
    var d, d' := w.disk, Do(env, w, s).disk;
    assert d'.ssts == d.ssts by { CrashKeepsSsts(env, w, s); }
    forall x | x in w.view && !OnSst(d.ssts, x) ensures InLogs(Logs(env.c, d'.segs), Entry(x, w.view[x])) {
      NotOnSstInLogs(env, w, x);
      CrashKeepsVisible(env, w.node.mem, d, w.view, w.attempted, s.t, s.k, s.keep, Entry(x, w.view[x]));
    }
  }

  lemma CrashKeepsSsts(env: Env, w: World, s: Step)
    requires w.node.Up? && s.Crash? && Enabled(env, w, s)
    ensures Do(env, w, s).disk.ssts == w.disk.ssts
  {
    hide CanCrash, InFlight;
  }

  lemma OpenStepKept(env: Env, w: World, s: Step, done: map<DocID, LogRecord>)
    requires Inv(env, w) && Positive(w.attempted) && Kept(env, w, done)
    requires w.node.Down? && Enabled(env, w, s) && NothingQuarantined(s)
    ensures Kept(env, Do(env, w, s), DonePut(w, s, done))
  {
    hide Inv, AboveSsts, OnSst, InLogs, Logs, View, OpenedMem, CanOpen, Positive, OpenedDisk;
    InvParts(env, w);
    var d, d' := w.disk, Do(env, w, s).disk;
    SstsStay(env, w, s);
    forall x | x in done ensures x in Do(env, w, s).view || !AboveSsts(d'.ssts, x) {
      AboveFewer(d.ssts, d'.ssts, x);
      if AboveSsts(d'.ssts, x) {
        if OnSst(d.ssts, x) {
          OnSstNotAbove(env.c, d, w.view, w.attempted, x);
        }
        VisiblePositive(env, w, x);
        LoggedIsShown(env, d, s.ch, w.view, w.attempted, Entry(x, w.view[x]));
      }
    }
  }

  /** Recovery shows every readable log entry that is above the SSTables. */
  lemma LoggedIsShown(env: Env, d: Disk, ch: OpenChoice, view: map<DocID, LogRecord>, attempted: set<Entry>, e: Entry)
    requires DiskInv(env.c, d, view, attempted) && CanOpen(env, d, ch)
    requires InLogs(Logs(env.c, d.segs), e) && AboveSsts(d.ssts, e.id) && e.id > 0
    ensures e.id in View(OpenedMem(env, d, ch))
  {
    hide DiskInv, Logs, InLogs, IDInLogs, View, OpenedMem, Recovered, SstHas, AboveSsts;
    AdoptedKeepsDiskInv(env.c, d, view, attempted);
    InLogsHasID(Logs(env.c, AdoptedSegs(d)), e);
    AboveCutoff(d, ch, e.id);
    OpenShowsExactly(env, d, ch, view, attempted, e.id);
  }

  lemma StepKept(env: Env, w: World, s: Step, done: map<DocID, LogRecord>)
    requires Inv(env, w) && Positive(w.attempted) && Kept(env, w, done)
    requires Enabled(env, w, s) && Careful(env, w, s) && NothingQuarantined(s)
    ensures Kept(env, Do(env, w, s), DonePut(w, s, done))
  {
    hide Inv, Positive, Kept, Enabled, Careful, Do, DonePut;
    if w.node.Down? {
      OpenStepKept(env, w, s, done);
    } else if s.Crash? {
      CrashStepKept(env, w, s, done);
    } else {
      UpStepKept(env, w, s, done);
    }
  }

  lemma {:induction false} RunKept(env: Env, w: World, steps: seq<Step>, w': World, done: map<DocID, LogRecord>)
    requires Invertible(env.c) && Inv(env, w) && Positive(w.attempted) && Kept(env, w, done)
    requires CarefulRun(env, w, steps, w') && forall s | s in steps :: NothingQuarantined(s)
    ensures Kept(env, w', Completed(env, w, steps, done))
    decreases |steps|
  {
    hide Inv, Positive, Kept, Enabled, Careful, Do, DonePut, NothingQuarantined;
    if steps != [] {
      assert steps[0] in steps;
      StepKept(env, w, steps[0], done);
      StepKeepsInv(env, w, steps[0]);
      StepHistories(env, w, steps[0]);
      RunKept(env, Do(env, w, steps[0]), steps[1..], w', DonePut(w, steps[0], done));
    }
  }

  /** Everything visible and everything some SSTable reaches up to is at or below the counter. */
  lemma KeptBelow(env: Env, w: World, d: DocID)
    requires Inv(env, w) && w.node.Up? && (d in w.view || !AboveSsts(w.disk.ssts, d))
    ensures d <= w.node.mem.alloc
  {
    hide Logs, View, TablesInv, CoverInv, SyncInv, SegsInv, SstsInv, Structure, WritersInv, UniqueIDs, AllFramed, LogsAgree;
    if d !in w.view {
      var id :| id in w.disk.ssts && d <= w.disk.ssts[id].maxDoc;
      assert Exact(w.disk.ssts[id]) && SubMap(w.disk.ssts[id].contents, w.view);
      assert w.disk.ssts[id].maxDoc in w.view;
    }
  }

  lemma AllKeptBelow(env: Env, w: World, done: map<DocID, LogRecord>)
    requires Inv(env, w) && w.node.Up? && Kept(env, w, done)
    ensures forall d | d in done :: d <= w.node.mem.alloc
  {
    hide Inv, AboveSsts;
    forall d | d in done ensures d <= w.node.mem.alloc {
      KeptBelow(env, w, d);
    }
  }

  /**
   The DocID of an acknowledged write is never handed out again: over any run from the empty directory in which no
   SSTable is quarantined, with any number of crashes and recoveries and in whatever order tables are rotated, the
   next DocID exceeds that of every completed put - even of one a crash has lost since.
   */
  lemma AcknowledgedNeverReissued(env: Env, steps: seq<Step>, w: World, t: nat)
    requires Invertible(env.c) && CarefulRun(env, INITIAL, steps, w) && forall s | s in steps :: NothingQuarantined(s)
    requires w.node.Up? && CanAlloc(w.node.mem, t) && w.node.mem.alloc + 1 < U64
    ensures forall d | d in Completed(env, INITIAL, steps, map[]) :: d < AllocEntry(w.node.mem, t).id
  {
    hide Inv, Positive, CarefulRun, Kept, Completed;
    CarefulRunInv(env, steps, w);
    InitialInv(env);
    RunKept(env, INITIAL, steps, w, map[]);
    AllKeptBelow(env, w, Completed(env, INITIAL, steps, map[]));
  }

  lemma InitialInv(env: Env)
    ensures Inv(env, INITIAL) && Positive(INITIAL.attempted) && Kept(env, INITIAL, map[])
  {
    hide Logs;
    InitialDurable(env);
  }

  // ---- exactly what a restart hands out again ---------------------------------------------------

  /**
   Where the counter starts after any recovery, quarantine included: a DocID can be handed out again if and only if
   it is above every loaded SSTable and above every record readable in the WAL.
   */
  lemma HandedOutAgainIff(env: Env, d: Disk, ch: OpenChoice, view: map<DocID, LogRecord>, attempted: set<Entry>,
                          x: DocID)
    requires DiskInv(env.c, d, view, attempted) && CanOpen(env, d, ch) && x > 0
    ensures x > OpenedMem(env, d, ch).alloc <==>
      AboveSsts(d.ssts - ch.quarantined, x) && forall e | InLogs(Logs(env.c, d.segs), e) :: e.id < x
  {
    hide DiskInv, Logs, InLogs, Exact, ReplaySegs, SortedIDs;
    OpenRebuilds(env, d, ch, view, attempted);
    AdoptedKeepsDiskInv(env.c, d, view, attempted);
    LoadedBelow(d, ch, x);
    if Cutoff(ch.order) < x {
      RecoveredBelow(env, d, ch, view, x);
    }
  }

  lemma LoadedBelow(d: Disk, ch: OpenChoice, x: DocID)
    requires LoadedAs(ch.order, d.ssts, ch.quarantined) && x > 0 && forall s | s in ch.order :: Exact(s)
    ensures Cutoff(ch.order) < x <==> AboveSsts(d.ssts - ch.quarantined, x)
  {
    hide NewestFirst, Exact;
    var loaded := d.ssts - ch.quarantined;
    CutoffBounds(ch.order);
    if AboveSsts(loaded, x) {
      forall s | s in ch.order ensures s.maxDoc < x {
        assert s.id in loaded;
      }
      AboveCutoffList(ch.order, x);
    }
    if Cutoff(ch.order) < x {
      forall id | id in loaded ensures loaded[id].maxDoc < x {
        assert d.ssts[id] in ch.order;
      }
    }
  }

  lemma RecoveredBelow(env: Env, d: Disk, ch: OpenChoice, view: map<DocID, LogRecord>, x: DocID)
    requires CanOpen(env, d, ch) && Rebuilt(env.c, d, ch.order, Recovered(env, d, ch).value.contents, view)
    requires Cutoff(ch.order) < x
    ensures ch.memMax < x <==> forall e | InLogs(Logs(env.c, AdoptedSegs(d)), e) :: e.id < x
  {
    hide Logs, InLogs, Exact, ReplaySegs, SortedIDs, LoadedAs;
    var a, logs := Recovered(env, d, ch).value.contents, Logs(env.c, AdoptedSegs(d));
    if forall e | InLogs(logs, e) :: e.id < x {
      assert ch.memMax in a ==> InLogs(logs, Entry(ch.memMax, a[ch.memMax]));
    }
  }
}
