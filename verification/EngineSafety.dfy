/** What the invariants say about the WAL, the allocator and recovery, for every run that respects Careful. */
module EngineSafety {
  import opened Types
  import opened Wal
  import opened WalLog
  import opened MemTable
  import opened EngineState
  import opened EngineReads
  import opened EngineInv
  import opened EngineSteps
  import opened EngineRecovery
  import opened EngineOpen
  import opened EngineDurability
  import opened EngineLoss

  /** Whatever an engine shows, recovered any number of times, was handed to some Write under that DocID. */
  lemma NothingUnattemptedAppears(env: Env, steps: seq<Step>, w: World, d: DocID)
    requires Invertible(env.c) && CarefulRun(env, INITIAL, steps, w) && w.node.Up?
    requires SearchLayers(Layers(w.node.mem), d).Some?
    ensures Entry(d, SearchLayers(Layers(w.node.mem), d).value) in w.attempted
  {
    hide Inv, Layers, DiskInv, SearchLayers, CarefulRun, View;
    CarefulRunInv(env, steps, w);
    InvParts(env, w);
    DiskViewAttempted(env.c, w.disk, w.view, w.attempted);
    SearchIsLookup(Layers(w.node.mem), d);
    ViewIsOverlay(w.node.mem);
    UpView(env, w);
  }

  lemma UpView(env: Env, w: World)
    requires Inv(env, w) && w.node.Up?
    ensures w.view == View(w.node.mem)
  {
    hide DiskInv, Logs, View, TablesInv, CoverInv, SyncInv, AllocInv, WritersInv, SegsInv, SstsInv, Structure;
  }

  /** Invariant 1 of the engine: every MemTable entry is readable in some WAL segment still on disk. */
  lemma MemTablesAreLogged(env: Env, steps: seq<Step>, w: World, t: Table, d: DocID)
    requires Invertible(env.c) && CarefulRun(env, INITIAL, steps, w) && w.node.Up?
    requires t == w.node.mem.active || t in w.node.mem.frozen
    requires d in t.contents
    ensures InLogs(Logs(env.c, w.disk.segs), Entry(d, t.contents[d]))
    ensures Structure(env.cfg, w.node.mem)
  {
    hide CarefulRun, DiskInv, Logs, View, CoverInv, SyncInv, AllocInv, WritersInv, SegsInv, SstsInv, Structure, InLogs;
    CarefulRunInv(env, steps, w);
    if t in w.node.mem.frozen {
      var i :| 0 <= i < |w.node.mem.frozen| && w.node.mem.frozen[i] == t;
      assert TableInv(w.node.mem.frozen[i].contents, Logs(env.c, w.disk.segs), w.view);
    }
  }

  /** No two records of the whole WAL carry one DocID, in any reachable state, up or down. */
  lemma WalDocIDsAreUnique(env: Env, steps: seq<Step>, w: World)
    requires Invertible(env.c) && CarefulRun(env, INITIAL, steps, w)
    ensures UniqueIDs(Logs(env.c, w.disk.segs))
  {
    hide CarefulRun, MemInv, Logs, UniqueIDs, Exact;
    CarefulRunInv(env, steps, w);
  }

  /** The counter never goes back while the node is up, and grows exactly when a DocID is handed out. */
  lemma AllocNeverDecreases(env: Env, w: World, s: Step)
    requires Enabled(env, w, s) && Careful(env, w, s) && w.node.Up? && !s.Crash?
    ensures Do(env, w, s).node.Up?
    ensures Do(env, w, s).node.mem.alloc == w.node.mem.alloc + if s.Alloc? then 1 else 0
  {
    hide SegBytes, AtBoundary, InFlight, Exact, CanFreeze, CanSwap, CanCommit, Fits, PutTable;
  }

  /**
   Exactly what Open makes visible, quarantine included: loaded SSTables, and WAL entries above their cut-off; the latter
   are the MemTable.
   */
  lemma OpenShowsExactly(env: Env, d: Disk, ch: OpenChoice, view: map<DocID, LogRecord>, attempted: set<Entry>,
                         x: DocID)
    requires DiskInv(env.c, d, view, attempted) && CanOpen(env, d, ch)
    ensures x in View(OpenedMem(env, d, ch)) <==>
            SstHas(ch.order, x) || (x > Cutoff(ch.order) && IDInLogs(Logs(env.c, AdoptedSegs(d)), x))
    ensures x in OpenedMem(env, d, ch).active.contents <==>
            x > 0 && (forall s | s in ch.order :: s.maxDoc < x) && IDInLogs(Logs(env.c, AdoptedSegs(d)), x)
  {
    hide Logs, Exact, ReplaySegs, SstHas, View, Rebuild, Cutoff, DiskInv, InLogs, IDInLogs;
    OpenRebuilds(env, d, ch, view, attempted);
    OpenedView(env, d, ch);
    var a, logs := Recovered(env, d, ch).value.contents, Logs(env.c, AdoptedSegs(d));
    RebuildFacts(env.c, d, ch.order, a, view, attempted);
    if x in a {
      InLogsHasID(logs, Entry(x, a[x]));
    }
    IDHasEntry(logs, x);
    AboveAll(ch.order, x);
    InOverlayHas(env.c, d, ch.order, a, view, x);
  }

  lemma {:induction false} AboveAll(order: seq<Sst>, x: DocID)
    ensures x > Cutoff(order) <==> x > 0 && forall s | s in order :: s.maxDoc < x
    decreases |order|
  {
    if order != [] {
      AboveAll(order[1..], x);
      assert order[0] in order && forall s | s in order :: s == order[0] || s in order[1..];
    }
  }

  /** x does not lie above every loaded SSTable. */
  ghost predicate Reached(order: seq<Sst>, x: DocID) {
    x == 0 || exists s :: s in order && s.maxDoc >= x
  }

  /**
   Exactly what Open deletes: segments with a newer one beside them in which every readable DocID lies at or below the
   largest of some loaded SSTable - unless the deletion fails.
   */
  lemma OpenDeletesExactly(env: Env, d: Disk, ch: OpenChoice, seg: nat)
    requires OpenChoiceOk(env, d, ch) && ch.ids != [] && seg in AdoptedSegs(d)
    ensures seg !in OpenedDisk(d, ch).segs <==>
      && (exists id :: id in AdoptedSegs(d) && id > seg) && seg !in ch.undeleted
      && forall r | r in Replay(AdoptedSegs(d)[seg], 0) && DecodePayload(r.payload).Some? ::
           Reached(ch.order, DecodePayload(r.payload).value.0)
    ensures seg in OpenedDisk(d, ch).segs ==> OpenedDisk(d, ch).segs[seg] == AdoptedSegs(d)[seg]
    ensures OpenedDisk(d, ch).segs.Keys <= AdoptedSegs(d).Keys && OpenedDisk(d, ch).tmps == {}
    ensures OpenedDisk(d, ch).ssts == d.ssts - ch.quarantined
  {
    hide Replay, DecodePayload, Cutoff, LoadedAs, Reached;
    var last := ch.ids[|ch.ids| - 1];
    assert seg in ch.ids && last in AdoptedSegs(d);
    LastIsGreatest(ch.ids, AdoptedSegs(d).Keys);
    forall x: DocID ensures Reached(ch.order, x) <==> x <= Cutoff(ch.order) {
      ReachedIs(ch.order, x);
    }
    var segs := AdoptedSegs(d);
    if seg != last {
      assert last in segs && last > seg;
    }
    assert DeletedAtOpen(d, ch, seg) <==>
      seg != last && seg !in ch.undeleted && FullyCovered(segs[seg], Cutoff(ch.order));
  }

  lemma ReachedIs(order: seq<Sst>, x: DocID)
    ensures Reached(order, x) <==> x <= Cutoff(order)
  {
    hide Cutoff;
    AboveAll(order, x);
  }

  lemma LastIsGreatest(ids: seq<nat>, keys: set<nat>)
    requires SortedIDs(ids, keys) && ids != []
    ensures forall id | id in keys :: id <= ids[|ids| - 1]
  {
  }

  lemma IDHasEntry(logs: map<nat, seq<Entry>>, x: DocID)
    ensures IDInLogs(logs, x) ==> exists e :: InLogs(logs, e) && e.id == x
  {
    if IDInLogs(logs, x) {
      var s, i :| s in logs && 0 <= i < |logs[s]| && logs[s][i].id == x;
      assert InLogs(logs, logs[s][i]);
    }
  }

  lemma InOverlayHas(c: Codec, d: Disk, order: seq<Sst>, a: map<DocID, LogRecord>, view: map<DocID, LogRecord>,
                     x: DocID)
    requires Rebuilt(c, d, order, a, view)
    ensures x in Rebuild(order, a) <==> x in a || SstHas(order, x)
  {
    hide Exact, Logs, InLogs, SstHas;
    SstOverlay(order, view);
  }
}
