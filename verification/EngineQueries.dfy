/** A query on a running engine: the snapshot of its sources under the reachable-state invariant. */
module EngineQueries {
  import opened Types
  import opened EntryList
  import opened MemTable
  import opened EngineState
  import opened EngineReads
  import opened EngineInv
  import EngineDurability
  import EngineLoss
  import opened ScanHeap
  import opened Scan
  import opened QueryAst
  import opened Executor
  import opened Planner
  import opened QueryResults
  import opened Pushdown

  /** The sources ScanWithOptions snapshots, in priority order: active, frozen newest first, SSTables newest first. */
  ghost function Snapshot(m: Mem): (r: seq<ScanSource>)
    ensures |r| == |Layers(m)|
    ensures forall i | 0 <= i < |r| :: r[i].src == Source(Listing(Layers(m)[i]), None)
  {
    hide Listing;
    var tables := 1 + |FrozenLayers(m.frozen)|;
    seq(|Layers(m)|, i requires 0 <= i < |Layers(m)| =>
      if i < tables then ScanSource.MemTable(Source(Listing(Layers(m)[i]), None))
      else File(Source(Listing(Layers(m)[i]), None), m.sstables[i - tables].minTs, m.sstables[i - tables].maxTs))
  }

  /** Which MemTable or SSTable a layer is. */
  lemma LayerOf(m: Mem, i: nat)
    requires i < |Layers(m)|
    ensures var tables := 1 + |FrozenLayers(m.frozen)|;
      && (i == 0 ==> Layers(m)[i] == m.active.contents)
      && (0 < i < tables ==> exists t :: t in m.frozen && t.contents == Layers(m)[i])
      && (tables <= i ==> i - tables < |m.sstables| && Layers(m)[i] == m.sstables[i - tables].contents)
  {
    hide FrozenLayers;
    if 0 < i < 1 + |FrozenLayers(m.frozen)| {
      var j := EngineDurability.FrozenLayerOf(m.frozen, i - 1);
      assert m.frozen[j] in m.frozen;
    }
  }

  /** In a reachable state every layer repeats the visible records, so copies of a DocID always agree. */
  lemma LayersAgree(env: Env, w: World, i: nat)
    requires Inv(env, w) && w.node.Up? && i < |Layers(w.node.mem)|
    ensures SubMap(Layers(w.node.mem)[i], w.view)
  {
    hide Layers, FrozenLayers, CoverInv, WritersInv, SyncInv, AllocInv, SegsInv, Structure, Exact, LogsAgree, UniqueIDs,
         AllFramed, View, SubMap, InLogs, Apart;
    LayerOf(w.node.mem, i);
  }

  lemma ListedIsExact(env: Env, w: World, s: Sst)
    requires Inv(env, w) && w.node.Up? && s in w.node.mem.sstables
    ensures Exact(s)
  {
    hide CoverInv, WritersInv, SyncInv, AllocInv, SegsInv, Structure, TablesInv, LogsAgree, UniqueIDs, AllFramed,
         View, Exact;
    assert w.disk.ssts[s.id] == s;
  }

  lemma EntryOfListing(m: map<DocID, LogRecord>, e: Entry)
    requires e in Listing(m)
    ensures e.id in m && m[e.id] == e.rec
  {
  }

  lemma SnapshotAgrees(env: Env, w: World)
    requires Inv(env, w) && w.node.Up?
    ensures CopiesAgree(Visible(Snapshot(w.node.mem), NO_OPTIONS))
  {
    hide Listing, Layers, Inv;
    var srcs := Visible(Snapshot(w.node.mem), NO_OPTIONS);
    forall i: nat, e: Entry | i < |srcs| && e in srcs[i] ensures e.id in w.view && w.view[e.id] == e.rec {
      LayersAgree(env, w, i);
      EntryOfListing(Layers(w.node.mem)[i], e);
    }
  }

  lemma SnapshotRanges(env: Env, w: World)
    requires Inv(env, w) && w.node.Up?
    ensures RangesExact(Snapshot(w.node.mem))
  {
    hide Listing, Inv, FrozenLayers, Exact;
    var m := w.node.mem;
    var sources := Snapshot(m);
    var tables := 1 + |FrozenLayers(m.frozen)|;
    forall i, e | 0 <= i < |sources| && sources[i].File? && e in sources[i].src.items
      ensures sources[i].minTS <= e.rec.timestamp <= sources[i].maxTS
    {
      var s := m.sstables[i - tables];
      assert Layers(m)[i] == s.contents;
      EntryOfListing(s.contents, e);
      ListedIsExact(env, w, s);
      ExactRange(s, e);
    }
  }

  lemma ExactRange(s: Sst, e: Entry)
    requires Exact(s) && e.id in s.contents && s.contents[e.id] == e.rec
    ensures s.minTs <= e.rec.timestamp <= s.maxTs
  {
  }

  lemma SnapshotErrorFree(m: Mem)
    ensures ErrorFree(Snapshot(m))
  {
    hide Listing, Layers;
  }

  /**
   A query on an engine in any state its careful runs reach - with writers, rotations and a flush under way -
   answers over exactly the records Get sees, pushdown or not - errors included, unless a record outside the planned
   bounds makes the WHERE err.
   */
  lemma QueryAnswersView(env: Env, steps: seq<Step>, w: World, k: Clock, stmt: Statement)
    requires Invertible(env.c) && EngineLoss.CarefulRun(env, INITIAL, steps, w) && w.node.Up?
    requires forall e | e in Listing(w.view) && !Within(PlanOf(k, stmt.where), e.rec.timestamp) ::
               !Errs(k, stmt.where, e)
    ensures var sources, o := Snapshot(w.node.mem), PlanOf(k, stmt.where);
      Answer(k, stmt, Merged(sources, o), NEVER, Reported(sources, o)) == Answer(k, stmt, Listing(w.view), NEVER, false)
  {
    hide Listing, Layers, View, Answer, PlanOf, Merged, Reported, DiskInv, CopiesAgree, RangesExact, Visible,
         TablesInv, CoverInv, WritersInv, SyncInv, Snapshot, ErrorFree, Errs, Within, Structure, SegsInv, SstsInv, AllocInv,
         EngineLoss.CarefulRun;
    EngineLoss.CarefulRunInv(env, steps, w);
    var m := w.node.mem;
    var sources := Snapshot(m);
    SnapshotAgrees(env, w);
    SnapshotRanges(env, w);
    ScanIsView(m, sources);
    assert SourcesAscend(sources);
    assert ErrorFree(sources) by { SnapshotErrorFree(m); }
    NoneReported(sources, NO_OPTIONS);
    PushdownPreservesAnswer(k, stmt, sources);
  }
}
