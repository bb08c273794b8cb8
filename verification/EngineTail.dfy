/**
 What the boundary proviso is for. A crash can leave a torn record at the end of a segment, Open adopts the
 segment as it is, and what is written behind the torn bytes is acknowledged: exactly when it survives.
 */
module EngineTail {
  import opened Bytes
  import opened Types
  import opened WalRecord
  import opened Wal
  import opened WalLog
  import opened MemTable
  import opened EngineState
  import opened EngineReads
  import opened EngineInv
  import opened EngineSteps
  import opened EngineOpen
  import opened EngineDurability
  import opened EngineLoss
  import opened EngineFresh

  /** The bytes of the active segment that replay does not get past. */
  function Tail(w: World): seq<byte>
    requires w.node.Up?
  {
    Leftover(SegBytes(w.disk, w.node.mem.activeSeg))
  }

  // ---- a crash leaves a torn tail ---------------------------------------------------------------

  lemma CrashShape(env: Env, w: World, t: nat, k: nat, keep: nat)
    requires w.node.Up? && CanCrash(env.c, w.node.mem, w.disk, t, k, keep)
    ensures Enabled(env, w, Crash(t, k, keep))
    ensures Do(env, w, Crash(t, k, keep)) == w.(node := Down, disk := CrashDisk(env.c, w.node.mem, w.disk, t, k, keep))
  {
    hide CanCrash, CrashDisk;
  }

  lemma InFlightFrame(c: Codec, m: Mem, t: nat, k: nat)
    requires t < |m.writers| && m.writers[t].Locked? && Fits(c, m.writers[t].e) && k <= |Frame(c, m.writers[t].e)|
    ensures InFlight(c, m, t, k) == Frame(c, m.writers[t].e)[..k] && |InFlight(c, m, t, k)| == k
  {
    hide Fits, Frame;
  }

  lemma CrashIsCareful(env: Env, w: World, t: nat, k: nat, keep: nat)
    requires w.node.Up? && AtBoundary(SegBytes(w.disk, w.node.mem.activeSeg))
    ensures Careful(env, w, Crash(t, k, keep))
  {
    hide AtBoundary, SegBytes;
  }

  lemma TornByte(c: Codec, file: seq<byte>, e: Entry)
    requires AtBoundary(file) && Fits(c, e) && |Frame(c, e)| > 1
    ensures Leftover((file + Frame(c, e)[..1])[..|file| + 1]) == Frame(c, e)[..1]
  {
    hide Leftover, Frame, Fits;
    var x := Frame(c, e)[..1];
    ReplayAppend(file, x, 0);
    LogOfTornFrame(c, e, 1);
    assert [] + x == x;
    assert (file + x)[..|file| + 1] == file + x;
  }

  lemma SyncedInFile(env: Env, w: World)
    requires Inv(env, w) && w.node.Up?
    ensures w.node.mem.synced <= |SegBytes(w.disk, w.node.mem.activeSeg)|
  {
    hide DiskInv, Logs, View, TablesInv, CoverInv, AllocInv, WritersInv, SegsInv, SstsInv, Structure, Log;
  }

  lemma CrashedSeg(c: Codec, m: Mem, d: Disk, t: nat, k: nat, keep: nat)
    requires CanCrash(c, m, d, t, k, keep)
    ensures SegBytes(CrashDisk(c, m, d, t, k, keep), m.activeSeg)
            == (SegBytes(d, m.activeSeg) + InFlight(c, m, t, k))[..keep]
  {
    hide InFlight;
  }

  lemma FrameIsLong(c: Codec, e: Entry)
    requires Fits(c, e)
    ensures |Frame(c, e)| == HEADER_SIZE + |Payload(c, e)| && |Payload(c, e)| >= 8
  {
  }

  /** A crash in the middle of an append can leave one torn byte; Open adopts the segment as it is. */
  lemma CrashLeavesTornByte(env: Env, w: World, t: nat)
    requires Inv(env, w) && w.node.Up?
    requires t < |w.node.mem.writers| && w.node.mem.writers[t].Locked? && Fits(env.c, w.node.mem.writers[t].e)
    requires AtBoundary(SegBytes(w.disk, w.node.mem.activeSeg))
    ensures var s := Crash(t, 1, |SegBytes(w.disk, w.node.mem.activeSeg)| + 1);
      && Enabled(env, w, s) && Careful(env, w, s)
      && Leftover(SegBytes(Do(env, w, s).disk, w.node.mem.activeSeg)) == Frame(env.c, w.node.mem.writers[t].e)[..1]
  {
    var m, e := w.node.mem, w.node.mem.writers[t].e;
    var file := SegBytes(w.disk, m.activeSeg);
    FrameIsLong(env.c, e);
    SyncedInFile(env, w);
    InFlightFrame(env.c, m, t, 1);
    hide Inv, Leftover, Frame, Fits, SegBytes, Enabled, Do, CrashDisk, Payload, InFlight, AtBoundary;
    CrashShape(env, w, t, 1, |file| + 1);
    CrashIsCareful(env, w, t, 1, |file| + 1);
    CrashedSeg(env.c, m, w.disk, t, 1, |file| + 1);
    TornByte(env.c, file, e);
  }

  // ---- an append behind it ----------------------------------------------------------------------

  /** Writer t's append succeeds and its record becomes visible; the node stops between two appends; Open. */
  function AckThenCrash(t: nat, s: Step, ch: OpenChoice): seq<Step> {
    [Append(t)] + [Put(t)] + [s] + [Open(ch)]
  }

  ghost predicate ReadyToAppend(env: Env, w: World, t: nat) {
    && w.node.Up? && t < |w.node.mem.writers| && w.node.mem.writers[t].Locked?
    && Fits(env.c, w.node.mem.writers[t].e)
    && NoStrayRecord(Tail(w), Frame(env.c, w.node.mem.writers[t].e))
  }

  /** What replay makes of the write: it is found exactly when the tail and the frame together start with it. */
  ghost predicate Found(env: Env, w: World, t: nat)
    requires ReadyToAppend(env, w, t)
  {
    var frame := Frame(env.c, w.node.mem.writers[t].e);
    frame <= Tail(w) + frame
  }

  lemma ReadyEntry(env: Env, w: World, t: nat)
    requires Inv(env, w) && w.node.Up? && t < |w.node.mem.writers| && w.node.mem.writers[t].Locked?
    ensures var e := w.node.mem.writers[t].e;
      && e.id !in w.view && e in w.attempted && !IDInLogs(Logs(env.c, w.disk.segs), e.id)
    ensures w.node.mem.activeSeg in w.disk.segs && !w.node.mem.active.frozen
  {
    hide DiskInv, Logs, View, TablesInv, CoverInv, SyncInv, AllocInv, SstsInv, IDInLogs;
    assert WriterInv(w.node.mem.writers[t], w.node.mem.alloc, Logs(env.c, w.disk.segs), w.node.mem.activeSeg, w.view,
                     w.attempted);
    assert HoldsReadLock(w.node.mem.writers[t]);
  }

  /** The map a disk is good for after the append. */
  function ShownView(view: map<DocID, LogRecord>, e: Entry, found: bool): map<DocID, LogRecord> {
    if found then view[e.id := e.rec] else view
  }

  lemma AppendedDisk(env: Env, w: World, t: nat)
    requires Invertible(env.c) && Inv(env, w) && ReadyToAppend(env, w, t)
    ensures var d', e := AppendDisk(env.c, w.node.mem, w.disk, t), w.node.mem.writers[t].e;
      && DiskInv(env.c, d', ShownView(w.view, e, Found(env, w, t)), w.attempted)
      && (Found(env, w, t) ==> InLogs(Logs(env.c, d'.segs), e))
      && (!Found(env, w, t) ==> !IDInLogs(Logs(env.c, d'.segs), e.id))
  {
    hide Inv, DiskInv, Log, WellFramed, Leftover, Frame, Fits, IDInLogs, NoStrayRecord;
    var d, e, seg := w.disk, w.node.mem.writers[t].e, w.node.mem.activeSeg;
    var d', es := AppendDisk(env.c, w.node.mem, d, t), if Found(env, w, t) then [e] else [];
    ReadyEntry(env, w, t);
    InvParts(env, w);
    DiskParts(env.c, d, w.view, w.attempted);
    LogBehindLeftover(env.c, SegBytes(d, seg), e);
    WriteExtends(env.c, d, seg, Frame(env.c, e), es);
    if Found(env, w, t) {
      ExtendKeepsDiskInv(env.c, d, d', seg, e, w.view, w.attempted);
      ExtendOne(Logs(env.c, d.segs), seg, e, Logs(env.c, d'.segs));
      PutKeepsDiskInv(env.c, d', e, w.view, w.attempted);
    } else {
      ExtendNone(Logs(env.c, d.segs), seg, Logs(env.c, d'.segs));
      SameLogsDiskInv(env.c, d, d', w.view, w.attempted);
    }
  }

  lemma NotOnDisk(env: Env, w: World, x: DocID)
    requires Inv(env, w) && x !in w.view
    ensures !OnSst(w.disk.ssts, x)
  {
    hide MemInv, Logs, AllFramed, UniqueIDs, LogsAgree, Exact;
  }

  lemma RunsCons(env: Env, w: World, a: Step, rest: seq<Step>, w': World)
    ensures Runs(env, w, [a] + rest, w') <==> Enabled(env, w, a) && Runs(env, Do(env, w, a), rest, w')
  {
    hide Enabled, Do;
    assert ([a] + rest)[1..] == rest;
  }

  lemma RunsOne(env: Env, w: World, a: Step, w': World)
    ensures Runs(env, w, [a] + [], w') <==> Enabled(env, w, a) && w' == Do(env, w, a)
  {
    hide Enabled, Do;
    assert ([a] + [])[1..] == [];
  }

  lemma FourSteps(env: Env, w: World, a: Step, b: Step, c: Step, d: Step, w': World)
    ensures Runs(env, w, [a] + [b] + [c] + [d], w') <==>
      && Enabled(env, w, a)
      && Enabled(env, Do(env, w, a), b)
      && Enabled(env, Do(env, Do(env, w, a), b), c)
      && Enabled(env, Do(env, Do(env, Do(env, w, a), b), c), d)
      && w' == Do(env, Do(env, Do(env, Do(env, w, a), b), c), d)
  {
    hide Enabled, Do, Runs;
    assert [a] + [b] + [c] + [d] == [a] + ([b] + ([c] + ([d] + [])));
    RunsCons(env, w, a, [b] + ([c] + ([d] + [])), w');
    if Enabled(env, w, a) {
      var w1 := Do(env, w, a);
      RunsCons(env, w1, b, [c] + ([d] + []), w');
      if Enabled(env, w1, b) {
        var w2 := Do(env, w1, b);
        RunsCons(env, w2, c, [d] + [], w');
        if Enabled(env, w2, c) {
          RunsOne(env, Do(env, w2, c), d, w');
        }
      }
    }
  }

  lemma AckShape(env: Env, w: World, t: nat)
    requires w.node.Up? && CanAppend(env.c, w.node.mem, t) && !w.node.mem.active.frozen
    ensures Enabled(env, w, Append(t)) && Enabled(env, Do(env, w, Append(t)), Put(t))
    ensures var m, d := w.node.mem, AppendDisk(env.c, w.node.mem, w.disk, t);
      var w2 := Do(env, Do(env, w, Append(t)), Put(t));
      && w2.node.Up? && w2.disk == d && w2.attempted == w.attempted
      && w2.node.mem.activeSeg == m.activeSeg && w2.node.mem.writers == m.writers[t := Idle]
      && w2.node.mem.synced == |SegBytes(d, m.activeSeg)|
  {
    hide Fits, Frame, PutTable, WriteSeg, SegBytes;
  }

  /** With nothing in flight a crash right behind an fsync changes no byte. */
  lemma QuietCrash(env: Env, w: World, s: Step)
    requires w.node.Up? && s.Crash? && s.k == 0 && Enabled(env, w, s)
    requires w.node.mem.activeSeg in w.disk.segs
    requires w.node.mem.synced == |SegBytes(w.disk, w.node.mem.activeSeg)|
    ensures Do(env, w, s) == w.(node := Down)
  {
    hide Fits, Frame;
    var file := SegBytes(w.disk, w.node.mem.activeSeg);
    assert InFlight(env.c, w.node.mem, s.t, 0) == [];
    assert file + [] == file && file[..|file|] == file;
    assert w.disk.segs[w.node.mem.activeSeg := file] == w.disk.segs;
  }

  lemma AppendedSegs(env: Env, w: World, t: nat)
    requires w.node.Up? && CanAppend(env.c, w.node.mem, t)
    ensures w.node.mem.activeSeg in AppendDisk(env.c, w.node.mem, w.disk, t).segs
    ensures AppendDisk(env.c, w.node.mem, w.disk, t).ssts == w.disk.ssts
  {
    hide Fits, Frame, SegBytes;
  }

  // ---- what replay makes of one DocID -----------------------------------------------------------

  /** The record of the last entry under a DocID. */
  function LastRec(es: seq<Entry>, x: DocID): Option<LogRecord> {
    if es == [] then None
    else if es[|es| - 1].id == x then Some(es[|es| - 1].rec)
    else LastRec(es[..|es| - 1], x)
  }

  lemma {:induction false} LastRecConcat(a: seq<Entry>, b: seq<Entry>, x: DocID)
    ensures LastRec(a + b, x) == if LastRec(b, x).Some? then LastRec(b, x) else LastRec(a, x)
    decreases |b|
  {
    if b == [] {
      assert a + b == a;
    } else {
      var n := |b| - 1;
      assert (a + b)[..|a| + n] == a + b[..n];
      LastRecConcat(a, b[..n], x);
    }
  }

  lemma {:induction false} LastRecOf(es: seq<Entry>, x: DocID)
    ensures LastRec(es, x).None? <==> forall i :: 0 <= i < |es| ==> es[i].id != x
    decreases |es|
  {
    if es != [] {
      LastRecOf(es[..|es| - 1], x);
    }
  }

  function Either(a: Option<LogRecord>, b: Option<LogRecord>): Option<LogRecord> {
    if a.Some? then a else b
  }

  /** Replay over one segment leaves under x the last record of the log, if x is above the cut-off. */
  lemma {:induction false} ReplayedRecord(c: Codec, rs: seq<Record>, cutoff: DocID, t: Table, x: DocID)
    requires ReplayRecords(c, rs, cutoff, t).Some?
    ensures Lookup(ReplayRecords(c, rs, cutoff, t).value.contents, x)
            == Either(if x > cutoff then LastRec(Entries(c, rs), x) else None, Lookup(t.contents, x))
    decreases |rs|
  {
    hide DecodePayload, RecordSize;
    if rs != [] {
      var p := DecodePayload(rs[0].payload);
      var rest := Entries(c, rs[1..]);
      if p.value.0 <= cutoff {
        ReplayedRecord(c, rs[1..], cutoff, t, x);
        var head := match DecodeEntry(c, rs[0].payload) case Some(e) => [e] case None => [];
        LastRecConcat(head, rest, x);
        LastRecOf(head, x);
      } else {
        var e := Entry(p.value.0, c.unmarshal(p.value.1).value);
        ReplayedRecord(c, rs[1..], cutoff, PutTable(t, e.id, e.rec), x);
        LastRecConcat([e], rest, x);
        LastRecOne(e, x);
      }
    }
  }

  lemma LastRecOne(e: Entry, x: DocID)
    ensures LastRec([e], x) == if e.id == x then Some(e.rec) else None
  {
    assert [e][..0] == [];
  }

  /** Over all segments, when only segment seg holds x. */
  lemma {:induction false} ReplayedDocID(c: Codec, segs: map<nat, seq<byte>>, ids: seq<nat>, cutoff: DocID, t: Table,
                                         seg: nat, x: DocID)
    requires (forall id | id in ids :: id in segs) && ReplaySegs(c, segs, ids, cutoff, t).Some?
    requires forall id | id in ids && id != seg :: LastRec(Log(c, segs[id]), x).None?
    requires seg in segs && forall i, j :: 0 <= i < j < |ids| ==> ids[i] < ids[j]
    ensures Lookup(ReplaySegs(c, segs, ids, cutoff, t).value.contents, x)
            == Either(if seg in ids && x > cutoff then LastRec(Log(c, segs[seg]), x) else None, Lookup(t.contents, x))
    decreases |ids|
  {
    hide ReplayRecords, Replay, LastRec, Entries;
    if ids != [] {
      var t' := ReplayRecords(c, Replay(segs[ids[0]], 0), cutoff, t).value;
      ReplayedRecord(c, Replay(segs[ids[0]], 0), cutoff, t, x);
      ReplayedDocID(c, segs, ids[1..], cutoff, t', seg, x);
      assert seg in ids <==> seg == ids[0] || seg in ids[1..];
      assert seg == ids[0] ==> seg !in ids[1..];
    }
  }

  lemma LoadedAreExact(d: Disk, ch: OpenChoice, view: map<DocID, LogRecord>)
    requires LoadedAs(ch.order, d.ssts, ch.quarantined) && SstsAgree(d.ssts, view)
    ensures forall s | s in ch.order :: Exact(s)
  {
    hide Exact;
  }

  /** What Open answers for a DocID that no SSTable and no segment but one holds. */
  lemma OpenAnswers(env: Env, d: Disk, ch: OpenChoice, view: map<DocID, LogRecord>, seg: nat, x: DocID)
    requires CanOpen(env, d, ch) && SstsAgree(d.ssts, view)
    requires !OnSst(d.ssts, x) && x > 0 && seg in d.segs
    requires forall id | id in d.segs && id != seg :: LastRec(Log(env.c, d.segs[id]), x).None?
    ensures SearchLayers(Layers(OpenedMem(env, d, ch)), x)
            == if AboveSsts(d.ssts - ch.quarantined, x) then LastRec(Log(env.c, d.segs[seg]), x) else None
  {
    hide Exact, ReplaySegs, SstHas, View, Cutoff, OnSst, AboveSsts, Overlay, SearchLayers, OpenedMem, Layers, LastRec,
         Log, SstsAgree, NewestFirst;
    assert seg in ch.ids;
    ReplayedDocID(env.c, d.segs, ch.ids, Cutoff(ch.order), EMPTY, seg, x);
    assert forall s | s in ch.order :: Exact(s) by { LoadedAreExact(d, ch, view); }
    LoadedBelow(d, ch, x);
    OpenedView(env, d, ch);
    NotListed(d.ssts, ch, x);
    NotInLayers(ch.order, x);
    SearchIsLookup(Layers(OpenedMem(env, d, ch)), x);
    ViewIsOverlay(OpenedMem(env, d, ch));
  }

  lemma {:induction false} NotInLayers(order: seq<Sst>, x: DocID)
    requires !SstHas(order, x)
    ensures x !in Overlay(SstLayers(order))
    decreases |order|
  {
    if order != [] {
      assert SstLayers(order)[1..] == SstLayers(order[1..]);
      NotInLayers(order[1..], x);
    }
  }

  // ---- when the write survives ------------------------------------------------------------------

  /** What a crash leaves behind the frame of writer t: a part of another append under way, or nothing. */
  function Residue(env: Env, w: World, t: nat, s: Step): seq<byte>
    requires w.node.Up? && CanAppend(env.c, w.node.mem, t) && s.Crash?
  {
    var n := |SegBytes(AppendDisk(env.c, w.node.mem, w.disk, t), w.node.mem.activeSeg)|;
    var x := InFlight(env.c, w.node.mem.(writers := w.node.mem.writers[t := Idle]), s.t, s.k);
    if n <= s.keep <= n + |x| then x[..s.keep - n] else []
  }

  lemma CrashBehind(env: Env, w: World, w2: World, t: nat, s: Step)
    requires w.node.Up? && CanAppend(env.c, w.node.mem, t)
    requires w2.node.Up? && w2.disk == AppendDisk(env.c, w.node.mem, w.disk, t)
    requires w2.node.mem.activeSeg == w.node.mem.activeSeg && w2.node.mem.writers == w.node.mem.writers[t := Idle]
    requires w2.node.mem.synced == |SegBytes(w2.disk, w2.node.mem.activeSeg)|
    requires s.Crash? && Enabled(env, w2, s)
    ensures var seg, d := w.node.mem.activeSeg, Do(env, w2, s).disk;
      && Do(env, w2, s).node.Down? && d.ssts == w.disk.ssts && d.segs.Keys == w.disk.segs.Keys + {seg}
      && (forall id | id in d.segs && id != seg :: d.segs[id] == w.disk.segs[id])
      && d.segs[seg] == SegBytes(w.disk, seg) + (Frame(env.c, w.node.mem.writers[t].e) + Residue(env, w, t, s))
  {
    hide Fits, Frame;
    var m, seg := w.node.mem, w.node.mem.activeSeg;
    var file, f := SegBytes(w.disk, seg), Frame(env.c, m.writers[t].e);
    var x := InFlight(env.c, m.(writers := m.writers[t := Idle]), s.t, s.k);
    assert InFlight(env.c, w2.node.mem, s.t, s.k) == x;
    assert SegBytes(w2.disk, seg) == file + f;
    assert (file + f + x)[..s.keep] == file + (f + x[..s.keep - |file + f|]);
  }

  /**
   Exactly what an acknowledged write is worth after the next crash, whatever replay got stuck on at the end of its
   segment and whatever the crash left behind it: if its DocID is above every SSTable that opens, Get answers the last record that
   replay finds under it in the tail, the frame and what is behind; otherwise it finds nothing.
   */
  lemma AppendSurvivesExactly(env: Env, before: seq<Step>, w: World, t: nat, s: Step, ch: OpenChoice, w': World)
    requires Invertible(env.c) && CarefulRun(env, INITIAL, before, w) && w.node.Up?
    requires CanAppend(env.c, w.node.mem, t)
    requires s.Crash? && Runs(env, w, AckThenCrash(t, s, ch), w')
    ensures var e := w.node.mem.writers[t].e;
      && w'.node.Up?
      && SearchLayers(Layers(w'.node.mem), e.id)
         == if AboveSsts(w.disk.ssts - ch.quarantined, e.id)
            then LastRec(Log(env.c, Tail(w) + (Frame(env.c, e) + Residue(env, w, t, s))), e.id)
            else None
  {
    hide CarefulRun, Inv, DiskInv, Logs, OnSst, AboveSsts, Layers, SearchLayers, OpenedMem, CanOpen, Enabled, Do, Runs,
         Fits, Frame, AppendDisk, SegBytes, Positive, Residue, LastRec, Log, IDInLogs, Leftover;
    CarefulRunInv(env, before, w);
    var e, seg := w.node.mem.writers[t].e, w.node.mem.activeSeg;
    ReadyEntry(env, w, t);
    FourSteps(env, w, Append(t), Put(t), s, Open(ch), w');
    AckShape(env, w, t);
    var w2 := Do(env, Do(env, w, Append(t)), Put(t));
    CrashBehind(env, w, w2, t, s);
    var w3 := Do(env, w2, s);
    OpenedNode(env, w3, ch);
    NotOnDisk(env, w, e.id);
    IsPositive(w.attempted, e);
    forall id | id in w.disk.segs ensures LastRec(Log(env.c, w.disk.segs[id]), e.id).None? {
      NotInLog(env.c, w.disk.segs, id, e.id);
    }
    assert SstsAgree(w.disk.ssts, w.view) by { DiskHasSsts(env, w); }
    OpenAnswers(env, w3.disk, ch, w.view, seg, e.id);
    OnlyBehind(env.c, w.disk, seg, Frame(env.c, e) + Residue(env, w, t, s), e.id);
  }

  lemma NotInLog(c: Codec, segs: map<nat, seq<byte>>, id: nat, x: DocID)
    requires !IDInLogs(Logs(c, segs), x) && id in segs
    ensures LastRec(Log(c, segs[id]), x).None?
  {
    hide Log, LastRec;
    LastRecOf(Log(c, segs[id]), x);
    assert Logs(c, segs)[id] == Log(c, segs[id]);
  }

  /** An entry not in the segment yet can only come from its leftover on. */
  lemma OnlyBehind(c: Codec, d: Disk, seg: nat, more: seq<byte>, x: DocID)
    requires seg in d.segs && LastRec(Log(c, d.segs[seg]), x).None?
    ensures LastRec(Log(c, SegBytes(d, seg) + more), x) == LastRec(Log(c, Leftover(SegBytes(d, seg)) + more), x)
  {
    hide Log, LastRec, Leftover;
    LogAppend(c, d.segs[seg], more);
    LastRecConcat(Log(c, d.segs[seg]), Log(c, Leftover(d.segs[seg]) + more), x);
  }

  lemma DiskHasSsts(env: Env, w: World)
    requires Inv(env, w)
    ensures SstsAgree(w.disk.ssts, w.view)
  {
    hide MemInv, AllFramed, UniqueIDs, LogsAgree, Logs, Exact;
  }

  /**
   In particular, if no checksum matches by accident and the crash comes between two appends: the write survives if
   and only if the tail and the frame together start with the frame and the DocID is above every SSTable.
   */
  lemma AppendSurvivesIff(env: Env, before: seq<Step>, w: World, t: nat, s: Step, ch: OpenChoice, w': World)
    requires Invertible(env.c) && CarefulRun(env, INITIAL, before, w) && ReadyToAppend(env, w, t)
    requires s.Crash? && s.k == 0 && ch.quarantined == {} && Runs(env, w, AckThenCrash(t, s, ch), w')
    ensures var e := w.node.mem.writers[t].e;
      && w'.node.Up?
      && SearchLayers(Layers(w'.node.mem), e.id)
         == if Found(env, w, t) && AboveSsts(w.disk.ssts, e.id) then Some(e.rec) else None
  {
    hide CarefulRun, AboveSsts, Layers, SearchLayers, Runs, Fits, Frame, NoStrayRecord, Tail, Log, LastRec, Residue;
    var e := w.node.mem.writers[t].e;
    AppendSurvivesExactly(env, before, w, t, s, ch, w');
    NoResidue(env, w, t, s);
    assert w.disk.ssts - {} == w.disk.ssts;
    assert Frame(env.c, e) + [] == Frame(env.c, e);
    FrameBehind(env.c, Tail(w), e);
    LastRecOne(e, e.id);
    LastRecOf([], e.id);
  }

  lemma NoResidue(env: Env, w: World, t: nat, s: Step)
    requires w.node.Up? && CanAppend(env.c, w.node.mem, t) && s.Crash? && s.k == 0
    ensures Residue(env, w, t, s) == []
  {
    hide Fits, Frame, SegBytes, AppendDisk;
  }

  lemma IsPositive(attempted: set<Entry>, e: Entry)
    requires Positive(attempted) && e in attempted
    ensures e.id > 0
  {
  }

  /** Such a run exists from every such state. */
  lemma AckThenCrashRuns(env: Env, before: seq<Step>, w: World, t: nat) returns (s: Step, ch: OpenChoice, w': World)
    requires Invertible(env.c) && CarefulRun(env, INITIAL, before, w) && ReadyToAppend(env, w, t)
    ensures s.Crash? && s.k == 0 && ch.quarantined == {} && Runs(env, w, AckThenCrash(t, s, ch), w')
  {
    hide CarefulRun, Inv, DiskInv, Logs, InLogs, IDInLogs, OnSst, AboveSsts, OpenedMem, CanOpen, Enabled,
         Do, Runs, Fits, Frame, NoStrayRecord, Tail, AppendDisk, SegBytes, Positive, Found;
    CarefulRunInv(env, before, w);
    ReadyEntry(env, w, t);
    AckShape(env, w, t);
    AppendedSegs(env, w, t);
    AppendedDisk(env, w, t);
    var w2 := Do(env, Do(env, w, Append(t)), Put(t));
    s := Crash(|w2.node.mem.writers|, 0, w2.node.mem.synced);
    QuietCrashEnabled(env, w2, s);
    QuietCrash(env, w2, s);
    var w3 := Do(env, w2, s);
    ch := OpenOn(env, w3, ShownView(w.view, w.node.mem.writers[t].e, Found(env, w, t)));
    w' := Do(env, w3, Open(ch));
    FourSteps(env, w, Append(t), Put(t), s, Open(ch), w');
  }

  lemma QuietCrashEnabled(env: Env, w: World, s: Step)
    requires w.node.Up? && w.node.mem.synced == |SegBytes(w.disk, w.node.mem.activeSeg)|
    requires s == Crash(|w.node.mem.writers|, 0, w.node.mem.synced)
    ensures Enabled(env, w, s)
  {
    hide SegBytes;
    var file := SegBytes(w.disk, w.node.mem.activeSeg);
    assert InFlight(env.c, w.node.mem, s.t, 0) == [];
    assert file + [] == file;
  }

  lemma OpenOn(env: Env, w: World, view: map<DocID, LogRecord>) returns (ch: OpenChoice)
    requires w.node.Down? && DiskInv(env.c, w.disk, view, w.attempted)
    ensures ch.quarantined == {} && Enabled(env, w, Open(ch))
  {
    hide DiskInv, CanOpen, Inv, Enabled;
    DownInv(env, w.(view := view));
    ch := OpenIsEnabled(env, w.(view := view), {}, 0);
    OpenIgnoresView(env, w, view, ch);
  }

  /** Open looks at the disk alone. */
  lemma OpenIgnoresView(env: Env, w: World, view: map<DocID, LogRecord>, ch: OpenChoice)
    requires w.node.Down? && Enabled(env, w.(view := view), Open(ch))
    ensures Enabled(env, w, Open(ch))
  {
    hide CanOpen;
  }

  lemma DownInv(env: Env, w: World)
    requires w.node.Down? && DiskInv(env.c, w.disk, w.view, w.attempted)
    ensures Inv(env, w)
  {
    hide DiskInv;
  }

  // ---- the two ends of the condition ------------------------------------------------------------

  /** At a record boundary the write always survives, unless an SSTable is already above it. */
  lemma BoundaryIsFound(env: Env, w: World, t: nat)
    requires w.node.Up? && t < |w.node.mem.writers| && w.node.mem.writers[t].Locked?
    requires Fits(env.c, w.node.mem.writers[t].e) && AtBoundary(SegBytes(w.disk, w.node.mem.activeSeg))
    ensures ReadyToAppend(env, w, t) && Found(env, w, t)
  {
    hide Fits, Frame, Leftover, NoStrayRecord, SegBytes;
    NothingStrayAtBoundary(Frame(env.c, w.node.mem.writers[t].e));
  }

  lemma PrefixDecodes(typ: byte, payload: seq<byte>, s: seq<byte>)
    requires |payload| <= MAX_PAYLOAD
    ensures Encode(typ, payload) <= s ==> Decode(s).Rec?
  {
    hide Encode, Decode;
    if Encode(typ, payload) <= s {
      var rest := s[|Encode(typ, payload)|..];
      DecodeAfterEncode(typ, payload, rest);
      assert Encode(typ, payload) + rest == s;
    }
  }

  /** Behind one torn byte a record of less than 16 MiB is never found. */
  lemma TornByteIsNotFound(env: Env, w: World, t: nat, torn: byte)
    requires w.node.Up? && t < |w.node.mem.writers| && w.node.mem.writers[t].Locked?
    requires Fits(env.c, w.node.mem.writers[t].e) && |Payload(env.c, w.node.mem.writers[t].e)| < 0x100_0000
    requires Tail(w) == [torn]
    ensures ReadyToAppend(env, w, t) && !Found(env, w, t)
  {
    hide Leftover, Encode, Payload, Decode, Tail, GetU32;
    var e := w.node.mem.writers[t].e;
    var frame := Frame(env.c, e);
    FrameIsLong(env.c, e);
    ShiftedLength(torn, RECORD_PUT, Payload(env.c, e));
    ShortIsNoRecord([torn] + frame);
    PrefixDecodes(RECORD_PUT, Payload(env.c, e), [torn] + frame);
  }

  /** So a record acknowledged behind one torn byte is gone after the next crash. */
  lemma TornByteLosesAcknowledged(env: Env, before: seq<Step>, w: World, t: nat, torn: byte)
    returns (s: Step, ch: OpenChoice, w': World)
    requires Invertible(env.c) && CarefulRun(env, INITIAL, before, w) && w.node.Up?
    requires t < |w.node.mem.writers| && w.node.mem.writers[t].Locked?
    requires Fits(env.c, w.node.mem.writers[t].e) && |Payload(env.c, w.node.mem.writers[t].e)| < 0x100_0000
    requires Tail(w) == [torn]
    ensures s.Crash? && s.k == 0 && Runs(env, w, AckThenCrash(t, s, ch), w') && w'.node.Up?
    ensures SearchLayers(Layers(w'.node.mem), w.node.mem.writers[t].e.id) == None
  {
    hide CarefulRun, Runs, Fits, Payload, Tail, ReadyToAppend, Found, Layers, SearchLayers, AckThenCrash, AboveSsts;
    TornByteIsNotFound(env, w, t, torn);
    s, ch, w' := AckThenCrashRuns(env, before, w, t);
    AppendSurvivesIff(env, before, w, t, s, ch, w');
  }
}
