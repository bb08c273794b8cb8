/** Crash and Open: what the disk keeps, what recovery rebuilds from it. */
module EngineRecovery {
  import opened Bytes
  import opened Types
  import opened Wal
  import opened WalLog
  import opened MemTable
  import opened EngineState
  import opened EngineReads
  import opened EngineInv
  import opened EngineSteps

  // ---- crash ------------------------------------------------------------------------------------

  lemma PrefixKeepsUnique(logs: map<nat, seq<Entry>>, seg: nat, log: seq<Entry>)
    requires UniqueIDs(logs) && log <= LogAt(logs, seg)
    ensures UniqueIDs(logs[seg := log])
  {
    var logs': map<nat, seq<Entry>> := logs[seg := log];
    forall s1: nat, i1: int, s2: nat, i2: int |
      s1 in logs' && 0 <= i1 < |logs'[s1]| && s2 in logs' && 0 <= i2 < |logs'[s2]| &&
      logs'[s1][i1].id == logs'[s2][i2].id
      ensures s1 == s2 && i1 == i2
    {
      assert s1 in logs && i1 < |logs[s1]| && logs[s1][i1] == logs'[s1][i1];
      assert s2 in logs && i2 < |logs[s2]| && logs[s2][i2] == logs'[s2][i2];
    }
  }

  lemma PrefixKeepsDiskInv(c: Codec, d: Disk, d': Disk, seg: nat, log: seq<Entry>, view: map<DocID, LogRecord>,
                           attempted: set<Entry>)
    requires DiskInv(c, d, view, attempted) && seg in d.segs
    requires d'.ssts == d.ssts && AllFramed(c, d'.segs)
    requires Logs(c, d'.segs) == Logs(c, d.segs)[seg := log] && log <= LogAt(Logs(c, d.segs), seg)
    ensures DiskInv(c, d', view, attempted)
  {
    hide Logs, AllFramed, SstsAgree;
    PrefixKeepsUnique(Logs(c, d.segs), seg, log);
  }

  lemma TruncateSeg(c: Codec, d: Disk, seg: nat, n: nat)
    requires seg in d.segs && n <= |d.segs[seg]|
    ensures var d' := d.(segs := d.segs[seg := d.segs[seg][..n]]);
      && Logs(c, d'.segs) == Logs(c, d.segs)[seg := Log(c, d.segs[seg][..n])]
      && Log(c, d.segs[seg][..n]) <= LogAt(Logs(c, d.segs), seg)
      && (AllFramed(c, d.segs) ==> AllFramed(c, d'.segs))
  {
    hide Log, WellFramed;
    LogTruncated(c, d.segs[seg], n);
  }

  /** The disk with the bytes an append under way has written, before anything behind the last fsync is lost. */
  function InFlightDisk(c: Codec, m: Mem, d: Disk, t: nat, k: nat): Disk {
    WriteSeg(d, m.activeSeg, InFlight(c, m, t, k))
  }

  lemma InFlightKeepsDiskInv(env: Env, m: Mem, d: Disk, view: map<DocID, LogRecord>, attempted: set<Entry>, t: nat,
                             k: nat)
    requires Invertible(env.c) && DiskInv(env.c, d, view, attempted) && MemInv(env, m, d, view, attempted)
    requires InFlight(env.c, m, t, k) != [] ==> AtBoundary(SegBytes(d, m.activeSeg))
    ensures DiskInv(env.c, InFlightDisk(env.c, m, d, t, k), view, attempted)
    ensures forall x | InLogs(Logs(env.c, d.segs), x) :: InLogs(Logs(env.c, InFlightDisk(env.c, m, d, t, k).segs), x)
  {
    hide View, Exact, Log, Frame, Fits, AtBoundary, Logs, DiskInv, TablesInv, CoverInv, AllocInv, AllFramed, SyncInv,
         SstsInv;
    var d' := InFlightDisk(env.c, m, d, t, k);
    ActiveOnDisk(m, d.segs.Keys);
    if InFlight(env.c, m, t, k) == [] {
      assert SegBytes(d, m.activeSeg) + [] == SegBytes(d, m.activeSeg);
      assert d'.segs == d.segs;
      SameSegsDiskInv(env.c, d, d', view, attempted);
    } else {
      var e := m.writers[t].e;
      var logs, logs' := Logs(env.c, d.segs), Logs(env.c, d'.segs);
      assert WriterInv(m.writers[t], m.alloc, logs, m.activeSeg, view, attempted);
      DiskParts(env.c, d, view, attempted);
      LogsKeys(env.c, d.segs);
      FrameExtends(env.c, d, m.activeSeg, e, k);
      if k == |Frame(env.c, e)| {
        ExtendKeepsDiskInv(env.c, d, d', m.activeSeg, e, view, attempted);
        ExtendOne(logs, m.activeSeg, e, logs');
      } else {
        ExtendNone(logs, m.activeSeg, logs');
        SameLogsDiskInv(env.c, d, d', view, attempted);
      }
    }
  }

  lemma SameSegsDiskInv(c: Codec, d: Disk, d': Disk, view: map<DocID, LogRecord>, attempted: set<Entry>)
    requires DiskInv(c, d, view, attempted) && d'.segs == d.segs && d'.ssts == d.ssts
    ensures DiskInv(c, d', view, attempted)
  {
    hide Logs, AllFramed, SstsAgree;
  }

  lemma CrashKeepsInv(env: Env, m: Mem, d: Disk, view: map<DocID, LogRecord>, attempted: set<Entry>, t: nat, k: nat,
                      keep: nat)
    requires Invertible(env.c) && DiskInv(env.c, d, view, attempted) && MemInv(env, m, d, view, attempted)
    requires CanCrash(env.c, m, d, t, k, keep)
    requires InFlight(env.c, m, t, k) != [] ==> AtBoundary(SegBytes(d, m.activeSeg))
    ensures DiskInv(env.c, CrashDisk(env.c, m, d, t, k, keep), view, attempted)
  {
    hide View, Exact, Log, InFlight, AtBoundary, Logs, DiskInv, MemInv, AllFramed;
    var mid, d' := InFlightDisk(env.c, m, d, t, k), CrashDisk(env.c, m, d, t, k, keep);
    InFlightKeepsDiskInv(env, m, d, view, attempted, t, k);
    DiskParts(env.c, mid, view, attempted);
    TruncateSeg(env.c, mid, m.activeSeg, keep);
    assert d'.segs == mid.segs[m.activeSeg := mid.segs[m.activeSeg][..keep]];
    PrefixKeepsDiskInv(env.c, mid, d', m.activeSeg, Log(env.c, mid.segs[m.activeSeg][..keep]), view, attempted);
  }

  /** Whatever was visible stays readable through the crash. */
  lemma CrashKeepsVisible(env: Env, m: Mem, d: Disk, view: map<DocID, LogRecord>, attempted: set<Entry>, t: nat,
                          k: nat, keep: nat, e: Entry)
    requires MemInv(env, m, d, view, attempted) && CanCrash(env.c, m, d, t, k, keep)
    requires InLogs(Logs(env.c, d.segs), e) && e.id in view
    ensures InLogs(Logs(env.c, CrashDisk(env.c, m, d, t, k, keep).segs), e)
  {
    hide View, Exact, Log, InFlight, TablesInv, CoverInv, AllocInv, WritersInv, SstsInv, SegsInv, Structure;
    var d' := CrashDisk(env.c, m, d, t, k, keep);
    var s :| s in d.segs && e in Log(env.c, d.segs[s]);
    if s == m.activeSeg {
      var file, file' := SegBytes(d, s), d'.segs[s];
      assert file'[..m.synced] == file[..m.synced];
      LogTruncated(env.c, file', m.synced);
      assert e in Log(env.c, file');
    }
    assert s in Logs(env.c, d'.segs) && e in Logs(env.c, d'.segs)[s];
  }

  // ---- replay -----------------------------------------------------------------------------------

  lemma EntriesCons(c: Codec, rs: seq<Record>)
    requires rs != [] && Framed(c, rs)
    ensures DecodeEntry(c, rs[0].payload).Some? && Framed(c, rs[1..])
    ensures Entries(c, rs) == [DecodeEntry(c, rs[0].payload).value] + Entries(c, rs[1..])
  {
    hide DecodeEntry;
    assert rs[0] in rs;
  }

  /** Replaying well-formed records never fails and puts exactly the entries above the cut-off. */
  lemma {:induction false} RecoverRecords(c: Codec, rs: seq<Record>, cutoff: DocID, t: Table)
    requires Framed(c, rs)
    ensures var r := ReplayRecords(c, rs, cutoff, t);
      && r.Some?
      && (forall x | x in t.contents :: x in r.value.contents)
      && (forall e | e in Entries(c, rs) && e.id > cutoff :: e.id in r.value.contents)
      && (forall x | x in r.value.contents ::
            || (x in t.contents && r.value.contents[x] == t.contents[x])
            || (x > cutoff && Entry(x, r.value.contents[x]) in Entries(c, rs)))
    decreases |rs|
  {
    hide PutTable, Framed;
    if rs != [] {
      EntriesCons(c, rs);
      var e := DecodeEntry(c, rs[0].payload).value;
      if e.id <= cutoff {
        RecoverRecords(c, rs[1..], cutoff, t);
      } else {
        RecoverRecords(c, rs[1..], cutoff, PutTable(t, e.id, e.rec));
      }
    }
  }

  lemma {:induction false} RecoverSegs(c: Codec, segs: map<nat, seq<byte>>, ids: seq<nat>, cutoff: DocID, t: Table)
    requires AllFramed(c, segs)
    requires forall id | id in ids :: id in segs
    ensures var r := ReplaySegs(c, segs, ids, cutoff, t);
      && r.Some?
      && (forall x | x in t.contents :: x in r.value.contents)
      && (forall id, e | id in ids && e in Log(c, segs[id]) && e.id > cutoff :: e.id in r.value.contents)
      && (forall x | x in r.value.contents ::
            || (x in t.contents && r.value.contents[x] == t.contents[x])
            || (x > cutoff && InLogs(Logs(c, segs), Entry(x, r.value.contents[x]))))
    decreases |ids|
  {
    hide Replay, ReplayRecords, Entries, Framed;
    if ids != [] {
      var rs := Replay(segs[ids[0]], 0);
      assert WellFramed(c, segs[ids[0]]);
      RecoverRecords(c, rs, cutoff, t);
      var t' := ReplayRecords(c, rs, cutoff, t).value;
      RecoverSegs(c, segs, ids[1..], cutoff, t');
      var r := ReplaySegs(c, segs, ids, cutoff, t).value;
      assert Logs(c, segs)[ids[0]] == Entries(c, rs);
      forall id, e | id in ids && e in Log(c, segs[id]) && e.id > cutoff ensures e.id in r.contents {
        if id == ids[0] {
          assert e in Entries(c, rs);
        }
      }
    }
  }

  lemma {:induction false} EntryHasRecord(c: Codec, rs: seq<Record>, e: Entry)
    requires e in Entries(c, rs)
    ensures exists r :: r in rs && DecodeEntry(c, r.payload) == Some(e)
    decreases |rs|
  {
    hide DecodeEntry;
    if DecodeEntry(c, rs[0].payload) == Some(e) {
      assert rs[0] in rs;
    } else {
      EntryHasRecord(c, rs[1..], e);
      var r :| r in rs[1..] && DecodeEntry(c, r.payload) == Some(e);
      assert r in rs;
    }
  }

  /** A segment recovery deletes holds nothing above the cut-off. */
  lemma CoveredIsBelow(c: Codec, s: seq<byte>, cutoff: DocID, e: Entry)
    requires FullyCovered(s, cutoff) && e in Log(c, s)
    ensures e.id <= cutoff
  {
    hide Replay, DecodePayload;
    EntryHasRecord(c, Replay(s, 0), e);
    var r :| r in Replay(s, 0) && DecodeEntry(c, r.payload) == Some(e);
  }

  lemma {:induction false} CutoffBounds(sstables: seq<Sst>)
    requires forall s | s in sstables :: Exact(s)
    ensures forall s, x | s in sstables && x in s.contents :: x <= Cutoff(sstables)
    ensures forall s | s in sstables :: s.maxDoc <= Cutoff(sstables)
    ensures Cutoff(sstables) == 0 || SstHas(sstables, Cutoff(sstables))
  {
    if sstables != [] {
      CutoffBounds(sstables[1..]);
      var c := Cutoff(sstables);
      assert sstables[0] in sstables;
      if c == sstables[0].maxDoc {
        assert c in sstables[0].contents;
      } else if c != 0 {
        var i :| 0 <= i < |sstables[1..]| && c in sstables[1..][i].contents;
        assert c in sstables[i + 1].contents;
      }
      forall s, x | s in sstables && x in s.contents ensures x <= c {
        if s == sstables[0] {
        } else {
          assert s in sstables[1..];
        }
      }
    }
  }

  /** SSTables that agree with a map overlay to a part of it, defined exactly where one of them is. */
  lemma {:induction false} SstOverlay(sstables: seq<Sst>, view: map<DocID, LogRecord>)
    requires forall s | s in sstables :: SubMap(s.contents, view)
    ensures SubMap(Overlay(SstLayers(sstables)), view)
    ensures forall x :: x in Overlay(SstLayers(sstables)) <==> SstHas(sstables, x)
  {
    if sstables != [] {
      assert SstLayers(sstables)[1..] == SstLayers(sstables[1..]);
      SstOverlay(sstables[1..], view);
      assert sstables[0] in sstables;
      SstHasAfterSwapList(sstables);
    }
  }

  lemma SstHasAfterSwapList(sstables: seq<Sst>)
    requires sstables != []
    ensures forall x :: SstHas(sstables, x) <==> x in sstables[0].contents || SstHas(sstables[1..], x)
  {
    forall x ensures SstHas(sstables, x) <==> x in sstables[0].contents || SstHas(sstables[1..], x) {
      if SstHas(sstables[1..], x) {
        var i :| 0 <= i < |sstables[1..]| && x in sstables[1..][i].contents;
        assert x in sstables[i + 1].contents;
      }
      if SstHas(sstables, x) && x !in sstables[0].contents {
        var i :| 0 <= i < |sstables| && x in sstables[i].contents;
        assert x in sstables[1..][i - 1].contents;
      }
    }
  }
}
