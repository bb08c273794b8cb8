/** The size counter in every reachable state, and what it says about the frozen queue. */
module EngineSizes {
  import opened Bytes
  import opened Types
  import opened Wal
  import opened WalLog
  import opened MemTable
  import opened EngineState

  /** The active table's counter is exact, and no table in the queue is empty. */
  ghost predicate Sized(w: World) {
    w.node.Up? ==> SizeExact(w.node.mem.active) && NoneEmpty(w.node.mem.frozen)
  }

  ghost predicate NoneEmpty(frozen: seq<Table>) {
    forall i :: 0 <= i < |frozen| ==> frozen[i].contents != map[]
  }

  lemma EmptySize()
    ensures SizeExact(EMPTY) && forall t: Table | SizeExact(t) && t.size > 0 :: t.contents != map[]
  {
    PutAllIsSortedMap([]);
  }

  lemma {:induction false} ReplayRecordsSized(c: Codec, rs: seq<Record>, cutoff: DocID, t: Table)
    requires SizeExact(t)
    ensures var r := ReplayRecords(c, rs, cutoff, t); r.Some? ==> SizeExact(r.value)
    decreases |rs|
  {
    hide SizeExact, PutTable, DecodePayload;
    if rs != [] {
      var p := DecodePayload(rs[0].payload);
      if p.Some? && c.unmarshal(p.value.1).Some? {
        PutKeepsSizeExact(t, p.value.0, c.unmarshal(p.value.1).value);
        ReplayRecordsSized(c, rs[1..], cutoff, PutTable(t, p.value.0, c.unmarshal(p.value.1).value));
      }
      ReplayRecordsSized(c, rs[1..], cutoff, t);
    }
  }

  lemma {:induction false} ReplaySegsSized(c: Codec, segs: map<nat, seq<byte>>, ids: seq<nat>, cutoff: DocID, t: Table)
    requires (forall id | id in ids :: id in segs) && SizeExact(t)
    ensures var r := ReplaySegs(c, segs, ids, cutoff, t); r.Some? ==> SizeExact(r.value)
    decreases |ids|
  {
    hide SizeExact, ReplayRecords, Replay;
    if ids != [] {
      var rs := Replay(segs[ids[0]], 0);
      ReplayRecordsSized(c, rs, cutoff, t);
      if ReplayRecords(c, rs, cutoff, t).Some? {
        ReplaySegsSized(c, segs, ids[1..], cutoff, ReplayRecords(c, rs, cutoff, t).value);
      }
    }
  }

  lemma OpenedSized(env: Env, d: Disk, ch: OpenChoice)
    requires CanOpen(env, d, ch)
    ensures SizeExact(OpenedMem(env, d, ch).active) && OpenedMem(env, d, ch).frozen == []
  {
    hide SizeExact, ReplaySegs, IsMaxOrZero, LoadedAs, Cutoff;
    EmptySize();
    ReplaySegsSized(env.c, AdoptedSegs(d), ch.ids, Cutoff(ch.order), EMPTY);
  }

  /** A table is only rotated at the soft limit, so with a positive limit the queue never holds an empty one. */
  lemma StepKeepsSized(env: Env, w: World, s: Step)
    requires env.cfg.softLimit > 0 && Sized(w) && Enabled(env, w, s)
    ensures Sized(Do(env, w, s))
  {
    hide SizeExact, PutTable, CanOpen, OpenedMem, OpenedDisk, View, CanCommit, Exact, SegBytes, WriteSeg, InFlight,
         CrashDisk, AppendDisk, AppendFailDisk;
    EmptySize();
    if w.node.Down? {
      OpenedSized(env, w.disk, s.ch);
    } else if s.Put? {
      var e := w.node.mem.writers[s.t].e;
      PutKeepsSizeExact(w.node.mem.active, e.id, e.rec);
    } else if s.SealFails? {
      FreezingKeepsSize(w.node.mem.active);
    }
  }

  lemma FreezingKeepsSize(t: Table)
    ensures SizeExact(t) ==> SizeExact(t.(frozen := true))
  {
  }
}
