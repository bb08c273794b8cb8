/** Open (internal/engine/engine.go) as code: its loops build exactly the state the machine's Open step describes. */
module EngineBoot {
  import opened Bytes
  import opened Types
  import opened EntryList
  import opened MemTable
  import opened Wal
  import opened WalLog
  import opened WalManager
  import opened Allocator
  import opened EngineState
  import opened EngineNode
  import ScanHeap

  // ---- the SSTable list -------------------------------------------------------------------------

  method MaxSSTableDocID(ssts: seq<Sst>) returns (max: DocID)
    ensures max == Cutoff(ssts)
  {
    max := 0;
    var i := 0;
    assert ssts[0..] == ssts;
    while i < |ssts|
      invariant i <= |ssts| && Cutoff(ssts) == MaxID(max, Cutoff(ssts[i..]))
    {
      assert ssts[i..][0] == ssts[i] && ssts[i..][1..] == ssts[i + 1..];
      if ssts[i].maxDoc > max { max := ssts[i].maxDoc; }
      i := i + 1;
    }
  }

  /** The cut-off is a maximum, so the order of the list does not matter. */
  ghost predicate IsCutoff(ssts: seq<Sst>, x: DocID) {
    (forall s | s in ssts :: s.maxDoc <= x) && (x == 0 || exists s :: s in ssts && s.maxDoc == x)
  }

  lemma {:induction false} CutoffIs(ssts: seq<Sst>)
    ensures IsCutoff(ssts, Cutoff(ssts))
    decreases |ssts|
  {
    if ssts != [] {
      CutoffIs(ssts[1..]);
      assert ssts[0] in ssts && forall s | s in ssts :: s == ssts[0] || s in ssts[1..];
      var rest := Cutoff(ssts[1..]);
      if Cutoff(ssts) == rest && rest != 0 {
        var s :| s in ssts[1..] && s.maxDoc == rest;
        assert s in ssts;
      }
    }
  }

  lemma SameCutoff(a: seq<Sst>, b: seq<Sst>)
    requires multiset(a) == multiset(b)
    ensures Cutoff(a) == Cutoff(b)
  {
    CutoffIs(a);
    CutoffIs(b);
    assert forall s :: s in a <==> s in multiset(a);
    assert forall s :: s in b <==> s in multiset(b);
  }

  predicate Newer(a: Sst, b: Sst) {
    a.maxDoc > b.maxDoc || (a.maxDoc == b.maxDoc && a.minDoc > b.minDoc)
  }

  /** The first i places are settled: nothing behind any of them is newer. */
  ghost predicate Settled(s: seq<Sst>, i: nat) {
    forall p, q :: 0 <= p < i && p < q < |s| ==> NotNewer(s[q], s[p])
  }

  /** Place i beats the places behind it up to j. */
  ghost predicate Best(s: seq<Sst>, i: nat, j: nat)
    requires i < |s| && j <= |s|
  {
    forall q :: i < q < j ==> NotNewer(s[q], s[i])
  }

  lemma ExchangeStep(s: seq<Sst>, i: nat, j: nat)
    requires i < j < |s| && Settled(s, i) && Best(s, i, j)
    ensures !Newer(s[j], s[i]) ==> Best(s, i, j + 1)
    ensures var t := ScanHeap.Swapped(s, i, j); Newer(s[j], s[i]) ==> Settled(t, i) && Best(t, i, j + 1)
  {
  }

  lemma SettleNext(s: seq<Sst>, i: nat)
    requires i < |s| && Settled(s, i) && Best(s, i, |s|)
    ensures Settled(s, i + 1)
  {
  }

  lemma AllSettled(s: seq<Sst>)
    requires Settled(s, |s|)
    ensures NewestFirst(s)
  {
  }

  /** sortSSTablesNewestFirst: an exchange sort in place. */
  method SortNewestFirst(a: array<Sst>)
    modifies a
    ensures NewestFirst(a[..]) && multiset(a[..]) == multiset(old(a[..]))
  {
    hide Settled, Best, NotNewer, NewestFirst, ScanHeap.Permuted, ScanHeap.Swapped, Newer;
    var i := 0;
    ghost var n := a.Length;
    ScanHeap.PermutedSelf(a[..], n);
    NothingSettled(a[..]);
    while i < a.Length
      invariant i <= n && ScanHeap.Permuted(a[..], old(a[..]), n) && Settled(a[..], i)
    {
      var j := i + 1;
      NothingBeaten(a[..], i);
      while j < a.Length
        invariant i < j <= n && ScanHeap.Permuted(a[..], old(a[..]), n)
        invariant Settled(a[..], i) && Best(a[..], i, j)
      {
        ExchangeStep(a[..], i, j);
        if Newer(a[j], a[i]) {
          ScanHeap.SwapPermutes(a[..], old(a[..]), i, j, n);
          ghost var before := a[..];
          a[i], a[j] := a[j], a[i];
          SwappedIs(before, a[..], i, j);
        }
        j := j + 1;
      }
      SettleNext(a[..], i);
      i := i + 1;
    }
    AllSettled(a[..]);
    ScanHeap.WholePermuted(a[..], old(a[..]));
  }

  /** The order itself: larger greatest DocIDs first, and among equals larger least ones. */
  lemma NewestFirstMeans(s: seq<Sst>)
    ensures NewestFirst(s) <==> forall i, j :: 0 <= i < j < |s| ==>
      s[i].maxDoc > s[j].maxDoc || (s[i].maxDoc == s[j].maxDoc && s[i].minDoc >= s[j].minDoc)
  {
  }

  lemma NothingSettled(s: seq<Sst>)
    ensures Settled(s, 0)
  {
  }

  lemma NothingBeaten(s: seq<Sst>, i: nat)
    requires i < |s|
    ensures Best(s, i, i + 1)
  {
  }

  lemma SwappedIs<T>(s: seq<T>, t: seq<T>, i: nat, j: nat)
    requires |s| == |t| && i < |s| && j < |s| && t[i] == s[j] && t[j] == s[i]
    requires forall k | 0 <= k < |s| && k != i && k != j :: t[k] == s[k]
    ensures t == ScanHeap.Swapped(s, i, j)
  {
  }

  // ---- replay -----------------------------------------------------------------------------------

  /** One segment through the replay callback: records at or below the cut-off are skipped, the rest go into the
      table. It fails on a record it cannot decode and on an I/O error. */
  method ReplaySegment(c: Codec, id: nat, file: seq<byte>, broken: bool, cutoff: DocID, mt: SkipMemTable)
    returns (ok: bool, localMax: DocID, localHas: bool)
    requires mt.Valid() && !mt.frozen
    modifies mt
    ensures mt.Valid() && !mt.frozen
    ensures ok <==> ReplayRecords(c, Replay(file, 0), cutoff, old(mt.Model())).Some? && !Unreadable(file, broken)
    ensures ok ==> ReplayRecords(c, Replay(file, 0), cutoff, old(mt.Model())) == Some(mt.Model())
    ensures ok ==> ((!localHas || localMax <= cutoff) <==> FullyCovered(file, cutoff))
  {
    hide Replay, PutTable, DecodePayload, Unreadable;
    var out, err := ReplayPath(id, Contents(file, broken), _ => false);
    ghost var rs := Replay(file, 0);
    localMax, localHas := 0, false;
    var i := 0;
    assert rs[0..] == rs;
    while i < |out|
      invariant i <= |out| && mt.Valid() && !mt.frozen
      invariant ReplayRecords(c, rs, cutoff, old(mt.Model())) == ReplayRecords(c, rs[i..], cutoff, mt.Model())
      invariant forall k | 0 <= k < i :: DecodePayload(rs[k].payload).Some?
      invariant localMax <= cutoff <==> forall k | 0 <= k < i :: DecodePayload(rs[k].payload).value.0 <= cutoff
      invariant !localHas ==> i == 0 && localMax == 0
    {
      assert out[i].record == rs[i] && rs[i..][0] == rs[i] && rs[i..][1..] == rs[i + 1..];
      var decoded := DecodePayload(out[i].record.payload);
      if decoded.None? { return false, localMax, localHas; }
      var (docID, recordBytes) := decoded.value;
      localHas := true;
      if docID > localMax { localMax := docID; }
      if docID > cutoff {
        var rec := c.unmarshal(recordBytes);
        if rec.None? { return false, localMax, localHas; }
        var put := mt.Put(docID, rec.value);
      }
      i := i + 1;
    }
    ok := err.None?;
  }

  /** Some segment of the list cannot be read to its end. */
  ghost predicate SomeUnreadable(segs: map<nat, seq<byte>>, ids: seq<nat>, broken: set<nat>) {
    exists i :: 0 <= i < |ids| && ids[i] in segs && Unreadable(segs[ids[i]], ids[i] in broken)
  }

  lemma ReplaySegsNext(c: Codec, segs: map<nat, seq<byte>>, ids: seq<nat>, i: nat, cutoff: DocID, t: Table)
    requires (forall id | id in ids :: id in segs) && i < |ids|
    ensures ids[i] in ids
    ensures ReplaySegs(c, segs, ids[i..], cutoff, t)
            == var r := ReplayRecords(c, Replay(segs[ids[i]], 0), cutoff, t);
               if r.None? then None else ReplaySegs(c, segs, ids[i + 1..], cutoff, r.value)
  {
    hide ReplayRecords, Replay;
    assert ids[i..][1..] == ids[i + 1..];
  }

  /** All sealed segments in order; rest are the segments still to come. */
  method ReplaySealed(c: Codec, wal: Manager, sealed: seq<nat>, ghost rest: seq<nat>, broken: set<nat>, cutoff: DocID,
                      mt: SkipMemTable)
    returns (ok: bool, covered: seq<bool>)
    requires forall id | id in sealed + rest :: id in wal.Segs()
    requires mt.Valid() && !mt.frozen
    modifies mt
    ensures mt.Valid() && !mt.frozen
    ensures ok ==> ReplaySegs(c, wal.Segs(), sealed + rest, cutoff, old(mt.Model()))
                   == ReplaySegs(c, wal.Segs(), rest, cutoff, mt.Model())
    ensures ok ==> !SomeUnreadable(wal.Segs(), sealed, broken)
    ensures !ok ==> || ReplaySegs(c, wal.Segs(), sealed + rest, cutoff, old(mt.Model())).None?
                    || SomeUnreadable(wal.Segs(), sealed, broken)
    ensures ok ==>
      && |covered| == |sealed|
      && forall i | 0 <= i < |sealed| :: covered[i] <==> FullyCovered(wal.Segs()[sealed[i]], cutoff)
  {
    hide FullyCovered, ReplayRecords, ReplaySegs, Replay, Unreadable, SkipMemTable.Valid;
    covered := [];
    ghost var all := sealed + rest;
    assert all[0..] == all;
    while |covered| < |sealed|
      invariant |covered| <= |sealed| && mt.Valid() && !mt.frozen
      invariant forall i | 0 <= i < |covered| :: covered[i] <==> FullyCovered(wal.Segs()[sealed[i]], cutoff)
      invariant forall i | 0 <= i < |covered| :: !Unreadable(wal.Segs()[sealed[i]], sealed[i] in broken)
      invariant ReplaySegs(c, wal.Segs(), all, cutoff, old(mt.Model()))
             == ReplaySegs(c, wal.Segs(), all[|covered|..], cutoff, mt.Model())
    {
      var i := |covered|;
      ReplaySegsNext(c, wal.Segs(), all, i, cutoff, mt.Model());
      var file := wal.Read(sealed[i]);
      var localMax, localHas;
      ok, localMax, localHas := ReplaySegment(c, sealed[i], file.value, sealed[i] in broken, cutoff, mt);
      if !ok { return; }
      covered := covered + [!localHas || localMax <= cutoff];
    }
    assert all[|covered|..] == rest;
    ok := true;
  }

  /** Recovery step 6, best effort: each covered sealed segment goes unless its delete fails. */
  method DeleteCovered(wal: Manager, sealed: seq<nat>, covered: seq<bool>, undeleted: set<nat>)
    requires |covered| == |sealed| && wal.Valid() && wal.active != null && wal.active.id !in sealed
    modifies wal`files
    ensures wal.Valid()
    ensures wal.Segs() == map s | s in old(wal.Segs()) && !Drops(sealed, covered, undeleted, s) :: old(wal.Segs())[s]
  {
    hide Manager.Valid, Drops;
    var i := 0;
    ghost var segs := wal.Segs();
    DropsNone(covered, undeleted);
    assert sealed[..0] == [] && covered[..0] == [];
    while i < |sealed|
      invariant i <= |sealed| && wal.Valid()
      invariant wal.Segs() == map s | s in segs && !Drops(sealed[..i], covered[..i], undeleted, s) :: segs[s]
    {
      DropsOneMore(sealed, covered, undeleted, i);
      if covered[i] { wal.Delete(sealed[i], sealed[i] !in undeleted); }
      i := i + 1;
    }
    assert sealed[..i] == sealed && covered[..i] == covered;
  }

  ghost predicate Drops(sealed: seq<nat>, covered: seq<bool>, undeleted: set<nat>, s: nat)
    requires |covered| == |sealed|
  {
    s !in undeleted && exists i :: 0 <= i < |sealed| && sealed[i] == s && covered[i]
  }

  lemma DropsNone(covered: seq<bool>, undeleted: set<nat>)
    ensures forall s: nat :: !Drops([], [], undeleted, s)
  {
  }

  lemma DropsOneMore(sealed: seq<nat>, covered: seq<bool>, undeleted: set<nat>, i: nat)
    requires |covered| == |sealed| && i < |sealed|
    ensures forall s: nat :: Drops(sealed[..i + 1], covered[..i + 1], undeleted, s) <==>
      Drops(sealed[..i], covered[..i], undeleted, s) || (s == sealed[i] && covered[i] && s !in undeleted)
  {
    forall s: nat
      ensures Drops(sealed[..i + 1], covered[..i + 1], undeleted, s) <==>
        Drops(sealed[..i], covered[..i], undeleted, s) || (s == sealed[i] && covered[i] && s !in undeleted)
    {
      if Drops(sealed[..i], covered[..i], undeleted, s) {
        var k :| 0 <= k < i && sealed[..i][k] == s && covered[..i][k];
        assert sealed[..i + 1][k] == s && covered[..i + 1][k];
      }
      if s == sealed[i] && covered[i] && s !in undeleted {
        assert sealed[..i + 1][i] == s && covered[..i + 1][i];
      }
    }
  }

  /** The largest DocID of the recovered MemTable, by a walk over its iterator. */
  method LargestDocID(mt: SkipMemTable) returns (memMax: DocID)
    requires mt.Valid()
    ensures IsMaxOrZero(memMax, mt.Model().contents.Keys)
  {
    hide ToMap, SizeExact;
    memMax := 0;
    var it := new SkipIterator(mt);
    ToMapRepresented(mt.list);
    var more := it.Next();
    ghost var n := 0;
    while more
      invariant it.Valid() && !it.closed && it.parent == mt && fresh(it)
      invariant it.yielded == if more then n + 1 else n
      invariant more ==> it.cur == Some(n)
      invariant !more ==> n == |mt.list|
      invariant n <= |mt.list| && forall i | 0 <= i < n :: mt.list[i].id <= memMax
      invariant memMax == 0 || exists i :: 0 <= i < n && mt.list[i].id == memMax
      decreases |mt.list| - n
    {
      var e := mt.list[it.cur.value];
      if e.id > memMax { memMax := e.id; }
      n := n + 1;
      more := it.Next();
    }
  }
  // ---- Open -------------------------------------------------------------------------------------

  /** loadAllSSTables: every file that was not quarantined, each once, in directory order. */
  ghost predicate LoadedEach(list: seq<Sst>, ssts: map<nat, Sst>, quarantined: set<nat>) {
    && (forall id | id in ssts && id !in quarantined :: ssts[id] in list)
    && (forall s | s in list :: s.id in ssts && s.id !in quarantined && ssts[s.id] == s)
    && (forall s | s in list :: multiset(list)[s] == 1)
  }

  lemma TwicePresent<T>(s: seq<T>, i: nat, j: nat)
    requires i < j < |s| && s[i] == s[j]
    ensures multiset(s)[s[i]] >= 2
  {
    assert s == s[..j] + s[j..];
    assert s[i] == s[..j][i] && s[i] in multiset(s[..j]);
    assert s[j] == s[j..][0] && s[j] in multiset(s[j..]);
  }

  lemma SortedIsLoaded(list: seq<Sst>, order: seq<Sst>, ssts: map<nat, Sst>, quarantined: set<nat>)
    requires LoadedEach(list, ssts, quarantined) && multiset(order) == multiset(list) && NewestFirst(order)
    ensures LoadedAs(order, ssts, quarantined)
  {
    hide NewestFirst;
    assert forall s :: s in list <==> s in multiset(list);
    assert forall s :: s in order <==> s in multiset(order);
    forall i, j | 0 <= i < j < |order| ensures order[i].id != order[j].id {
      assert order[i] in order && order[j] in order;
      if order[i].id == order[j].id {
        TwicePresent(order, i, j);
        assert false;
      }
    }
  }

  /** The directory a node finds: what is on disk, in the forms Open reads it. */
  ghost predicate FoundOnDisk(d: Disk, list: seq<Sst>, quarantined: set<nat>, ids: seq<nat>, maxSSTableID: nat) {
    && quarantined <= d.ssts.Keys && LoadedEach(list, d.ssts, quarantined)
    && Lists(ids, d.segs)
    && (forall id | id in d.ssts :: id <= maxSSTableID) && (forall id | id in d.tmps :: id <= maxSSTableID)
    && (maxSSTableID == 0 || maxSSTableID in d.ssts || maxSSTableID in d.tmps)
  }

  lemma ChoiceIsOk(env: Env, d: Disk, list: seq<Sst>, quarantined: set<nat>, ids: seq<nat>, maxSSTableID: nat,
                   ch: OpenChoice)
    requires FoundOnDisk(d, list, quarantined, ids, maxSSTableID)
    requires multiset(ch.order) == multiset(list) && NewestFirst(ch.order)
    requires ch.quarantined == quarantined && ch.sstSeq == maxSSTableID
    requires ch.ids == if d.segs == map[] then [1] else ids
    ensures OpenChoiceOk(env, d, ch) && ch.ids != []
  {
    SortedIsLoaded(list, ch.order, d.ssts, quarantined);
    hide LoadedAs, LoadedEach, NewestFirst;
    if d.segs != map[] {
      var id :| id in d.segs;
      assert id in ids;
    }
  }

  lemma DroppedAtOpen(env: Env, d: Disk, ch: OpenChoice, sealed: seq<nat>, covered: seq<bool>, active: nat)
    requires OpenChoiceOk(env, d, ch) && ch.ids == sealed + [active] && |covered| == |sealed|
    requires forall i | 0 <= i < |sealed| :: sealed[i] in AdoptedSegs(d)
    requires forall i | 0 <= i < |sealed| :: covered[i] <==> FullyCovered(AdoptedSegs(d)[sealed[i]], Cutoff(ch.order))
    ensures OpenedDisk(d, ch).segs ==
      map s | s in AdoptedSegs(d) && !Drops(sealed, covered, ch.undeleted, s) :: AdoptedSegs(d)[s]
  {
    hide FullyCovered, LoadedAs, Cutoff;
    assert ch.ids[|ch.ids| - 1] == active;
    forall s | s in AdoptedSegs(d) ensures DeletedAtOpen(d, ch, s) <==> Drops(sealed, covered, ch.undeleted, s) {
      assert s in ch.ids;
      if s != active {
        var i :| 0 <= i < |ch.ids| && ch.ids[i] == s;
        assert sealed[i] == s;
      } else {
        forall i | 0 <= i < |sealed| ensures sealed[i] != active {
          assert ch.ids[i] == sealed[i] && ch.ids[i] < ch.ids[|sealed|];
        }
      }
    }
  }

  lemma ReplayLast(c: Codec, segs: map<nat, seq<byte>>, id: nat, cutoff: DocID, t: Table)
    requires id in segs
    ensures ReplaySegs(c, segs, [id], cutoff, t) == ReplayRecords(c, Replay(segs[id], 0), cutoff, t)
  {
    hide ReplayRecords, Replay;
    var last := [id];
    assert last[1..] == [];
  }

  /** The segments step 5 replays: all of them, unless the active one is segment 0, whose id reads as "none". */
  function Replayed(sealed: seq<nat>, active: nat): seq<nat> {
    if active == 0 then sealed else sealed + [active]
  }

  method Recover(c: Codec, wal: Manager, sealed: seq<nat>, broken: set<nat>, cutoff: DocID)
    returns (ok: bool, mt: SkipMemTable, covered: seq<bool>)
    requires wal.active != null && forall id | id in sealed + [wal.active.id] :: id in wal.Segs()
    ensures fresh(mt) && mt.Valid() && !mt.frozen
    ensures forall id | id in Replayed(sealed, wal.active.id) :: id in wal.Segs()
    ensures var ids := Replayed(sealed, wal.active.id);
      && (ok <==> ReplaySegs(c, wal.Segs(), ids, cutoff, EMPTY).Some? && !SomeUnreadable(wal.Segs(), ids, broken))
      && (ok ==> ReplaySegs(c, wal.Segs(), ids, cutoff, EMPTY) == Some(mt.Model()))
    ensures ok ==>
      && |covered| == |sealed|
      && forall i | 0 <= i < |sealed| :: covered[i] <==> FullyCovered(wal.Segs()[sealed[i]], cutoff)
  {
    hide FullyCovered, ReplayRecords, SkipMemTable.Valid, Replay, ReplaySegs, Unreadable;
    mt := new SkipMemTable();
    ghost var last := if wal.active.id == 0 then [] else [wal.active.id];
    ghost var ids := Replayed(sealed, wal.active.id);
    assert sealed + last == ids;
    assert forall id | id in ids :: id in sealed + [wal.active.id];
    ok, covered := ReplaySealed(c, wal, sealed, last, broken, cutoff, mt);
    LastUnreadable(wal.Segs(), sealed, last, broken);
    if !ok { return; }
    if wal.active.id != 0 {
      assert wal.active.id in sealed + [wal.active.id];
      var file := wal.Read(wal.active.id);
      ReplayLast(c, wal.Segs(), wal.active.id, cutoff, mt.Model());
      var localMax, localHas;
      ok, localMax, localHas := ReplaySegment(c, wal.active.id, file.value, wal.active.id in broken, cutoff, mt);
    } else {
      ReplayNone(c, wal.Segs(), cutoff, mt.Model());
    }
  }

  lemma ReplayNone(c: Codec, segs: map<nat, seq<byte>>, cutoff: DocID, t: Table)
    ensures ReplaySegs(c, segs, [], cutoff, t) == Some(t)
  {
  }

  lemma LastUnreadable(segs: map<nat, seq<byte>>, sealed: seq<nat>, last: seq<nat>, broken: set<nat>)
    requires |last| <= 1 && forall id | id in last :: id in segs
    ensures SomeUnreadable(segs, sealed + last, broken) <==>
            SomeUnreadable(segs, sealed, broken) || (last != [] && Unreadable(segs[last[0]], last[0] in broken))
  {
    hide Unreadable;
    var ids := sealed + last;
    if SomeUnreadable(segs, sealed, broken) {
      var i :| 0 <= i < |sealed| && sealed[i] in segs && Unreadable(segs[sealed[i]], sealed[i] in broken);
      assert ids[i] == sealed[i];
    }
    if last != [] && Unreadable(segs[last[0]], last[0] in broken) {
      assert ids[|sealed|] == last[0];
    }
  }

  /** Step 7: the allocator starts above everything loaded or replayed. */
  method SeedAllocator(cutoff: DocID, mt: SkipMemTable) returns (alloc: DocIDAllocator, ghost memMax: DocID)
    requires mt.Valid()
    ensures fresh(alloc) && IsMaxOrZero(memMax, mt.Model().contents.Keys) && alloc.next == MaxID(cutoff, memMax)
  {
    alloc := new DocIDAllocator();
    var _ := alloc.Observe(cutoff, []);
    var max := LargestDocID(mt);
    memMax := max;
    if |mt.list| > 0 {
      var _ := alloc.Observe(max, []);
    } else {
      NoKeys(mt.list);
    }
  }

  lemma NoKeys(es: seq<Entry>)
    ensures es == [] ==> ToMap(es).Keys == {}
  {
  }

  /** The memory of an engine just opened. */
  ghost function OpenMem(t: Table, order: seq<Sst>, alloc: DocID, active: nat, synced: nat, sstSeq: nat, writers: nat): Mem {
    Mem(t, [], [], order, alloc, active, active + 1, synced, sstSeq, true, false, seq(writers, _ => WriterPc.Idle), FIdle)
  }

  /** The machine's Open step, when replay has produced the table t. */
  lemma OpenedAs(env: Env, d: Disk, ch: OpenChoice, t: Table, last: nat)
    requires OpenChoiceOk(env, d, ch) && ch.ids != [] && ch.ids[|ch.ids| - 1] == last && last in AdoptedSegs(d)
    requires ReplaySegs(env.c, AdoptedSegs(d), ch.ids, Cutoff(ch.order), EMPTY) == Some(t)
    requires IsMaxOrZero(ch.memMax, t.contents.Keys)
    ensures Recovered(env, d, ch) == Some(t) && CanOpen(env, d, ch)
    ensures OpenedMem(env, d, ch) ==
      OpenMem(t, ch.order, MaxID(Cutoff(ch.order), ch.memMax), last, |AdoptedSegs(d)[last]|, ch.sstSeq, ch.writers)
  {
    hide OpenChoiceOk, ReplaySegs, Cutoff, IsMaxOrZero;
    var idle: seq<WriterPc> := seq(ch.writers, _ => WriterPc.Idle);
    assert OpenedMem(env, d, ch).writers == idle;
  }

  /** Ascending ids end in 0 only if 0 is all there is. */
  lemma OnlyZero(sealed: seq<nat>, last: nat)
    ensures AscendingIDs(sealed + [last]) && last == 0 ==> sealed == []
  {
    var ids := sealed + [last];
    if AscendingIDs(ids) && sealed != [] {
      assert ids[0] < ids[|sealed|];
    }
  }

  /** Steps 6 to 9: deletes, the allocator, the engine around what replay produced. */
  method Finish(env: Env, order: seq<Sst>, wal: Manager, sealed: seq<nat>, covered: seq<bool>, mt: SkipMemTable,
                cutoff: DocID, undeleted: set<nat>, maxSSTableID: nat, ghost writers: nat)
    returns (e: Engine, ghost memMax: DocID)
    requires wal.Valid() && !wal.closed && wal.active != null && !wal.active.closed && wal.active.id !in sealed
    requires mt.Valid() && !mt.frozen && |covered| == |sealed| && wal.nextID == wal.active.id + 1
    modifies wal`files
    ensures fresh(e) && e.Valid() && e.wal == wal && wal.active == old(wal.active)
    ensures IsMaxOrZero(memMax, mt.Model().contents.Keys)
    ensures e.Now(wal.active.id, |wal.active.file|, seq(writers, _ => WriterPc.Idle), FIdle)
            == OpenMem(mt.Model(), order, MaxID(cutoff, memMax), wal.active.id, |wal.active.file|, maxSSTableID, writers)
    ensures wal.Segs() == map s | s in old(wal.Segs()) && !Drops(sealed, covered, undeleted, s) :: old(wal.Segs())[s]
  {
    hide SkipMemTable.Valid, Drops, IsMaxOrZero, Manager.Valid, ToMap, MaxID, Cutoff;
    DeleteCovered(wal, sealed, covered, undeleted);
    var alloc;
    alloc, memMax := SeedAllocator(cutoff, mt);
    e := new Engine(env, mt, order, wal, alloc, maxSSTableID);
    assert Models([]) == [];
  }

  /**
   Open. It fails exactly when replay meets a record it cannot decode or a segment it cannot read (broken: reading
   past a segment's bytes is an I/O error). A lone segment 0 is adopted but not replayed; EngineReads.NoSegmentZero:
   the engine never creates one.
   */
  method Open(env: Env, loaded: array<Sst>, dir: map<nat, seq<byte>>, ids: seq<nat>, maxSSTableID: nat,
              broken: set<nat>, undeleted: set<nat>, ghost d: Disk, ghost quarantined: set<nat>, ghost writers: nat)
    returns (e: Engine?, ghost ch: OpenChoice)
    requires dir == d.segs && FoundOnDisk(d, loaded[..], quarantined, ids, maxSSTableID)
    modifies loaded
    ensures OpenChoiceOk(env, d, ch) && ch.ids != []
    ensures ids != [0] ==>
      (e == null <==> Recovered(env, d, ch).None? || SomeUnreadable(AdoptedSegs(d), ch.ids, broken))
    ensures e != null ==> e.Valid() && e.wal.active != null && e.wal.Segs() == OpenedDisk(d, ch).segs
    ensures ids != [0] && e != null ==>
      && CanOpen(env, d, ch)
      && e.Now(e.wal.active.id, |e.wal.active.file|, seq(writers, _ => WriterPc.Idle), FIdle) == OpenedMem(env, d, ch)
    ensures ids == [0] ==>
      && e != null
      && e.Now(0, |e.wal.active.file|, seq(writers, _ => WriterPc.Idle), FIdle)
         == OpenMem(EMPTY, ch.order, Cutoff(ch.order), 0, |e.wal.active.file|, maxSSTableID, writers)
  {
    hide LoadedAs, LoadedEach, NewestFirst, Cutoff, FullyCovered, ReplaySegs, SkipMemTable.Valid, Drops, OpenedDisk,
         IsMaxOrZero, Manager.Valid, SortedIDs, Engine.Valid, ToMap, OpenChoiceOk, OpenedMem, CanOpen, MaxID, Unreadable,
         OpenMem, AscendingIDs;
    var cutoff := MaxSSTableDocID(loaded[..]);
    SortNewestFirst(loaded);
    SameCutoff(loaded[..], old(loaded[..]));
    var wal := new Manager.Open(dir, ids);
    var sealed := wal.Sealed();
    ch := OpenChoice(loaded[..], quarantined, sealed + [wal.active.id], undeleted, maxSSTableID, 0, writers);
    ChoiceIsOk(env, d, old(loaded[..]), quarantined, ids, maxSSTableID, ch);
    e := null;
    OnlyZero(sealed, wal.active.id);
    ActiveIsZero(dir, ids, sealed, wal.active.id);
    var ok, mt, covered := Recover(env.c, wal, sealed, broken, cutoff);
    if wal.active.id == 0 {
      ReplayNone(env.c, wal.Segs(), cutoff, EMPTY);
    }
    if !ok { return; }
    ghost var memMax;
    e, memMax := Finish(env, loaded[..], wal, sealed, covered, mt, cutoff, undeleted, maxSSTableID, writers);
    ch := ch.(memMax := memMax);
    ChoiceIsOk(env, d, old(loaded[..]), quarantined, ids, maxSSTableID, ch);
    DroppedAtOpen(env, d, ch, sealed, covered, wal.active.id);
    if wal.active.id != 0 {
      OpenedAs(env, d, ch, mt.Model(), wal.active.id);
    } else {
      ZeroAlloc(cutoff, memMax);
    }
  }

  lemma ActiveIsZero(dir: map<nat, seq<byte>>, ids: seq<nat>, sealed: seq<nat>, active: nat)
    requires Lists(ids, dir)
    requires if dir == map[] then sealed + [active] == [1] else sealed + [active] == ids
    ensures ids == [0] <==> active == 0
  {
    OnlyZero(sealed, active);
    if dir == map[] {
      assert (sealed + [active])[|sealed|] == active;
    } else if ids == [0] {
      assert ids[|sealed|] == active;
    }
    assert ids == [0] ==> 0 in ids;
  }

  lemma ZeroAlloc(cutoff: DocID, memMax: DocID)
    ensures IsMaxOrZero(memMax, EMPTY.contents.Keys) ==> MaxID(cutoff, memMax) == cutoff
  {
  }
}
