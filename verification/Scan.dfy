/** ScanWithOptions (internal/engine/engine.go): the k-way merge over MemTables and SSTables. */
module Scan {
  import opened Types
  import opened EntryList
  import opened EngineState
  import opened MergeSpec
  import opened ScanHeap

  // ---- sources and pruning ----------------------------------------------------------------------

  datatype ScanOptions = ScanOptions(minTimestamp: Timestamp, maxTimestamp: Timestamp)

  const NO_OPTIONS := ScanOptions(0, 0)

  /** What a scan snapshots: a MemTable, or an SSTable with the timestamp range of its meta block. */
  datatype ScanSource = MemTable(src: Source) | File(src: Source, minTS: Timestamp, maxTS: Timestamp)

  predicate HasTimeRange(o: ScanOptions) {
    o.minTimestamp != 0 || o.maxTimestamp != 0
  }

  predicate Prune(o: ScanOptions, s: ScanSource) {
    s.File? && HasTimeRange(o) &&
    ((o.minTimestamp != 0 && s.maxTS < o.minTimestamp) || (o.maxTimestamp != 0 && s.minTS > o.maxTimestamp))
  }

  predicate TooEarly(o: ScanOptions, ts: Timestamp) {
    o.minTimestamp != 0 && ts < o.minTimestamp
  }

  predicate TooLate(o: ScanOptions, ts: Timestamp) {
    o.maxTimestamp != 0 && ts > o.maxTimestamp
  }

  /** Pruned are exactly the files whose whole range lies below the lower bound, or above the upper one. */
  lemma PruneIff(o: ScanOptions, s: ScanSource)
    requires s.File? ==> s.minTS <= s.maxTS
    ensures Prune(o, s) <==>
      && s.File?
      && ((forall ts: Timestamp | s.minTS <= ts <= s.maxTS :: TooEarly(o, ts)) ||
          (forall ts: Timestamp | s.minTS <= ts <= s.maxTS :: TooLate(o, ts)))
  {
    if s.File? {
      assert TooEarly(o, s.maxTS) ==> forall ts: Timestamp | s.minTS <= ts <= s.maxTS :: TooEarly(o, ts);
      assert TooLate(o, s.minTS) ==> forall ts: Timestamp | s.minTS <= ts <= s.maxTS :: TooLate(o, ts);
    }
  }

  /** What each source contributes under the options. */
  function Visible(sources: seq<ScanSource>, o: ScanOptions): (r: seq<seq<Entry>>)
    ensures |r| == |sources|
  {
    seq(|sources|, i requires 0 <= i < |sources| => if Prune(o, sources[i]) then [] else sources[i].src.items)
  }

  ghost predicate SourcesAscend(sources: seq<ScanSource>) {
    forall i | 0 <= i < |sources| :: Ascending(sources[i].src.items)
  }

  /** A failure the scan reports: one of an unpruned source that yielded something first. */
  ghost predicate Reported(sources: seq<ScanSource>, o: ScanOptions) {
    exists i :: 0 <= i < |sources| && ReportedAt(sources, o, i)
  }

  predicate ReportedAt(sources: seq<ScanSource>, o: ScanOptions, i: int)
    requires 0 <= i < |sources|
  {
    !Prune(o, sources[i]) && sources[i].src.items != [] && sources[i].src.err.Some?
  }

  /** A source's failure is noticed only if the source is scanned and yields a record first. */
  predicate Heard(s: ScanSource, o: ScanOptions) {
    s.src.err.Some? && s.src.items != [] && !Prune(o, s)
  }

  // ---- what a scan answers ----------------------------------------------------------------------

  datatype ScanEnd<E> = Done | Failed | Cancelled | Stopped(err: E)

  /**
   The run of a visitor over a listing, n entries in. The visitor answers on everything it has been handed so
   far; cancelled tells whether the context is done when the (n+1)-th record comes up.
   */
  ghost function RunOver<E>(full: seq<Entry>, n: nat, visit: seq<Entry> -> Option<E>, cancelled: nat -> bool,
                            failed: bool): (seq<Entry>, ScanEnd<E>)
    requires n <= |full|
    decreases |full| - n
  {
    if n == |full| then (full, if failed then Failed else Done)
    else if cancelled(n) then (full[..n], Cancelled)
    else if visit(full[..n + 1]).Some? then (full[..n + 1], Stopped(visit(full[..n + 1]).value))
    else RunOver(full, n + 1, visit, cancelled, failed)
  }

  /** A run that neither the context nor the visitor stops before entry m is the run from m on. */
  lemma {:induction false} RunGoesOn<E>(full: seq<Entry>, n: nat, m: nat, visit: seq<Entry> -> Option<E>,
                                        cancelled: nat -> bool, failed: bool)
    requires n <= m <= |full|
    requires (forall j | n <= j < m :: !cancelled(j)) && (forall j | n < j <= m :: visit(full[..j]).None?)
    ensures RunOver(full, n, visit, cancelled, failed) == RunOver(full, m, visit, cancelled, failed)
    decreases m - n
  {
    if n < m {
      RunGoesOn(full, n + 1, m, visit, cancelled, failed);
    }
  }

  /** Where a run ends, and that nothing could have ended it earlier. */
  lemma {:induction false} RunEndsThere<E>(full: seq<Entry>, n: nat, visit: seq<Entry> -> Option<E>,
                                           cancelled: nat -> bool, failed: bool)
    requires n <= |full|
    ensures var (visited, end) := RunOver(full, n, visit, cancelled, failed);
      && n <= |visited| <= |full| && visited == full[..|visited|]
      && (forall j | n <= j < |visited| :: !cancelled(j))
      && (forall j | n < j < |visited| :: visit(visited[..j]).None?)
      && (end.Stopped? ==> |visited| > n && visit(visited) == Some(end.err))
      && (!end.Stopped? && |visited| > n ==> visit(visited).None?)
      && (end.Cancelled? ==> |visited| < |full| && cancelled(|visited|))
      && (end.Done? || end.Failed? ==> visited == full && (end.Failed? <==> failed))
    decreases |full| - n
  {
    if n < |full| && !cancelled(n) && visit(full[..n + 1]).None? {
      RunEndsThere(full, n + 1, visit, cancelled, failed);
      var visited := RunOver(full, n + 1, visit, cancelled, failed).0;
      assert visited[..n + 1] == full[..n + 1];
    } else {
      assert full[..|full|] == full;
    }
  }

  ghost function Merged(sources: seq<ScanSource>, o: ScanOptions): seq<Entry> {
    Listing(Overlay(MapsOf(Visible(sources, o))))
  }

  // ---- cursors under way ------------------------------------------------------------------------

  type Cursors = map<nat, ScanCursor>

  /** curs holds the cursor of every source that has anything to yield, under its priority. */
  ghost predicate CursorsOk(srcs: seq<seq<Entry>>, curs: Cursors)
    reads curs.Values
  {
    && (forall k | k in curs ::
          k < |srcs| && curs[k].prio == k && curs[k].src.items == srcs[k] && curs[k].Valid() && curs[k].next > 0)
    && (forall k | 0 <= k < |srcs| && k !in curs :: srcs[k] == [])
  }

  ghost function TakenFrom(curs: Cursors, k: nat): nat
    reads curs.Values
  {
    if k in curs then curs[k].Taken() else 0
  }

  ghost function Ats(n: nat, curs: Cursors): (r: seq<nat>)
    reads curs.Values
    ensures |r| == n && forall k | 0 <= k < n :: r[k] == TakenFrom(curs, k)
  {
    seq(n, k requires 0 <= k < n reads curs.Values => TakenFrom(curs, k))
  }

  /** ms is exactly the cursors that still stand on a record, each once. */
  ghost predicate Members(ms: multiset<ScanCursor>, curs: Cursors)
    reads curs.Values
  {
    && (forall c | c in ms :: c.prio in curs && curs[c.prio] == c && ms[c] == 1)
    && (forall k | k in curs :: curs[k] in ms <==> !curs[k].done)
  }

  ghost predicate HeapOk(h: seq<ScanCursor>, curs: Cursors)
    reads curs.Values, h
  {
    Members(multiset(h), curs) && HeapFrom(Keys(h), |h|, 0)
  }

  lemma OtherThanTop(h: seq<ScanCursor>, i: nat)
    requires 0 < i < |h| && multiset(h)[h[0]] == 1
    ensures h[i] != h[0]
  {
    assert h == [h[0]] + h[1..];
    assert h[i] == h[1..][i - 1];
    assert h[i] in multiset(h[1..]);
    assert multiset(h) == multiset([h[0]]) + multiset(h[1..]);
  }

  /** The root of the heap is the top of the merge. */
  lemma RootIsTop(srcs: seq<seq<Entry>>, curs: Cursors, h: seq<ScanCursor>)
    requires CursorsOk(srcs, curs) && HeapOk(h, curs) && h != []
    ensures h[0].prio in curs && curs[h[0].prio] == h[0] && InRange(srcs, Ats(|srcs|, curs))
    ensures IsTop(srcs, Ats(|srcs|, curs), h[0].prio)
    ensures srcs[h[0].prio][Ats(|srcs|, curs)[h[0].prio]] == Entry(h[0].docID, h[0].rec)
  {
    hide HeapFrom;
    var at := Ats(|srcs|, curs);
    assert h[0] in multiset(h);
    forall k | 0 <= k < |srcs| && at[k] < |srcs[k]|
      ensures k in curs && !curs[k].done && srcs[k][at[k]].id == curs[k].docID && !Less(curs[k].KeyOf(), h[0].KeyOf())
    {
      assert curs[k] in multiset(h);
      var i :| 0 <= i < |h| && h[i] == curs[k];
      RootIsLeast(Keys(h), |h|, i);
    }
  }

  /** Without anything left in the heap every source is read to its end. */
  lemma EmptyHeapAllRead(srcs: seq<seq<Entry>>, curs: Cursors, h: seq<ScanCursor>)
    requires CursorsOk(srcs, curs) && HeapOk(h, curs) && h == []
    ensures forall k | 0 <= k < |srcs| :: Ats(|srcs|, curs)[k] == |srcs[k]|
  {
    forall k | 0 <= k < |srcs| ensures Ats(|srcs|, curs)[k] == |srcs[k]| {
      if k in curs {
        assert curs[k].done;
      }
    }
  }

  lemma OthersThanTop(h: seq<ScanCursor>)
    requires h != [] && multiset(h)[h[0]] == 1
    ensures forall i | 1 <= i < |h| :: h[i] != h[0]
  {
    forall i | 1 <= i < |h| ensures h[i] != h[0] {
      OtherThanTop(h, i);
    }
  }

  /** After the root's cursor moved, the heap is in order below it; if the cursor did not move, everywhere. */
  lemma Resettle(ks0: seq<Key>, h: seq<ScanCursor>, ok: bool)
    requires h != [] && |ks0| == |h| && HeapFrom(ks0, |h|, 0)
    requires forall i | 1 <= i < |h| :: h[i].KeyOf() == ks0[i]
    requires !ok ==> h[0].KeyOf() == ks0[0]
    ensures HeapFrom(Keys(h), |h|, 1) && (!ok ==> HeapFrom(Keys(h), |h|, 0))
  {
    RootReplaced(ks0, Keys(h), |h|);
    assert !ok ==> Keys(h) == ks0;
  }

  method Settle(hp: ScanHeap, ok: bool)
    requires hp.h != [] && HeapFrom(Keys(hp.h), |hp.h|, 1) && (!ok ==> HeapFrom(Keys(hp.h), |hp.h|, 0))
    modifies hp
    ensures HeapFrom(Keys(hp.h), |hp.h|, 0)
    ensures ok ==> multiset(hp.h) == multiset(old(hp.h))
    ensures !ok ==> multiset(hp.h) + multiset{old(hp.h[0])} == multiset(old(hp.h))
  {
    if ok {
      hp.FixTop();
    } else {
      hp.Pop();
    }
  }

  /** What is left of the heap's cursors when the top one has moved. */
  function Left(ms: multiset<ScanCursor>, top: ScanCursor, ok: bool): multiset<ScanCursor> {
    if ok then ms else ms - multiset{top}
  }

  /** The top cursor moves on: below it the keys stay in order. */
  method AdvanceTop(h: seq<ScanCursor>, ghost srcs: seq<seq<Entry>>, ghost curs: Cursors) returns (ok: bool)
    requires CursorsOk(srcs, curs) && HeapOk(h, curs) && h != []
    modifies h[0]
    ensures CursorsOk(srcs, curs) && Members(Left(multiset(h), h[0], ok), curs)
    ensures HeapFrom(Keys(h), |h|, 1) && (!ok ==> HeapFrom(Keys(h), |h|, 0))
    ensures h[0].Taken() == old(h[0].Taken()) + 1
  {
    hide HeapFrom, Less, ScanCursor.Valid;
    var top := h[0];
    ghost var ks0 := Keys(h);
    assert top in multiset(h);
    OthersThanTop(h);
    ok := top.Advance();
    assert forall i | 1 <= i < |h| :: h[i].KeyOf() == ks0[i];
    Resettle(ks0, h, ok);
  }

  /** The top cursor moves on; the heap drops it at the end of its source. */
  method MoveTop(hp: ScanHeap, ghost srcs: seq<seq<Entry>>, ghost curs: Cursors)
    requires CursorsOk(srcs, curs) && HeapOk(hp.h, curs) && hp.h != []
    modifies hp, hp.h[0]
    ensures CursorsOk(srcs, curs) && HeapOk(hp.h, curs)
    ensures multiset(hp.h) <= old(multiset(hp.h))
    ensures old(hp.h)[0].Taken() == old(hp.h[0].Taken()) + 1
  {
    hide HeapFrom, Members, CursorsOk, ScanCursor.Valid;
    var h := hp.h;
    var ok := AdvanceTop(h, srcs, curs);
    Settle(hp, ok);
    assert multiset(hp.h) == Left(multiset(h), h[0], ok);
  }

  // ---- one round --------------------------------------------------------------------------------

  /** moved are the cursors that stood at d when the round began and have moved on since. */
  ghost predicate Under(srcs: seq<seq<Entry>>, at0: seq<nat>, curs: Cursors, moved: set<nat>, d: DocID)
    requires |at0| == |srcs|
    reads curs.Values
  {
    && (forall k | k in moved :: k in curs && k < |srcs| && at0[k] < |srcs[k]| && srcs[k][at0[k]].id == d)
    && (forall k | k in curs && k < |srcs| :: curs[k].Taken() == if k in moved then at0[k] + 1 else at0[k])
  }

  /** No unread DocID lies below d. */
  ghost predicate NothingBelow(srcs: seq<seq<Entry>>, at: seq<nat>, d: DocID)
    requires |at| == |srcs|
  {
    forall k | 0 <= k < |srcs| && at[k] < |srcs[k]| :: d <= srcs[k][at[k]].id
  }

  /** A cursor under way stands above d once it has moved, and at d or above before. */
  lemma HeadsUnder(srcs: seq<seq<Entry>>, at0: seq<nat>, curs: Cursors, moved: set<nat>, d: DocID, k: nat)
    requires AllAscending(srcs) && |at0| == |srcs| && CursorsOk(srcs, curs)
    requires Under(srcs, at0, curs, moved, d) && NothingBelow(srcs, at0, d)
    requires k in curs && !curs[k].done
    ensures d <= curs[k].docID && (k in moved ==> d < curs[k].docID)
    ensures k !in moved ==> at0[k] < |srcs[k]| && curs[k].docID == srcs[k][at0[k]].id
  {
    assert Ascending(srcs[k]);
  }

  /** When the root no longer stands at d, nothing does. */
  lemma RoundComplete(srcs: seq<seq<Entry>>, at0: seq<nat>, curs: Cursors, moved: set<nat>, d: DocID,
                      h: seq<ScanCursor>)
    requires AllAscending(srcs) && |at0| == |srcs| && CursorsOk(srcs, curs) && HeapOk(h, curs)
    requires Under(srcs, at0, curs, moved, d) && NothingBelow(srcs, at0, d)
    requires h == [] || h[0].docID != d
    requires forall k | 0 <= k < |srcs| && k !in curs :: at0[k] == 0
    ensures Ats(|srcs|, curs) == PastID(srcs, at0, d)
  {
    hide Under, NothingBelow, ScanCursor.Valid;
    forall k | 0 <= k < |srcs| ensures TakenFrom(curs, k) == At(srcs, at0, k, d) {
      if k in curs && k !in moved && at0[k] < |srcs[k]| && srcs[k][at0[k]].id == d {
        StillThere(srcs, at0, curs, moved, d, k);
        HeadsUnder(srcs, at0, curs, moved, d, k);
        assert curs[k] in multiset(h);
        var i :| 0 <= i < |h| && h[i] == curs[k];
        RootIsLeast(Keys(h), |h|, i);
        assert h[0] in multiset(h);
        HeadsUnder(srcs, at0, curs, moved, d, h[0].prio);
        assert false;
      } else {
        TakenUnder(srcs, at0, curs, moved, d, k);
      }
    }
  }

  lemma StillThere(srcs: seq<seq<Entry>>, at0: seq<nat>, curs: Cursors, moved: set<nat>, d: DocID, k: nat)
    requires |at0| == |srcs| && CursorsOk(srcs, curs) && Under(srcs, at0, curs, moved, d)
    requires k in curs && k !in moved && at0[k] < |srcs[k]|
    ensures !curs[k].done
  {
  }

  lemma TakenUnder(srcs: seq<seq<Entry>>, at0: seq<nat>, curs: Cursors, moved: set<nat>, d: DocID, k: nat)
    requires |at0| == |srcs| && CursorsOk(srcs, curs) && Under(srcs, at0, curs, moved, d) && k < |srcs|
    requires !(k in curs && k !in moved && at0[k] < |srcs[k]| && srcs[k][at0[k]].id == d)
    requires k !in curs ==> at0[k] == 0
    ensures TakenFrom(curs, k) == At(srcs, at0, k, d)
  {
  }
  /** The cursor at the root, which stands at d, moves past it. */
  method MoveAtD(hp: ScanHeap, ghost srcs: seq<seq<Entry>>, ghost curs: Cursors, ghost at0: seq<nat>,
                 ghost moved: set<nat>, ghost d: DocID) returns (ghost moved': set<nat>)
    requires AllAscending(srcs) && |at0| == |srcs|
    requires CursorsOk(srcs, curs) && HeapOk(hp.h, curs) && hp.h != [] && hp.h[0].docID == d
    requires Under(srcs, at0, curs, moved, d) && NothingBelow(srcs, at0, d)
    modifies hp, curs.Values
    ensures CursorsOk(srcs, curs) && HeapOk(hp.h, curs) && Under(srcs, at0, curs, moved', d)
    ensures moved < moved' <= curs.Keys
  {
    hide HeapFrom, Keys, ScanCursor.Valid, NothingBelow, AllAscending;
    ghost var top := hp.h[0];
    ghost var k := top.prio;
    assert top in multiset(hp.h);
    HeadsUnder(srcs, at0, curs, moved, d, k);
    MoveTop(hp, srcs, curs);
    moved' := moved + {k};
  }

  /** Takes the top record and passes every other copy of its DocID over. */
  method Round(hp: ScanHeap, ghost srcs: seq<seq<Entry>>, ghost curs: Cursors) returns (e: Entry)
    requires AllAscending(srcs) && CursorsOk(srcs, curs) && HeapOk(hp.h, curs) && hp.h != []
    modifies hp, curs.Values
    ensures CursorsOk(srcs, curs) && HeapOk(hp.h, curs)
    ensures e == old(Entry(hp.h[0].docID, hp.h[0].rec))
    ensures Ats(|srcs|, curs) == PastID(srcs, old(Ats(|srcs|, curs)), e.id)
  {
    hide HeapFrom, Keys, ScanCursor.Valid, AllAscending, Members, Under, IsTop, CursorsOk;
    ghost var at0 := Ats(|srcs|, curs);
    RootIsTop(srcs, curs, hp.h);
    var top := hp.h[0];
    e := Entry(top.docID, top.rec);
    ghost var d, moved := e.id, {};
    RoundStarts(srcs, curs, at0, top.prio, d);
    moved := MoveAtD(hp, srcs, curs, at0, moved, d);
    while |hp.h| > 0 && hp.h[0].docID == e.id
      invariant CursorsOk(srcs, curs) && HeapOk(hp.h, curs) && Under(srcs, at0, curs, moved, d)
      invariant moved <= curs.Keys
      decreases curs.Keys - moved
    {
      ghost var before := moved;
      moved := MoveAtD(hp, srcs, curs, at0, moved, d);
      Shrinks(curs.Keys, before, moved);
    }
    RoundComplete(srcs, at0, curs, moved, d, hp.h);
  }

  lemma Shrinks(all: set<nat>, a: set<nat>, b: set<nat>)
    requires a < b <= all
    ensures all - b < all - a
  {
    var x :| x in b && x !in a;
    assert x in all - a && x !in all - b;
  }

  lemma RoundStarts(srcs: seq<seq<Entry>>, curs: Cursors, at0: seq<nat>, t: nat, d: DocID)
    requires CursorsOk(srcs, curs) && at0 == Ats(|srcs|, curs) && InRange(srcs, at0) && IsTop(srcs, at0, t)
    requires srcs[t][at0[t]].id == d
    ensures Under(srcs, at0, curs, {}, d) && NothingBelow(srcs, at0, d)
    ensures forall k | 0 <= k < |srcs| && k !in curs :: at0[k] == 0
  {
  }

  // ---- the scan ---------------------------------------------------------------------------------

  /** Every cursor belongs to an unpruned source. */
  ghost predicate FromSources(sources: seq<ScanSource>, o: ScanOptions, curs: Cursors) {
    forall k | k in curs :: k < |sources| && !Prune(o, sources[k]) && curs[k].src == sources[k].src
  }

  /** The cursors attached so far, none moved beyond its first record. */
  ghost predicate Attached(curs: Cursors, cursors: seq<ScanCursor>, srcs: seq<seq<Entry>>, prio: nat)
    requires prio <= |srcs|
    reads curs.Values
  {
    && (forall k | k in curs :: k < prio && curs[k].prio == k && curs[k].src.items == srcs[k])
    && (forall k | k in curs :: curs[k].Valid() && curs[k].next == 1 && !curs[k].done)
    && (forall k | 0 <= k < prio && k !in curs :: srcs[k] == [])
    && Members(multiset(cursors), curs)
  }

  /** addCursor: a source whose first advance fails is dropped, error and all. */
  method AddCursor(src: Source, prio: nat, cursors: seq<ScanCursor>, ghost curs: Cursors, ghost srcs: seq<seq<Entry>>)
    returns (cursors': seq<ScanCursor>, ghost curs': Cursors)
    requires prio < |srcs| && srcs[prio] == src.items && Attached(curs, cursors, srcs, prio)
    ensures Attached(curs', cursors', srcs, prio + 1)
    ensures fresh(curs'.Values - curs.Values)
    ensures forall k | k in curs :: k in curs' && curs'[k] == curs[k]
    ensures forall k | k in curs' :: k in curs || (k == prio && curs'[k].src == src)
  {
    hide Members, ScanCursor.Valid;
    cursors', curs' := cursors, curs;
    var c := new ScanCursor(src, prio);
    var ok := c.Advance();
    if ok {
      OneMore(cursors, c);
      AddMember(multiset(cursors), curs, prio, c);
      cursors' := cursors + [c];
      curs' := curs[prio := c];
    }
  }

  method BuildCursors(sources: seq<ScanSource>, o: ScanOptions) returns (cursors: seq<ScanCursor>, ghost curs: Cursors)
    ensures fresh(curs.Values) && FromSources(sources, o, curs)
    ensures CursorsOk(Visible(sources, o), curs) && Members(multiset(cursors), curs)
    ensures forall c :: c in cursors <==> c in curs.Values
    ensures forall k | 0 <= k < |sources| :: TakenFrom(curs, k) == 0
  {
    hide Attached;
    cursors, curs := [], map[];
    var prio := 0;
    ghost var srcs := Visible(sources, o);
    NoneAttached(srcs);
    while prio < |sources|
      invariant prio <= |sources| && fresh(curs.Values) && FromSources(sources, o, curs)
      invariant Attached(curs, cursors, srcs, prio)
    {
      if !Prune(o, sources[prio]) {
        cursors, curs := AddCursor(sources[prio].src, prio, cursors, curs, srcs);
      } else {
        PrunedAttached(curs, cursors, srcs, prio);
      }
      prio := prio + 1;
    }
    AllAttached(curs, cursors, srcs);
  }

  lemma NoneAttached(srcs: seq<seq<Entry>>)
    ensures Attached(map[], [], srcs, 0)
  {
  }

  lemma PrunedAttached(curs: Cursors, cursors: seq<ScanCursor>, srcs: seq<seq<Entry>>, prio: nat)
    requires prio < |srcs| && srcs[prio] == [] && Attached(curs, cursors, srcs, prio)
    ensures Attached(curs, cursors, srcs, prio + 1)
  {
    hide Members;
  }

  lemma AllAttached(curs: Cursors, cursors: seq<ScanCursor>, srcs: seq<seq<Entry>>)
    requires Attached(curs, cursors, srcs, |srcs|)
    ensures CursorsOk(srcs, curs) && Members(multiset(cursors), curs)
    ensures forall c :: c in cursors <==> c in curs.Values
    ensures forall k | 0 <= k < |srcs| :: TakenFrom(curs, k) == 0
  {
    forall c ensures c in cursors <==> c in curs.Values {
      assert c in cursors <==> c in multiset(cursors);
    }
  }

  lemma AddMember(ms: multiset<ScanCursor>, curs: Cursors, prio: nat, c: ScanCursor)
    requires Members(ms, curs) && prio !in curs && c.prio == prio && !c.done
    ensures Members(ms + multiset{c}, curs[prio := c])
    ensures curs[prio := c].Values == curs.Values + {c}
  {
    var curs' := curs[prio := c];
    assert prio in curs'.Keys;
    forall x | x in curs.Values ensures x in curs'.Values {
      var k :| k in curs && curs[k] == x;
      assert k in curs' && curs'[k] == x;
    }
    assert forall k | k in curs :: curs'[k] == curs[k];
  }

  lemma OneMore(cursors: seq<ScanCursor>, c: ScanCursor)
    ensures multiset(cursors + [c]) == multiset(cursors) + multiset{c}
  {
  }

  /** Round after round, until the heap is empty or the visitor or the context ends it. */
  method MergeSources<E>(sources: seq<ScanSource>, o: ScanOptions, visit: seq<Entry> -> Option<E>,
                         cancelled: nat -> bool)
    returns (visited: seq<Entry>, end: ScanEnd<E>, reason: Option<ScanError>)
    requires SourcesAscend(sources)
    ensures end.Failed? ==> reason.Some? && exists s :: s in sources && Heard(s, o) && s.src.err == reason
    ensures !end.Failed? ==> reason.None?
    ensures (visited, end) == RunOver(Merged(sources, o), 0, visit, cancelled, Reported(sources, o))
  {
    hide HeapFrom, Keys, ScanCursor.Valid, Members, IsTop, CursorsOk, MergeInv, Reported, Listing, Overlay, MapsOf,
         Visible, AllAscending, FromSources;
    ghost var srcs := Visible(sources, o);
    VisibleAscend(sources, o);
    var cursors;
    ghost var curs;
    cursors, curs := BuildCursors(sources, o);
    var hp := new ScanHeap(cursors);
    hp.Init();
    visited, reason := [], None;
    NothingRead(srcs, Ats(|srcs|, curs));
    ghost var full, failed := Merged(sources, o), Reported(sources, o);
    ReadIsPrefix(srcs, Ats(|srcs|, curs), visited);
    while |hp.h| > 0
      invariant fresh(hp) && fresh(curs.Values)
      invariant |hp.h| == 0 ==> Members(multiset([]), curs)
      invariant CursorsOk(srcs, curs) && HeapOk(hp.h, curs) && MergeInv(srcs, Ats(|srcs|, curs), visited)
      invariant |visited| <= |full| && visited == full[..|visited|]
      invariant RunOver(full, 0, visit, cancelled, failed) == RunOver(full, |visited|, visit, cancelled, failed)
      decreases |full| - |visited|
    {
      Ahead(srcs, curs, hp.h, visited);
      if cancelled(|visited|) { return visited, Cancelled, None; }
      var e := Round(hp, srcs, curs);
      visited := visited + [e];
      var r := visit(visited);
      if r.Some? { return visited, Stopped(r.value), None; }
    }
    EmptyHeapAllRead(srcs, curs, hp.h);
    EmptyHeapAllDone(curs);
    AllRead(srcs, Ats(|srcs|, curs), visited);
    reason := AnyError(sources, o, cursors, curs);
    end := if reason.Some? then Failed else Done;
  }

  /**
   The scan hands the visitor the priority-ordered union of the unpruned sources: strictly ascending, each DocID
   once, with the record of the first source that has it; until the visitor, the context or the end stops it. What it
   visited is all of it at the end, and otherwise what came before the record at which the context was done or up to the
   record the visitor stopped at.
   */
  method ScanWithOptions<E>(sources: seq<ScanSource>, o: ScanOptions, visit: seq<Entry> -> Option<E>,
                            cancelled: nat -> bool)
    returns (visited: seq<Entry>, end: ScanEnd<E>, reason: Option<ScanError>)
    requires SourcesAscend(sources)
    ensures end.Failed? ==> reason.Some? && exists s :: s in sources && Heard(s, o) && s.src.err == reason
    ensures !end.Failed? ==> reason.None?
    ensures (visited, end) == RunOver(Merged(sources, o), 0, visit, cancelled, Reported(sources, o))
    ensures |visited| <= |Merged(sources, o)| && visited == Merged(sources, o)[..|visited|]
    ensures forall j | 0 <= j < |visited| :: !cancelled(j)
    ensures forall j | 0 < j < |visited| :: visit(visited[..j]).None?
    ensures end.Stopped? ==> visited != [] && visit(visited) == Some(end.err)
    ensures !end.Stopped? && visited != [] ==> visit(visited).None?
    ensures end.Cancelled? ==> |visited| < |Merged(sources, o)| && cancelled(|visited|)
    ensures end.Done? || end.Failed? ==> visited == Merged(sources, o) && (end.Failed? <==> Reported(sources, o))
  {
    hide RunOver, Merged, Reported, Heard;
    visited, end, reason := MergeSources(sources, o, visit, cancelled);
    RunEndsThere(Merged(sources, o), 0, visit, cancelled, Reported(sources, o));
  }

  /** The round about to be run appends the root's record and leaves a prefix of the whole listing. */
  lemma Ahead(srcs: seq<seq<Entry>>, curs: Cursors, h: seq<ScanCursor>, visited: seq<Entry>)
    requires AllAscending(srcs) && CursorsOk(srcs, curs) && HeapOk(h, curs) && h != []
    requires MergeInv(srcs, Ats(|srcs|, curs), visited)
    ensures var e, full := Entry(h[0].docID, h[0].rec), Listing(Overlay(MapsOf(srcs)));
      && MergeInv(srcs, PastID(srcs, Ats(|srcs|, curs), e.id), visited + [e])
      && |visited| < |full| && visited + [e] == full[..|visited| + 1]
  {
    hide MergeInv, HeapFrom, Keys, CursorsOk, Members, Listing, IsTop, MapsOf, AllAscending;
    var at, e := Ats(|srcs|, curs), Entry(h[0].docID, h[0].rec);
    RootIsTop(srcs, curs, h);
    RoundKeepsInv(srcs, at, visited, h[0].prio);
    ReadIsPrefix(srcs, PastID(srcs, at, e.id), visited + [e]);
  }

  /** The check behind the loop, over all cursors. */
  method AnyError(sources: seq<ScanSource>, o: ScanOptions, cursors: seq<ScanCursor>, ghost curs: Cursors)
    returns (bad: Option<ScanError>)
    requires FromSources(sources, o, curs) && CursorsOk(Visible(sources, o), curs)
    requires forall c :: c in cursors <==> c in curs.Values
    requires forall k | k in curs :: curs[k].done
    ensures bad.Some? <==> Reported(sources, o)
    ensures bad.Some? ==> exists s :: s in sources && Heard(s, o) && s.src.err == bad
  {
    hide Reported;
    var i := 0;
    while i < |cursors|
      invariant i <= |cursors|
      invariant forall j | 0 <= j < i :: cursors[j].lastErr.None?
    {
      if cursors[i].lastErr.Some? {
        AnErrorIsReported(sources, o, curs, cursors[i]);
        return cursors[i].lastErr;
      }
      i := i + 1;
    }
    NoErrorReported(sources, o, curs);
    bad := None;
  }

  lemma AnErrorIsReported(sources: seq<ScanSource>, o: ScanOptions, curs: Cursors, c: ScanCursor)
    requires FromSources(sources, o, curs) && CursorsOk(Visible(sources, o), curs)
    requires c in curs.Values && c.done && c.lastErr.Some?
    ensures Reported(sources, o)
    ensures exists s :: s in sources && Heard(s, o) && s.src.err == c.lastErr
  {
    var k :| k in curs && curs[k] == c;
    assert sources[k] in sources && Heard(sources[k], o);
    assert ReportedAt(sources, o, k);
  }

  lemma NoErrorReported(sources: seq<ScanSource>, o: ScanOptions, curs: Cursors)
    requires FromSources(sources, o, curs) && CursorsOk(Visible(sources, o), curs)
    requires forall k | k in curs :: curs[k].done
    requires forall c | c in curs.Values :: c.lastErr.None?
    ensures !Reported(sources, o)
  {
    forall i | 0 <= i < |sources| ensures !ReportedAt(sources, o, i) {
      assert i in curs ==> curs[i] in curs.Values;
    }
  }

  lemma EmptyHeapAllDone(curs: Cursors)
    requires Members(multiset([]), curs)
    ensures forall k | k in curs :: curs[k].done
  {
  }

  lemma VisibleAscend(sources: seq<ScanSource>, o: ScanOptions)
    requires SourcesAscend(sources)
    ensures AllAscending(Visible(sources, o))
  {
  }

  lemma NothingRead(srcs: seq<seq<Entry>>, at: seq<nat>)
    requires |at| == |srcs| && forall k | 0 <= k < |srcs| :: at[k] == 0
    ensures MergeInv(srcs, at, [])
  {
  }
  // ---- what the scan means for the engine -------------------------------------------------------

  lemma MapOfListing(m: map<DocID, LogRecord>)
    ensures ToMap(Listing(m)) == m
  {
    RepresentedMap(Listing(m), m);
  }

  /** An unrestricted scan over the snapshot of an engine visits exactly what Get answers, and reports no error. */
  lemma ScanIsView(m: Mem, sources: seq<ScanSource>)
    requires |sources| == |Layers(m)|
    requires forall i | 0 <= i < |sources| :: sources[i].src == Source(Listing(Layers(m)[i]), None)
    ensures Merged(sources, NO_OPTIONS) == Listing(View(m)) && !Reported(sources, NO_OPTIONS)
  {
    hide Layers, Listing, ToMap;
    var srcs := Visible(sources, NO_OPTIONS);
    forall i | 0 <= i < |sources| ensures MapsOf(srcs)[i] == Layers(m)[i] {
      MapOfListing(Layers(m)[i]);
    }
    assert MapsOf(srcs) == Layers(m);
  }

  function WithoutError(s: ScanSource): ScanSource {
    match s
    case MemTable(src) => MemTable(src.(err := None))
    case File(src, lo, hi) => File(src.(err := None), lo, hi)
  }

  /** The sources with every failure that goes unnoticed taken back. */
  function Hushed(sources: seq<ScanSource>, o: ScanOptions): (r: seq<ScanSource>)
    ensures |r| == |sources|
  {
    seq(|sources|, i requires 0 <= i < |sources| => if Heard(sources[i], o) then sources[i] else WithoutError(sources[i]))
  }

  /**
   Whatever the number of sources, a scan cannot tell a source that fails before its first record from an empty one that
   does not fail: with any visitor it visits and ends the same.
   */
  lemma SilentFailure<E>(sources: seq<ScanSource>, o: ScanOptions, visit: seq<Entry> -> Option<E>,
                         cancelled: nat -> bool)
    ensures RunOver(Merged(sources, o), 0, visit, cancelled, Reported(sources, o))
            == RunOver(Merged(Hushed(sources, o), o), 0, visit, cancelled, Reported(Hushed(sources, o), o))
    ensures Reported(sources, o) <==>
      exists s :: s in sources && s.src.err.Some? && s.src.items != [] && !Prune(o, s)
  {
    hide RunOver, Listing, Overlay, MapsOf, Prune;
    var hushed := Hushed(sources, o);
    assert Visible(hushed, o) == Visible(sources, o) by { SamePruning(sources, o); }
    forall i | 0 <= i < |sources|
      ensures ReportedAt(hushed, o, i) == ReportedAt(sources, o, i) == Heard(sources[i], o)
    {
      SamePruning(sources, o);
    }
  }

  lemma SamePruning(sources: seq<ScanSource>, o: ScanOptions)
    ensures forall i | 0 <= i < |sources| ::
      && Prune(o, Hushed(sources, o)[i]) == Prune(o, sources[i])
      && Hushed(sources, o)[i].src.items == sources[i].src.items
  {
  }
}
