/** What a merge of sorted sources is: the ascending listing of their priority-ordered union. */
module MergeSpec {
  import opened Types
  import opened EntryList
  import opened EngineState

  // ---- sources, and how far each has been read --------------------------------------------------

  function MapsOf(srcs: seq<seq<Entry>>): seq<map<DocID, LogRecord>> {
    seq(|srcs|, i requires 0 <= i < |srcs| => ToMap(srcs[i]))
  }

  ghost predicate AllAscending(srcs: seq<seq<Entry>>) {
    forall k | 0 <= k < |srcs| :: Ascending(srcs[k])
  }

  ghost predicate InRange(srcs: seq<seq<Entry>>, at: seq<nat>) {
    |at| == |srcs| && forall k | 0 <= k < |srcs| :: at[k] <= |srcs[k]|
  }

  /** e is the record of its DocID in the first source that has the DocID. */
  ghost predicate Owner(srcs: seq<seq<Entry>>, e: Entry, k: nat) {
    k < |srcs| && e in srcs[k] && forall j | 0 <= j < k :: !HasID(srcs[j], e.id)
  }

  ghost predicate Owned(srcs: seq<seq<Entry>>, e: Entry) {
    exists k: nat :: Owner(srcs, e, k)
  }

  /** Everything read so far is in out, everything unread lies above it, and out holds the owners' records. */
  ghost predicate MergeInv(srcs: seq<seq<Entry>>, at: seq<nat>, out: seq<Entry>) {
    && InRange(srcs, at) && Ascending(out)
    && (forall e | e in out :: Owned(srcs, e))
    && (forall k, i | 0 <= k < |srcs| && 0 <= i < at[k] :: HasID(out, srcs[k][i].id))
    && (forall k, e | 0 <= k < |srcs| && at[k] < |srcs[k]| && e in out :: e.id < srcs[k][at[k]].id)
  }

  /** Source t has the smallest unread DocID, and is the first among those that have it. */
  ghost predicate IsTop(srcs: seq<seq<Entry>>, at: seq<nat>, t: nat)
    requires InRange(srcs, at)
  {
    && t < |srcs| && at[t] < |srcs[t]|
    && (forall k | 0 <= k < |srcs| && at[k] < |srcs[k]| :: srcs[t][at[t]].id <= srcs[k][at[k]].id)
    && (forall k | 0 <= k < t && at[k] < |srcs[k]| :: srcs[t][at[t]].id < srcs[k][at[k]].id)
  }

  function At(srcs: seq<seq<Entry>>, at: seq<nat>, k: nat, d: DocID): nat
    requires |at| == |srcs| && k < |srcs|
  {
    if at[k] < |srcs[k]| && srcs[k][at[k]].id == d then at[k] + 1 else at[k]
  }

  /** Every source standing at d moves past it. */
  function PastID(srcs: seq<seq<Entry>>, at: seq<nat>, d: DocID): seq<nat>
    requires |at| == |srcs|
  {
    seq(|srcs|, k requires 0 <= k < |srcs| => At(srcs, at, k, d))
  }

  lemma TopIsOwner(srcs: seq<seq<Entry>>, at: seq<nat>, out: seq<Entry>, t: nat)
    requires AllAscending(srcs) && MergeInv(srcs, at, out) && IsTop(srcs, at, t)
    ensures Owner(srcs, srcs[t][at[t]], t)
  {
    var d := srcs[t][at[t]].id;
    forall j | 0 <= j < t ensures !HasID(srcs[j], d) {
      assert forall i | 0 <= i < at[j] :: HasID(out, srcs[j][i].id);
    }
  }

  lemma HasIDMore(s: seq<Entry>, e: Entry, d: DocID)
    requires HasID(s, d) || d == e.id
    ensures HasID(s + [e], d)
  {
    if HasID(s, d) {
      HasIDAt(s, d, s + [e], 0);
    } else {
      assert (s + [e])[|s|].id == d;
    }
  }

  /** One round of the scan: the top record goes out and every copy of its DocID is passed over. */
  lemma RoundKeepsInv(srcs: seq<seq<Entry>>, at: seq<nat>, out: seq<Entry>, t: nat)
    requires AllAscending(srcs) && MergeInv(srcs, at, out) && IsTop(srcs, at, t)
    ensures MergeInv(srcs, PastID(srcs, at, srcs[t][at[t]].id), out + [srcs[t][at[t]]])
  {
    hide Owner, HasID;
    var e := srcs[t][at[t]];
    var at', out' := PastID(srcs, at, e.id), out + [e];
    TopIsOwner(srcs, at, out, t);
    assert Owned(srcs, e);
    assert forall x | x in out' :: x in out || x == e;
    forall k, i | 0 <= k < |srcs| && 0 <= i < at'[k] ensures HasID(out', srcs[k][i].id) {
      HasIDMore(out, e, srcs[k][i].id);
    }
    forall k, x | 0 <= k < |srcs| && at'[k] < |srcs[k]| && x in out' ensures x.id < srcs[k][at'[k]].id {
      assert Ascending(srcs[k]);
    }
    forall i, j | 0 <= i < j < |out'| ensures out'[i].id < out'[j].id {
      assert out'[i] == out[i] && out[i] in out;
    }
  }

  lemma {:induction false} OverlayHas(srcs: seq<seq<Entry>>, d: DocID)
    requires AllAscending(srcs) && d in Overlay(MapsOf(srcs))
    ensures exists k :: 0 <= k < |srcs| && HasID(srcs[k], d)
    decreases |srcs|
  {
    hide HasID;
    if srcs != [] {
      assert MapsOf(srcs)[1..] == MapsOf(srcs[1..]);
      ToMapRepresented(srcs[0]);
      if d in ToMap(srcs[0]) {
        assert HasID(srcs[0], d);
      } else {
        OverlayHas(srcs[1..], d);
        var k :| 0 <= k < |srcs[1..]| && HasID(srcs[1..][k], d);
        assert srcs[k + 1] == srcs[1..][k];
      }
    }
  }

  lemma InMapOf(s: seq<Entry>, e: Entry)
    requires Ascending(s)
    ensures e in s ==> e.id in ToMap(s) && ToMap(s)[e.id] == e.rec
    ensures !HasID(s, e.id) ==> e.id !in ToMap(s)
  {
    ToMapRepresented(s);
  }

  lemma {:induction false} OwnerIsInOverlay(srcs: seq<seq<Entry>>, e: Entry, k: nat)
    requires AllAscending(srcs) && Owner(srcs, e, k)
    ensures e.id in Overlay(MapsOf(srcs)) && Overlay(MapsOf(srcs))[e.id] == e.rec
    decreases k
  {
    hide ToMap, HasID, Ascending;
    assert MapsOf(srcs)[1..] == MapsOf(srcs[1..]);
    InMapOf(srcs[0], e);
    if k > 0 {
      assert !HasID(srcs[0], e.id);
      forall j | 0 <= j < k - 1 ensures !HasID(srcs[1..][j], e.id) {
        assert srcs[1..][j] == srcs[j + 1];
      }
      OwnerIsInOverlay(srcs[1..], e, k - 1);
    }
  }

  /** out lists part of m: its entries are m's, and m's other DocIDs all lie above it. */
  ghost predicate LowerPart(out: seq<Entry>, m: map<DocID, LogRecord>) {
    && Ascending(out)
    && (forall i :: 0 <= i < |out| ==> out[i].id in m && m[out[i].id] == out[i].rec)
    && (forall d, e | d in m && e in out :: HasID(out, d) || e.id < d)
  }

  lemma PositionOf(s: seq<Entry>, d: DocID) returns (i: nat)
    requires HasID(s, d)
    ensures i < |s| && s[i].id == d
  {
    i :| 0 <= i < |s| && s[i].id == d;
  }

  lemma ReadIsLowerPart(srcs: seq<seq<Entry>>, at: seq<nat>, out: seq<Entry>)
    requires AllAscending(srcs) && MergeInv(srcs, at, out)
    ensures LowerPart(out, Overlay(MapsOf(srcs)))
  {
    hide Owner, HasID;
    var m := Overlay(MapsOf(srcs));
    forall i | 0 <= i < |out| ensures out[i].id in m && m[out[i].id] == out[i].rec {
      assert out[i] in out && Owned(srcs, out[i]);
      var k: nat :| Owner(srcs, out[i], k);
      OwnerIsInOverlay(srcs, out[i], k);
    }
    forall d, e | d in m && e in out ensures HasID(out, d) || e.id < d {
      OverlayHas(srcs, d);
      var k :| 0 <= k < |srcs| && HasID(srcs[k], d);
      var i := PositionOf(srcs[k], d);
      assert Ascending(srcs[k]);
      if i >= at[k] {
        assert srcs[k][at[k]].id <= srcs[k][i].id;
      }
    }
  }

  lemma LowerPartNext(out: seq<Entry>, m: map<DocID, LogRecord>, full: seq<Entry>, k: nat)
    requires LowerPart(out, m) && Represents(full, m) && k < |out| && k <= |full| && out[..k] == full[..k]
    ensures k < |full| && out[k] == full[k]
  {
    forall x | 0 <= x < k ensures out[x] == full[x] {
      assert out[..k][x] == full[..k][x];
    }
    assert forall x | 0 <= x < k :: full[x].id < out[k].id;
    var j := PositionOf(full, out[k].id);
    assert full[k].id <= out[k].id && full[k].id in m && out[k] in out;
    assert forall x | 0 <= x < k :: out[x].id < full[k].id;
    var i := PositionOf(out, full[k].id);
  }

  lemma {:induction false} LowerPartAt(out: seq<Entry>, m: map<DocID, LogRecord>, full: seq<Entry>, n: nat)
    requires LowerPart(out, m) && Represents(full, m) && n <= |out|
    ensures n <= |full| && out[..n] == full[..n]
    decreases n
  {
    hide LowerPart, Represents;
    if n > 0 {
      var k := n - 1;
      LowerPartAt(out, m, full, k);
      LowerPartNext(out, m, full, k);
      assert out[..n] == out[..k] + [out[k]] && full[..n] == full[..k] + [full[k]];
    }
  }

  /** What is out is, at any moment, a prefix of the whole listing. */
  lemma ReadIsPrefix(srcs: seq<seq<Entry>>, at: seq<nat>, out: seq<Entry>)
    requires AllAscending(srcs) && MergeInv(srcs, at, out)
    ensures var full := Listing(Overlay(MapsOf(srcs))); |out| <= |full| && out == full[..|out|]
  {
    hide Listing, Overlay, MapsOf, LowerPart, Represents, MergeInv, AllAscending;
    ReadIsLowerPart(srcs, at, out);
    LowerPartAt(out, Overlay(MapsOf(srcs)), Listing(Overlay(MapsOf(srcs))), |out|);
  }

  /** Once every source is read to its end, out is the priority-ordered union, each DocID once, ascending. */
  lemma AllRead(srcs: seq<seq<Entry>>, at: seq<nat>, out: seq<Entry>)
    requires AllAscending(srcs) && MergeInv(srcs, at, out)
    requires forall k | 0 <= k < |srcs| :: at[k] == |srcs[k]|
    ensures out == Listing(Overlay(MapsOf(srcs)))
  {
    hide Owner, HasID, Listing;
    var m := Overlay(MapsOf(srcs));
    ReadIsLowerPart(srcs, at, out);
    forall d | d in m ensures HasID(out, d) {
      OverlayHas(srcs, d);
      var k :| 0 <= k < |srcs| && HasID(srcs[k], d);
      var i := PositionOf(srcs[k], d);
    }
    ListingIs(out, m);
  }
}
