/** scanCursor and scanHeap (internal/engine/engine.go) under container/heap's sift-down. */
module ScanHeap {
  import opened Types

  datatype ScanError = IteratorError(code: nat)

  /** One source as its iterator presents it: the entries it yields, then the error that ends it, if any. */
  datatype Source = Source(items: seq<Entry>, err: Option<ScanError>)

  datatype Key = Key(id: DocID, prio: nat)

  predicate Less(a: Key, b: Key) {
    a.id < b.id || (a.id == b.id && a.prio < b.prio)
  }

  class ScanCursor {
    const src: Source
    const prio: nat
    var next: nat            // where the iterator stands
    var docID: DocID
    var rec: LogRecord
    var lastErr: Option<ScanError>
    ghost var done: bool     // advance has returned false

    ghost predicate Valid()
      reads this
    {
      && next <= |src.items|
      && (done ==> next == |src.items| && lastErr == src.err)
      && (!done ==> lastErr.None?)
      && (!done && next > 0 ==> docID == src.items[next - 1].id && rec == src.items[next - 1].rec)
    }

    /** How many entries the scan has taken from this source. */
    ghost function Taken(): nat
      reads this
    {
      if done || next == 0 then next else next - 1
    }

    function KeyOf(): Key
      reads this
    {
      Key(docID, prio)
    }

    constructor (src: Source, prio: nat)
      ensures this.src == src && this.prio == prio && Valid() && !done && next == 0
    {
      this.src, this.prio := src, prio;
      next, docID, rec, lastErr, done := 0, 0, LogRecord(0, "", "", "", map[]), None, false;
    }

    method Advance() returns (ok: bool)
      requires Valid() && !done
      modifies this
      ensures Valid() && (ok <==> !done) && (ok <==> old(next) < |src.items|)
      ensures ok ==> next == old(next) + 1
      ensures !ok ==> next == old(next) && KeyOf() == old(KeyOf())
    {
      if next >= |src.items| {
        lastErr := src.err;
        done := true;
        return false;
      }
      docID, rec := src.items[next].id, src.items[next].rec;
      next := next + 1;
      ok := true;
    }
  }

  // ---- heap order on keys -----------------------------------------------------------------------

  /** Neither child of p comes before k. */
  ghost predicate ChildrenNotBefore(ks: seq<Key>, n: nat, p: nat, k: Key)
    requires n <= |ks|
  {
    (2 * p + 1 < n ==> !Less(ks[2 * p + 1], k)) && (2 * p + 2 < n ==> !Less(ks[2 * p + 2], k))
  }

  ghost predicate NodeOk(ks: seq<Key>, n: nat, p: nat)
    requires n <= |ks| && p < n
  {
    ChildrenNotBefore(ks, n, p, ks[p])
  }

  /** If p is the parent of i, it fits the children of i too. */
  ghost predicate ParentOk(ks: seq<Key>, n: nat, i: nat, p: nat)
    requires n <= |ks| && p < n
  {
    2 * p + 1 == i || 2 * p + 2 == i ==> ChildrenNotBefore(ks, n, i, ks[p])
  }

  ghost predicate HeapFrom(ks: seq<Key>, n: nat, lo: nat)
    requires n <= |ks|
  {
    forall p: nat | lo <= p < n :: NodeOk(ks, n, p)
  }

  /** Heap order from lo on, but for the node at i, whose parent (if it counts) fits its children. */
  ghost predicate Sifting(ks: seq<Key>, n: nat, lo: nat, i: nat)
    requires n <= |ks|
  {
    && (forall p: nat | lo <= p < n && p != i :: NodeOk(ks, n, p))
    && (forall p: nat | lo <= p < n :: ParentOk(ks, n, i, p))
  }

  function Swapped<T>(s: seq<T>, i: nat, j: nat): (r: seq<T>)
    requires i < |s| && j < |s|
    ensures |r| == |s|
  {
    s[i := s[j]][j := s[i]]
  }

  /** a's first n elements are b's in some order; the rest is the same. */
  ghost predicate Permuted<T>(a: seq<T>, b: seq<T>, n: nat)
    requires n <= |b|
  {
    |a| == |b| && a[n..] == b[n..] && multiset(a[..n]) == multiset(b[..n])
  }

  lemma PermutedSelf<T>(a: seq<T>, n: nat)
    requires n <= |a|
    ensures Permuted(a, a, n)
  {
  }

  lemma SwapPermutes<T>(a: seq<T>, b: seq<T>, i: nat, j: nat, n: nat)
    requires n <= |b| && Permuted(a, b, n) && i < n && j < n
    ensures Permuted(Swapped(a, i, j), b, n)
  {
    var c := Swapped(a, i, j);
    assert c[..n] == Swapped(a[..n], i, j);
    SwapMultiset(a[..n], i, j);
    assert c[n..] == a[n..];
  }

  lemma SwapMultiset<T>(s: seq<T>, i: nat, j: nat)
    requires i < |s| && j < |s|
    ensures multiset(Swapped(s, i, j)) == multiset(s)
  {
  }

  /** Swapping a node with its smaller child moves the hole down. */
  lemma SiftStep(ks: seq<Key>, n: nat, lo: nat, i: nat, j: nat)
    requires n <= |ks| && lo <= i < n && j < n && (j == 2 * i + 1 || j == 2 * i + 2)
    requires Sifting(ks, n, lo, i) && Less(ks[j], ks[i])
    requires ChildrenNotBefore(ks, n, i, ks[j])
    ensures Sifting(Swapped(ks, i, j), n, lo, j)
  {
    var ks' := Swapped(ks, i, j);
    forall p: nat | lo <= p < n && p != j ensures NodeOk(ks', n, p) {
      if p != i {
        assert NodeOk(ks, n, p) && ParentOk(ks, n, i, p);
      }
    }
    forall p: nat | lo <= p < n ensures ParentOk(ks', n, j, p) {
      assert NodeOk(ks, n, j);
    }
  }

  /** The child Down picks: neither child comes before it. */
  lemma SmallerChild(ks: seq<Key>, n: nat, i: nat, j: nat)
    requires n <= |ks| && 2 * i + 1 < n
    requires j == if 2 * i + 2 < n && Less(ks[2 * i + 2], ks[2 * i + 1]) then 2 * i + 2 else 2 * i + 1
    ensures ChildrenNotBefore(ks, n, i, ks[j])
  {
  }

  lemma Settled(ks: seq<Key>, n: nat, lo: nat, i: nat)
    requires n <= |ks| && lo <= i <= n && Sifting(ks, n, lo, i)
    requires i < n ==> NodeOk(ks, n, i)
    ensures HeapFrom(ks, n, lo)
  {
  }

  lemma StartSifting(ks: seq<Key>, n: nat, i: nat)
    requires i <= n <= |ks| && HeapFrom(ks, n, i + 1)
    ensures Sifting(ks, n, i, i)
  {
  }

  lemma Childless(ks: seq<Key>, n: nat, i: nat)
    requires n <= |ks| && 2 * i + 1 >= n
    ensures i < n ==> NodeOk(ks, n, i)
  {
  }

  /** A child no smaller than its node, when the other child is no smaller than it, leaves the node in place. */
  lemma StaysPut(ks: seq<Key>, n: nat, i: nat, j: nat)
    requires n <= |ks| && i < n && j < n && ChildrenNotBefore(ks, n, i, ks[j]) && !Less(ks[j], ks[i])
    ensures NodeOk(ks, n, i)
  {
  }

  /** In a heap nothing comes before the root. */
  lemma {:induction false} RootIsLeast(ks: seq<Key>, n: nat, i: nat)
    requires n <= |ks| && HeapFrom(ks, n, 0) && i < n
    ensures !Less(ks[i], ks[0])
    decreases i
  {
    if i > 0 {
      var p := (i - 1) / 2;
      assert NodeOk(ks, n, p);
      RootIsLeast(ks, n, p);
    }
  }

  function Keys(cs: seq<ScanCursor>): (ks: seq<Key>)
    reads cs
    ensures |ks| == |cs|
  {
    seq(|cs|, i requires 0 <= i < |cs| reads cs => cs[i].KeyOf())
  }

  lemma SwapKeys(cs: seq<ScanCursor>, i: nat, j: nat)
    requires i < |cs| && j < |cs|
    ensures Keys(Swapped(cs, i, j)) == Swapped(Keys(cs), i, j)
  {
  }

  lemma KeysTake(cs: seq<ScanCursor>, n: nat)
    requires n <= |cs|
    ensures Keys(cs[..n]) == Keys(cs)[..n]
  {
  }

  lemma HeapPrefix(ks: seq<Key>, n: nat)
    requires n <= |ks| && HeapFrom(ks, n, 0)
    ensures HeapFrom(ks[..n], n, 0)
  {
    forall p: nat | p < n ensures NodeOk(ks[..n], n, p) {
      assert NodeOk(ks, n, p);
    }
  }

  /** Below a replaced root every node is as it was. */
  lemma RootReplaced(ks: seq<Key>, ks': seq<Key>, n: nat)
    requires n <= |ks| == |ks'| && HeapFrom(ks, n, 0) && forall i | 1 <= i < n :: ks'[i] == ks[i]
    ensures HeapFrom(ks', n, 1)
  {
    forall p: nat | 1 <= p < n ensures NodeOk(ks', n, p) {
      assert NodeOk(ks, n, p);
    }
  }

  lemma LastToRoot(ks: seq<Key>, n: nat)
    requires |ks| == n + 1 && HeapFrom(ks, n + 1, 0)
    ensures HeapFrom(Swapped(ks, 0, n), n, 1)
  {
    forall p: nat | 1 <= p < n ensures NodeOk(Swapped(ks, 0, n), n, p) {
      assert NodeOk(ks, n + 1, p);
    }
  }

  lemma WholePermuted<T>(a: seq<T>, b: seq<T>)
    requires Permuted(a, b, |b|)
    ensures |a| == |b| && multiset(a) == multiset(b)
  {
    assert a[..|b|] == a && b[..|b|] == b;
  }

  /** Dropping the last element of b, which the sift left in place. */
  lemma ButLast<T>(a: seq<T>, b: seq<T>, n: nat)
    requires |b| == n + 1 && Permuted(a, b, n)
    ensures multiset(a[..n]) + multiset{b[n]} == multiset(b)
  {
    assert b == b[..n] + [b[n]];
  }

  class ScanHeap {
    var h: seq<ScanCursor>

    constructor (cursors: seq<ScanCursor>)
      ensures h == cursors
    {
      h := cursors;
    }

    /** heap.down */
    method Down(i0: nat, n: nat) returns (moved: bool)
      requires i0 <= n <= |h| && HeapFrom(Keys(h), n, i0 + 1)
      modifies `h
      ensures Permuted(h, old(h), n)
      ensures HeapFrom(Keys(h), n, i0)
      ensures !moved ==> h == old(h)
    {
      hide ChildrenNotBefore, NodeOk, HeapFrom, Sifting, Less, Permuted, Swapped;
      StartSifting(Keys(h), n, i0);
      PermutedSelf(h, n);
      var i := i0;
      while true
        invariant i0 <= i <= n && |h| == old(|h|)
        invariant Permuted(h, old(h), n)
        invariant Sifting(Keys(h), n, i0, i)
        invariant i == i0 ==> h == old(h)
        decreases n - i
      {
        ghost var ks := Keys(h);
        var j1 := 2 * i + 1;
        if j1 >= n {
          Childless(ks, n, i);
          Settled(ks, n, i0, i);
          break;
        }
        var j := j1;
        var j2 := j1 + 1;
        if j2 < n && Less(h[j2].KeyOf(), h[j1].KeyOf()) { j := j2; }
        SmallerChild(ks, n, i, j);
        if !Less(h[j].KeyOf(), h[i].KeyOf()) {
          StaysPut(ks, n, i, j);
          Settled(ks, n, i0, i);
          break;
        }
        SiftStep(ks, n, i0, i, j);
        SwapPermutes(h, old(h), i, j, n);
        SwapKeys(h, i, j);
        h := Swapped(h, i, j);
        i := j;
      }
      moved := i > i0;
    }

    /** heap.Init */
    method Init()
      modifies `h
      ensures HeapFrom(Keys(h), |h|, 0) && multiset(h) == multiset(old(h))
    {
      var n := |h|;
      var i: nat := n / 2;
      assert HeapFrom(Keys(h), n, i);
      while i > 0
        invariant i <= n && |h| == n && HeapFrom(Keys(h), n, i)
        invariant multiset(h) == multiset(old(h))
      {
        i := i - 1;
        ghost var before := h;
        var _ := Down(i, n);
        WholePermuted(h, before);
      }
    }

    /** heap.Fix(h, 0): a root that does not move down has no parent to move up to. */
    method FixTop()
      requires h != [] && HeapFrom(Keys(h), |h|, 1)
      modifies `h
      ensures HeapFrom(Keys(h), |h|, 0) && multiset(h) == multiset(old(h))
    {
      ghost var before := h;
      var _ := Down(0, |h|);
      WholePermuted(h, before);
    }

    /** heap.Pop */
    method Pop()
      requires h != [] && HeapFrom(Keys(h), |h|, 0)
      modifies `h
      ensures HeapFrom(Keys(h), |h|, 0) && multiset(h) + multiset{old(h[0])} == multiset(old(h))
    {
      hide HeapFrom;
      var n := |h| - 1;
      PermutedSelf(h, n + 1);
      SwapPermutes(h, h, 0, n, n + 1);
      WholePermuted(Swapped(h, 0, n), h);
      SwapKeys(h, 0, n);
      LastToRoot(Keys(h), n);
      h := Swapped(h, 0, n);
      ghost var before := h;
      var _ := Down(0, n);
      KeysTake(h, n);
      HeapPrefix(Keys(h), n);
      ButLast(h, before, n);
      h := h[..n];
    }
  }
}
