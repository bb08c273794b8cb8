/** Strictly ascending entry lists and the maps they stand for. */
module EntryList {
  import opened Types

  ghost predicate Ascending(s: seq<Entry>) {
    forall i, j :: 0 <= i < j < |s| ==> s[i].id < s[j].id
  }

  function ToMap(s: seq<Entry>): map<DocID, LogRecord> {
    if s == [] then map[]
    else ToMap(s[..|s| - 1])[s[|s| - 1].id := s[|s| - 1].rec]
  }

  ghost predicate HasID(s: seq<Entry>, d: DocID) {
    exists i :: 0 <= i < |s| && s[i].id == d
  }

  /** An ascending list and a map with the same entries. */
  ghost predicate Represents(s: seq<Entry>, m: map<DocID, LogRecord>) {
    && Ascending(s)
    && (forall i :: 0 <= i < |s| ==> s[i].id in m && m[s[i].id] == s[i].rec)
    && (forall d | d in m :: HasID(s, d))
  }

  lemma AddLast(s: seq<Entry>, m: map<DocID, LogRecord>, e: Entry)
    requires Represents(s, m)
    requires s != [] ==> s[|s| - 1].id < e.id
    ensures Represents(s + [e], m[e.id := e.rec])
  {
    var t := s + [e];
    forall d | d in m[e.id := e.rec] ensures HasID(t, d) {
      if d == e.id {
        assert t[|s|].id == d;
      } else {
        HasIDAt(s, d, t, 0);
      }
    }
  }

  /** s sits in t from position off on. */
  lemma HasIDAt(s: seq<Entry>, d: DocID, t: seq<Entry>, off: nat)
    requires HasID(s, d) && off + |s| <= |t| && t[off..off + |s|] == s
    ensures HasID(t, d)
  {
    var i :| 0 <= i < |s| && s[i].id == d;
    assert t[off + i] == t[off..off + |s|][i];
  }

  lemma {:induction false} ToMapRepresented(s: seq<Entry>)
    requires Ascending(s)
    ensures Represents(s, ToMap(s))
  {
    if s != [] {
      var n := |s| - 1;
      ToMapRepresented(s[..n]);
      AddLast(s[..n], ToMap(s[..n]), s[n]);
      assert s == s[..n] + [s[n]];
    }
  }

  lemma RepresentedMap(s: seq<Entry>, m: map<DocID, LogRecord>)
    requires Represents(s, m)
    ensures m == ToMap(s)
  {
    ToMapRepresented(s);
  }

  /** The last entry of an ascending list is the one with the largest ID of the map. */
  lemma LastIsLargest(s: seq<Entry>, m: map<DocID, LogRecord>, d: DocID)
    requires Represents(s, m) && d in m
    ensures s != [] && d <= s[|s| - 1].id
  {
    assert HasID(s, d);
  }

  lemma SameLast(a: seq<Entry>, b: seq<Entry>, m: map<DocID, LogRecord>)
    requires Represents(a, m) && Represents(b, m) && a != []
    ensures b != [] && a[|a| - 1] == b[|b| - 1]
  {
    LastIsLargest(b, m, a[|a| - 1].id);
    LastIsLargest(a, m, b[|b| - 1].id);
  }

  lemma DropLast(s: seq<Entry>, m: map<DocID, LogRecord>)
    requires Represents(s, m) && s != []
    ensures Represents(s[..|s| - 1], m - {s[|s| - 1].id})
  {
    var k := |s| - 1;
    forall d | d in m - {s[k].id} ensures HasID(s[..k], d) {
      assert HasID(s, d);
      var i :| 0 <= i < |s| && s[i].id == d;
      assert s[..k][i].id == d;
    }
  }

  /** The ascending list of a map is unique: order and contents pin down every position. */
  lemma {:induction false} AscendingUnique(a: seq<Entry>, b: seq<Entry>, m: map<DocID, LogRecord>)
    requires Represents(a, m) && Represents(b, m)
    ensures a == b
    decreases |a|
  {
    if a == [] {
      if b != [] {
        SameLast(b, a, m);
      }
    } else {
      hide Represents;
      var k, l := |a| - 1, |b| - 1;
      SameLast(a, b, m);
      DropLast(a, m);
      DropLast(b, m);
      AscendingUnique(a[..k], b[..l], m - {a[k].id});
      assert a == a[..k] + [a[k]] && b == b[..l] + [b[l]];
    }
  }

  // ---- the listing of a map ---------------------------------------------------------------------

  lemma OnlyOne(keys: set<DocID>, x: DocID)
    requires keys - {x} == {}
    ensures forall y | y in keys :: y == x
  {
    forall y | y in keys ensures y == x {
      assert y != x ==> y in keys - {x};
    }
  }

  ghost function Largest(keys: set<DocID>): (k: DocID)
    requires keys != {}
    ensures k in keys && forall x | x in keys :: x <= k
  {
    var x :| x in keys;
    if keys - {x} == {} then OnlyOne(keys, x); x
    else
      var y := Largest(keys - {x});
      assert forall z | z in keys :: z == x || z in keys - {x};
      if x < y then y else x
  }

  /** The one ascending list that represents m. */
  ghost function Listing(m: map<DocID, LogRecord>): (s: seq<Entry>)
    ensures Represents(s, m)
    decreases |m.Keys|
  {
    if m.Keys == {} then []
    else
      var k := Largest(m.Keys);
      assert (m - {k}).Keys == m.Keys - {k};
      var rest := Listing(m - {k});
      ListingGrows(rest, m, k);
      rest + [Entry(k, m[k])]
  }

  lemma ListingGrows(rest: seq<Entry>, m: map<DocID, LogRecord>, k: DocID)
    requires k in m && (forall x | x in m :: x <= k) && Represents(rest, m - {k})
    ensures Represents(rest + [Entry(k, m[k])], m)
  {
    assert rest != [] ==> rest[|rest| - 1].id in m - {k};
    AddLast(rest, m - {k}, Entry(k, m[k]));
    assert (m - {k})[k := m[k]] == m;
  }

  lemma ListingIs(s: seq<Entry>, m: map<DocID, LogRecord>)
    requires Represents(s, m)
    ensures s == Listing(m)
  {
    AscendingUnique(s, Listing(m), m);
  }

  // ---- changing one entry -----------------------------------------------------------------------

  /** Replacing the entry that has e's ID. */
  lemma ReplaceEntry(s: seq<Entry>, m: map<DocID, LogRecord>, p: nat, e: Entry)
    requires Represents(s, m) && p < |s| && s[p].id == e.id
    ensures Represents(s[p := e], m[e.id := e.rec])
  {
    var t := s[p := e];
    forall d | d in m[e.id := e.rec] ensures HasID(t, d) {
      assert HasID(s, d);
      var i :| 0 <= i < |s| && s[i].id == d;
      assert t[i].id == d;
    }
  }

  lemma InsertedAt(s: seq<Entry>, p: nat, e: Entry)
    requires p <= |s|
    ensures var t := s[..p] + [e] + s[p..];
      && |t| == |s| + 1
      && (forall i :: 0 <= i < p ==> t[i] == s[i])
      && t[p] == e
      && (forall i :: p < i < |t| ==> t[i] == s[i - 1])
      && (forall d :: HasID(s, d) ==> HasID(t, d))
  {
    var t := s[..p] + [e] + s[p..];
    forall d | HasID(s, d) ensures HasID(t, d) {
      var i :| 0 <= i < |s| && s[i].id == d;
      assert t[if i < p then i else i + 1] == s[i];
    }
  }

  /** Placing e between its neighbours. */
  lemma InsertEntry(s: seq<Entry>, m: map<DocID, LogRecord>, p: nat, e: Entry)
    requires Represents(s, m) && p <= |s|
    requires forall i :: 0 <= i < p ==> s[i].id < e.id
    requires forall i :: p <= i < |s| ==> e.id < s[i].id
    ensures Represents(s[..p] + [e] + s[p..], m[e.id := e.rec])
  {
    var t := s[..p] + [e] + s[p..];
    InsertedAt(s, p, e);
    InsertedAscending(s, t, p, e);
    assert t[p].id == e.id;
  }

  lemma InsertedAscending(s: seq<Entry>, t: seq<Entry>, p: nat, e: Entry)
    requires Ascending(s) && p <= |s| && |t| == |s| + 1
    requires forall i :: 0 <= i < p ==> s[i].id < e.id && t[i] == s[i]
    requires forall i :: p <= i < |s| ==> e.id < s[i].id
    requires forall i :: p < i < |t| ==> t[i] == s[i - 1]
    requires t[p] == e
    ensures Ascending(t)
  {
  }
}

/** The MemTable (internal/memtable): an ordered map that counts its bytes and can be frozen. */
module MemTable {
  import opened Types
  import opened EntryList

  const PER_RECORD_OVERHEAD := 64
  const PER_FIELD_OVERHEAD := 16

  ghost function Sum<K>(m: map<K, nat>): nat {
    if m == map[] then 0 else var k :| k in m; m[k] + Sum(m - {k})
  }

  /** The sum does not depend on the order the keys are visited in. */
  lemma {:induction false} SumWithout<K>(m: map<K, nat>, k: K)
    requires k in m
    ensures Sum(m) == m[k] + Sum(m - {k})
    decreases |m|
  {
    var c :| c in m && Sum(m) == m[c] + Sum(m - {c});
    if c != k {
      SumWithout(m - {c}, k);
      SumWithout(m - {k}, c);
      assert m - {c} - {k} == m - {k} - {c};
    }
  }

  lemma SumUpdate<K>(m: map<K, nat>, k: K, v: nat)
    ensures Sum(m[k := v]) == Sum(m - {k}) + v
    ensures Sum(m) == Sum(m - {k}) + if k in m then m[k] else 0
  {
    SumWithout(m[k := v], k);
    assert m[k := v] - {k} == m - {k};
    if k in m {
      SumWithout(m, k);
    } else {
      assert m - {k} == m;
    }
  }

  function FieldSizes(fields: map<string, string>): map<string, nat> {
    map k | k in fields :: |k| + |fields[k]| + PER_FIELD_OVERHEAD
  }

  ghost function RecordSize(r: LogRecord): nat {
    PER_RECORD_OVERHEAD + |r.tenantID| + |r.source| + |r.message| + Sum(FieldSizes(r.fields))
  }

  /** 64 bytes for a record and 16 for each field, beside the strings themselves. */
  lemma {:induction false} RecordSizeGrows(r: LogRecord, k: string)
    ensures r.fields == map[] ==> RecordSize(r) == 64 + |r.tenantID| + |r.source| + |r.message|
    ensures k in r.fields ==> RecordSize(r) == RecordSize(r.(fields := r.fields - {k})) + 16 + |k| + |r.fields[k]|
  {
    hide Sum;
    assert r.fields == map[] ==> FieldSizes(r.fields) == map[];
    NoSum<string>();
    if k in r.fields {
      assert FieldSizes(r.fields) - {k} == FieldSizes(r.fields - {k});
      SumWithout(FieldSizes(r.fields), k);
    }
  }

  lemma NoSum<K>()
    ensures Sum<K>(map[]) == 0
  {
  }

  /** recordSizeBytes, visiting the fields in whatever order the map yields them. */
  method RecordSizeBytes(r: LogRecord) returns (n: nat)
    ensures n == RecordSize(r)
  {
    n := PER_RECORD_OVERHEAD;
    n := n + |r.tenantID| + |r.source| + |r.message|;
    var rest := r.fields;
    assert FieldSizes(map[]) == map[];
    while rest != map[]
      invariant n + Sum(FieldSizes(rest)) == RecordSize(r)
      decreases |rest|
    {
      var k :| k in rest;
      SumWithout(FieldSizes(rest), k);
      assert FieldSizes(rest) - {k} == FieldSizes(rest - {k});
      n := n + |k| + |rest[k]| + PER_FIELD_OVERHEAD;
      rest := rest - {k};
    }
  }

  /** The value of a MemTable: what the engine model keeps of it. */
  datatype Table = Table(contents: map<DocID, LogRecord>, size: int, frozen: bool)

  const EMPTY := Table(map[], 0, false)

  ghost function Sizes(m: map<DocID, LogRecord>): map<DocID, nat> {
    map d | d in m :: RecordSize(m[d])
  }

  ghost function ContentsSize(m: map<DocID, LogRecord>): nat {
    Sum(Sizes(m))
  }

  /** Put on a table that is not frozen: overwriting gives the old record's bytes back first. */
  ghost function PutTable(t: Table, id: DocID, rec: LogRecord): (t': Table)
    ensures t'.contents == t.contents[id := rec] && t'.frozen == t.frozen
  {
    var size := if id in t.contents then t.size - RecordSize(t.contents[id]) else t.size;
    t.(contents := t.contents[id := rec], size := size + RecordSize(rec))
  }

  /** The counter is exact, whatever was overwritten. */
  ghost predicate SizeExact(t: Table) {
    t.size == ContentsSize(t.contents)
  }

  lemma PutKeepsSizeExact(t: Table, id: DocID, rec: LogRecord)
    requires SizeExact(t)
    ensures SizeExact(PutTable(t, id, rec))
  {
    hide Sum, RecordSize;
    var m := Sizes(t.contents);
    assert Sizes(t.contents[id := rec]) == m[id := RecordSize(rec)];
    SumUpdate(m, id, RecordSize(rec));
  }

  /** A run of puts. */
  ghost function PutAll(t: Table, es: seq<Entry>): Table {
    if es == [] then t else PutTable(PutAll(t, es[..|es| - 1]), es[|es| - 1].id, es[|es| - 1].rec)
  }

  /** After any puts the table is the map they describe, and its counter is the sum over what is left. */
  lemma {:induction false} PutAllIsSortedMap(es: seq<Entry>)
    ensures PutAll(EMPTY, es).contents == ToMap(es)
    ensures SizeExact(PutAll(EMPTY, es))
    ensures !PutAll(EMPTY, es).frozen
  {
    if es == [] {
      assert Sizes(map[]) == map[];
    } else {
      var n := |es| - 1;
      PutAllIsSortedMap(es[..n]);
      PutKeepsSizeExact(PutAll(EMPTY, es[..n]), es[n].id, es[n].rec);
    }
  }

  datatype PutError = ErrFrozen

  /** skipMemTable: an ascending list stands for the skip list. */
  class SkipMemTable {
    var list: seq<Entry>
    var sizeBytes: int
    var frozen: bool

    ghost predicate Valid()
      reads this
    {
      Ascending(list) && SizeExact(Model())
    }

    ghost function Model(): Table
      reads this
    {
      Table(ToMap(list), sizeBytes, frozen)
    }

    constructor ()
      ensures Valid() && Model() == EMPTY && list == []
    {
      list, sizeBytes, frozen := [], 0, false;
      new;
      PutAllIsSortedMap([]);
    }

    /** The first position whose ID is not below docID. */
    method Seek(docID: DocID) returns (p: nat)
      requires Ascending(list)
      ensures p <= |list|
      ensures forall i :: 0 <= i < p ==> list[i].id < docID
      ensures forall i :: p <= i < |list| ==> docID <= list[i].id
    {
      p := 0;
      while p < |list| && list[p].id < docID
        invariant p <= |list|
        invariant forall i :: 0 <= i < p ==> list[i].id < docID
      {
        p := p + 1;
      }
    }

    method Get(docID: DocID) returns (r: Option<LogRecord>)
      requires Valid()
      ensures r == Lookup(Model().contents, docID)
    {
      ToMapRepresented(list);
      var p := Seek(docID);
      if p < |list| && list[p].id == docID {
        return Some(list[p].rec);
      }
      assert docID in ToMap(list) ==> HasID(list, docID);
      return None;
    }

    /** skiplist.Set */
    method Set(docID: DocID, record: LogRecord)
      requires Ascending(list)
      modifies this`list
      ensures Ascending(list)
      ensures ToMap(list) == old(ToMap(list))[docID := record]
    {
      var p := Seek(docID);
      var e := Entry(docID, record);
      ghost var m := ToMap(list);
      ToMapRepresented(list);
      if p < |list| && list[p].id == docID {
        ReplaceEntry(list, m, p, e);
        list := list[p := e];
      } else {
        InsertEntry(list, m, p, e);
        list := list[..p] + [e] + list[p..];
      }
      RepresentedMap(list, m[docID := record]);
    }

    method Put(docID: DocID, record: LogRecord) returns (r: Result<(), PutError>)
      requires Valid()
      modifies this
      ensures Valid()
      ensures r == if old(frozen) then Err(ErrFrozen) else Ok(())
      ensures Model() == if old(frozen) then old(Model()) else PutTable(old(Model()), docID, record)
      ensures old(frozen) ==> list == old(list)
    {
      if frozen {
        return Err(ErrFrozen);
      }
      PutKeepsSizeExact(Model(), docID, record);
      var existing := Get(docID);
      if existing.Some? {
        var n := RecordSizeBytes(existing.value);
        sizeBytes := sizeBytes - n;
      }
      Set(docID, record);
      var n := RecordSizeBytes(record);
      sizeBytes := sizeBytes + n;
      return Ok(());
    }

    method Freeze()
      requires Valid()
      modifies this`frozen
      ensures Valid()
      ensures Model() == old(Model()).(frozen := true)
    {
      frozen := true;
    }
  }

  /** skipIterator: stands before the first element until the first Next. */
  class SkipIterator {
    const parent: SkipMemTable
    var cur: Option<nat>
    var next: Option<nat>
    var started: bool
    var closed: bool

    /** Number of elements already yielded; the one under the cursor is the last of them. */
    ghost var yielded: nat

    ghost predicate Valid()
      reads this, parent
    {
      && yielded <= |parent.list|
      && (closed ==> cur.None? && next.None?)
      && (!closed ==> next == (if yielded < |parent.list| then Some(yielded) else None))
      && (!started ==> yielded == 0)
      && (cur.Some? ==> yielded > 0 && cur.value == yielded - 1)
    }

    constructor (parent: SkipMemTable)
      ensures this.parent == parent && Valid() && yielded == 0 && !closed
    {
      this.parent := parent;
      cur, started, closed := None, false, false;
      next := if |parent.list| > 0 then Some(0) else None;
      yielded := 0;
    }

    function After(p: nat): Option<nat>
      reads this, parent
    {
      if p + 1 < |parent.list| then Some(p + 1) else None
    }

    method Next() returns (ok: bool)
      requires Valid()
      modifies this
      ensures Valid()
      ensures closed == old(closed)
      ensures ok == (!closed && old(yielded) < |parent.list|)
      ensures yielded == if ok then old(yielded) + 1 else old(yielded)
      ensures ok ==> cur == Some(old(yielded))
    {
      if closed {
        return false;
      }
      if !started {
        started := true;
        cur := next;
        if cur.Some? {
          next := After(cur.value);
          yielded := yielded + 1;
        }
        return cur.Some?;
      }
      cur := next;
      if cur.None? {
        return false;
      }
      next := After(cur.value);
      yielded := yielded + 1;
      return true;
    }

    method Close()
      requires Valid()
      modifies this
      ensures Valid() && closed
    {
      cur, next, closed := None, None, true;
    }
  }

  /** Draining an iterator yields the one list with every key once, in ascending order, with its record. */
  method Drain(m: SkipMemTable) returns (es: seq<Entry>)
    requires m.Valid()
    ensures es == Listing(m.Model().contents)
  {
    var it := new SkipIterator(m);
    es := [];
    var more := it.Next();
    while more
      invariant it.Valid() && !it.closed && it.parent == m
      invariant it.yielded == if more then |es| + 1 else |es|
      invariant more ==> it.cur == Some(|es|)
      invariant !more ==> it.yielded == |m.list|
      invariant es == m.list[..|es|]
      decreases |m.list| - |es|
    {
      es := es + [m.list[it.cur.value]];
      more := it.Next();
    }
    it.Close();
    assert es == m.list;
    ToMapRepresented(m.list);
    ListingIs(es, m.Model().contents);
  }
}
