/** The SSTable reader (internal/sstable/reader.go): opening, point lookup through the sparse index, iteration. */
module SSTableReader {
  import opened Bytes
  import opened Types
  import opened EntryList
  import opened SSTableFormat
  import opened SSTableLayout
  import opened SSTableWriter
  import Crc32

  type Loaded = Result<seq<Entry>, FormatError>

  // ---- opening ----------------------------------------------------------------------------------

  function Prepend<T>(done: seq<T>, rest: Result<seq<T>, FormatError>): Result<seq<T>, FormatError> {
    match rest
    case Err(e) => Err(e)
    case Ok(s) => Ok(done + s)
  }

  lemma PrependNothing<T>(rest: Result<seq<T>, FormatError>)
    ensures Prepend([], rest) == rest
  {
    assert rest.Ok? ==> [] + rest.value == rest.value;
  }

  lemma PrependStep<T>(done: seq<T>, x: T, rest: Result<seq<T>, FormatError>)
    ensures Prepend(done + [x], rest) == Prepend(done, Prepend([x], rest))
  {
    if rest.Ok? {
      assert done + [x] + rest.value == done + ([x] + rest.value);
    }
  }

  method ReadIndex(body: seq<byte>, count: nat) returns (r: Result<seq<IndexEntry>, FormatError>)
    requires INDEX_ENTRY_SIZE * count == |body|
    ensures r == DecodeIndex(body, count, 0, 0)
  {
    hide DecodeIndexEntry;
    var entries: seq<IndexEntry>, prev: DocID, i := [], 0, 0;
    PrependNothing(DecodeIndex(body, count, 0, 0));
    while i < count
      invariant i <= count
      invariant DecodeIndex(body, count, 0, 0) == Prepend(entries, DecodeIndex(body, count, i, prev))
    {
      match DecodeIndexEntry(body[INDEX_ENTRY_SIZE * i..]) {
        case Err(e) => return Err(e);
        case Ok(e) =>
          if i > 0 && e.firstDocID <= prev { return Err(Malformed); }
          PrependStep(entries, e, DecodeIndex(body, count, i + 1, e.firstDocID));
          prev := e.firstDocID;
          entries := entries + [e];
      }
      i := i + 1;
    }
    assert entries + [] == entries;
    r := Ok(entries);
  }

  method OpenSource(file: seq<byte>) returns (r: Result<Reader, FormatError>)
    ensures r == OpenFile(file)
  {
    hide DecodeFooter, DecodeMeta, DecodeIndex, Crc32.Checksum, GetU32;
    if |file| < FOOTER_SIZE { return Err(TooSmall); }
    var limit := |file| - FOOTER_SIZE;
    var footer := DecodeFooter(file[limit..]);
    if footer.Err? { return Err(footer.error); }
    var f := footer.value;
    if AddI64(ToI64(f.indexBlockOffset), f.indexBlockSize) > limit { return Err(Malformed); }
    if AddI64(ToI64(f.metaBlockOffset), f.metaBlockSize) > limit { return Err(Malformed); }
    var metaBuf := ReadAt(file, ToI64(f.metaBlockOffset), f.metaBlockSize);
    if metaBuf.None? { return Err(ReadFailed); }
    var meta := DecodeMeta(metaBuf.value);
    if meta.Err? { return Err(meta.error); }
    var indexBuf := ReadAt(file, ToI64(f.indexBlockOffset), f.indexBlockSize);
    if indexBuf.None? { return Err(ReadFailed); }
    var buf := indexBuf.value;
    if |buf| < BLOCK_TRAILER_SIZE { return Err(Malformed); }
    var body, trailer := buf[..|buf| - BLOCK_TRAILER_SIZE], buf[|buf| - BLOCK_TRAILER_SIZE..];
    var entryCount := GetU32(trailer[0..4]);
    if Crc32.Checksum(body) != GetU32(trailer[4..8]) { return Err(BadCRC); }
    if entryCount != |body| / INDEX_ENTRY_SIZE || |body| % INDEX_ENTRY_SIZE != 0 { return Err(Malformed); }
    if entryCount != meta.value.dataBlockCount { return Err(Malformed); }
    var entries := ReadIndex(body, entryCount);
    if entries.Err? { return Err(entries.error); }
    r := Ok(Reader(file, f, meta.value, entries.value));
  }

  /** What the entry loop of openSource accepts is strictly increasing. */
  lemma {:induction false} DecodedIndexAscends(body: seq<byte>, count: nat, i: nat, prev: DocID)
    requires INDEX_ENTRY_SIZE * count == |body| && i <= count && DecodeIndex(body, count, i, prev).Ok?
    ensures var ix := DecodeIndex(body, count, i, prev).value;
      FirstsAscending(ix) && |ix| == count - i && (i > 0 && ix != [] ==> prev < ix[0].firstDocID)
    decreases count - i
  {
    hide DecodeIndexEntry;
    if i < count {
      var e := DecodeIndexEntry(body[INDEX_ENTRY_SIZE * i..]).value;
      DecodedIndexAscends(body, count, i + 1, e.firstDocID);
      var rest := DecodeIndex(body, count, i + 1, e.firstDocID).value;
      assert DecodeIndex(body, count, i, prev).value == [e] + rest;
    }
  }

  lemma OpenedIndexAscends(file: seq<byte>)
    requires OpenFile(file).Ok?
    ensures var r := OpenFile(file).value;
      FirstsAscending(r.index) && |r.index| == r.meta.dataBlockCount && r.file == file
  {
    hide DecodeFooter, DecodeMeta, DecodeIndex, Crc32.Checksum, GetU32;
    var r := OpenFile(file).value;
    var buf := ReadAt(file, ToI64(r.footer.indexBlockOffset), r.footer.indexBlockSize).value;
    assert CheckIndex(buf, r.meta) == Ok(r.index);
    DecodedIndexAscends(buf[..|buf| - BLOCK_TRAILER_SIZE], r.meta.dataBlockCount, 0, 0);
  }

  /** Each entry the loop returns is encoded where it was read. */
  lemma {:induction false} DecodedEntries(body: seq<byte>, count: nat, i: nat, prev: DocID)
    requires INDEX_ENTRY_SIZE * count == |body| && i <= count && DecodeIndex(body, count, i, prev).Ok?
    ensures var ix := DecodeIndex(body, count, i, prev).value;
      |ix| == count - i && forall k :: i <= k < count ==> EncodeIndexEntry(ix[k - i]) == body[24 * k..24 * k + 24]
    decreases count - i
  {
    hide DecodeIndexEntry, EncodeIndexEntry;
    if i < count {
      var e := DecodeIndexEntry(body[24 * i..]).value;
      IndexEntryReencode(body[24 * i..]);
      DecodedEntries(body, count, i + 1, e.firstDocID);
      var ix, rest := DecodeIndex(body, count, i, prev).value, DecodeIndex(body, count, i + 1, e.firstDocID).value;
      assert ix == [e] + rest;
      assert body[24 * i..][..24] == body[24 * i..24 * i + 24];
      forall k | i <= k < count ensures EncodeIndexEntry(ix[k - i]) == body[24 * k..24 * k + 24] {
        if k > i {
          assert ix[k - i] == rest[k - (i + 1)];
        }
      }
    }
  }

  lemma {:induction false} BodyOfEntries(ix: seq<IndexEntry>, body: seq<byte>)
    requires |body| == 24 * |ix|
    requires forall k :: 0 <= k < |ix| ==> EncodeIndexEntry(ix[k]) == body[24 * k..24 * k + 24]
    ensures IndexBody(ix) == body
    decreases |ix|
  {
    hide EncodeIndexEntry;
    if ix != [] {
      var n := |ix| - 1;
      forall k | 0 <= k < n ensures EncodeIndexEntry(ix[..n][k]) == body[..24 * n][24 * k..24 * k + 24] {
        assert body[..24 * n][24 * k..24 * k + 24] == body[24 * k..24 * k + 24];
      }
      BodyOfEntries(ix[..n], body[..24 * n]);
      assert body == body[..24 * n] + body[24 * n..24 * n + 24];
    }
  }

  /** The index block is accepted exactly when it is, byte for byte, that of a strictly increasing index of the length the
      meta block records. */
  lemma IndexAcceptedIff(buf: seq<byte>, meta: MetaBlock, ix: seq<IndexEntry>)
    ensures CheckIndex(buf, meta) == Ok(ix) <==>
      buf == IndexBytes(ix) && FirstsAscending(ix) && |ix| == meta.dataBlockCount
  {
    hide CheckIndex, IndexBytes, FirstsAscending;
    if CheckIndex(buf, meta) == Ok(ix) {
      AcceptedIndex(buf, meta, ix);
    }
    if buf == IndexBytes(ix) && FirstsAscending(ix) && |ix| == meta.dataBlockCount {
      CheckIndexOfBytes(ix, meta);
    }
  }

  lemma AcceptedIndex(buf: seq<byte>, meta: MetaBlock, ix: seq<IndexEntry>)
    requires CheckIndex(buf, meta) == Ok(ix)
    ensures buf == IndexBytes(ix) && FirstsAscending(ix) && |ix| == meta.dataBlockCount
  {
    hide DecodeIndex, Crc32.Checksum, GetU32, PutU32, IndexBody, FirstsAscending;
    var n := |buf| - 8;
    var body, trailer := buf[..n], buf[n..];
    var count := GetU32(trailer[0..4]);
    U32Reencode(trailer[0..4]);
    U32Reencode(trailer[4..8]);
    DecodedIndexAscends(body, count, 0, 0);
    DecodedEntries(body, count, 0, 0);
    BodyOfEntries(ix, body);
    assert buf == body + (trailer[0..4] + trailer[4..8]);
  }

  /**
   What Open has checked when it hands out a reader: the footer, the meta block and the index stand in the file as the
   encodings of what the reader holds, where the footer says, and each in front of its checksum.
   */
  lemma OpenedIsWellFormed(file: seq<byte>)
    requires OpenFile(file).Ok?
    ensures var r, n := OpenFile(file).value, |file| - 48;
      && r.file == file && n >= 0 && r.footer.version == 1 && FirstsAscending(r.index) && |r.meta.reserved| == 32
      && EncodeFooter(r.footer) == file[n..n + 36] + [0, 0, 0, 0] + file[n + 40..]
      && var at, ix := ToI64(r.footer.metaBlockOffset), ToI64(r.footer.indexBlockOffset);
      && 0 <= at && at + 88 <= |file| && file[at..at + 88] == EncodeMeta(r.meta)
      && 0 <= ix && ix + r.footer.indexBlockSize <= |file| && |r.index| == r.meta.dataBlockCount
      && file[ix..ix + r.footer.indexBlockSize] == IndexBytes(r.index)
      && (|file| < I63 ==> at + 88 <= n && ix + r.footer.indexBlockSize <= n)
  {
    hide DecodeFooter, DecodeMeta, EncodeFooter, EncodeMeta, CheckIndex, FirstsAscending, IndexBytes, ToI64;
    var r, n := OpenFile(file).value, |file| - 48;
    FooterReencode(file[n..]);
    assert file[n..][..36] == file[n..n + 36] && file[n..][40..48] == file[n + 40..];
    var metaBuf := ReadAt(file, ToI64(r.footer.metaBlockOffset), r.footer.metaBlockSize).value;
    MetaReencode(metaBuf);
    var buf := ReadAt(file, ToI64(r.footer.indexBlockOffset), r.footer.indexBlockSize).value;
    IndexAcceptedIff(buf, r.meta, r.index);
    IndexNotEmpty(r.index);
    var at := ToI64(r.footer.metaBlockOffset);
    assert metaBuf == file[at..at + r.footer.metaBlockSize];
    assert metaBuf[..88] == file[at..at + 88];
  }

  lemma IndexNotEmpty(ix: seq<IndexEntry>)
    ensures |IndexBytes(ix)| >= 8
  {
  }

  // ---- loading a block --------------------------------------------------------------------------

  function BlockAt(c: Codec, r: Reader, idx: int): Loaded {
    if idx < 0 || idx >= |r.index| then Err(Malformed)
    else
      match ReadAt(r.file, ToI64(r.index[idx].blockOffset), r.index[idx].blockSize)
      case None => Err(ReadFailed)
      case Some(buf) => DecodeBlock(c, buf)
  }

  method LoadBlock(c: Codec, r: Reader, idx: int) returns (res: Loaded)
    ensures res == BlockAt(c, r, idx)
  {
    hide DecodeHeader, Crc32.Checksum, GetU32;
    if idx < 0 || idx >= |r.index| { return Err(Malformed); }
    var ent := r.index[idx];
    var read := ReadAt(r.file, ToI64(ent.blockOffset), ent.blockSize);
    if read.None? { return Err(ReadFailed); }
    var buf := read.value;
    if |buf| < BLOCK_TRAILER_SIZE { return Err(Malformed); }
    var body, trailer := buf[..|buf| - BLOCK_TRAILER_SIZE], buf[|buf| - BLOCK_TRAILER_SIZE..];
    if Crc32.Checksum(body) != GetU32(trailer[4..8]) { return Err(BadCRC); }
    res := ReadRecords(c, body, GetU32(trailer[0..4]));
  }

  /** The record loop: exactly count records, then nothing. */
  method ReadRecords(c: Codec, body: seq<byte>, count: nat) returns (res: Loaded)
    ensures res == DecodeBody(c, body, count)
  {
    hide DecodeHeader;
    var out: seq<Entry>, off, i := [], 0, 0;
    assert body[0..] == body;
    PrependNothing(DecodeBody(c, body, count));
    while i < count
      invariant i <= count && off <= |body|
      invariant DecodeBody(c, body, count) == Prepend(out, DecodeBody(c, body[off..], count - i))
    {
      ghost var left := body[off..];
      if off + RECORD_HEADER_SIZE > |body| { return Err(Malformed); }
      assert left[..RECORD_HEADER_SIZE] == body[off..off + RECORD_HEADER_SIZE];
      var hdr := DecodeHeader(body[off..off + RECORD_HEADER_SIZE]);
      if hdr.Err? { return Err(hdr.error); }
      var plen := hdr.value.payloadLen;
      off := off + RECORD_HEADER_SIZE;
      if off + plen > |body| { return Err(Malformed); }
      var payload := body[off..off + plen];
      assert left[RECORD_HEADER_SIZE..RECORD_HEADER_SIZE + plen] == payload;
      off := off + plen;
      assert left[RECORD_HEADER_SIZE + plen..] == body[off..];
      var rec := c.unmarshal(payload);
      if rec.None? { return Err(Malformed); }
      var e := Entry(hdr.value.id, rec.value.(timestamp := hdr.value.ts));
      PrependStep(out, e, DecodeBody(c, body[off..], count - i - 1));
      out := out + [e];
      i := i + 1;
    }
    if off != |body| { return Err(Malformed); }
    assert out + [] == out;
    res := Ok(out);
  }

  // ---- the sparse index -------------------------------------------------------------------------

  /** sort.Search: with any predicate, the bracket it ends in. */
  method Search(n: nat, f: nat -> bool) returns (i: nat)
    ensures i <= n && (i < n ==> f(i)) && (i > 0 ==> !f(i - 1))
  {
    i := 0;
    var j := n;
    while i < j
      invariant i <= j <= n && (j < n ==> f(j)) && (i > 0 ==> !f(i - 1))
    {
      var h := (i + j) / 2;
      if !f(h) { i := h + 1; } else { j := h; }
    }
  }

  /** By linear search: the last block whose first DocID is at most docID, or -1. */
  function Candidate(ix: seq<IndexEntry>, docID: DocID): (i: int)
    ensures -1 <= i < |ix|
  {
    if ix == [] then -1
    else if ix[|ix| - 1].firstDocID <= docID then |ix| - 1
    else Candidate(ix[..|ix| - 1], docID)
  }

  lemma {:induction false} CandidateIs(ix: seq<IndexEntry>, docID: DocID, i: int)
    requires FirstsAscending(ix) && -1 <= i < |ix|
    ensures i == Candidate(ix, docID) <==>
      (i >= 0 ==> ix[i].firstDocID <= docID) && (i + 1 < |ix| ==> ix[i + 1].firstDocID > docID)
    decreases |ix|
  {
    if ix != [] && ix[|ix| - 1].firstDocID > docID && i < |ix| - 1 {
      CandidateIs(ix[..|ix| - 1], docID, i);
    }
  }

  /** The binary search agrees with the linear one. */
  method FindBlock(r: Reader, docID: DocID) returns (i: int)
    requires FirstsAscending(r.index)
    ensures i == Candidate(r.index, docID)
  {
    var n := |r.index|;
    var hi: int := Search(n, (k: nat) => k < n && r.index[k].firstDocID > docID);
    i := hi - 1;
    CandidateIs(r.index, docID, i);
  }

  /** The scan of one block: it gives up at the first larger DocID. */
  function Scan(es: seq<Entry>, docID: DocID): Option<LogRecord> {
    if es == [] || es[0].id > docID then None
    else if es[0].id == docID then Some(es[0].rec)
    else Scan(es[1..], docID)
  }

  function Find(c: Codec, r: Reader, docID: DocID): Result<Option<LogRecord>, FormatError> {
    if docID < r.meta.minDocID || docID > r.meta.maxDocID || Candidate(r.index, docID) < 0 then Ok(None)
    else
      match BlockAt(c, r, Candidate(r.index, docID))
      case Err(e) => Err(e)
      case Ok(es) => Ok(Scan(es, docID))
  }

  method Get(c: Codec, r: Reader, docID: DocID) returns (res: Result<Option<LogRecord>, FormatError>)
    requires FirstsAscending(r.index)
    ensures res == Find(c, r, docID)
  {
    if docID < r.meta.minDocID || docID > r.meta.maxDocID { return Ok(None); }
    var idx := FindBlock(r, docID);
    if idx < 0 { return Ok(None); }
    var loaded := LoadBlock(c, r, idx);
    if loaded.Err? { return Err(loaded.error); }
    var records, i := loaded.value, 0;
    while i < |records|
      invariant i <= |records| && Scan(records, docID) == Scan(records[i..], docID)
    {
      if records[i].id == docID { return Ok(Some(records[i].rec)); }
      if records[i].id > docID { return Ok(None); }
      assert records[i..][1..] == records[i + 1..];
      i := i + 1;
    }
    res := Ok(None);
  }
  // ---- iteration --------------------------------------------------------------------------------

  /** What an iterator yields from block i on, and the error that ends it, if one does. */
  datatype Stream = Stream(items: seq<Entry>, err: Option<FormatError>)

  function StreamFrom(c: Codec, r: Reader, i: nat): (s: Stream)
    decreases |r.index| - i
  {
    if i >= |r.index| then Stream([], None)
    else
      match BlockAt(c, r, i)
      case Err(e) => Stream([], Some(e))
      case Ok(es) =>
        var rest := StreamFrom(c, r, i + 1);
        Stream(es + rest.items, rest.err)
  }

  lemma StreamStep(c: Codec, r: Reader, i: nat)
    ensures StreamFrom(c, r, i) ==
      if i >= |r.index| then Stream([], None)
      else if BlockAt(c, r, i).Err? then Stream([], Some(BlockAt(c, r, i).error))
      else Stream(BlockAt(c, r, i).value + StreamFrom(c, r, i + 1).items, StreamFrom(c, r, i + 1).err)
  {
    hide BlockAt;
  }

  class SSTableIterator {
    const codec: Codec
    const reader: Reader
    var blockIdx: int
    var records: seq<Entry>
    var pos: int
    var err: Option<FormatError>
    var closed: bool

    ghost predicate Valid()
      reads this
    {
      blockIdx >= -1 && pos >= 0 && (blockIdx < 0 ==> records == [])
    }

    /** Everything Next has still to yield. */
    ghost function Pending(): Stream
      requires Valid()
      reads this
    {
      if err.Some? || closed then Stream([], err)
      else
        var rest := StreamFrom(codec, reader, blockIdx + 1);
        Stream((if pos + 1 < |records| then records[pos + 1..] else []) + rest.items, rest.err)
    }

    constructor (c: Codec, r: Reader)
      ensures Valid() && codec == c && reader == r
      ensures Pending() == StreamFrom(c, r, 0)
    {
      codec, reader := c, r;
      blockIdx, records, pos, err, closed := -1, [], 0, None, false;
      new;
      hide StreamFrom;
      assert [] + StreamFrom(c, r, 0).items == StreamFrom(c, r, 0).items;
    }

    method Next() returns (ok: bool)
      requires Valid()
      modifies `blockIdx, `records, `pos, `err
      ensures Valid()
      ensures ok <==> old(Pending()).items != []
      ensures ok ==> err.None? && pos < |records| && old(Pending()) == Stream([records[pos]] + Pending().items, Pending().err)
      ensures !ok ==> err == old(Pending()).err && Pending() == Stream([], err)
    {
      hide BlockAt, StreamFrom;
      if err.Some? || closed { return false; }
      ghost var before := Pending();
      if blockIdx >= 0 {
        pos := pos + 1;
        if pos < |records| {
          assert records[pos..] == [records[pos]] + records[pos + 1..];
          assert before.items == [records[pos]] + Pending().items;
          return true;
        }
      }
      assert before.items == StreamFrom(codec, reader, blockIdx + 1).items;
      while true
        invariant blockIdx >= -1 && pos >= 0 && err.None? && !closed && (blockIdx < 0 ==> records == [])
        invariant pos + 1 >= |records|
        invariant before == StreamFrom(codec, reader, blockIdx + 1)
        decreases |reader.index| - blockIdx
      {
        blockIdx := blockIdx + 1;
        StreamStep(codec, reader, blockIdx);
        if blockIdx >= |reader.index| {
          StreamStep(codec, reader, blockIdx + 1);
          return false;
        }
        var recs := LoadBlock(codec, reader, blockIdx);
        if recs.Err? {
          err := Some(recs.error);
          return false;
        }
        if recs.value == [] { continue; }
        records := recs.value;
        pos := 0;
        assert records == [records[0]] + records[1..];
        assert before.items == [records[pos]] + Pending().items;
        return true;
      }
    }

    method Close()
      requires Valid()
      modifies `closed, `records
      ensures closed && Valid() && Pending().items == []
    {
      if closed { return; }
      closed, records := true, [];
    }
  }

  /** The loop every consumer of an iterator runs. */
  method ReadAll(c: Codec, r: Reader) returns (es: seq<Entry>, err: Option<FormatError>)
    ensures Stream(es, err) == StreamFrom(c, r, 0)
  {
    hide StreamFrom, SSTableIterator.Pending;
    var it := new SSTableIterator(c, r);
    es := [];
    var more := it.Next();
    while more
      invariant it.Valid() && fresh(it)
      invariant !more ==> Stream(es, it.err) == StreamFrom(c, r, 0)
      invariant more ==> it.pos < |it.records| && it.err.None?
      invariant more ==> StreamFrom(c, r, 0) == Stream(es + [it.records[it.pos]] + it.Pending().items, it.Pending().err)
      decreases more, |it.Pending().items|
    {
      es := es + [it.records[it.pos]];
      ghost var left := it.Pending().items;
      more := it.Next();
      if more {
        assert es + left == es + [it.records[it.pos]] + it.Pending().items;
      } else {
        assert es + [] == es;
      }
    }
    err := it.err;
  }

  // ---- a written file read back -----------------------------------------------------------------

  lemma {:induction false} FlattenConcat(a: seq<seq<Entry>>, b: seq<seq<Entry>>)
    ensures Flatten(a + b) == Flatten(a) + Flatten(b)
    decreases |b|
  {
    if b == [] {
      assert a + b == a;
    } else {
      var n := |b| - 1;
      assert (a + b)[..|a + b| - 1] == a + b[..n];
      FlattenConcat(a, b[..n]);
    }
  }

  lemma SplitAt<T>(s: seq<T>, i: nat)
    requires i < |s|
    ensures s == (s[..i] + [s[i]]) + s[i + 1..]
  {
  }

  /** The blocks before i, block i, the blocks behind it. */
  lemma FlattenAround(bs: seq<seq<Entry>>, i: nat)
    requires i < |bs|
    ensures Flatten(bs) == Flatten(bs[..i]) + bs[i] + Flatten(bs[i + 1..])
  {
    hide Flatten;
    SplitAt(bs, i);
    FlattenConcat(bs[..i] + [bs[i]], bs[i + 1..]);
    FlattenConcat(bs[..i], [bs[i]]);
    FlattenOne(bs[i]);
  }

  lemma FlattenOne(b: seq<Entry>)
    ensures Flatten([b]) == b
  {
    assert [b][..0] == [];
    assert Flatten([b]) == Flatten([]) + b;
  }

  lemma FirstOfRest(bs: seq<seq<Entry>>, i: nat)
    requires i < |bs| && bs[i] != []
    ensures Flatten(bs[i..]) != [] && Flatten(bs[i..])[0] == bs[i][0]
  {
    FlattenAround(bs[i..], 0);
    assert bs[i..][..0] == [];
  }

  lemma FirstsAscend(c: Codec, bs: seq<seq<Entry>>)
    requires BlocksStorable(c, bs) && Fit(c, bs) && Ascending(Flatten(bs))
    ensures FirstsAscending(Index(c, bs))
  {
    hide Flatten, Fit, Index, Blocks, PointsAt, BlockBytes;
    forall i, j | 0 <= i < j < |bs| ensures Index(c, bs)[i].firstDocID < Index(c, bs)[j].firstDocID {
      IndexPoints(c, bs, i);
      IndexPoints(c, bs, j);
      FirstBefore(bs, i, j);
    }
  }

  lemma FirstBefore(bs: seq<seq<Entry>>, i: nat, j: nat)
    requires i < j < |bs| && bs[i] != [] && bs[j] != [] && Ascending(Flatten(bs))
    ensures bs[i][0].id < bs[j][0].id
  {
    hide Flatten;
    FlattenAround(bs, i);
    FirstOfRest(bs, j);
    assert bs[i + 1..] == bs[i + 1..j] + bs[j..];
    FlattenConcat(bs[i + 1..j], bs[j..]);
    var a, m := |Flatten(bs[..i])|, |Flatten(bs[i + 1..j])|;
    var all := Flatten(bs);
    assert all[a] == bs[i][0];
    assert all == Flatten(bs[..i]) + bs[i] + Flatten(bs[i + 1..j]) + Flatten(bs[j..]);
    assert all[a + |bs[i]| + m] == Flatten(bs[j..])[0];
  }

  /** Block i of a written file loads as the i-th batch of records. */
  lemma BlockLoads(c: Codec, bs: seq<seq<Entry>>, m: MetaBlock, r: Reader, i: nat)
    requires Invertible(c) && BlocksStorable(c, bs) && Fit(c, bs) && |m.reserved| == 32 && i < |bs|
    requires r.file == FileOf(c, bs, m) && r.index == Index(c, bs)
    ensures BlockAt(c, r, i) == Ok(bs[i])
  {
    hide Blocks, Index, IndexBytes, EncodeMeta, EncodeFooter, FooterOf, FileOf, Flatten, DecodeBlock, BlockBytes, Fit,
         BlocksStorable, ReadAt;
    IndexPoints(c, bs, i);
    FileSections(c, bs, m);
    BlockCount(c, bs, bs[i]);
    BlockRoundTrip(c, bs[i]);
    SliceOfPrefix(r.file, Blocks(c, bs), |Blocks(c, bs[..i])|, BlockBytes(c, bs[i]));
    BlockNonEmpty(c, bs[i]);
    AreaInRange(c, bs);
    assert ToI64(r.index[i].blockOffset) == |Blocks(c, bs[..i])|;
  }

  lemma SliceOfPrefix(file: seq<byte>, area: seq<byte>, at: nat, b: seq<byte>)
    requires |area| <= |file| && file[..|area|] == area && at + |b| <= |area| && area[at..at + |b|] == b
    ensures ReadAt(file, at, |b|) == Some(b)
  {
    assert file[at..at + |b|] == file[..|area|][at..at + |b|];
  }

  lemma AreaInRange(c: Codec, bs: seq<seq<Entry>>)
    requires BlocksStorable(c, bs) && Fit(c, bs)
    ensures |Blocks(c, bs)| < I63
  {
  }

  lemma BlockNonEmpty(c: Codec, es: seq<Entry>)
    requires AllStorable(c, es)
    ensures |BlockBytes(c, es)| >= BLOCK_TRAILER_SIZE + RECORD_HEADER_SIZE * |es|
  {
    hide Body;
  }

  lemma BlockCount(c: Codec, bs: seq<seq<Entry>>, b: seq<Entry>)
    requires BlocksStorable(c, bs) && Fit(c, bs) && b in bs
    ensures AllStorable(c, b) && |b| < U32
  {
    hide Blocks, Flatten, BlockBytes;
    BlockNonEmpty(c, b);
  }

  /** Iteration yields everything from block i on, in order. */
  lemma {:induction false} StreamsAll(c: Codec, bs: seq<seq<Entry>>, m: MetaBlock, r: Reader, i: nat)
    requires Invertible(c) && BlocksStorable(c, bs) && Fit(c, bs) && |m.reserved| == 32 && i <= |bs|
    requires r.file == FileOf(c, bs, m) && r.index == Index(c, bs)
    ensures StreamFrom(c, r, i) == Stream(Flatten(bs[i..]), None)
    decreases |bs| - i
  {
    hide FileOf, Index, Fit, BlocksStorable, BlockAt, Flatten;
    if i < |bs| {
      BlockLoads(c, bs, m, r, i);
      StreamsAll(c, bs, m, r, i + 1);
      FlattenAround(bs[i..], 0);
      assert bs[i..][..0] == [] && bs[i..][0] == bs[i] && bs[i..][1..] == bs[i + 1..];
      EmptyFlatten();
      assert [] + bs[i] + Flatten(bs[i + 1..]) == bs[i] + Flatten(bs[i + 1..]);
    } else {
      assert bs[i..] == [];
      EmptyFlatten();
    }
  }

  lemma EmptyFlatten()
    ensures Flatten([]) == []
  {
  }

  /** What a lookup must answer on an ascending list. */
  ghost predicate Answers(es: seq<Entry>, d: DocID, o: Option<LogRecord>) {
    && (forall k :: 0 <= k < |es| && es[k].id == d ==> o == Some(es[k].rec))
    && (o.Some? ==> HasID(es, d))
  }

  lemma AnswersIsLookup(es: seq<Entry>, d: DocID, o: Option<LogRecord>)
    requires Ascending(es)
    ensures Answers(es, d, o) <==> o == Lookup(ToMap(es), d)
  {
    ToMapRepresented(es);
    hide ToMap;
    if d in ToMap(es) {
      var k :| 0 <= k < |es| && es[k].id == d;
    }
  }

  lemma {:induction false} ScanAnswers(es: seq<Entry>, d: DocID)
    requires Ascending(es)
    ensures Answers(es, d, Scan(es, d))
    decreases |es|
  {
    if es != [] && es[0].id < d {
      ScanAnswers(es[1..], d);
      if Scan(es, d).Some? {
        HasIDAt(es[1..], d, es, 1);
      }
    } else if es != [] && es[0].id == d {
      assert HasID(es, d);
    }
  }

  /** The one block that may hold d answers for the whole file. */
  lemma CandidateAnswers(es: seq<Entry>, a: seq<Entry>, b: seq<Entry>, rest: seq<Entry>, d: DocID, o: Option<LogRecord>)
    requires Ascending(es) && es == a + b + rest && Answers(b, d, o)
    requires b != [] && b[0].id <= d && (rest != [] ==> d < rest[0].id)
    ensures Answers(es, d, o)
  {
    assert es[|a|] == b[0];
    assert rest != [] ==> es[|a| + |b|] == rest[0];
    forall k | 0 <= k < |es| && es[k].id == d ensures o == Some(es[k].rec) {
      assert |a| <= k < |a| + |b|;
      assert b[k - |a|] == es[k];
    }
    if o.Some? {
      assert es[|a|..|a| + |b|] == b;
      HasIDAt(b, d, es, |a|);
    }
  }

  lemma NoneAnswers(es: seq<Entry>, d: DocID)
    requires Ascending(es) && (es == [] || d < es[0].id || es[|es| - 1].id < d)
    ensures Answers(es, d, None)
  {
  }

  /** Get through the range check, the index and the block scan is lookup among the added records. */
  lemma FindIsLookup(c: Codec, es: seq<Entry>, bs: seq<seq<Entry>>, m: MetaBlock, r: Reader, d: DocID)
    requires Invertible(c) && Written(c, es, bs, m, r.file) && Fit(c, bs)
    requires r.index == Index(c, bs) && r.meta == m
    ensures Find(c, r, d) == Ok(Lookup(ToMap(es), d))
  {
    hide Flatten, Fit, Index, FileOf, BlocksStorable, Cut, ToMap, Scan, BlockAt, Candidate;
    FirstsAscend(c, bs);
    var i := Candidate(r.index, d);
    CandidateIs(r.index, d, i);
    if d < m.minDocID || d > m.maxDocID {
      NoneAnswers(es, d);
      AnswersIsLookup(es, d, None);
    } else if i < 0 {
      FirstIs(c, bs, es);
      NoneAnswers(es, d);
      AnswersIsLookup(es, d, None);
    } else {
      BlockLoads(c, bs, m, r, i);
      SubAscending(bs, i);
      ScanAnswers(bs[i], d);
      FoundInCandidate(c, bs, es, d, i, Scan(bs[i], d));
      AnswersIsLookup(es, d, Scan(bs[i], d));
    }
  }

  lemma FirstIs(c: Codec, bs: seq<seq<Entry>>, es: seq<Entry>)
    requires BlocksStorable(c, bs) && Fit(c, bs) && Flatten(bs) == es && es != []
    ensures bs != [] && Index(c, bs)[0].firstDocID == es[0].id
  {
    hide Fit, Index, Blocks, PointsAt, BlockBytes;
    if bs != [] {
      IndexPoints(c, bs, 0);
      FirstOfRest(bs, 0);
      assert bs[0..] == bs;
    }
  }

  lemma SubAscending(bs: seq<seq<Entry>>, i: nat)
    requires i < |bs| && Ascending(Flatten(bs))
    ensures Ascending(bs[i])
  {
    hide Flatten;
    FlattenAround(bs, i);
    MiddleAscends(Flatten(bs[..i]), bs[i], Flatten(bs[i + 1..]));
  }

  lemma MiddleAscends(a: seq<Entry>, b: seq<Entry>, c: seq<Entry>)
    requires Ascending(a + b + c)
    ensures Ascending(b)
  {
    forall i, j | 0 <= i < j < |b| ensures b[i].id < b[j].id {
      assert (a + b + c)[|a| + i] == b[i] && (a + b + c)[|a| + j] == b[j];
    }
  }

  lemma FoundInCandidate(c: Codec, bs: seq<seq<Entry>>, es: seq<Entry>, d: DocID, i: nat, o: Option<LogRecord>)
    requires BlocksStorable(c, bs) && Fit(c, bs) && Flatten(bs) == es && Ascending(es) && i < |bs|
    requires Index(c, bs)[i].firstDocID <= d && (i + 1 < |bs| ==> Index(c, bs)[i + 1].firstDocID > d)
    requires Answers(bs[i], d, o)
    ensures Answers(es, d, o)
  {
    hide Flatten, Fit, Index, Blocks, PointsAt, BlockBytes, Answers, Ascending;
    IndexPoints(c, bs, i);
    FlattenAround(bs, i);
    if i + 1 < |bs| {
      IndexPoints(c, bs, i + 1);
      FirstOfRest(bs, i + 1);
    } else {
      assert bs[i + 1..] == [];
      EmptyFlatten();
    }
    CandidateAnswers(es, Flatten(bs[..i]), bs[i], Flatten(bs[i + 1..]), d, o);
  }

  /**
   The round trip: a file written from any ascending non-empty list opens, passes every check, iterates back to
   that list in full and in order, and answers every point lookup as the list itself would.
   */
  lemma WrittenFileServes(c: Codec, es: seq<Entry>, bs: seq<seq<Entry>>, m: MetaBlock, file: seq<byte>)
    requires Invertible(c) && Written(c, es, bs, m, file) && Fit(c, bs)
    ensures OpenFile(file).Ok? && OpenFile(file).value.meta == m
    ensures StreamFrom(c, OpenFile(file).value, 0) == Stream(es, None)
    ensures forall d: DocID :: Find(c, OpenFile(file).value, d) == Ok(Lookup(ToMap(es), d))
  {
    hide Flatten, Index, FileOf, OpenFile, StreamFrom, Find, FirstsAscending, Aggregates, Ascending, Blocks, ToMap,
         Cut, BlockBytes;
    FirstsAscend(c, bs);
    OpenRoundTrip(c, bs, m);
    var r := OpenFile(file).value;
    StreamsAll(c, bs, m, r, 0);
    assert bs[0..] == bs;
    forall d: DocID ensures Find(c, r, d) == Ok(Lookup(ToMap(es), d)) {
      FindIsLookup(c, es, bs, m, r, d);
    }
  }
}
