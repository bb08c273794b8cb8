/** What an SSTable file holds, as a function of its blocks, and how the reader takes it apart again. */
module SSTableLayout {
  import opened Bytes
  import opened Types
  import opened SSTableFormat
  import Crc32

  // ---- data blocks ------------------------------------------------------------------------------

  predicate Storable(c: Codec, e: Entry) {
    |c.marshal(e.rec)| < U32
  }

  ghost predicate AllStorable(c: Codec, es: seq<Entry>) {
    forall e | e in es :: Storable(c, e)
  }

  function RecordBytes(c: Codec, e: Entry): (s: seq<byte>)
    requires Storable(c, e)
    ensures |s| == RECORD_HEADER_SIZE + |c.marshal(e.rec)|
  {
    EncodeHeader(RecordHeader(e.id, e.rec.timestamp, |c.marshal(e.rec)|)) + c.marshal(e.rec)
  }

  function Body(c: Codec, es: seq<Entry>): (s: seq<byte>)
    requires AllStorable(c, es)
    ensures |s| >= RECORD_HEADER_SIZE * |es|
  {
    if es == [] then [] else RecordBytes(c, es[0]) + Body(c, es[1..])
  }

  lemma {:induction false} BodySnoc(c: Codec, es: seq<Entry>, e: Entry)
    requires AllStorable(c, es) && Storable(c, e)
    ensures AllStorable(c, es + [e])
    ensures Body(c, es + [e]) == Body(c, es) + RecordBytes(c, e)
    decreases |es|
  {
    hide RecordBytes;
    assert forall x | x in es + [e] :: x in es || x == e;
    if es == [] {
      assert [] + [e] == [e] && [e][1..] == [];
      assert Body(c, [e]) == RecordBytes(c, e) + Body(c, []);
    } else {
      assert (es + [e])[1..] == es[1..] + [e];
      BodySnoc(c, es[1..], e);
    }
  }

  function Trailer(count: nat, body: seq<byte>): (s: seq<byte>)
    ensures |s| == BLOCK_TRAILER_SIZE
  {
    PutU32(count % U32) + PutU32(Crc32.Checksum(body))
  }

  function BlockBytes(c: Codec, es: seq<Entry>): (s: seq<byte>)
    requires AllStorable(c, es)
    ensures |s| == |Body(c, es)| + BLOCK_TRAILER_SIZE
  {
    Body(c, es) + Trailer(|es|, Body(c, es))
  }

  /** The record loop of loadBlock over the rest of a block body. */
  function DecodeBody(c: Codec, body: seq<byte>, count: nat): Result<seq<Entry>, FormatError>
    decreases count
  {
    if count == 0 then if body == [] then Ok([]) else Err(Malformed)
    else if |body| < RECORD_HEADER_SIZE then Err(Malformed)
    else
      match DecodeHeader(body[..RECORD_HEADER_SIZE])
      case Err(e) => Err(e)
      case Ok(h) =>
        if |body| < RECORD_HEADER_SIZE + h.payloadLen then Err(Malformed)
        else
          match c.unmarshal(body[RECORD_HEADER_SIZE..RECORD_HEADER_SIZE + h.payloadLen])
          case None => Err(Malformed)
          case Some(rec) =>
            match DecodeBody(c, body[RECORD_HEADER_SIZE + h.payloadLen..], count - 1)
            case Err(e) => Err(e)
            case Ok(es) => Ok([Entry(h.id, rec.(timestamp := h.ts))] + es)
  }

  function DecodeBlock(c: Codec, buf: seq<byte>): Result<seq<Entry>, FormatError> {
    if |buf| < BLOCK_TRAILER_SIZE then Err(Malformed)
    else
      var body := buf[..|buf| - BLOCK_TRAILER_SIZE];
      var trailer := buf[|buf| - BLOCK_TRAILER_SIZE..];
      if Crc32.Checksum(body) != GetU32(trailer[4..8]) then Err(BadCRC)
      else DecodeBody(c, body, GetU32(trailer[0..4]))
  }

  /** One record at the head of a body decodes to itself and leaves the rest. */
  lemma RecordAtHead(c: Codec, e: Entry, rest: seq<byte>)
    requires Invertible(c) && Storable(c, e)
    ensures var s := RecordBytes(c, e) + rest;
      && DecodeHeader(s[..RECORD_HEADER_SIZE]) == Ok(RecordHeader(e.id, e.rec.timestamp, |c.marshal(e.rec)|))
      && s[RECORD_HEADER_SIZE..RECORD_HEADER_SIZE + |c.marshal(e.rec)|] == c.marshal(e.rec)
      && s[RECORD_HEADER_SIZE + |c.marshal(e.rec)|..] == rest
  {
    hide EncodeHeader, DecodeHeader;
    var h, p := RecordHeader(e.id, e.rec.timestamp, |c.marshal(e.rec)|), c.marshal(e.rec);
    HeaderRoundTrip(h, []);
    assert EncodeHeader(h) + [] == EncodeHeader(h);
    assert (RecordBytes(c, e) + rest)[..RECORD_HEADER_SIZE] == EncodeHeader(h);
    Middle(EncodeHeader(h), p, rest);
  }

  lemma {:induction false} BodyRoundTrip(c: Codec, es: seq<Entry>)
    requires Invertible(c) && AllStorable(c, es)
    ensures DecodeBody(c, Body(c, es), |es|) == Ok(es)
    decreases |es|
  {
    hide DecodeHeader, RecordBytes;
    if es != [] {
      assert Storable(c, es[0]);
      RecordAtHead(c, es[0], Body(c, es[1..]));
      BodyRoundTrip(c, es[1..]);
      assert c.unmarshal(c.marshal(es[0].rec)) == Some(es[0].rec);
      assert Entry(es[0].id, es[0].rec.(timestamp := es[0].rec.timestamp)) == es[0];
      assert [es[0]] + es[1..] == es;
    }
  }

  lemma TrailerFields(count: nat, body: seq<byte>)
    requires count < U32
    ensures GetU32(Trailer(count, body)[0..4]) == count
    ensures GetU32(Trailer(count, body)[4..8]) == Crc32.Checksum(body)
  {
    hide PutU32, GetU32, Crc32.Checksum;
    var t := Trailer(count, body);
    assert t[0..4] == PutU32(count) && t[4..8] == PutU32(Crc32.Checksum(body));
    U32RoundTrip(count);
    U32RoundTrip(Crc32.Checksum(body));
  }

  /** A block read back whole gives exactly the entries it was built from. */
  lemma BlockRoundTrip(c: Codec, es: seq<Entry>)
    requires Invertible(c) && AllStorable(c, es) && |es| < U32
    ensures DecodeBlock(c, BlockBytes(c, es)) == Ok(es)
  {
    hide Body, Trailer, GetU32, DecodeBody, Crc32.Checksum;
    var buf := BlockBytes(c, es);
    assert buf[..|buf| - BLOCK_TRAILER_SIZE] == Body(c, es);
    assert buf[|buf| - BLOCK_TRAILER_SIZE..] == Trailer(|es|, Body(c, es));
    TrailerFields(|es|, Body(c, es));
    BodyRoundTrip(c, es);
  }

  /** The bytes of a block body with payloads ps behind the headers of es. */
  function Framed(es: seq<Entry>, ps: seq<seq<byte>>): seq<byte>
    requires |ps| == |es| && forall p | p in ps :: |p| < U32
  {
    if es == [] then []
    else EncodeHeader(RecordHeader(es[0].id, es[0].rec.timestamp, |ps[0]|)) + ps[0] + Framed(es[1..], ps[1..])
  }

  /** Payload i decodes to record i; the timestamp is the header's. */
  ghost predicate Unmarshals(c: Codec, es: seq<Entry>, ps: seq<seq<byte>>) {
    |ps| == |es| && forall i :: 0 <= i < |es| ==>
      c.unmarshal(ps[i]).Some? && es[i].rec == c.unmarshal(ps[i]).value.(timestamp := es[i].rec.timestamp)
  }

  /** The payloads a body carries, one behind each header. */
  function PayloadsOf(body: seq<byte>, count: nat): (ps: seq<seq<byte>>)
    ensures forall p | p in ps :: |p| < U32
    decreases count
  {
    if count == 0 || |body| < 20 then []
    else
      var n := DecodeHeader(body[..20]).value.payloadLen;
      if |body| < 20 + n then [] else [body[20..20 + n]] + PayloadsOf(body[20 + n..], count - 1)
  }

  /** What a successful turn of the record loop has read. */
  lemma BodyHead(c: Codec, body: seq<byte>, count: nat)
    requires count > 0 && DecodeBody(c, body, count).Ok?
    ensures |body| >= 20 && DecodeHeader(body[..20]).Ok?
    ensures var h := DecodeHeader(body[..20]).value;
      && |body| >= 20 + h.payloadLen && c.unmarshal(body[20..20 + h.payloadLen]).Some?
      && var p, rest := body[20..20 + h.payloadLen], body[20 + h.payloadLen..];
      && DecodeBody(c, rest, count - 1).Ok? && PayloadsOf(body, count) == [p] + PayloadsOf(rest, count - 1)
      && DecodeBody(c, body, count).value ==
           [Entry(h.id, c.unmarshal(p).value.(timestamp := h.ts))] + DecodeBody(c, rest, count - 1).value
  {
    hide DecodeHeader;
  }

  lemma NothingFramed(c: Codec, body: seq<byte>)
    requires DecodeBody(c, body, 0).Ok?
    ensures DecodeBody(c, body, 0) == Ok([]) && PayloadsOf(body, 0) == [] && Unmarshals(c, [], []) && Framed([], []) == body
  {
  }

  lemma {:induction false} BodyReencode(c: Codec, body: seq<byte>, count: nat)
    requires DecodeBody(c, body, count).Ok?
    ensures var es, ps := DecodeBody(c, body, count).value, PayloadsOf(body, count);
      |es| == |ps| == count && Unmarshals(c, es, ps) && Framed(es, ps) == body
    decreases count
  {
    hide EncodeHeader, DecodeHeader, Framed, Unmarshals, DecodeBody, PayloadsOf;
    if count == 0 {
      NothingFramed(c, body);
    } else {
      BodyHead(c, body, count);
      var h := DecodeHeader(body[..20]).value;
      HeaderReencode(body[..20]);
      var p, rest := body[20..20 + h.payloadLen], body[20 + h.payloadLen..];
      BodyReencode(c, rest, count - 1);
      var es, ps := DecodeBody(c, rest, count - 1).value, PayloadsOf(rest, count - 1);
      var e := Entry(h.id, c.unmarshal(p).value.(timestamp := h.ts));
      OneMoreFramed(c, e, p, es, ps);
      assert RecordHeader(e.id, e.rec.timestamp, |p|) == h;
      assert body[..20][..20] == body[..20] && body == body[..20] + p + rest;
    }
  }

  lemma OneMoreFramed(c: Codec, e: Entry, p: seq<byte>, es: seq<Entry>, ps: seq<seq<byte>>)
    requires Unmarshals(c, es, ps) && |p| < U32 && forall q | q in ps :: |q| < U32
    requires c.unmarshal(p).Some? && e.rec == c.unmarshal(p).value.(timestamp := e.rec.timestamp)
    ensures Unmarshals(c, [e] + es, [p] + ps) && forall q | q in [p] + ps :: |q| < U32
    ensures Framed([e] + es, [p] + ps) == EncodeHeader(RecordHeader(e.id, e.rec.timestamp, |p|)) + p + Framed(es, ps)
  {
    hide EncodeHeader;
    assert ([e] + es)[1..] == es && ([p] + ps)[1..] == ps;
  }

  lemma {:induction false} FramedDecodes(c: Codec, es: seq<Entry>, ps: seq<seq<byte>>)
    requires Unmarshals(c, es, ps) && forall p | p in ps :: |p| < U32
    ensures DecodeBody(c, Framed(es, ps), |es|) == Ok(es)
    decreases |es|
  {
    hide EncodeHeader, DecodeHeader;
    if es != [] {
      var h, rest := RecordHeader(es[0].id, es[0].rec.timestamp, |ps[0]|), Framed(es[1..], ps[1..]);
      var s := Framed(es, ps);
      HeaderRoundTrip(h, []);
      assert EncodeHeader(h) + [] == EncodeHeader(h) && s[..20] == EncodeHeader(h);
      Middle(EncodeHeader(h), ps[0], rest);
      FramedDecodes(c, es[1..], ps[1..]);
      assert [es[0]] + es[1..] == es;
    }
  }

  /** Records framed one by one with nothing between or after them, then their number and the checksum of it all. */
  ghost predicate WellFormedBlock(c: Codec, buf: seq<byte>, es: seq<Entry>, ps: seq<seq<byte>>) {
    && |es| < U32 && Unmarshals(c, es, ps) && (forall p | p in ps :: |p| < U32)
    && buf == Framed(es, ps) + PutU32(|es|) + PutU32(Crc32.Checksum(Framed(es, ps)))
  }

  /** A block loads exactly when it is well formed down to the last byte, and then as the records it frames. */
  lemma BlockLoadsIff(c: Codec, buf: seq<byte>, es: seq<Entry>)
    ensures DecodeBlock(c, buf) == Ok(es) <==> exists ps: seq<seq<byte>> :: WellFormedBlock(c, buf, es, ps)
  {
    hide WellFormedBlock, DecodeBlock;
    if DecodeBlock(c, buf) == Ok(es) {
      LoadedIsWellFormed(c, buf, es);
    }
    if ps: seq<seq<byte>> :| WellFormedBlock(c, buf, es, ps) {
      WellFormedLoads(c, buf, es, ps);
    }
  }

  lemma LoadedIsWellFormed(c: Codec, buf: seq<byte>, es: seq<Entry>)
    requires DecodeBlock(c, buf) == Ok(es)
    ensures exists ps: seq<seq<byte>> :: WellFormedBlock(c, buf, es, ps)
  {
    hide DecodeBody, PayloadsOf, Unmarshals, Framed, Crc32.Checksum, PutU32, GetU32;
    var n := |buf| - 8;
    var body, trailer := buf[..n], buf[n..];
    var count := GetU32(trailer[0..4]);
    BodyReencode(c, body, count);
    U32Reencode(trailer[0..4]);
    U32Reencode(trailer[4..8]);
    assert buf == body + trailer[0..4] + trailer[4..8];
    assert WellFormedBlock(c, buf, es, PayloadsOf(body, count));
  }

  lemma WellFormedLoads(c: Codec, buf: seq<byte>, es: seq<Entry>, ps: seq<seq<byte>>)
    requires WellFormedBlock(c, buf, es, ps)
    ensures DecodeBlock(c, buf) == Ok(es)
  {
    hide DecodeBody, Framed, Crc32.Checksum, PutU32, GetU32;
    var body := Framed(es, ps);
    var n := |buf| - BLOCK_TRAILER_SIZE;
    assert n == |body| && buf[..n] == body && buf[n..] == PutU32(|es|) + PutU32(Crc32.Checksum(body));
    assert buf[n..][0..4] == PutU32(|es|) && buf[n..][4..8] == PutU32(Crc32.Checksum(body));
    U32RoundTrip(|es|);
    U32RoundTrip(Crc32.Checksum(body));
    FramedDecodes(c, es, ps);
  }

  // ---- the data area ----------------------------------------------------------------------------

  function Flatten(bs: seq<seq<Entry>>): seq<Entry> {
    if bs == [] then [] else Flatten(bs[..|bs| - 1]) + bs[|bs| - 1]
  }

  ghost predicate BlocksStorable(c: Codec, bs: seq<seq<Entry>>) {
    forall b | b in bs :: AllStorable(c, b) && b != []
  }

  /** The data blocks one behind the other: they tile the file from 0. */
  function Blocks(c: Codec, bs: seq<seq<Entry>>): seq<byte>
    requires BlocksStorable(c, bs)
  {
    if bs == [] then [] else Blocks(c, bs[..|bs| - 1]) + BlockBytes(c, bs[|bs| - 1])
  }

  /** Every size fits the field the format gives it. */
  ghost predicate Fit(c: Codec, bs: seq<seq<Entry>>)
    requires BlocksStorable(c, bs)
  {
    && (forall b | b in bs :: |BlockBytes(c, b)| < U32)
    && |Blocks(c, bs)| + |bs| * INDEX_ENTRY_SIZE + 200 < I63
    && |bs| * INDEX_ENTRY_SIZE + BLOCK_TRAILER_SIZE < U32
    && |Flatten(bs)| < U64
  }

  lemma FitPrefix(c: Codec, bs: seq<seq<Entry>>)
    requires BlocksStorable(c, bs) && Fit(c, bs) && bs != []
    ensures BlocksStorable(c, bs[..|bs| - 1]) && Fit(c, bs[..|bs| - 1])
  {
    hide BlockBytes;
    assert forall b | b in bs[..|bs| - 1] :: b in bs;
  }

  function Index(c: Codec, bs: seq<seq<Entry>>): (ix: seq<IndexEntry>)
    requires BlocksStorable(c, bs) && Fit(c, bs)
    ensures |ix| == |bs|
  {
    if bs == [] then []
    else
      var n := |bs| - 1;
      FitPrefix(c, bs);
      assert bs[n] in bs;
      Index(c, bs[..n]) + [IndexEntry(bs[n][0].id, |Blocks(c, bs[..n])|, |BlockBytes(c, bs[n])|, 0)]
  }

  /** What entry e of the index must say about block b lying at the end of area a, inside area whole. */
  ghost predicate PointsAt(whole: seq<byte>, e: IndexEntry, at: nat, b: seq<byte>) {
    && e.blockOffset == at && e.blockSize == |b| && e.reserved == 0
    && at + |b| <= |whole|
    && whole[at..at + |b|] == b
  }

  lemma PointsAtExtends(whole: seq<byte>, more: seq<byte>, e: IndexEntry, at: nat, b: seq<byte>)
    requires PointsAt(whole, e, at, b)
    ensures PointsAt(whole + more, e, at, b)
  {
    assert (whole + more)[at..at + |b|] == whole[at..at + |b|];
  }

  lemma PointsAtEnd(a: seq<byte>, b: seq<byte>, e: IndexEntry)
    requires e.blockOffset == |a| && e.blockSize == |b| && e.reserved == 0
    ensures PointsAt(a + b, e, |a|, b)
  {
    assert (a + b)[|a|..|a| + |b|] == b;
  }

  lemma IndexLast(c: Codec, bs: seq<seq<Entry>>)
    requires BlocksStorable(c, bs) && Fit(c, bs) && bs != []
    ensures var n := |bs| - 1;
      && BlocksStorable(c, bs[..n]) && Fit(c, bs[..n]) && bs[n] in bs
      && Blocks(c, bs) == Blocks(c, bs[..n]) + BlockBytes(c, bs[n])
      && Index(c, bs)[..n] == Index(c, bs[..n])
      && PointsAt(Blocks(c, bs), Index(c, bs)[n], |Blocks(c, bs[..n])|, BlockBytes(c, bs[n]))
      && Index(c, bs)[n].firstDocID == bs[n][0].id
  {
    hide BlockBytes, Flatten, PointsAt;
    var n := |bs| - 1;
    FitPrefix(c, bs);
    assert bs[n] in bs;
    PointsAtEnd(Blocks(c, bs[..n]), BlockBytes(c, bs[n]), Index(c, bs)[n]);
  }

  /** Entry i of the index points at block i, and the bytes there are that block. */
  lemma {:induction false} IndexPoints(c: Codec, bs: seq<seq<Entry>>, i: nat)
    requires BlocksStorable(c, bs) && Fit(c, bs) && i < |bs|
    ensures bs[i] in bs && BlocksStorable(c, bs[..i])
    ensures PointsAt(Blocks(c, bs), Index(c, bs)[i], |Blocks(c, bs[..i])|, BlockBytes(c, bs[i]))
    ensures Index(c, bs)[i].firstDocID == bs[i][0].id
    decreases |bs|
  {
    hide BlockBytes, Flatten, Index, Blocks, Fit, PointsAt;
    var n := |bs| - 1;
    IndexLast(c, bs);
    if i < n {
      IndexPoints(c, bs[..n], i);
      assert bs[..n][..i] == bs[..i];
      assert Index(c, bs)[i] == Index(c, bs)[..n][i];
      PointsAtExtends(Blocks(c, bs[..n]), BlockBytes(c, bs[n]), Index(c, bs)[i], |Blocks(c, bs[..i])|, BlockBytes(c, bs[i]));
    }
  }

  lemma {:induction false} FlattenMember(bs: seq<seq<Entry>>, e: Entry)
    ensures e in Flatten(bs) <==> exists b :: b in bs && e in b
  {
    if bs != [] {
      var n := |bs| - 1;
      FlattenMember(bs[..n], e);
      assert bs == bs[..n] + [bs[n]];
    }
  }

  // ---- the index block --------------------------------------------------------------------------

  function IndexBody(ix: seq<IndexEntry>): (s: seq<byte>)
    ensures |s| == INDEX_ENTRY_SIZE * |ix|
  {
    if ix == [] then [] else IndexBody(ix[..|ix| - 1]) + EncodeIndexEntry(ix[|ix| - 1])
  }

  function IndexBytes(ix: seq<IndexEntry>): seq<byte> {
    IndexBody(ix) + Trailer(|ix|, IndexBody(ix))
  }

  lemma {:induction false} IndexBodyAt(ix: seq<IndexEntry>, i: nat)
    requires i < |ix|
    ensures IndexBody(ix)[INDEX_ENTRY_SIZE * i..INDEX_ENTRY_SIZE * i + INDEX_ENTRY_SIZE] == EncodeIndexEntry(ix[i])
    decreases |ix|
  {
    hide EncodeIndexEntry;
    var n := |ix| - 1;
    if i < n {
      IndexBodyAt(ix[..n], i);
      var a := IndexBody(ix[..n]);
      assert IndexBody(ix)[..|a|] == a;
      var lo := INDEX_ENTRY_SIZE * i;
      assert IndexBody(ix)[lo..lo + INDEX_ENTRY_SIZE] == a[lo..lo + INDEX_ENTRY_SIZE];
    }
  }

  ghost predicate FirstsAscending(ix: seq<IndexEntry>) {
    forall i, j :: 0 <= i < j < |ix| ==> ix[i].firstDocID < ix[j].firstDocID
  }

  /** The entry loop of openSource from entry i on: each entry decodes, and first DocIDs strictly increase. */
  function DecodeIndex(body: seq<byte>, count: nat, i: nat, prev: DocID): Result<seq<IndexEntry>, FormatError>
    requires INDEX_ENTRY_SIZE * count == |body| && i <= count
    decreases count - i
  {
    if i == count then Ok([])
    else
      match DecodeIndexEntry(body[INDEX_ENTRY_SIZE * i..])
      case Err(e) => Err(e)
      case Ok(e) =>
        if i > 0 && e.firstDocID <= prev then Err(Malformed)
        else
          match DecodeIndex(body, count, i + 1, e.firstDocID)
          case Err(x) => Err(x)
          case Ok(rest) => Ok([e] + rest)
  }

  lemma DecodeIndexStep(body: seq<byte>, count: nat, i: nat, prev: DocID)
    requires INDEX_ENTRY_SIZE * count == |body| && i < count
    requires DecodeIndexEntry(body[INDEX_ENTRY_SIZE * i..]).Ok?
    requires i > 0 ==> prev < DecodeIndexEntry(body[INDEX_ENTRY_SIZE * i..]).value.firstDocID
    requires DecodeIndex(body, count, i + 1, DecodeIndexEntry(body[INDEX_ENTRY_SIZE * i..]).value.firstDocID).Ok?
    ensures var e := DecodeIndexEntry(body[INDEX_ENTRY_SIZE * i..]).value;
      DecodeIndex(body, count, i, prev) == Ok([e] + DecodeIndex(body, count, i + 1, e.firstDocID).value)
  {
    hide DecodeIndexEntry;
  }

  lemma {:induction false} IndexRoundTrip(ix: seq<IndexEntry>, i: nat, prev: DocID)
    requires FirstsAscending(ix) && i <= |ix|
    requires i > 0 ==> prev == ix[i - 1].firstDocID
    ensures DecodeIndex(IndexBody(ix), |ix|, i, prev) == Ok(ix[i..])
    decreases |ix| - i
  {
    hide EncodeIndexEntry, DecodeIndexEntry, IndexBody;
    if i < |ix| {
      var body, lo := IndexBody(ix), INDEX_ENTRY_SIZE * i;
      IndexBodyAt(ix, i);
      assert body[lo..] == body[lo..lo + INDEX_ENTRY_SIZE] + body[lo + INDEX_ENTRY_SIZE..];
      IndexEntryRoundTrip(ix[i], body[lo + INDEX_ENTRY_SIZE..]);
      assert DecodeIndexEntry(body[lo..]) == Ok(ix[i]);
      IndexRoundTrip(ix, i + 1, ix[i].firstDocID);
      DecodeIndexStep(body, |ix|, i, prev);
      assert ix[i..] == [ix[i]] + ix[i + 1..];
    } else {
      assert ix[i..] == [];
    }
  }

  // ---- the whole file ---------------------------------------------------------------------------

  function FooterOf(c: Codec, bs: seq<seq<Entry>>): Footer
    requires BlocksStorable(c, bs) && Fit(c, bs)
  {
    var b, n := |Blocks(c, bs)|, |IndexBytes(Index(c, bs))|;
    Footer(FORMAT_VERSION, 0, b, n, b + n, META_BLOCK_SIZE)
  }

  function FileOf(c: Codec, bs: seq<seq<Entry>>, meta: MetaBlock): seq<byte>
    requires BlocksStorable(c, bs) && Fit(c, bs) && |meta.reserved| == 32
  {
    Blocks(c, bs) + IndexBytes(Index(c, bs)) + EncodeMeta(meta) + EncodeFooter(FooterOf(c, bs))
  }

  datatype Reader = Reader(file: seq<byte>, footer: Footer, meta: MetaBlock, index: seq<IndexEntry>)

  /** os.File.ReadAt into a buffer of n bytes: anything short of n bytes is an error. */
  function ReadAt(file: seq<byte>, off: int, n: nat): Option<seq<byte>> {
    if off < 0 then None
    else if n == 0 then Some([])
    else if off + n <= |file| then Some(file[off..off + n])
    else None
  }

  /** The sum of two int64 values as Go computes it. */
  function AddI64(a: int64, b: int64): int64 {
    var s := a + b;
    if s >= I63 then s - U64 else if s < -I63 then s + U64 else s
  }

  /** openSource: every check Open makes before it hands out a reader. */
  function OpenFile(file: seq<byte>): Result<Reader, FormatError> {
    if |file| < FOOTER_SIZE then Err(TooSmall)
    else
      var limit := |file| - FOOTER_SIZE;
      match DecodeFooter(file[limit..])
      case Err(e) => Err(e)
      case Ok(f) =>
        if AddI64(ToI64(f.indexBlockOffset), f.indexBlockSize) > limit then Err(Malformed)
        else if AddI64(ToI64(f.metaBlockOffset), f.metaBlockSize) > limit then Err(Malformed)
        else
          match ReadAt(file, ToI64(f.metaBlockOffset), f.metaBlockSize)
          case None => Err(ReadFailed)
          case Some(metaBuf) =>
            match DecodeMeta(metaBuf)
            case Err(e) => Err(e)
            case Ok(meta) =>
              match ReadAt(file, ToI64(f.indexBlockOffset), f.indexBlockSize)
              case None => Err(ReadFailed)
              case Some(indexBuf) =>
                match CheckIndex(indexBuf, meta)
                case Err(e) => Err(e)
                case Ok(index) => Ok(Reader(file, f, meta, index))
  }

  function CheckIndex(indexBuf: seq<byte>, meta: MetaBlock): Result<seq<IndexEntry>, FormatError> {
    if |indexBuf| < BLOCK_TRAILER_SIZE then Err(Malformed)
    else
      var body := indexBuf[..|indexBuf| - BLOCK_TRAILER_SIZE];
      var trailer := indexBuf[|indexBuf| - BLOCK_TRAILER_SIZE..];
      var count := GetU32(trailer[0..4]);
      if Crc32.Checksum(body) != GetU32(trailer[4..8]) then Err(BadCRC)
      else if count != |body| / INDEX_ENTRY_SIZE || |body| % INDEX_ENTRY_SIZE != 0 then Err(Malformed)
      else if count != meta.dataBlockCount then Err(Malformed)
      else DecodeIndex(body, count, 0, 0)
  }

  lemma CheckIndexOfBytes(ix: seq<IndexEntry>, meta: MetaBlock)
    requires FirstsAscending(ix) && |ix| < U32 && meta.dataBlockCount == |ix|
    ensures CheckIndex(IndexBytes(ix), meta) == Ok(ix)
  {
    hide IndexBody, Trailer, GetU32, DecodeIndex, Crc32.Checksum;
    var buf := IndexBytes(ix);
    assert buf[..|buf| - BLOCK_TRAILER_SIZE] == IndexBody(ix);
    assert buf[|buf| - BLOCK_TRAILER_SIZE..] == Trailer(|ix|, IndexBody(ix));
    TrailerFields(|ix|, IndexBody(ix));
    IndexRoundTrip(ix, 0, 0);
    assert ix[0..] == ix;
  }

  lemma FileSections(c: Codec, bs: seq<seq<Entry>>, meta: MetaBlock)
    requires BlocksStorable(c, bs) && Fit(c, bs) && |meta.reserved| == 32
    ensures var file, b, ix := FileOf(c, bs, meta), Blocks(c, bs), IndexBytes(Index(c, bs));
      && |file| == |b| + |ix| + META_BLOCK_SIZE + FOOTER_SIZE
      && |ix| == |bs| * INDEX_ENTRY_SIZE + BLOCK_TRAILER_SIZE
      && file[..|b|] == b
      && file[|b|..|b| + |ix|] == ix
      && file[|b| + |ix|..|b| + |ix| + META_BLOCK_SIZE] == EncodeMeta(meta)
      && file[|file| - FOOTER_SIZE..] == EncodeFooter(FooterOf(c, bs))
  {
    hide Blocks, Index, IndexBody, EncodeMeta, EncodeFooter, FooterOf, BlocksStorable, Fit;
    var b, ix, m, f := Blocks(c, bs), IndexBytes(Index(c, bs)), EncodeMeta(meta), EncodeFooter(FooterOf(c, bs));
    Middle(b, ix, m + f);
    assert FileOf(c, bs, meta) == b + ix + (m + f);
    Middle(b + ix, m, f);
  }

  /** A file the writer finished passes every check, and the reader holds exactly its meta block and index. */
  lemma OpenRoundTrip(c: Codec, bs: seq<seq<Entry>>, meta: MetaBlock)
    requires BlocksStorable(c, bs) && Fit(c, bs) && |meta.reserved| == 32
    requires FirstsAscending(Index(c, bs)) && meta.dataBlockCount == |bs|
    ensures OpenFile(FileOf(c, bs, meta)) == Ok(Reader(FileOf(c, bs, meta), FooterOf(c, bs), meta, Index(c, bs)))
  {
    hide DecodeFooter, DecodeMeta, CheckIndex, EncodeMeta, EncodeFooter, FileOf, FooterOf, Index, IndexBytes, Blocks,
         OpenFile;
    FileSections(c, bs, meta);
    FooterRoundTrip(FooterOf(c, bs));
    MetaRoundTrip(meta);
    CheckIndexOfBytes(Index(c, bs), meta);
    FooterInRange(c, bs);
    OpenSteps(FileOf(c, bs, meta), FooterOf(c, bs), meta, Index(c, bs));
  }

  lemma FooterInRange(c: Codec, bs: seq<seq<Entry>>)
    requires BlocksStorable(c, bs) && Fit(c, bs)
    ensures FooterOf(c, bs).version == FORMAT_VERSION
    ensures FooterOf(c, bs).indexBlockOffset == |Blocks(c, bs)|
    ensures FooterOf(c, bs).indexBlockSize == |IndexBytes(Index(c, bs))|
    ensures FooterOf(c, bs).metaBlockOffset == |Blocks(c, bs)| + |IndexBytes(Index(c, bs))|
    ensures FooterOf(c, bs).metaBlockSize == META_BLOCK_SIZE
    ensures |Blocks(c, bs)| + |IndexBytes(Index(c, bs))| + META_BLOCK_SIZE < I63
  {
    hide Blocks, Index, IndexBody;
  }

  /** openSource on a file whose sections stand where its footer says. */
  lemma OpenSteps(file: seq<byte>, f: Footer, meta: MetaBlock, index: seq<IndexEntry>)
    requires |file| >= FOOTER_SIZE && |meta.reserved| == 32
    requires DecodeFooter(file[|file| - FOOTER_SIZE..]) == Ok(f)
    requires f.metaBlockOffset + f.metaBlockSize < I63 && f.indexBlockOffset + f.indexBlockSize < I63
    requires f.metaBlockOffset + f.metaBlockSize <= |file| - FOOTER_SIZE
    requires f.indexBlockOffset + f.indexBlockSize <= |file| - FOOTER_SIZE
    requires DecodeMeta(file[f.metaBlockOffset..f.metaBlockOffset + f.metaBlockSize]) == Ok(meta)
    requires CheckIndex(file[f.indexBlockOffset..f.indexBlockOffset + f.indexBlockSize], meta) == Ok(index)
    ensures OpenFile(file) == Ok(Reader(file, f, meta, index))
  {
    hide DecodeFooter, DecodeMeta, CheckIndex;
    assert f.metaBlockSize == 0 ==> file[f.metaBlockOffset..f.metaBlockOffset + f.metaBlockSize] == [];
    assert f.indexBlockSize == 0 ==> file[f.indexBlockOffset..f.indexBlockOffset + f.indexBlockSize] == [];
  }
}
