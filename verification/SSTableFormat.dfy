/** The SSTable file format, version 1 (internal/sstable/format.go, ADR-002): blocks, index, meta block, footer. */
module SSTableFormat {
  import opened Bytes
  import opened Types
  import Crc32

  const MAGIC: seq<byte> := [0x44, 0x4C, 0x53, 0x53, 0x54, 0x42, 0x4C, 0x00]
  const FORMAT_VERSION: uint32 := 1
  const FOOTER_SIZE := 48
  const INDEX_ENTRY_SIZE := 24
  const DEFAULT_BLOCK_SIZE := 16_384
  const BLOCK_TRAILER_SIZE := 8
  const META_BLOCK_SIZE := 88
  const RECORD_HEADER_SIZE := 20

  datatype FormatError = BadMagic | BadVersion | ShortBuffer | BadCRC | Malformed | ReadFailed | TooSmall

  // ---- cutting a byte string into fields --------------------------------------------------------

  lemma Middle(a: seq<byte>, b: seq<byte>, c: seq<byte>)
    ensures (a + b + c)[|a|..|a| + |b|] == b
    ensures (a + b + c)[..|a|] == a && (a + b + c)[|a| + |b|..] == c
  {
  }

  /** copy(buf[at:], src), filling a buffer front to back. */
  method FillAt(buf: array<byte>, at: nat, src: seq<byte>)
    requires at + |src| <= buf.Length
    modifies buf
    ensures buf[..at + |src|] == old(buf[..at]) + src
    ensures buf[at + |src|..] == old(buf[at + |src|..])
    ensures forall i :: at + |src| <= i < buf.Length ==> buf[i] == old(buf[i])
  {
    forall i | 0 <= i < |src| { buf[at + i] := src[i]; }
  }

  // ---- index entries ----------------------------------------------------------------------------

  datatype IndexEntry = IndexEntry(firstDocID: DocID, blockOffset: uint64, blockSize: uint32, reserved: uint32)

  function EncodeIndexEntry(e: IndexEntry): (s: seq<byte>)
    ensures |s| == INDEX_ENTRY_SIZE
  {
    PutU64(e.firstDocID) + PutU64(e.blockOffset) + PutU32(e.blockSize) + PutU32(e.reserved)
  }

  method MarshalIndexEntry(e: IndexEntry) returns (b: array<byte>)
    ensures fresh(b) && b[..] == EncodeIndexEntry(e)
    ensures b.Length == 24 && b[0..8] == PutU64(e.firstDocID) && b[8..16] == PutU64(e.blockOffset)
    ensures b[16..20] == PutU32(e.blockSize) && b[20..24] == PutU32(e.reserved)
  {
    b := new byte[INDEX_ENTRY_SIZE];
    FillAt(b, 0, PutU64(e.firstDocID));
    FillAt(b, 8, PutU64(e.blockOffset));
    FillAt(b, 16, PutU32(e.blockSize));
    FillAt(b, 20, PutU32(e.reserved));
    assert b[..] == b[..24] && b[..0] == [];
  }

  function DecodeIndexEntry(b: seq<byte>): Result<IndexEntry, FormatError> {
    if |b| < INDEX_ENTRY_SIZE then Err(ShortBuffer)
    else Ok(IndexEntry(GetU64(b[0..8]), GetU64(b[8..16]), GetU32(b[16..20]), GetU32(b[20..24])))
  }

  lemma IndexEntryRoundTrip(e: IndexEntry, rest: seq<byte>)
    ensures DecodeIndexEntry(EncodeIndexEntry(e) + rest) == Ok(e)
  {
    hide PutU64, PutU32, GetU64, GetU32;
    var b := EncodeIndexEntry(e) + rest;
    var f0, f1, f2, f3 := PutU64(e.firstDocID), PutU64(e.blockOffset), PutU32(e.blockSize), PutU32(e.reserved);
    assert b[0..8] == f0 && b[8..16] == f1 && b[16..20] == f2 && b[20..24] == f3;
    U64RoundTrip(e.firstDocID);
    U64RoundTrip(e.blockOffset);
    U32RoundTrip(e.blockSize);
    U32RoundTrip(e.reserved);
  }

  /** And back: the entry decoded from 24 bytes is encoded as these bytes. */
  lemma IndexEntryReencode(b: seq<byte>)
    requires |b| >= 24
    ensures DecodeIndexEntry(b).Ok? && EncodeIndexEntry(DecodeIndexEntry(b).value) == b[..24]
  {
    hide PutU64, PutU32, GetU64, GetU32;
    U64Reencode(b[0..8]);
    U64Reencode(b[8..16]);
    U32Reencode(b[16..20]);
    U32Reencode(b[20..24]);
    assert b[..24] == b[0..8] + b[8..16] + b[16..20] + b[20..24];
  }

  // ---- meta block -------------------------------------------------------------------------------

  datatype MetaBlock = MetaBlock(
    minDocID: DocID, maxDocID: DocID,
    minTimestamp: Timestamp, maxTimestamp: Timestamp,
    recordCount: uint64, dataBlockCount: uint32, createdAtUnix: int64,
    reserved: seq<byte>
  )

  function MetaFields(m: MetaBlock): (s: seq<byte>)
    requires |m.reserved| == 32
    ensures |s| == 84
  {
    PutU64(m.minDocID) + PutU64(m.maxDocID) + PutU64(ToU64(m.minTimestamp)) + PutU64(ToU64(m.maxTimestamp))
    + PutU64(m.recordCount) + PutU32(m.dataBlockCount) + PutU64(ToU64(m.createdAtUnix)) + m.reserved
  }

  function EncodeMeta(m: MetaBlock): (s: seq<byte>)
    requires |m.reserved| == 32
    ensures |s| == META_BLOCK_SIZE
  {
    MetaFields(m) + PutU32(Crc32.Checksum(MetaFields(m)))
  }

  method MarshalMetaBlock(m: MetaBlock) returns (b: array<byte>)
    requires |m.reserved| == 32
    ensures fresh(b) && b[..] == EncodeMeta(m)
    ensures b.Length == 88 && b[84..88] == PutU32(Crc32.Checksum(b[..84]))
    ensures b[0..8] == PutU64(m.minDocID) && b[8..16] == PutU64(m.maxDocID)
    ensures b[16..24] == PutU64(ToU64(m.minTimestamp)) && b[24..32] == PutU64(ToU64(m.maxTimestamp))
    ensures b[32..40] == PutU64(m.recordCount) && b[40..44] == PutU32(m.dataBlockCount)
    ensures b[44..52] == PutU64(ToU64(m.createdAtUnix)) && b[52..84] == m.reserved
  {
    hide Crc32.Checksum, PutU64, PutU32;
    b := new byte[META_BLOCK_SIZE];
    FillAt(b, 0, PutU64(m.minDocID));
    FillAt(b, 8, PutU64(m.maxDocID));
    FillAt(b, 16, PutU64(ToU64(m.minTimestamp)));
    FillAt(b, 24, PutU64(ToU64(m.maxTimestamp)));
    FillAt(b, 32, PutU64(m.recordCount));
    FillAt(b, 40, PutU32(m.dataBlockCount));
    FillAt(b, 44, PutU64(ToU64(m.createdAtUnix)));
    FillAt(b, 52, m.reserved);
    assert b[..0] == [];
    assert b[..84] == MetaFields(m);
    FillAt(b, 84, PutU32(Crc32.Checksum(b[..84])));
    assert b[..] == b[..88];
    MetaSlices(m, b[..]);
  }

  function DecodeMeta(b: seq<byte>): Result<MetaBlock, FormatError> {
    if |b| < META_BLOCK_SIZE then Err(ShortBuffer)
    else if Crc32.Checksum(b[0..84]) != GetU32(b[84..88]) then Err(BadCRC)
    else Ok(MetaBlock(GetU64(b[0..8]), GetU64(b[8..16]), ToI64(GetU64(b[16..24])), ToI64(GetU64(b[24..32])),
                      GetU64(b[32..40]), GetU32(b[40..44]), ToI64(GetU64(b[44..52])), b[52..84]))
  }

  lemma SignedRoundTrip(x: int64)
    ensures ToI64(ToU64(x)) == x
  {
  }

  lemma MetaSlices(m: MetaBlock, b: seq<byte>)
    requires |m.reserved| == 32 && |b| >= 84 && b[..84] == MetaFields(m)
    ensures b[0..8] == PutU64(m.minDocID) && b[8..16] == PutU64(m.maxDocID)
    ensures b[16..24] == PutU64(ToU64(m.minTimestamp)) && b[24..32] == PutU64(ToU64(m.maxTimestamp))
    ensures b[32..40] == PutU64(m.recordCount) && b[40..44] == PutU32(m.dataBlockCount)
    ensures b[44..52] == PutU64(ToU64(m.createdAtUnix)) && b[52..84] == m.reserved
  {
    hide PutU64, PutU32;
    var f := b[..84];
    assert f[0..8] == b[0..8] && f[8..16] == b[8..16] && f[16..24] == b[16..24] && f[24..32] == b[24..32];
    assert f[32..40] == b[32..40] && f[40..44] == b[40..44] && f[44..52] == b[44..52] && f[52..84] == b[52..84];
  }

  lemma MetaRoundTrip(m: MetaBlock)
    requires |m.reserved| == 32
    ensures DecodeMeta(EncodeMeta(m)) == Ok(m)
  {
    hide PutU64, PutU32, GetU64, GetU32, ToU64, ToI64, Crc32.Checksum, MetaFields;
    var b := EncodeMeta(m);
    assert b[..84] == MetaFields(m) && b[0..84] == MetaFields(m) && b[84..88] == PutU32(Crc32.Checksum(MetaFields(m)));
    MetaSlices(m, b);
    U32RoundTrip(Crc32.Checksum(MetaFields(m)));
    U64RoundTrip(m.minDocID);
    U64RoundTrip(m.maxDocID);
    U64RoundTrip(ToU64(m.minTimestamp));
    U64RoundTrip(ToU64(m.maxTimestamp));
    U64RoundTrip(m.recordCount);
    U32RoundTrip(m.dataBlockCount);
    U64RoundTrip(ToU64(m.createdAtUnix));
    SignedRoundTrip(m.minTimestamp);
    SignedRoundTrip(m.maxTimestamp);
    SignedRoundTrip(m.createdAtUnix);
  }

  lemma UnsignedRoundTrip(x: uint64)
    ensures ToU64(ToI64(x)) == x
  {
  }

  /** A meta block that decodes is, byte for byte, the encoding of what it decodes to: no other 88 bytes are accepted. */
  lemma MetaReencode(b: seq<byte>)
    requires DecodeMeta(b).Ok?
    ensures |b| >= 88 && |DecodeMeta(b).value.reserved| == 32 && EncodeMeta(DecodeMeta(b).value) == b[..88]
  {
    hide PutU64, PutU32, GetU64, GetU32, ToU64, ToI64, Crc32.Checksum;
    U64Reencode(b[0..8]);
    U64Reencode(b[8..16]);
    U64Reencode(b[16..24]);
    U64Reencode(b[24..32]);
    U64Reencode(b[32..40]);
    U32Reencode(b[40..44]);
    U64Reencode(b[44..52]);
    UnsignedRoundTrip(GetU64(b[16..24]));
    UnsignedRoundTrip(GetU64(b[24..32]));
    UnsignedRoundTrip(GetU64(b[44..52]));
    MetaPieces(b);
    U32Reencode(b[84..88]);
  }

  lemma MetaPieces(b: seq<byte>)
    requires |b| >= 88
    ensures b[0..84] == b[0..8] + b[8..16] + b[16..24] + b[24..32] + b[32..40] + b[40..44] + b[44..52] + b[52..84]
    ensures b[..88] == b[0..84] + b[84..88]
  {
  }

  // ---- footer -----------------------------------------------------------------------------------

  datatype Footer = Footer(
    version: uint32, flags: uint32,
    indexBlockOffset: uint64, indexBlockSize: uint32,
    metaBlockOffset: uint64, metaBlockSize: uint32
  )

  function FooterFields(f: Footer): (s: seq<byte>)
    ensures |s| == 32
  {
    PutU32(f.version) + PutU32(f.flags) + PutU64(f.indexBlockOffset) + PutU32(f.indexBlockSize)
    + PutU64(f.metaBlockOffset) + PutU32(f.metaBlockSize)
  }

  function EncodeFooter(f: Footer): (s: seq<byte>)
    ensures |s| == FOOTER_SIZE
  {
    FooterFields(f) + PutU32(Crc32.Checksum(FooterFields(f))) + [0, 0, 0, 0] + MAGIC
  }

  method MarshalFooter(f: Footer) returns (b: array<byte>)
    ensures fresh(b) && b[..] == EncodeFooter(f)
    ensures b.Length == 48 && b[32..36] == PutU32(Crc32.Checksum(b[..32])) && b[36..40] == [0, 0, 0, 0]
    ensures b[40..48] == [0x44, 0x4C, 0x53, 0x53, 0x54, 0x42, 0x4C, 0x00]
    ensures b[0..4] == PutU32(f.version) && b[4..8] == PutU32(f.flags)
    ensures b[8..16] == PutU64(f.indexBlockOffset) && b[16..20] == PutU32(f.indexBlockSize)
    ensures b[20..28] == PutU64(f.metaBlockOffset) && b[28..32] == PutU32(f.metaBlockSize)
  {
    hide Crc32.Checksum, PutU64, PutU32;
    b := new byte[FOOTER_SIZE](_ => 0);
    FillAt(b, 0, PutU32(f.version));
    FillAt(b, 4, PutU32(f.flags));
    FillAt(b, 8, PutU64(f.indexBlockOffset));
    FillAt(b, 16, PutU32(f.indexBlockSize));
    FillAt(b, 20, PutU64(f.metaBlockOffset));
    FillAt(b, 28, PutU32(f.metaBlockSize));
    assert b[..0] == [];
    assert b[..32] == FooterFields(f);
    FillAt(b, 32, PutU32(Crc32.Checksum(b[..32])));
    assert b[..40] == b[..36] + [0, 0, 0, 0];
    FillAt(b, 40, MAGIC);
    assert b[..] == b[..48];
    FooterSlices(f, b[..]);
  }

  function DecodeFooter(b: seq<byte>): Result<Footer, FormatError> {
    if |b| < FOOTER_SIZE then Err(ShortBuffer)
    else if b[40..48] != MAGIC then Err(BadMagic)
    else if Crc32.Checksum(b[0..32]) != GetU32(b[32..36]) then Err(BadCRC)
    else
      var f := Footer(GetU32(b[0..4]), GetU32(b[4..8]), GetU64(b[8..16]), GetU32(b[16..20]),
                      GetU64(b[20..28]), GetU32(b[28..32]));
      if f.version != FORMAT_VERSION then Err(BadVersion) else Ok(f)
  }

  lemma FooterSlices(f: Footer, b: seq<byte>)
    requires |b| >= 32 && b[..32] == FooterFields(f)
    ensures b[0..4] == PutU32(f.version) && b[4..8] == PutU32(f.flags)
    ensures b[8..16] == PutU64(f.indexBlockOffset) && b[16..20] == PutU32(f.indexBlockSize)
    ensures b[20..28] == PutU64(f.metaBlockOffset) && b[28..32] == PutU32(f.metaBlockSize)
  {
    hide PutU64, PutU32;
    var g := b[..32];
    assert g[0..4] == b[0..4] && g[4..8] == b[4..8] && g[8..16] == b[8..16];
    assert g[16..20] == b[16..20] && g[20..28] == b[20..28] && g[28..32] == b[28..32];
  }

  /** A footer survives the file exactly when its version is the supported one. */
  lemma FooterRoundTrip(f: Footer)
    ensures DecodeFooter(EncodeFooter(f)) == if f.version == FORMAT_VERSION then Ok(f) else Err(BadVersion)
  {
    hide PutU64, PutU32, GetU64, GetU32, Crc32.Checksum, FooterFields;
    var b := EncodeFooter(f);
    assert b[..32] == FooterFields(f) && b[0..32] == FooterFields(f);
    assert b[32..36] == PutU32(Crc32.Checksum(FooterFields(f))) && b[40..48] == MAGIC;
    FooterSlices(f, b);
    U32RoundTrip(Crc32.Checksum(FooterFields(f)));
    U32RoundTrip(f.version);
    U32RoundTrip(f.flags);
    U64RoundTrip(f.indexBlockOffset);
    U32RoundTrip(f.indexBlockSize);
    U64RoundTrip(f.metaBlockOffset);
    U32RoundTrip(f.metaBlockSize);
  }

  /** A footer that decodes is the encoding of what it decodes to, but for the four bytes of padding. */
  lemma FooterReencode(b: seq<byte>)
    requires DecodeFooter(b).Ok?
    ensures |b| >= 48 && DecodeFooter(b).value.version == 1
    ensures EncodeFooter(DecodeFooter(b).value) == b[..36] + [0, 0, 0, 0] + b[40..48]
  {
    hide PutU64, PutU32, GetU64, GetU32, Crc32.Checksum;
    U32Reencode(b[0..4]);
    U32Reencode(b[4..8]);
    U64Reencode(b[8..16]);
    U32Reencode(b[16..20]);
    U64Reencode(b[20..28]);
    U32Reencode(b[28..32]);
    U32Reencode(b[32..36]);
    FooterPieces(b);
  }

  lemma FooterPieces(b: seq<byte>)
    requires |b| >= 48
    ensures b[0..32] == b[0..4] + b[4..8] + b[8..16] + b[16..20] + b[20..28] + b[28..32]
    ensures b[..36] == b[0..32] + b[32..36]
  {
  }

  // ---- records in a data block ------------------------------------------------------------------

  datatype RecordHeader = RecordHeader(id: DocID, ts: Timestamp, payloadLen: uint32)

  function EncodeHeader(h: RecordHeader): (s: seq<byte>)
    ensures |s| == RECORD_HEADER_SIZE
  {
    PutU64(h.id) + PutU64(ToU64(h.ts)) + PutU32(h.payloadLen)
  }

  /** encodeRecordHeader fills the fixed prefix of a record. */
  method EncodeRecordHeader(dst: array<byte>, h: RecordHeader)
    requires dst.Length >= RECORD_HEADER_SIZE
    modifies dst
    ensures dst[..RECORD_HEADER_SIZE] == EncodeHeader(h)
    ensures dst[RECORD_HEADER_SIZE..] == old(dst[RECORD_HEADER_SIZE..])
    ensures dst[0..8] == PutU64(h.id) && dst[8..16] == PutU64(ToU64(h.ts)) && dst[16..20] == PutU32(h.payloadLen)
  {
    FillAt(dst, 0, PutU64(h.id));
    FillAt(dst, 8, PutU64(ToU64(h.ts)));
    FillAt(dst, 16, PutU32(h.payloadLen));
    assert old(dst[..0]) == [];
  }

  function DecodeHeader(b: seq<byte>): Result<RecordHeader, FormatError> {
    if |b| < RECORD_HEADER_SIZE then Err(ShortBuffer)
    else Ok(RecordHeader(GetU64(b[0..8]), ToI64(GetU64(b[8..16])), GetU32(b[16..20])))
  }

  lemma HeaderRoundTrip(h: RecordHeader, rest: seq<byte>)
    ensures DecodeHeader(EncodeHeader(h) + rest) == Ok(h)
  {
    hide PutU64, PutU32, GetU64, GetU32, ToU64, ToI64;
    var b := EncodeHeader(h) + rest;
    assert b[0..8] == PutU64(h.id) && b[8..16] == PutU64(ToU64(h.ts)) && b[16..20] == PutU32(h.payloadLen);
    U64RoundTrip(h.id);
    U64RoundTrip(ToU64(h.ts));
    U32RoundTrip(h.payloadLen);
    SignedRoundTrip(h.ts);
  }

  /** And back: the header decoded from 20 bytes is encoded as these bytes. */
  lemma HeaderReencode(b: seq<byte>)
    requires |b| >= 20
    ensures DecodeHeader(b).Ok? && EncodeHeader(DecodeHeader(b).value) == b[..20]
  {
    hide PutU64, PutU32, GetU64, GetU32, ToU64, ToI64;
    U64Reencode(b[0..8]);
    U64Reencode(b[8..16]);
    U32Reencode(b[16..20]);
    UnsignedRoundTrip(GetU64(b[8..16]));
    assert b[..20] == b[0..8] + b[8..16] + b[16..20];
  }
}
