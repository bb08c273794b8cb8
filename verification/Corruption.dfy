/** What the formats make of up to four corrupted bytes in a row: they turn the record or the file away. */
module Corruption {
  import opened Bytes
  import opened Types
  import opened EntryList
  import opened WalRecord
  import opened Wal
  import opened SSTableFormat
  import opened SSTableLayout
  import opened SSTableWriter
  import opened SSTableReader
  import opened CrcBursts
  import Crc32

  lemma SameWord(a: seq<byte>, b: seq<byte>)
    requires |a| == |b| == 4 && GetU32(a) == GetU32(b)
    ensures a == b
  {
    U32Reencode(a);
    U32Reencode(b);
  }

  // ---- WAL records ------------------------------------------------------------------------------

  /** A burst that spares the length field and touches a record's bytes makes the record corrupt. */
  lemma RecordBurst(s: seq<byte>, t: seq<byte>)
    requires Decode(s).Rec? && Burst(s, t) && t[4..8] == s[4..8]
    ensures var n := 9 + |Decode(s).payload|;
      n <= |s| && Decode(t) == if t[..n] == s[..n] then Decode(s) else Corrupt
  {
    hide Crc32.Checksum, GetU32;
    var n := 9 + |Decode(s).payload|;
    DecodedFields(s);
    if t[..n] == s[..n] {
      DecodePrefix(s, n);
      DecodePrefix(t, n);
    } else {
      assert s[4..9] + s[9..n] == s[4..n] && t[4..9] + t[9..n] == t[4..n];
      assert s[..n] == s[0..4] + s[4..n] && t[..n] == t[0..4] + t[4..n];
      PartOfBurst(s, t, 4, n);
      if t[4..n] != s[4..n] {
        RegisterTells(s[4..n], t[4..n]);
        HeadUntouched(s, t, n);
      } else if GetU32(t[0..4]) == GetU32(s[0..4]) {
        SameWord(t[0..4], s[0..4]);
        assert false;
      }
    }
  }

  /** A burst behind the length field does not reach back to the checksum in front of it. */
  lemma HeadUntouched(s: seq<byte>, t: seq<byte>, n: nat)
    requires Burst(s, t) && 8 <= n <= |s| && t[4..8] == s[4..8] && t[4..n] != s[4..n]
    ensures t[0..4] == s[0..4]
  {
    var at :| AgreeOutside(s, t, at);
    var i :| 4 <= i < n && t[i] != s[i];
    assert s[4..8] == [s[4], s[5], s[6], s[7]] && t[4..8] == [t[4], t[5], t[6], t[7]];
  }

  /** Replay delivers what stands in front of such a record and stops there. */
  lemma ReplayStopsAtBurst(before: seq<byte>, s: seq<byte>, t: seq<byte>)
    requires AtBoundary(before) && Decode(s).Rec? && Burst(s, t) && t[4..8] == s[4..8]
    requires 9 + |Decode(s).payload| <= |s| && t[..9 + |Decode(s).payload|] != s[..9 + |Decode(s).payload|]
    ensures Replay(before + t, 0) == Replay(before, 0)
  {
    hide Decode, Replay, Leftover, Burst;
    RecordBurst(s, t);
    ReplayAppendAtBoundary(before, t);
    ReplayStep(t, |before|);
    assert Replay(before, 0) + [] == Replay(before, 0);
  }

  // ---- SSTable sections -------------------------------------------------------------------------

  lemma MetaBurst(b: seq<byte>, t: seq<byte>)
    requires DecodeMeta(b).Ok? && Burst(b, t)
    ensures |t| == |b| >= 88 && DecodeMeta(t) == if t[..88] == b[..88] then DecodeMeta(b) else Err(BadCRC)
  {
    hide Crc32.Checksum, GetU32, GetU64, ToI64;
    PartOfBurst(b, t, 0, 88);
    assert b[0..88] == b[..88] && t[0..88] == t[..88];
    assert b[..88][84..] == b[84..88] && b[..88][..84] == b[0..84];
    assert t[..88][84..] == t[84..88] && t[..88][..84] == t[0..84];
    if t[..88] == b[..88] {
      SameFields(b, t, 88);
    } else {
      StoredBurst(b[..88], t[..88]);
    }
  }

  /** Byte strings with a common beginning have the same slices there. */
  lemma SameFields(b: seq<byte>, t: seq<byte>, n: nat)
    requires n <= |b| == |t| && t[..n] == b[..n]
    ensures forall i, j | 0 <= i <= j <= n :: t[i..j] == b[i..j]
  {
    forall i, j | 0 <= i <= j <= n ensures t[i..j] == b[i..j] {
      assert t[..n][i..j] == t[i..j] && b[..n][i..j] == b[i..j];
    }
  }

  /** Only the four bytes of padding can change unnoticed. */
  lemma FooterBurst(b: seq<byte>, t: seq<byte>)
    requires DecodeFooter(b).Ok? && Burst(b, t)
    ensures |t| == |b| >= 48
    ensures if t[..36] == b[..36] && t[40..48] == b[40..48] then DecodeFooter(t) == DecodeFooter(b)
            else DecodeFooter(t).Err?
  {
    hide Crc32.Checksum, GetU32, GetU64;
    PartOfBurst(b, t, 0, 36);
    assert b[0..36] == b[..36] && t[0..36] == t[..36];
    assert b[..36][32..] == b[32..36] && b[..36][..32] == b[0..32];
    assert t[..36][32..] == t[32..36] && t[..36][..32] == t[0..32];
    if t[..36] == b[..36] {
      SameFields(b, t, 36);
    } else {
      StoredBurst(b[..36], t[..36]);
    }
  }

  /** Body, count and checksum of a block or of the index, as they lie in its bytes. */
  lemma TrailerBurst(b: seq<byte>, t: seq<byte>)
    requires |b| >= 8 && Burst(b, t) && t != b
    requires var n := |b| - 8; Crc32.Checksum(b[..n]) == GetU32(b[n + 4..])
    ensures |t| == |b|
    ensures var n := |b| - 8;
      (Crc32.Checksum(t[..n]) == GetU32(t[n + 4..]) ==> t[..n] == b[..n] && GetU32(t[n..n + 4]) != GetU32(b[n..n + 4]))
  {
    hide Crc32.Checksum, GetU32;
    var n := |b| - 8;
    PartOfBurst(b, t, 0, n);
    assert b[0..n] == b[..n] && t[0..n] == t[..n];
    assert b == b[..n] + b[n..n + 4] + b[n + 4..] && t == t[..n] + t[n..n + 4] + t[n + 4..];
    if t[..n] != b[..n] {
      RegisterTells(b[..n], t[..n]);
      TailUntouched(b, t, n);
    } else if GetU32(t[n + 4..]) == GetU32(b[n + 4..]) {
      SameWord(t[n + 4..], b[n + 4..]);
      if GetU32(t[n..n + 4]) == GetU32(b[n..n + 4]) {
        SameWord(t[n..n + 4], b[n..n + 4]);
        assert false;
      }
    }
  }

  /** A burst that touches the body does not reach over the count to the checksum. */
  lemma TailUntouched(b: seq<byte>, t: seq<byte>, n: nat)
    requires Burst(b, t) && n + 8 == |b| && t[..n] != b[..n]
    ensures t[n + 4..] == b[n + 4..]
  {
    var at :| AgreeOutside(b, t, at);
    var i :| 0 <= i < n && t[i] != b[i];
  }

  /** The same body does not decode under two counts. */
  lemma {:induction false} CountIsDetermined(c: Codec, body: seq<byte>, n: nat, k: nat)
    requires DecodeBody(c, body, n).Ok? && DecodeBody(c, body, k).Ok?
    ensures n == k
    decreases n
  {
    hide DecodeHeader;
    if n > 0 && k > 0 {
      var len := DecodeHeader(body[..RECORD_HEADER_SIZE]).value.payloadLen;
      CountIsDetermined(c, body[RECORD_HEADER_SIZE + len..], n - 1, k - 1);
    }
  }

  lemma BlockBurst(c: Codec, b: seq<byte>, t: seq<byte>)
    requires DecodeBlock(c, b).Ok? && Burst(b, t) && t != b
    ensures DecodeBlock(c, t).Err?
  {
    hide Crc32.Checksum, GetU32, DecodeBody;
    var n := |b| - 8;
    TrailerSlices(b);
    TrailerSlices(t);
    TrailerBurst(b, t);
    if DecodeBlock(c, t).Ok? {
      CountIsDetermined(c, b[..n], GetU32(b[n..n + 4]), GetU32(t[n..n + 4]));
      assert false;
    }
  }

  lemma TrailerSlices(b: seq<byte>)
    ensures |b| >= 8 ==> var n := |b| - 8; b[n..][0..4] == b[n..n + 4] && b[n..][4..8] == b[n + 4..]
  {
  }

  lemma IndexBurst(b: seq<byte>, t: seq<byte>, meta: MetaBlock)
    requires CheckIndex(b, meta).Ok? && Burst(b, t) && t != b
    ensures CheckIndex(t, meta).Err?
  {
    hide Crc32.Checksum, GetU32, DecodeIndex;
    TrailerSlices(b);
    TrailerSlices(t);
    TrailerBurst(b, t);
  }

  // ---- whole files ------------------------------------------------------------------------------

  lemma ReadAtBurst(file: seq<byte>, t: seq<byte>, off: int, n: nat)
    requires Burst(file, t)
    ensures ReadAt(file, off, n).Some? <==> ReadAt(t, off, n).Some?
    ensures ReadAt(file, off, n).Some? ==> Burst(ReadAt(file, off, n).value, ReadAt(t, off, n).value)
  {
    hide Burst;
    BurstLength(file, t);
    if off >= 0 && off + n <= |file| {
      PartOfBurst(file, t, off, off + n);
    }
    NoBurst();
  }

  lemma NoBurst()
    ensures Burst([], [])
  {
    assert AgreeOutside([], [], 0);
  }

  /** After a burst a file does not open, or it opens to the same footer, the same meta block and the same index. */
  lemma OpenBurst(file: seq<byte>, t: seq<byte>)
    requires OpenFile(file).Ok? && Burst(file, t) && OpenFile(t).Ok?
    ensures OpenFile(t).value == OpenFile(file).value.(file := t)
  {
    hide DecodeFooter, DecodeMeta, CheckIndex, Burst, ReadAt, ToI64, AddI64;
    BurstLength(file, t);
    var n, r := |file| - FOOTER_SIZE, OpenFile(file).value;
    PartOfBurst(file, t, n, |file|);
    assert file[n..|file|] == file[n..] && t[n..|file|] == t[n..];
    FooterBurst(file[n..], t[n..]);
    var at, size := ToI64(r.footer.metaBlockOffset), r.footer.metaBlockSize;
    ReadAtBurst(file, t, at, size);
    MetaBurst(ReadAt(file, at, size).value, ReadAt(t, at, size).value);
    var ix, length := ToI64(r.footer.indexBlockOffset), r.footer.indexBlockSize;
    ReadAtBurst(file, t, ix, length);
    var b, b' := ReadAt(file, ix, length).value, ReadAt(t, ix, length).value;
    if b' != b {
      IndexBurst(b, b', r.meta);
    }
  }

  /** A block loads as before, or not at all. */
  lemma BlockAtBurst(c: Codec, r: Reader, t: seq<byte>, i: nat)
    requires BlockAt(c, r, i).Ok? && Burst(r.file, t)
    ensures BlockAt(c, r.(file := t), i).Err? || BlockAt(c, r.(file := t), i) == BlockAt(c, r, i)
  {
    hide DecodeBlock, ReadAt, ToI64, Burst;
    var off, n := ToI64(r.index[i].blockOffset), r.index[i].blockSize;
    ReadAtBurst(r.file, t, off, n);
    var b, b' := ReadAt(r.file, off, n).value, ReadAt(t, off, n).value;
    if b' != b {
      BlockBurst(c, b, b');
    }
  }

  /**
   Lookups never answer wrongly: with any four consecutive bytes of a finished file changed, Open refuses it, or the
   lookup fails, or the answer is that of the records it was written from.
   */
  lemma LookupNeverLies(c: Codec, es: seq<Entry>, bs: seq<seq<Entry>>, m: MetaBlock, file: seq<byte>, t: seq<byte>,
                        d: DocID)
    requires Invertible(c) && Written(c, es, bs, m, file) && Fit(c, bs) && Burst(file, t)
    ensures
      || OpenFile(t).Err? || Find(c, OpenFile(t).value, d).Err?
      || Find(c, OpenFile(t).value, d) == Ok(Lookup(ToMap(es), d))
  {
    hide Written, Fit, OpenFile, BlockAt, Burst, Scan, ToMap;
    WrittenFileServes(c, es, bs, m, file);
    if OpenFile(t).Ok? {
      OpenBurst(file, t);
      var r := OpenFile(file).value;
      var i := Candidate(r.index, d);
      OpenedFile(file);
      if i >= 0 && BlockAt(c, r, i).Ok? {
        BlockAtBurst(c, r, t, i);
      }
    }
  }

  lemma OpenedFile(file: seq<byte>)
    requires OpenFile(file).Ok?
    ensures OpenFile(file).value.file == file
  {
    OpenedIndexAscends(file);
  }

  /** Iteration yields a prefix of the whole blocks' records, and all of them unless it ends in an error. */
  lemma {:induction false} StreamBurst(c: Codec, r: Reader, t: seq<byte>, i: nat)
    requires Burst(r.file, t) && StreamFrom(c, r, i).err.None?
    ensures var s, s' := StreamFrom(c, r, i), StreamFrom(c, r.(file := t), i);
      s'.items <= s.items && (s'.err.None? ==> s' == s)
    decreases |r.index| - i
  {
    hide BlockAt, Burst;
    if i < |r.index| {
      BlockAtBurst(c, r, t, i);
      StreamBurst(c, r, t, i + 1);
    }
  }

  lemma IterationNeverLies(c: Codec, es: seq<Entry>, bs: seq<seq<Entry>>, m: MetaBlock, file: seq<byte>, t: seq<byte>)
    requires Invertible(c) && Written(c, es, bs, m, file) && Fit(c, bs) && Burst(file, t) && OpenFile(t).Ok?
    ensures var s := StreamFrom(c, OpenFile(t).value, 0); s.items <= es && (s.err.None? ==> s.items == es)
  {
    hide Written, Fit, OpenFile, StreamFrom, Burst, ToMap, Find;
    WrittenFileServes(c, es, bs, m, file);
    OpenBurst(file, t);
    OpenedFile(file);
    StreamBurst(c, OpenFile(file).value, t, 0);
  }

  // ---- every change is noticed ------------------------------------------------------------------

  lemma BlockBytesSame(c: Codec, r: Reader, t: seq<byte>, i: nat)
    requires BlockAt(c, r, i).Ok? && Burst(r.file, t) && BlockAt(c, r.(file := t), i).Ok?
    ensures ReadAt(t, ToI64(r.index[i].blockOffset), r.index[i].blockSize)
            == ReadAt(r.file, ToI64(r.index[i].blockOffset), r.index[i].blockSize)
  {
    hide DecodeBlock, ReadAt, ToI64, Burst;
    var off, n := ToI64(r.index[i].blockOffset), r.index[i].blockSize;
    ReadAtBurst(r.file, t, off, n);
    var b, b' := ReadAt(r.file, off, n).value, ReadAt(t, off, n).value;
    if b' != b {
      BlockBurst(c, b, b');
    }
  }

  lemma {:induction false} AllBlocksLoad(c: Codec, r: Reader, i: nat, k: nat)
    requires StreamFrom(c, r, i).err.None? && i <= k < |r.index|
    ensures BlockAt(c, r, k).Ok?
    decreases |r.index| - i
  {
    hide BlockAt;
    if i < k {
      AllBlocksLoad(c, r, i + 1, k);
    }
  }

  /** When every block of a written file still loads, the whole data area is as it was. */
  lemma {:induction false} AreaSame(c: Codec, bs: seq<seq<Entry>>, m: MetaBlock, r: Reader, t: seq<byte>, i: nat)
    requires Invertible(c) && BlocksStorable(c, bs) && Fit(c, bs) && |m.reserved| == 32 && i <= |bs|
    requires r.file == FileOf(c, bs, m) && r.index == Index(c, bs) && Burst(r.file, t)
    requires StreamFrom(c, r.(file := t), 0).err.None?
    ensures BlocksStorable(c, bs[..i]) && |Blocks(c, bs[..i])| <= |r.file| == |t|
    ensures t[..|Blocks(c, bs[..i])|] == r.file[..|Blocks(c, bs[..i])|]
    decreases i
  {
    hide FileOf, Index, Fit, BlockAt, StreamFrom, Burst, BlockBytes, Flatten, ReadAt, ToI64;
    BurstLength(r.file, t);
    if i > 0 {
      AreaSame(c, bs, m, r, t, i - 1);
      BlockLoads(c, bs, m, r, i - 1);
      AllBlocksLoad(c, r.(file := t), 0, i - 1);
      BlockBytesSame(c, r, t, i - 1);
      BlockSpan(c, bs, m, i - 1);
      assert bs[..i][..i - 1] == bs[..i - 1];
      var lo, hi := |Blocks(c, bs[..i - 1])|, |Blocks(c, bs[..i])|;
      ReadsSlice(r.file, lo, hi);
      ReadsSlice(t, lo, hi);
      SlicesJoin(r.file, t, lo, hi);
    }
  }

  lemma SlicesJoin(s: seq<byte>, t: seq<byte>, lo: nat, hi: nat)
    requires lo <= hi <= |s| == |t| && t[..lo] == s[..lo] && t[lo..hi] == s[lo..hi]
    ensures t[..hi] == s[..hi]
  {
    assert s[..hi] == s[..lo] + s[lo..hi] && t[..hi] == t[..lo] + t[lo..hi];
  }

  lemma ReadsSlice(t: seq<byte>, lo: nat, hi: nat)
    requires lo <= hi <= |t|
    ensures ReadAt(t, lo, hi - lo) == Some(t[lo..hi])
  {
    assert lo == hi ==> t[lo..hi] == [];
  }

  /** Where block i of a written file lies. */
  lemma BlockSpan(c: Codec, bs: seq<seq<Entry>>, m: MetaBlock, i: nat)
    requires BlocksStorable(c, bs) && Fit(c, bs) && |m.reserved| == 32 && i < |bs|
    ensures BlocksStorable(c, bs[..i]) && BlocksStorable(c, bs[..i + 1])
    ensures var e, lo, hi := Index(c, bs)[i], |Blocks(c, bs[..i])|, |Blocks(c, bs[..i + 1])|;
      lo <= hi <= |FileOf(c, bs, m)| && ToI64(e.blockOffset) == lo && e.blockSize == hi - lo
  {
    hide BlockBytes, Flatten, Index, Fit, IndexBytes, EncodeMeta, EncodeFooter, FooterOf, FileOf, Blocks, ToI64;
    IndexPoints(c, bs, i);
    FileSections(c, bs, m);
    AreaInRange(c, bs);
    SmallOffset(|Blocks(c, bs[..i])|, |Blocks(c, bs)|);
    assert bs[..i + 1] == bs[..i] + [bs[i]];
    BlocksSnoc(c, bs[..i], bs[i]);
  }

  lemma SmallOffset(at: nat, end: nat)
    requires at <= end < I63
    ensures ToI64(at) == at
  {
  }

  /** Where the sections of a written file lie, as its footer has it. */
  lemma SectionSpans(c: Codec, bs: seq<seq<Entry>>, m: MetaBlock)
    requires BlocksStorable(c, bs) && Fit(c, bs) && |m.reserved| == 32
    ensures var f, b, n := FooterOf(c, bs), |Blocks(c, bs)|, |FileOf(c, bs, m)| - 48;
      && ToI64(f.indexBlockOffset) == b && ToI64(f.metaBlockOffset) == b + f.indexBlockSize
      && b + f.indexBlockSize + 88 == n
  {
    hide Blocks, Index, IndexBytes, EncodeMeta, EncodeFooter, FooterOf, FileOf, Fit, BlocksStorable, ToI64;
    FooterInRange(c, bs);
    FileSections(c, bs, m);
    var b, i := |Blocks(c, bs)|, |IndexBytes(Index(c, bs))|;
    SmallOffset(b, b + i + 88);
    SmallOffset(b + i, b + i + 88);
  }

  /** Two files with the same reader have the same index, meta block and footer, but for the footer's padding. */
  lemma SameSections(file: seq<byte>, t: seq<byte>)
    requires OpenFile(file).Ok? && OpenFile(t).Ok? && |t| == |file|
    requires OpenFile(t).value == OpenFile(file).value.(file := t)
    ensures var f, n := OpenFile(file).value.footer, |file| - 48;
      var at, ix := ToI64(f.metaBlockOffset), ToI64(f.indexBlockOffset);
      && 0 <= at <= at + 88 <= |file| && 0 <= ix <= ix + f.indexBlockSize <= |file| && n >= 0
      && t[at..at + 88] == file[at..at + 88] && t[ix..ix + f.indexBlockSize] == file[ix..ix + f.indexBlockSize]
      && t[n..n + 36] == file[n..n + 36] && t[n + 40..] == file[n + 40..]
  {
    hide OpenFile, EncodeFooter, EncodeMeta, IndexBytes, FirstsAscending, ToI64;
    OpenedIsWellFormed(file);
    OpenedIsWellFormed(t);
    var n := |file| - 48;
    SplitFooter(file[n..n + 36], [0, 0, 0, 0], file[n + 40..], t[n..n + 36], t[n + 40..]);
  }

  lemma SplitFooter(a: seq<byte>, pad: seq<byte>, b: seq<byte>, a': seq<byte>, b': seq<byte>)
    requires |a| == |a'| && a + pad + b == a' + pad + b'
    ensures a == a' && b == b'
  {
    assert (a + pad + b)[..|a|] == a && (a' + pad + b')[..|a|] == a';
    assert (a + pad + b)[|a| + |pad|..] == b && (a' + pad + b')[|a| + |pad|..] == b';
  }

  /**
   Nothing is overlooked: when a finished file with up to four consecutive bytes changed still opens and iterates to its
   end without an error, nothing but the footer's padding differs.
   */
  lemma ChangeIsNoticed(c: Codec, es: seq<Entry>, bs: seq<seq<Entry>>, m: MetaBlock, file: seq<byte>, t: seq<byte>)
    requires Invertible(c) && Written(c, es, bs, m, file) && Fit(c, bs) && Burst(file, t)
    requires OpenFile(t).Ok? && StreamFrom(c, OpenFile(t).value, 0).err.None?
    ensures |t| == |file| >= 48
    ensures var n := |file| - 48; t[..n + 36] == file[..n + 36] && t[n + 40..] == file[n + 40..]
  {
    hide Written, Fit, OpenFile, StreamFrom, Burst, ToMap, Find, FileOf, Blocks, Index, FooterOf, ToI64, BlocksStorable;
    WrittenParts(c, es, bs, m, file);
    WrittenFileServes(c, es, bs, m, file);
    OpenBurst(file, t);
    BurstLength(file, t);
    var r, n, b := OpenFile(file).value, |file| - 48, |Blocks(c, bs)|;
    OpenRoundTrip(c, bs, m);
    SectionSpans(c, bs, m);
    SameSections(file, t);
    AreaSame(c, bs, m, r, t, |bs|);
    assert bs[..|bs|] == bs;
    SlicesJoin(file, t, b, b + r.footer.indexBlockSize);
    SlicesJoin(file, t, b + r.footer.indexBlockSize, n);
    SlicesJoin(file, t, n, n + 36);
  }

  lemma WrittenParts(c: Codec, es: seq<Entry>, bs: seq<seq<Entry>>, m: MetaBlock, file: seq<byte>)
    requires Written(c, es, bs, m, file) && Fit(c, bs)
    ensures BlocksStorable(c, bs) && |m.reserved| == 32 && file == FileOf(c, bs, m) && FirstsAscending(Index(c, bs))
    ensures m.dataBlockCount == |bs|
  {
    hide FileOf, Index, Fit, Flatten, Cut, Aggregates;
    FirstsAscend(c, bs);
    FewBlocks(c, bs);
  }

  lemma FewBlocks(c: Codec, bs: seq<seq<Entry>>)
    requires BlocksStorable(c, bs) && Fit(c, bs)
    ensures |bs| < U32
  {
  }
}
