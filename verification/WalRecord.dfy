/** The WAL record codec (internal/wal/record.go): CRC32 | Length | Type | Payload. */
module WalRecord {
  import opened Bytes
  import opened Types
  import Crc32

  const HEADER_SIZE := 9
  const MAX_PAYLOAD := 67_108_864

  datatype EncodeError = PayloadTooBig | ShortBuffer

  /** The bytes the CRC covers. */
  function Covered(typ: byte, payload: seq<byte>): seq<byte>
    requires |payload| <= MAX_PAYLOAD
  {
    PutU32(|payload|) + [typ] + payload
  }

  function Encode(typ: byte, payload: seq<byte>): (s: seq<byte>)
    requires |payload| <= MAX_PAYLOAD
    ensures |s| == HEADER_SIZE + |payload|
  {
    PutU32(Crc32.Checksum(Covered(typ, payload))) + Covered(typ, payload)
  }

  /** What decoding finds at the head of a byte string; Failed is a read error that is not the end of the file. */
  datatype Decoded = Eof | Torn | Corrupt | Rec(typ: byte, payload: seq<byte>) | Failed

  function Decode(s: seq<byte>): (d: Decoded)
    ensures d.Rec? ==> |d.payload| <= MAX_PAYLOAD && HEADER_SIZE + |d.payload| <= |s|
    ensures !d.Failed?
  {
    if |s| == 0 then Eof
    else if |s| < HEADER_SIZE then Torn
    else
      var length := GetU32(s[4..8]);
      if length > MAX_PAYLOAD then Corrupt
      else if |s| < HEADER_SIZE + length then Torn
      else
        var payload := s[HEADER_SIZE..HEADER_SIZE + length];
        if Crc32.Checksum(s[4..HEADER_SIZE] + payload) != GetU32(s[0..4]) then Corrupt
        else Rec(s[8], payload)
  }

  /** The same when the bytes behind s cannot be read: an error inside the header still counts as a torn tail. */
  function DecodeFrom(s: seq<byte>, broken: bool): (d: Decoded) {
    var d := Decode(s);
    if broken && (d.Eof? || (d.Torn? && |s| >= HEADER_SIZE)) then Failed else d
  }

  lemma EncodeFields(typ: byte, payload: seq<byte>, rest: seq<byte>)
    requires |payload| <= MAX_PAYLOAD
    ensures var s := Encode(typ, payload) + rest;
      && s[0..4] == PutU32(Crc32.Checksum(Covered(typ, payload)))
      && s[4..8] == PutU32(|payload|)
      && s[4..HEADER_SIZE] == PutU32(|payload|) + [typ]
      && s[8] == typ
      && s[HEADER_SIZE..HEADER_SIZE + |payload|] == payload
      && s[HEADER_SIZE + |payload|..] == rest
  {
    hide PutU32, Crc32.Checksum;
  }

  /** Decoding inverts encoding, whatever bytes follow. */
  lemma DecodeAfterEncode(typ: byte, payload: seq<byte>, rest: seq<byte>)
    requires |payload| <= MAX_PAYLOAD
    ensures Decode(Encode(typ, payload) + rest) == Rec(typ, payload)
  {
    EncodeFields(typ, payload, rest);
    U32RoundTrip(|payload|);
    U32RoundTrip(Crc32.Checksum(Covered(typ, payload)));
  }

  /** Everything a successful decode has checked, in terms of the bytes it read. */
  lemma DecodedFields(s: seq<byte>)
    requires Decode(s).Rec?
    ensures var n := 9 + |Decode(s).payload|;
      && n <= |s| && |Decode(s).payload| <= 64 * 1024 * 1024
      && GetU32(s[4..8]) == |Decode(s).payload|
      && s[8] == Decode(s).typ
      && s[9..n] == Decode(s).payload
      && GetU32(s[0..4]) == Crc32.Checksum(s[4..n])
  {
    assert s[4..9] + Decode(s).payload == s[4..9 + |Decode(s).payload|];
  }

  /** A decoded record re-encodes to exactly the bytes it was read from. */
  lemma EncodeAfterDecode(s: seq<byte>)
    requires Decode(s).Rec?
    ensures |Decode(s).payload| <= MAX_PAYLOAD
    ensures Encode(Decode(s).typ, Decode(s).payload) <= s
  {
    DecodedFields(s);
    var d := Decode(s);
    U32Reencode(s[4..8]);
    SliceSnoc(s, 4, 8);
    U32Reencode(s[0..4]);
    SameBytes(s, PutU32(|d.payload|), d.typ, d.payload);
  }

  lemma SliceSnoc(s: seq<byte>, a: nat, b: nat)
    requires a <= b < |s|
    ensures s[a..b + 1] == s[a..b] + [s[b]]
  {
  }

  lemma SameBytes(s: seq<byte>, length: seq<byte>, typ: byte, payload: seq<byte>)
    requires |length| == 4 && |s| >= HEADER_SIZE + |payload|
    requires s[4..8] == length && s[8] == typ && s[HEADER_SIZE..HEADER_SIZE + |payload|] == payload
    ensures s[0..4] + (length + [typ] + payload) <= s
  {
    var n := HEADER_SIZE + |payload|;
    assert s[..n] == s[0..4] + s[4..8] + [s[8]] + s[HEADER_SIZE..n];
    assert s[0..4] + s[4..8] + [s[8]] + s[HEADER_SIZE..n] == s[0..4] + (length + [typ] + payload);
  }

  /** No strict prefix of an encoding decodes: a torn write is always noticed. */
  lemma StrictPrefixIsTorn(typ: byte, payload: seq<byte>, k: nat)
    requires |payload| <= MAX_PAYLOAD
    requires k < HEADER_SIZE + |payload|
    ensures Decode(Encode(typ, payload)[..k]) == if k == 0 then Eof else Torn
  {
    var s := Encode(typ, payload);
    if k >= HEADER_SIZE {
      EncodeFields(typ, payload, []);
      assert s + [] == s;
      assert s[..k][4..8] == s[4..8];
      U32RoundTrip(|payload|);
    }
  }

  /** Cutting bytes off the end either leaves the first record as it was or stops it decoding. */
  lemma DecodePrefix(s: seq<byte>, n: nat)
    requires n <= |s|
    ensures Decode(s[..n]).Rec? ==> Decode(s[..n]) == Decode(s)
    ensures Decode(s).Rec? && HEADER_SIZE + |Decode(s).payload| <= n ==> Decode(s[..n]) == Decode(s)
  {
    if n >= HEADER_SIZE {
      var t := s[..n];
      assert t[0..4] == s[0..4] && t[4..8] == s[4..8] && t[4..HEADER_SIZE] == s[4..HEADER_SIZE];
      var length := GetU32(s[4..8]);
      if HEADER_SIZE + length <= n {
        assert t[HEADER_SIZE..HEADER_SIZE + length] == s[HEADER_SIZE..HEADER_SIZE + length];
      }
    }
  }

  /** What is behind the first record does not matter to it. */
  lemma DecodeExtended(s: seq<byte>, x: seq<byte>)
    requires Decode(s).Rec?
    ensures Decode(s + x) == Decode(s)
    ensures var n := HEADER_SIZE + |Decode(s).payload|; n <= |s| && (s + x)[n..] == s[n..] + x
  {
    assert (s + x)[..|s|] == s;
    DecodePrefix(s + x, |s|);
  }

  function Splice(s: seq<byte>, at: nat, src: seq<byte>): (r: seq<byte>)
    requires at + |src| <= |s|
    ensures |r| == |s|
  {
    s[..at] + src + s[at + |src|..]
  }

  lemma FilledBuffer(s: seq<byte>, length: seq<byte>, typ: byte, payload: seq<byte>, crc: seq<byte>)
    requires |length| == |crc| == 4 && |s| >= HEADER_SIZE + |payload|
    ensures var n := HEADER_SIZE + |payload|;
      var t := Splice(Splice(s, 4, length)[8 := typ], HEADER_SIZE, payload);
      && t[4..n] == length + [typ] + payload
      && Splice(t, 0, crc)[..n] == crc + (length + [typ] + payload)
      && Splice(t, 0, crc)[n..] == s[n..]
  {
    var n := HEADER_SIZE + |payload|;
    var t := Splice(Splice(s, 4, length)[8 := typ], HEADER_SIZE, payload);
    assert t[4..n] == length + [typ] + payload;
    assert Splice(t, 0, crc)[..n] == crc + t[4..n];
    assert Splice(t, 0, crc)[n..] == t[n..];
    assert t[n..] == s[n..];
  }

  /** copy(dst[at:], src) */
  method CopyInto(dst: array<byte>, at: nat, src: seq<byte>)
    requires at + |src| <= dst.Length
    modifies dst
    ensures dst[..] == Splice(old(dst[..]), at, src)
  {
    forall i | 0 <= i < |src| { dst[at + i] := src[i]; }
  }

  /** encodeRecord fills a caller's buffer in place; on an error the buffer is untouched. */
  method EncodeRecord(dst: array<byte>, typ: byte, payload: seq<byte>) returns (r: Result<nat, EncodeError>)
    modifies dst
    ensures r == if |payload| > MAX_PAYLOAD then Err(PayloadTooBig)
                 else if dst.Length < HEADER_SIZE + |payload| then Err(ShortBuffer)
                 else Ok(HEADER_SIZE + |payload|)
    ensures r.Err? ==> dst[..] == old(dst[..])
    ensures r.Ok? ==> dst[..r.value] == Encode(typ, payload) && dst[r.value..] == old(dst[r.value..])
    ensures r.Err? <==> |payload| > 64 * 1024 * 1024 || dst.Length < 9 + |payload|
    ensures r.Ok? ==>
      && r.value == 9 + |payload|
      && dst[0..4] == PutU32(Crc32.Checksum(dst[4..r.value]))
      && dst[4..8] == PutU32(|payload|) && dst[8] == typ && dst[9..r.value] == payload
  {
    if |payload| > MAX_PAYLOAD {
      return Err(PayloadTooBig);
    }
    if dst.Length < HEADER_SIZE + |payload| {
      return Err(ShortBuffer);
    }
    var n := HEADER_SIZE + |payload|;
    var length := PutU32(|payload|);
    CopyInto(dst, 4, length);
    dst[8] := typ;
    CopyInto(dst, HEADER_SIZE, payload);
    FilledBuffer(old(dst[..]), length, typ, payload, length);
    assert dst[4..n] == dst[..][4..n];
    var crc := PutU32(Crc32.Checksum(dst[4..n]));
    CopyInto(dst, 0, crc);
    FilledBuffer(old(dst[..]), length, typ, payload, crc);
    assert dst[..n] == dst[..][..n] && dst[n..] == dst[..][n..] && old(dst[n..]) == old(dst[..])[n..];
    EncodeFields(typ, payload, dst[n..]);
    assert dst[..] == Encode(typ, payload) + dst[n..];
    assert dst[0..4] == dst[..][0..4] && dst[4..8] == dst[..][4..8] && dst[4..n] == dst[..][4..n];
    assert dst[9..n] == dst[..][9..n];
    return Ok(n);
  }

  datatype ReadError = EndOfFile | UnexpectedEof | IoError

  /** A file being read from front to back (io.Reader); when broken, reading past its data is an I/O error. */
  class ByteReader {
    const data: seq<byte>
    const broken: bool
    var pos: nat

    ghost predicate Valid()
      reads this
    {
      pos <= |data|
    }

    function Rest(): seq<byte>
      requires Valid()
      reads this
    {
      data[pos..]
    }

    constructor (data: seq<byte>, broken: bool)
      ensures Valid() && pos == 0 && this.data == data && this.broken == broken
    {
      this.data, this.broken := data, broken;
      pos := 0;
    }

    /** io.ReadFull: reads n bytes, or everything left when there are fewer. */
    method ReadFull(n: nat) returns (buf: seq<byte>, err: Option<ReadError>)
      requires Valid()
      modifies this
      ensures Valid()
      ensures buf == if n <= |old(Rest())| then old(Rest())[..n] else old(Rest())
      ensures err == if n <= |old(Rest())| then None
                     else if broken then Some(IoError)
                     else if old(Rest()) == [] then Some(EndOfFile)
                     else Some(UnexpectedEof)
      ensures pos == old(pos) + |buf|
    {
      var upTo := if pos + n <= |data| then pos + n else |data|;
      buf := data[pos..upTo];
      err := if |buf| == n then None
             else if broken then Some(IoError)
             else if |buf| == 0 then Some(EndOfFile)
             else Some(UnexpectedEof);
      pos := upTo;
    }

    /** decodeRecord feeds the CRC the header's tail and the payload in turn; after a record the reader stands at the
        byte behind it. */
    method DecodeRecord() returns (d: Decoded)
      requires Valid()
      modifies this
      ensures Valid()
      ensures d == DecodeFrom(old(Rest()), broken)
      ensures d.Rec? ==> pos == old(pos) + HEADER_SIZE + |d.payload|
    {
      ghost var s := Rest();
      var hdr, err := ReadFull(HEADER_SIZE);
      if err == Some(EndOfFile) {
        return Eof;
      }
      if err.Some? {
        return if |hdr| > 0 then Torn else Failed;
      }
      assert hdr == s[..HEADER_SIZE];
      assert hdr[0..4] == s[0..4] && hdr[4..8] == s[4..8] && hdr[4..] == s[4..HEADER_SIZE];
      var wantCRC := GetU32(hdr[0..4]);
      var length := GetU32(hdr[4..8]);
      if length > MAX_PAYLOAD {
        return Corrupt;
      }
      assert Rest() == s[HEADER_SIZE..];
      var payload;
      payload, err := ReadFull(length);
      if err.Some? {
        return if err.value.IoError? then Failed else Torn;
      }
      assert payload == s[HEADER_SIZE..HEADER_SIZE + length];
      var gotCRC := Crc32.Update(0, hdr[4..]);
      gotCRC := Crc32.Update(gotCRC, payload);
      Crc32.UpdateInPieces(hdr[4..], payload);
      if gotCRC != wantCRC {
        return Corrupt;
      }
      return Rec(hdr[8], payload);
    }
  }
}
