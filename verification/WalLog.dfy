/** The engine's framing of a WAL payload (internal/engine/codec.go) and the log of entries a segment holds. */
module WalLog {
  import opened Bytes
  import opened Types
  import opened WalRecord
  import opened Wal
  import Crc32

  const DOC_ID_SIZE := 8
  const RECORD_PUT: byte := 1

  function EncodePayload(id: DocID, recordBytes: seq<byte>): seq<byte> {
    PutU64(id) + recordBytes
  }

  /** encodeWALPayload fills a fresh buffer. */
  method EncodeWALPayload(id: DocID, recordBytes: seq<byte>) returns (out: array<byte>)
    ensures fresh(out) && out[..] == EncodePayload(id, recordBytes)
    ensures out.Length == 8 + |recordBytes| && out[..8] == PutU64(id) && out[8..] == recordBytes
  {
    hide PutU64;
    out := new byte[DOC_ID_SIZE + |recordBytes|];
    CopyInto(out, 0, PutU64(id));
    CopyInto(out, DOC_ID_SIZE, recordBytes);
    assert out[..] == EncodePayload(id, recordBytes);
  }

  function DecodePayload(b: seq<byte>): Option<(DocID, seq<byte>)> {
    if |b| < DOC_ID_SIZE then None else Some((GetU64(b[0..DOC_ID_SIZE]), b[DOC_ID_SIZE..]))
  }

  lemma PayloadRoundTrip(id: DocID, recordBytes: seq<byte>)
    ensures DecodePayload(EncodePayload(id, recordBytes)) == Some((id, recordBytes))
  {
    var b := EncodePayload(id, recordBytes);
    U64RoundTrip(id);
    assert b[0..DOC_ID_SIZE] == PutU64(id);
    assert b[DOC_ID_SIZE..] == recordBytes;
  }

  function Payload(c: Codec, e: Entry): seq<byte> {
    EncodePayload(e.id, c.marshal(e.rec))
  }

  predicate Fits(c: Codec, e: Entry) {
    |Payload(c, e)| <= MAX_PAYLOAD
  }

  /** The bytes one Write appends. */
  function Frame(c: Codec, e: Entry): seq<byte>
    requires Fits(c, e)
  {
    Encode(RECORD_PUT, Payload(c, e))
  }

  /** The bytes of a frame: checksum and size, type 1, the DocID, the record. */
  lemma FrameIs(c: Codec, e: Entry)
    requires Fits(c, e)
    ensures var f, record := Frame(c, e), c.marshal(e.rec);
      && |f| == 17 + |record| && f[0..4] == PutU32(Crc32.Checksum(f[4..])) && f[4..8] == PutU32(8 + |record|)
      && f[8] == 1 && f[9..17] == PutU64(e.id) && f[17..] == record
  {
    hide PutU32, PutU64, Crc32.Checksum;
    var f, p := Frame(c, e), Payload(c, e);
    EncodeFields(RECORD_PUT, p, []);
    assert f + [] == f;
    assert f[4..] == Covered(RECORD_PUT, p);
    assert f[9..] == p && f[9..17] == p[..8] && f[17..] == p[8..];
  }

  function DecodeEntry(c: Codec, payload: seq<byte>): Option<Entry> {
    match DecodePayload(payload)
    case None => None
    case Some((id, recordBytes)) =>
      match c.unmarshal(recordBytes)
      case None => None
      case Some(rec) => Some(Entry(id, rec))
  }

  lemma DecodeEntryOfPayload(c: Codec, e: Entry)
    requires Invertible(c)
    ensures DecodeEntry(c, Payload(c, e)) == Some(e)
  {
    PayloadRoundTrip(e.id, c.marshal(e.rec));
  }

  function Entries(c: Codec, rs: seq<Record>): seq<Entry> {
    if rs == [] then []
    else (match DecodeEntry(c, rs[0].payload) case Some(e) => [e] case None => []) + Entries(c, rs[1..])
  }

  /** The entries of a segment file, in file order. */
  function Log(c: Codec, s: seq<byte>): seq<Entry> {
    Entries(c, Replay(s, 0))
  }

  /** Every record replay delivers carries a well-formed entry. */
  ghost predicate Framed(c: Codec, rs: seq<Record>) {
    forall r | r in rs :: DecodeEntry(c, r.payload).Some?
  }

  ghost predicate WellFramed(c: Codec, s: seq<byte>) {
    Framed(c, Replay(s, 0))
  }

  lemma {:induction false} EntriesConcat(c: Codec, a: seq<Record>, b: seq<Record>)
    ensures Entries(c, a + b) == Entries(c, a) + Entries(c, b)
    decreases |a|
  {
    hide DecodeEntry;
    if a == [] {
      assert a + b == b;
    } else {
      assert (a + b)[1..] == a[1..] + b;
      EntriesConcat(c, a[1..], b);
    }
  }

  /** The entries do not depend on the offset replay counts from. */
  lemma {:induction false} EntriesAnyOffset(c: Codec, s: seq<byte>, off: nat, off': nat)
    ensures Entries(c, Replay(s, off)) == Entries(c, Replay(s, off'))
    ensures Framed(c, Replay(s, off)) == Framed(c, Replay(s, off'))
    decreases |s|
  {
    hide DecodeEntry, Decode, Replay;
    ReplayStep(s, off);
    ReplayStep(s, off');
    var d := Decode(s);
    if d.Rec? {
      var rest, n := s[Size(d.payload)..], Size(d.payload);
      EntriesAnyOffset(c, rest, off + n, off' + n);
      EntriesConcat(c, [Record(off, d.typ, d.payload)], Replay(rest, off + n));
      EntriesConcat(c, [Record(off', d.typ, d.payload)], Replay(rest, off' + n));
    }
  }

  /** Appending any bytes x adds exactly the entries found from the old leftover onwards. */
  lemma LogAppend(c: Codec, s: seq<byte>, x: seq<byte>)
    ensures Log(c, s + x) == Log(c, s) + Log(c, Leftover(s) + x)
    ensures WellFramed(c, s + x) == (WellFramed(c, s) && WellFramed(c, Leftover(s) + x))
  {
    hide DecodeEntry, Decode, Replay, Leftover;
    var off := |s| - |Leftover(s)|;
    ReplayAppend(s, x, 0);
    EntriesConcat(c, Replay(s, 0), Replay(Leftover(s) + x, off));
    EntriesAnyOffset(c, Leftover(s) + x, off, 0);
  }

  lemma LogOfFrame(c: Codec, e: Entry)
    requires Invertible(c) && Fits(c, e)
    ensures Log(c, Frame(c, e)) == [e] && WellFramed(c, Frame(c, e)) && AtBoundary(Frame(c, e))
  {
    hide DecodeEntry, Decode, Replay, Leftover, Encode, Payload;
    ReplayOne(RECORD_PUT, Payload(c, e), 0);
    DecodeEntryOfPayload(c, e);
    var r := Record(0, RECORD_PUT, Payload(c, e));
    assert [r][1..] == [];
    assert Entries(c, [r]) == [e] + Entries(c, [r][1..]);
  }

  lemma LogOfTornFrame(c: Codec, e: Entry, k: nat)
    requires Fits(c, e) && k < |Frame(c, e)|
    ensures Log(c, Frame(c, e)[..k]) == [] && WellFramed(c, Frame(c, e)[..k])
    ensures Leftover(Frame(c, e)[..k]) == Frame(c, e)[..k]
  {
    hide DecodeEntry, Decode, Replay, Leftover, Encode, Payload;
    ReplayTornOne(RECORD_PUT, Payload(c, e), k, 0);
    assert Frame(c, e)[..k] == Encode(RECORD_PUT, Payload(c, e))[..k];
    assert Replay(Frame(c, e)[..k], 0) == [];
  }

  /** What a write of the first k bytes of a frame does to a segment that ends at a record boundary. */
  lemma LogAfterWrite(c: Codec, s: seq<byte>, e: Entry, k: nat)
    requires Invertible(c) && Fits(c, e) && AtBoundary(s) && k <= |Frame(c, e)|
    ensures var t := s + Frame(c, e)[..k];
      && Log(c, t) == (if k == |Frame(c, e)| then Log(c, s) + [e] else Log(c, s))
      && (WellFramed(c, s) ==> WellFramed(c, t))
      && (AtBoundary(t) <==> k == 0 || k == |Frame(c, e)|)
  {
    hide DecodeEntry, Decode, Replay, Leftover, Encode, Payload, Frame;
    var x := Frame(c, e)[..k];
    LogAppend(c, s, x);
    ReplayAppend(s, x, 0);
    assert [] + x == x;
    if k == |Frame(c, e)| {
      assert x == Frame(c, e);
      LogOfFrame(c, e);
    } else {
      LogOfTornFrame(c, e, k);
    }
  }

  /** Behind the leftover t, replay of t + frame finds the frame or nothing: no checksum matches by accident. */
  ghost predicate NoStrayRecord(t: seq<byte>, frame: seq<byte>) {
    && (Decode(t + frame).Rec? ==> frame <= t + frame)
    && (frame <= t + frame ==> !Decode((t + frame)[|frame|..]).Rec?)
  }

  /** What a whole frame adds behind a leftover t: its entry exactly when t and the frame together start with it. */
  lemma FrameBehind(c: Codec, t: seq<byte>, e: Entry)
    requires Invertible(c) && Fits(c, e) && NoStrayRecord(t, Frame(c, e))
    ensures Log(c, t + Frame(c, e)) == if Frame(c, e) <= t + Frame(c, e) then [e] else []
    ensures WellFramed(c, t + Frame(c, e))
  {
    hide DecodeEntry, Decode, Replay, Leftover, Encode, Payload, Frame;
    var f := Frame(c, e);
    ReplayStep(t + f, 0);
    if f <= t + f {
      var rest := (t + f)[|f|..];
      assert f + rest == t + f && [] + rest == rest;
      LogOfFrame(c, e);
      LogAppend(c, f, rest);
      ReplayStep(rest, 0);
    }
  }

  lemma LogBehindLeftover(c: Codec, s: seq<byte>, e: Entry)
    requires Invertible(c) && Fits(c, e) && NoStrayRecord(Leftover(s), Frame(c, e))
    ensures Log(c, s + Frame(c, e)) == Log(c, s) + if Frame(c, e) <= Leftover(s) + Frame(c, e) then [e] else []
    ensures WellFramed(c, s + Frame(c, e)) == WellFramed(c, s)
  {
    hide Log, WellFramed, Leftover, Frame, Fits, NoStrayRecord;
    LogAppend(c, s, Frame(c, e));
    FrameBehind(c, Leftover(s), e);
  }

  /** At a record boundary there is nothing to be stray. */
  lemma NothingStrayAtBoundary(frame: seq<byte>)
    ensures NoStrayRecord([], frame) && frame <= [] + frame
  {
    assert [] + frame == frame && frame[|frame|..] == [];
    EmptyReplay();
  }

  lemma {:induction false} EntriesPrefix(c: Codec, a: seq<Record>, b: seq<Record>)
    requires a <= b
    ensures Entries(c, a) <= Entries(c, b)
  {
    hide DecodeEntry;
    EntriesConcat(c, a, b[|a|..]);
    assert a + b[|a|..] == b;
  }

  /** Losing the end of a file loses a suffix of its log. */
  lemma LogTruncated(c: Codec, s: seq<byte>, n: nat)
    requires n <= |s|
    ensures Log(c, s[..n]) <= Log(c, s)
    ensures WellFramed(c, s) ==> WellFramed(c, s[..n])
  {
    hide DecodeEntry, Decode, Replay;
    ReplayTruncated(s, n, 0);
    EntriesPrefix(c, Replay(s[..n], 0), Replay(s, 0));
  }
}
