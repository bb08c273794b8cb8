/** Replay of one WAL segment file (internal/wal/wal.go, replayPath) on arbitrary bytes. */
module Wal {
  import opened Bytes
  import opened Types
  import opened WalRecord

  datatype Record = Record(lsn: nat, typ: byte, payload: seq<byte>)

  function Size(payload: seq<byte>): nat {
    HEADER_SIZE + |payload|
  }

  /** The records replay delivers from a file, the first one standing at offset off. */
  function Replay(s: seq<byte>, off: nat): (rs: seq<Record>)
    decreases |s|
  {
    var d := Decode(s);
    if d.Rec? then [Record(off, d.typ, d.payload)] + Replay(s[Size(d.payload)..], off + Size(d.payload))
    else []
  }

  /** The bytes replay does not get past. */
  function Leftover(s: seq<byte>): (rest: seq<byte>)
    ensures |rest| <= |s|
    decreases |s|
  {
    var d := Decode(s);
    if d.Rec? then Leftover(s[Size(d.payload)..]) else s
  }

  lemma ReplayStep(s: seq<byte>, off: nat)
    ensures var d := Decode(s);
      if d.Rec? then
        var rest := s[Size(d.payload)..];
        && Replay(s, off) == [Record(off, d.typ, d.payload)] + Replay(rest, off + Size(d.payload))
        && Leftover(s) == Leftover(rest)
      else
        Replay(s, off) == [] && Leftover(s) == s
  {
    hide Decode;
  }

  /** A segment ends at a record boundary when replay consumes all of it. */
  predicate AtBoundary(s: seq<byte>) {
    Leftover(s) == []
  }

  lemma EmptyReplay()
    ensures Decode([]) == Eof && Replay([], 0) == [] && AtBoundary([])
  {
  }

  ghost predicate Encodable(rs: seq<Record>) {
    forall r | r in rs :: |r.payload| <= MAX_PAYLOAD
  }

  function EncodeAll(rs: seq<Record>): seq<byte>
    requires Encodable(rs)
  {
    if rs == [] then [] else Encode(rs[0].typ, rs[0].payload) + EncodeAll(rs[1..])
  }

  /** Each record's LSN is the offset of its first byte. */
  ghost predicate NumberedFrom(rs: seq<Record>, off: nat)
    decreases |rs|
  {
    rs != [] ==> rs[0].lsn == off && NumberedFrom(rs[1..], off + Size(rs[0].payload))
  }

  lemma EncodeAllCons(r: Record, rs: seq<Record>, rest: seq<byte>)
    requires Encodable(rs) && |r.payload| <= MAX_PAYLOAD
    ensures Encodable([r] + rs)
    ensures EncodeAll([r] + rs) + rest == Encode(r.typ, r.payload) + (EncodeAll(rs) + rest)
    ensures NumberedFrom([r] + rs, r.lsn) == NumberedFrom(rs, r.lsn + Size(r.payload))
  {
    hide Encode;
    assert ([r] + rs)[1..] == rs;
  }

  /** On any byte string at all: what is delivered re-encodes to a prefix of the file, the rest does not
      start with a valid record, and LSNs are byte offsets. */
  lemma {:induction false} ReplayIsExact(s: seq<byte>, off: nat)
    ensures Encodable(Replay(s, off))
    ensures EncodeAll(Replay(s, off)) + Leftover(s) == s
    ensures !Decode(Leftover(s)).Rec?
    ensures NumberedFrom(Replay(s, off), off)
    decreases |s|
  {
    hide Decode, Encode, Replay, Leftover;
    ReplayStep(s, off);
    var d := Decode(s);
    if d.Rec? {
      EncodeAfterDecode(s);
      var rest := s[Size(d.payload)..];
      var rs := Replay(rest, off + Size(d.payload));
      ReplayIsExact(rest, off + Size(d.payload));
      assert Encode(d.typ, d.payload) + rest == s;
      EncodeAllCons(Record(off, d.typ, d.payload), rs, Leftover(s));
    }
  }

  /** Bytes added at the end change nothing before the leftover; what follows is replayed from there. */
  lemma {:induction false} ReplayAppend(s: seq<byte>, x: seq<byte>, off: nat)
    ensures Replay(s + x, off) == Replay(s, off) + Replay(Leftover(s) + x, off + |s| - |Leftover(s)|)
    ensures Leftover(s + x) == Leftover(Leftover(s) + x)
    decreases |s|
  {
    hide Decode, Encode, Replay, Leftover;
    ReplayStep(s, off);
    ReplayStep(s + x, off);
    var d := Decode(s);
    if d.Rec? {
      var n := Size(d.payload);
      DecodeExtended(s, x);
      ReplayAppend(s[n..], x, off + n);
    } else {
      assert Replay(s, off) == [];
    }
  }

  /** Cutting a file short loses a suffix of its records and nothing else. */
  lemma {:induction false} ReplayTruncated(s: seq<byte>, n: nat, off: nat)
    requires n <= |s|
    ensures Replay(s[..n], off) <= Replay(s, off)
    decreases |s|
  {
    hide Decode, Replay;
    DecodePrefix(s, n);
    ReplayStep(s, off);
    ReplayStep(s[..n], off);
    var d := Decode(s[..n]);
    if d.Rec? {
      var k := Size(d.payload);
      assert s[..n][k..] == s[k..][..n - k];
      ReplayTruncated(s[k..], n - k, off + k);
    }
  }

  lemma ReplayOne(typ: byte, payload: seq<byte>, off: nat)
    requires |payload| <= MAX_PAYLOAD
    ensures Replay(Encode(typ, payload), off) == [Record(off, typ, payload)]
    ensures AtBoundary(Encode(typ, payload))
  {
    var s := Encode(typ, payload);
    DecodeAfterEncode(typ, payload, []);
    assert s + [] == s;
    assert s[Size(payload)..] == [];
    assert Decode([]) == Eof;
  }

  lemma ReplayTornOne(typ: byte, payload: seq<byte>, k: nat, off: nat)
    requires |payload| <= MAX_PAYLOAD && k < Size(payload)
    ensures Replay(Encode(typ, payload)[..k], off) == []
    ensures Leftover(Encode(typ, payload)[..k]) == Encode(typ, payload)[..k]
  {
    StrictPrefixIsTorn(typ, payload, k);
  }

  /** A crash in the middle of an append: the concatenated records are delivered, the torn one is not. */
  lemma {:induction false} ReplayOfEncodings(rs: seq<Record>, typ: byte, payload: seq<byte>, k: nat, off: nat)
    requires Encodable(rs) && NumberedFrom(rs, off)
    requires |payload| <= MAX_PAYLOAD && k < Size(payload)
    ensures Replay(EncodeAll(rs) + Encode(typ, payload)[..k], off) == rs
    ensures Leftover(EncodeAll(rs) + Encode(typ, payload)[..k]) == Encode(typ, payload)[..k]
    decreases |rs|
  {
    hide Decode, Encode;
    var tail := Encode(typ, payload)[..k];
    if rs == [] {
      assert EncodeAll(rs) + tail == tail;
      ReplayTornOne(typ, payload, k, off);
    } else {
      var rest := EncodeAll(rs[1..]) + tail;
      assert EncodeAll(rs) + tail == Encode(rs[0].typ, rs[0].payload) + rest;
      DecodeAfterEncode(rs[0].typ, rs[0].payload, rest);
      assert (Encode(rs[0].typ, rs[0].payload) + rest)[Size(rs[0].payload)..] == rest;
      ReplayOfEncodings(rs[1..], typ, payload, k, off + Size(rs[0].payload));
    }
  }

  lemma ReplayAppendAtBoundary(s: seq<byte>, x: seq<byte>)
    requires AtBoundary(s)
    ensures Replay(s + x, 0) == Replay(s, 0) + Replay(x, |s|)
    ensures AtBoundary(s + x) == AtBoundary(x)
  {
    hide Decode, Replay, Leftover;
    ReplayAppend(s, x, 0);
    assert [] + x == x;
  }

  /** A successful append to a segment that ends at a record boundary is the next record replay delivers,
      under the LSN that Append returned (its offset, as long as the offset is the file's length). */
  lemma AppendedIsDelivered(s: seq<byte>, typ: byte, payload: seq<byte>)
    requires |payload| <= MAX_PAYLOAD && AtBoundary(s)
    ensures Replay(s + Encode(typ, payload), 0) == Replay(s, 0) + [Record(|s|, typ, payload)]
    ensures AtBoundary(s + Encode(typ, payload))
  {
    hide Decode, Encode, Replay, Leftover, AtBoundary;
    ReplayAppendAtBoundary(s, Encode(typ, payload));
    ReplayOne(typ, payload, |s|);
  }

  ghost predicate Delivers(rs: seq<Record>, typ: byte, payload: seq<byte>) {
    exists r :: r in rs && r.typ == typ && r.payload == payload
  }

  /** Replay cannot find a record longer than the bytes it is given. */
  lemma {:induction false} DeliveredFits(s: seq<byte>, off: nat, typ: byte, payload: seq<byte>)
    requires Delivers(Replay(s, off), typ, payload)
    ensures Size(payload) <= |s|
    decreases |s|
  {
    hide Decode, Replay;
    ReplayStep(s, off);
    var d := Decode(s);
    if !(d.typ == typ && d.payload == payload) {
      DeliveredFits(s[Size(d.payload)..], off + Size(d.payload), typ, payload);
    }
  }

  /** The bytes replay gave up on never become a record of their own. */
  lemma DecodePastLeftover(t: seq<byte>, x: seq<byte>)
    requires !Decode(t).Rec? && Decode(t + x).Rec?
    ensures Size(Decode(t + x).payload) > |t|
  {
    hide Decode;
    var n := Size(Decode(t + x).payload);
    if n <= |t| {
      assert (t + x)[..|t|] == t;
      DecodePrefix(t + x, |t|);
    }
  }

  lemma {:induction false} LeftoverIsStuck(s: seq<byte>)
    ensures !Decode(Leftover(s)).Rec?
    decreases |s|
  {
    hide Decode, Leftover;
    ReplayStep(s, 0);
    if Decode(s).Rec? {
      LeftoverIsStuck(s[Size(Decode(s).payload)..]);
    }
  }

  /**
   Exactly when an append that returned success is delivered by the next replay: its encoding must be what the
   old leftover followed by it starts with. At a record boundary the leftover is empty and this always holds.
   */
  lemma AppendDeliveredIff(s: seq<byte>, typ: byte, payload: seq<byte>)
    requires |payload| <= MAX_PAYLOAD
    ensures Replay(s, 0) <= Replay(s + Encode(typ, payload), 0)
    ensures Delivers(Replay(s + Encode(typ, payload), 0)[|Replay(s, 0)|..], typ, payload) <==>
            Encode(typ, payload) <= Leftover(s) + Encode(typ, payload)
    ensures AtBoundary(s) ==> Encode(typ, payload) <= Leftover(s) + Encode(typ, payload)
  {
    hide Decode, Encode, Replay, Leftover;
    var e, t := Encode(typ, payload), Leftover(s);
    var off := |s| - |t|;
    ReplayAppend(s, e, 0);
    LeftoverIsStuck(s);
    var rs := Replay(t + e, off);
    assert Replay(s + e, 0)[|Replay(s, 0)|..] == rs;
    ReplayStep(t + e, off);
    var d := Decode(t + e);
    if e <= t + e {
      DecodeAfterEncode(typ, payload, (t + e)[|e|..]);
      assert e + (t + e)[|e|..] == t + e;
      assert rs[0].typ == typ && rs[0].payload == payload;
    }
    if Delivers(rs, typ, payload) {
      EncodeAfterDecode(t + e);
      DecodePastLeftover(t, e);
      if !(d.typ == typ && d.payload == payload) {
        DeliveredFits((t + e)[Size(d.payload)..], off + Size(d.payload), typ, payload);
      }
    }
  }

  /** Header bytes 4..8 of an encoding behind one stray byte: the length field moves up a byte. */
  lemma ShiftedLength(torn: byte, typ: byte, payload: seq<byte>)
    requires 1 <= |payload| < 0x100_0000
    ensures GetU32(([torn] + Encode(typ, payload))[4..8]) >= 256 * |payload|
  {
    hide Encode, Decode;
    var e := Encode(typ, payload);
    var s := [torn] + e;
    EncodedLength(typ, payload);
    var n := PutU32(|payload|);
    U32RoundTrip(|payload|);
    assert e[4..8] == n;
    assert s[4..8] == [e[3]] + n[..3] by {
      assert s[5] == e[4] == e[4..8][0] && s[6] == e[5] == e[4..8][1] && s[7] == e[6] == e[4..8][2];
    }
    LowBytes(n, |payload|);
    assert ([e[3]] + n[..3])[1..] == n[..3];
  }

  /** A length below 2^24 has a zero top byte, so its three low bytes hold all of it. */
  lemma LowBytes(n: seq<byte>, v: nat)
    requires |n| == 4 && GetLE(n) == v && v < 0x100_0000
    ensures GetLE(n[..3]) == v
  {
    var a, b, c, d := n[0], n[1], n[2], n[3];
    assert n == [a, b, c, d] && n[..3] == [a, b, c];
    FourBytes(a, b, c, d);
    ThreeBytes(a, b, c);
  }

  lemma FourBytes(a: byte, b: byte, c: byte, d: byte)
    ensures GetLE([a, b, c, d]) == a + 256 * b + 0x1_0000 * c + 0x100_0000 * d
  {
    assert [a, b, c, d][1..] == [b, c, d];
    ThreeBytes(b, c, d);
  }

  lemma ThreeBytes(a: byte, b: byte, c: byte)
    ensures GetLE([a, b, c]) == a + 256 * b + 0x1_0000 * c
  {
    assert [a, b, c][1..] == [b, c] && [b, c][1..] == [c] && [c][1..] == [];
    assert GetLE([c]) == c;
    assert GetLE([b, c]) == b + 256 * c;
  }

  lemma EncodedLength(typ: byte, payload: seq<byte>)
    requires |payload| <= MAX_PAYLOAD
    ensures Encode(typ, payload)[4..8] == PutU32(|payload|)
  {
    EncodeFields(typ, payload, []);
    assert Encode(typ, payload) + [] == Encode(typ, payload);
  }

  lemma ShortIsNoRecord(s: seq<byte>)
    requires |s| >= HEADER_SIZE && HEADER_SIZE + GetU32(s[4..8]) > |s|
    ensures !Decode(s).Rec?
  {
  }

  /** A single torn byte is enough: the next append, of any payload from 1 byte to 16 MiB, adds nothing that
      replay can see. */
  lemma TornByteLosesNextAppend(s: seq<byte>, torn: byte, typ: byte, payload: seq<byte>)
    requires Leftover(s) == [torn]
    requires 1 <= |payload| < 0x100_0000
    ensures Replay(s + Encode(typ, payload), 0) == Replay(s, 0)
    ensures Leftover(s + Encode(typ, payload)) == [torn] + Encode(typ, payload)
  {
    hide Decode, Replay, Leftover, Encode, GetU32;
    var e := Encode(typ, payload);
    ReplayAppend(s, e, 0);
    ShiftedLength(torn, typ, payload);
    ShortIsNoRecord([torn] + e);
    ReplayStep([torn] + e, |s| - 1);
  }

  /** What opening and reading a segment file finds; broken: the bytes behind data cannot be read. */
  datatype FileRead = Missing | Unopenable | Contents(data: seq<byte>, broken: bool)

  datatype ReplayError = CannotOpen | CannotRead(offset: nat) | CallbackError

  /** A record as the callback gets it. */
  datatype Delivery = Delivery(segment: nat, record: Record)

  function Delivered(segment: nat, rs: seq<Record>): seq<Delivery> {
    seq(|rs|, i requires 0 <= i < |rs| => Delivery(segment, rs[i]))
  }

  /** An I/O error ends replay unless it strikes inside a record header, where it passes for a torn tail. */
  predicate Unreadable(data: seq<byte>, broken: bool) {
    DecodeFrom(Leftover(data), broken) == Failed
  }

  /**
   Of a file that cannot be read to its end replay says so exactly when the bytes end between two records or inside a
   payload; nine bytes of header are read at once, so an error among them goes unnoticed.
   */
  lemma UnreadableIff(data: seq<byte>, broken: bool)
    ensures var t := Leftover(data);
      Unreadable(data, broken) <==>
        broken && (t == [] || (|t| >= 9 && GetU32(t[4..8]) <= 64 * 1024 * 1024 && |t| < 9 + GetU32(t[4..8])))
  {
    hide GetU32;
    LeftoverIsStuck(data);
  }

  /** One more turn of the replay loop, offset bytes in. */
  lemma ReplayFrom(segment: nat, data: seq<byte>, offset: nat)
    requires offset <= |data|
    ensures var d, all := Decode(data[offset..]), Delivered(segment, Replay(data[offset..], offset));
      if !d.Rec? then all == [] && Leftover(data[offset..]) == data[offset..]
      else
        && offset + Size(d.payload) <= |data|
        && all == [Delivery(segment, Record(offset, d.typ, d.payload))]
                  + Delivered(segment, Replay(data[offset + Size(d.payload)..], offset + Size(d.payload)))
        && Leftover(data[offset..]) == Leftover(data[offset + Size(d.payload)..])
  {
    hide Decode, Replay, Leftover;
    var s := data[offset..];
    ReplayStep(s, offset);
    var d := Decode(s);
    if d.Rec? {
      assert s[Size(d.payload)..] == data[offset + Size(d.payload)..];
    }
  }

  /**
   replayPath over the file of a segment: out is what the callback was handed, in order; stops says after which
   deliveries it returns an error. A missing file is an empty log; the first callback error ends the replay.
   */
  method ReplayPath(segment: nat, file: FileRead, stops: seq<Delivery> -> bool)
    returns (out: seq<Delivery>, err: Option<ReplayError>)
    ensures !file.Contents? ==> out == [] && err == if file.Missing? then None else Some(CannotOpen)
    ensures file.Contents? ==>
      && out <= Delivered(segment, Replay(file.data, 0))
      && (forall k :: 0 < k < |out| ==> !stops(out[..k]))
      && (err == Some(CallbackError) <==> out != [] && stops(out))
      && (err != Some(CallbackError) ==>
            && out == Delivered(segment, Replay(file.data, 0))
            && err == if Unreadable(file.data, file.broken) then Some(CannotRead(|file.data| - |Leftover(file.data)|))
                      else None)
  {
    hide Decode, Replay, Leftover, Delivered;
    out := [];
    if !file.Contents? {
      return out, if file.Missing? then None else Some(CannotOpen);
    }
    var data := file.data;
    var r := new ByteReader(data, file.broken);
    var offset := 0;
    assert data[0..] == data;
    while true
      invariant r.Valid() && r.data == data && r.broken == file.broken && r.pos == offset
      invariant Delivered(segment, Replay(data, 0)) == out + Delivered(segment, Replay(data[offset..], offset))
      invariant Leftover(data) == Leftover(data[offset..])
      invariant forall k :: 0 < k <= |out| ==> !stops(out[..k])
      decreases |data| - offset
    {
      var d := r.DecodeRecord();
      ReplayFrom(segment, data, offset);
      assert out[..|out|] == out;
      if d.Eof? || d.Torn? || d.Corrupt? {
        return out, None;
      }
      if d.Failed? {
        return out, Some(CannotRead(offset));
      }
      ghost var before := out;
      out := out + [Delivery(segment, Record(offset, d.typ, d.payload))];
      assert forall k :: 0 < k < |out| ==> out[..k] == before[..k];
      assert out[..|out|] == out;
      if stops(out) {
        return out, Some(CallbackError);
      }
      offset := offset + Size(d.payload);
    }
  }

  datatype AppendError = CtxDone | Closed | TooBig | WriteFailed | SyncFailed

  /** What the operating system does with one write and the fsync behind it. */
  datatype IoOutcome = Done | PartialWrite(written: nat) | SyncError

  /** segmentWriter: appends to one open segment file. */
  class SegmentWriter {
    const id: nat
    var file: seq<byte>
    var offset: nat
    var buf: array<byte>
    var closed: bool

    /** openSegmentWriter: adopts the file as it is and seeks to its end. */
    constructor (id: nat, file: seq<byte>)
      ensures this.id == id && this.file == file && offset == |file| && !closed && fresh(buf)
    {
      this.id := id;
      this.file := file;
      offset := |file|;
      buf := new byte[HEADER_SIZE + 4096];
      closed := false;
    }

    /** Only a successful append moves the offset; a failed one may leave any prefix of the record behind. */
    method Append(ctxDone: bool, typ: byte, payload: seq<byte>, io: IoOutcome)
      returns (r: Result<nat, AppendError>)
      requires io.PartialWrite? ==> io.written < Size(payload)
      modifies this, buf
      ensures buf == old(buf) || fresh(buf)
      ensures closed == old(closed)
      ensures r == if ctxDone then Err(CtxDone)
                   else if old(closed) then Err(Closed)
                   else if |payload| > MAX_PAYLOAD then Err(TooBig)
                   else if io.PartialWrite? then Err(WriteFailed)
                   else if io.SyncError? then Err(SyncFailed)
                   else Ok(old(offset))
      ensures offset == if r.Ok? then old(offset) + Size(payload) else old(offset)
      ensures r.Ok? || r == Err(SyncFailed) ==>
        |payload| <= MAX_PAYLOAD && file == old(file) + Encode(typ, payload)
      ensures r == Err(WriteFailed) ==>
        |payload| <= MAX_PAYLOAD && file == old(file) + Encode(typ, payload)[..io.written]
      ensures r in {Err(CtxDone), Err(Closed), Err(TooBig)} ==> file == old(file)
    {
      if ctxDone {
        return Err(CtxDone);
      }
      if closed {
        return Err(Closed);
      }
      var need := Size(payload);
      if buf.Length < need {
        buf := new byte[need];
      }
      var n := EncodeRecord(buf, typ, payload);
      if n.Err? {
        return Err(TooBig);
      }
      match io {
        case PartialWrite(k) =>
          assert buf[..k] == buf[..need][..k];
          file := file + buf[..k];
          return Err(WriteFailed);
        case SyncError =>
          file := file + buf[..need];
          return Err(SyncFailed);
        case Done =>
          file := file + buf[..need];
          var lsn := offset;
          offset := offset + need;
          return Ok(lsn);
      }
    }

    method Close()
      modifies `closed
      ensures closed
    {
      closed := true;
    }
  }

  /** Appends that all succeed keep the offset equal to the file length, and each LSN handed out is the LSN
      replay reports for that record. */
  method AppendAll(w: SegmentWriter, typ: byte, payloads: seq<seq<byte>>) returns (lsns: seq<nat>)
    requires !w.closed && w.offset == |w.file| && AtBoundary(w.file)
    requires forall p | p in payloads :: |p| <= MAX_PAYLOAD
    modifies w, w.buf
    ensures |lsns| == |payloads|
    ensures w.offset == |w.file| && AtBoundary(w.file)
    ensures Replay(w.file, 0) ==
            Replay(old(w.file), 0) + seq(|payloads|, i requires 0 <= i < |payloads| => Record(lsns[i], typ, payloads[i]))
  {
    hide Decode, Encode, Replay, Leftover;
    lsns := [];
    ghost var rs := [];
    for i := 0 to |payloads|
      invariant |lsns| == |rs| == i
      invariant !w.closed && w.offset == |w.file| && AtBoundary(w.file)
      invariant w.buf == old(w.buf) || fresh(w.buf)
      invariant forall k | 0 <= k < i :: rs[k] == Record(lsns[k], typ, payloads[k])
      invariant Replay(w.file, 0) == Replay(old(w.file), 0) + rs
    {
      ghost var before := w.file;
      var r := w.Append(false, typ, payloads[i], Done);
      AppendedIsDelivered(before, typ, payloads[i]);
      lsns := lsns + [r.value];
      rs := rs + [Record(r.value, typ, payloads[i])];
    }
    assert rs == seq(|payloads|, i requires 0 <= i < |payloads| => Record(lsns[i], typ, payloads[i]));
  }
}
