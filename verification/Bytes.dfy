/** Bytes, Go's fixed-width integers and the little-endian layout every DistLog format uses (ADR-001). */
module Bytes {

  type byte = x: int | 0 <= x < 256
  type uint32 = x: int | 0 <= x < 0x1_0000_0000
  type uint64 = x: int | 0 <= x < 0x1_0000_0000_0000_0000
  type int64 = x: int | -0x8000_0000_0000_0000 <= x < 0x8000_0000_0000_0000

  const U32 := 0x1_0000_0000
  const U64 := 0x1_0000_0000_0000_0000
  const I63 := 0x8000_0000_0000_0000

  /** Go's conversion uint64(x) of an int64: two's complement. */
  function ToU64(x: int64): uint64 {
    if x < 0 then x + U64 else x
  }

  /** Go's conversion int64(x) of a uint64. */
  function ToI64(x: uint64): int64 {
    if x >= I63 then x - U64 else x
  }

  function Pow256(w: nat): (p: nat)
    ensures p > 0
  {
    if w == 0 then 1 else 256 * Pow256(w - 1)
  }

  /** The w low bytes of n, least significant first. */
  function PutLE(n: nat, w: nat): (s: seq<byte>)
    ensures |s| == w
    decreases w, n
  {
    if w == 0 then [] else [n % 256] + PutLE(n / 256, w - 1)
  }

  function GetLE(s: seq<byte>): (n: nat)
    ensures n < Pow256(|s|)
  {
    if s == [] then 0 else s[0] + 256 * GetLE(s[1..])
  }

  lemma {:induction false} GetAfterPut(n: nat, w: nat)
    requires n < Pow256(w)
    ensures GetLE(PutLE(n, w)) == n
    decreases w
  {
    if w > 0 {
      assert PutLE(n, w)[1..] == PutLE(n / 256, w - 1);
      GetAfterPut(n / 256, w - 1);
    }
  }

  lemma {:induction false} PutAfterGet(s: seq<byte>)
    ensures PutLE(GetLE(s), |s|) == s
  {
    if s != [] {
      PutAfterGet(s[1..]);
      assert GetLE(s) % 256 == s[0] && GetLE(s) / 256 == GetLE(s[1..]);
    }
  }

  lemma Pow256Values()
    ensures Pow256(4) == U32
    ensures Pow256(8) == U64
  {
    assert Pow256(1) == 256;
    assert Pow256(2) == 0x1_0000;
    assert Pow256(3) == 0x100_0000;
    assert Pow256(4) == U32;
    assert Pow256(5) == 0x100_0000_0000;
    assert Pow256(6) == 0x1_0000_0000_0000;
    assert Pow256(7) == 0x100_0000_0000_0000;
  }

  function PutU32(v: uint32): (s: seq<byte>)
    ensures |s| == 4
  {
    PutLE(v, 4)
  }

  function GetU32(s: seq<byte>): (v: uint32)
    requires |s| == 4
  {
    Pow256Values();
    GetLE(s)
  }

  function PutU64(v: uint64): (s: seq<byte>)
    ensures |s| == 8
  {
    PutLE(v, 8)
  }

  function GetU64(s: seq<byte>): (v: uint64)
    requires |s| == 8
  {
    Pow256Values();
    GetLE(s)
  }

  /** The bytes themselves, least significant first. */
  lemma LittleEndian32(v: uint32)
    ensures PutU32(v) == [v % 0x100, v / 0x100 % 0x100, v / 0x1_0000 % 0x100, v / 0x100_0000]
  {
    hide PutLE;
    OneMore(v, 3);
    OneMore(v / 0x100, 2);
    OneMore(v / 0x1_0000, 1);
    OneMore(v / 0x100_0000, 0);
  }

  lemma LittleEndian64(v: uint64)
    ensures PutU64(v) ==
      [v % 0x100, v / 0x100 % 0x100, v / 0x1_0000 % 0x100, v / 0x100_0000 % 0x100]
      + PutU32(v / 0x1_0000_0000)
  {
    hide PutLE;
    OneMore(v, 7);
    OneMore(v / 0x100, 6);
    OneMore(v / 0x1_0000, 5);
    OneMore(v / 0x100_0000, 4);
  }

  lemma OneMore(n: nat, w: nat)
    ensures PutLE(n, w + 1) == [n % 0x100] + PutLE(n / 0x100, w)
  {
  }

  /** Go converts a negative int64 to its two's complement. */
  lemma TwosComplement(x: int64)
    ensures ToU64(x) == x % U64
  {
  }

  lemma U32RoundTrip(v: uint32)
    ensures GetU32(PutU32(v)) == v
  {
    Pow256Values();
    GetAfterPut(v, 4);
  }

  lemma U64RoundTrip(v: uint64)
    ensures GetU64(PutU64(v)) == v
  {
    Pow256Values();
    GetAfterPut(v, 8);
  }

  lemma U64Reencode(s: seq<byte>)
    requires |s| == 8
    ensures PutU64(GetU64(s)) == s
  {
    PutAfterGet(s);
  }

  lemma U32Reencode(s: seq<byte>)
    requires |s| == 4
    ensures PutU32(GetU32(s)) == s
  {
    PutAfterGet(s);
  }
}

/**
 The IEEE CRC-32 (section 8 of RFC 1952): a byte fold between a pre- and a post-inversion.
 Words are natural numbers below 2^32, so that the solver never meets a bit-vector.
 */
module Crc32 {
  import opened Bytes

  const POLY: uint32 := 0xEDB8_8320
  const ONES: uint32 := 0xFFFF_FFFF

  function Pow2(w: nat): (p: nat)
    ensures p > 0
  {
    if w == 0 then 1 else 2 * Pow2(w - 1)
  }

  lemma Pow2Of8()
    ensures Pow2(8) == 256
  {
  }

  lemma Pow2Of24()
    ensures Pow2(24) == 0x100_0000
  {
    assert Pow2(8) == 256;
    assert Pow2(16) == 0x1_0000;
  }

  /** Exclusive or of the w low bits of a and b. */
  function XorBits(a: nat, b: nat, w: nat): (r: nat)
    ensures r < Pow2(w)
    decreases w, a, b
  {
    if w == 0 then 0
    else (if a % 2 != b % 2 then 1 else 0) + 2 * XorBits(a / 2, b / 2, w - 1)
  }

  lemma Pow2Of32()
    ensures Pow2(32) == U32
  {
    assert Pow2(4) == 16;
    assert Pow2(8) == 256;
    assert Pow2(12) == 0x1000;
    assert Pow2(16) == 0x1_0000;
    assert Pow2(20) == 0x10_0000;
    assert Pow2(24) == 0x100_0000;
    assert Pow2(28) == 0x1000_0000;
  }

  function Xor(a: uint32, b: uint32): uint32 {
    Pow2Of32();
    XorBits(a, b, 32)
  }

  function Not(a: uint32): uint32 {
    ONES - a
  }

  /** n single-bit steps of the table construction. */
  function ShiftBits(c: uint32, n: nat): uint32
    decreases n, c
  {
    if n == 0 then c
    else ShiftBits(if c % 2 == 1 then Xor(c / 2, POLY) else c / 2, n - 1)
  }

  function TableEntry(i: byte): uint32 {
    ShiftBits(i, 8)
  }

  function Step(c: uint32, b: byte): uint32 {
    Xor(TableEntry(Xor(c, b) % 256), c / 256)
  }

  function Fold(c: uint32, s: seq<byte>): uint32
    decreases |s|
  {
    if s == [] then c else Fold(Step(c, s[0]), s[1..])
  }

  function Update(c: uint32, s: seq<byte>): uint32 {
    Not(Fold(Not(c), s))
  }

  function Checksum(s: seq<byte>): uint32 {
    Update(0, s)
  }

  lemma {:induction false} FoldConcat(c: uint32, a: seq<byte>, b: seq<byte>)
    ensures Fold(c, a + b) == Fold(Fold(c, a), b)
    decreases |a|
  {
    if a == [] {
      assert a + b == b;
    } else {
      assert (a + b)[1..] == a[1..] + b;
      FoldConcat(Step(c, a[0]), a[1..], b);
    }
  }

  /** Decoding feeds the header tail and the payload in two pieces; encoding checksums them in one. */
  lemma UpdateInPieces(a: seq<byte>, b: seq<byte>)
    ensures Update(Update(0, a), b) == Checksum(a + b)
  {
    FoldConcat(Not(0), a, b);
  }
}
