/** The CRC-32 as polynomial division over GF(2): coefficients from the highest power down, each a bit. */
module CrcPolynomial {
  import opened Bytes
  import opened Crc32

  /** The powers of x in the generator of IEEE 802.3. */
  predicate InGenerator(e: nat) {
    e in {32, 26, 23, 22, 16, 12, 11, 10, 8, 7, 5, 4, 2, 1, 0}
  }

  function Generator(): (g: seq<bool>)
    ensures |g| == 33
  {
    seq(33, i requires 0 <= i < 33 => InGenerator(32 - i))
  }

  /** The sum of p and q, their highest coefficients aligned. */
  function Plus(p: seq<bool>, q: seq<bool>): (r: seq<bool>)
    requires |q| <= |p|
    ensures |r| == |p|
  {
    seq(|p|, i requires 0 <= i < |p| => if i < |q| then p[i] != q[i] else p[i])
  }

  /** Long division by the generator: what is left below x^32. */
  function Remainder(p: seq<bool>): seq<bool>
    decreases |p|
  {
    if |p| <= 32 then p
    else if p[0] then Remainder(Plus(p, Generator())[1..])
    else Remainder(p[1..])
  }

  /** The w low bits of n, lowest first. */
  function Bits(n: nat, w: nat): (r: seq<bool>)
    ensures |r| == w
    decreases w
  {
    if w == 0 then [] else [n % 2 == 1] + Bits(n / 2, w - 1)
  }

  /** Every byte enters the division lowest bit first. */
  function Coefficients(s: seq<byte>): (r: seq<bool>)
    ensures |r| == 8 * |s|
    decreases |s|
  {
    if s == [] then [] else Bits(s[0], 8) + Coefficients(s[1..])
  }

  function Zeros(n: nat): (r: seq<bool>)
    ensures |r| == n
  {
    seq(n, _ => false)
  }

  // ---- bits -------------------------------------------------------------------------------------

  lemma {:induction false} BitsOfXor(a: nat, b: nat, w: nat)
    ensures Bits(XorBits(a, b, w), w) == Plus(Bits(a, w), Bits(b, w))
    decreases w
  {
    hide Pow2;
    if w > 0 {
      BitsOfXor(a / 2, b / 2, w - 1);
    }
  }

  lemma {:induction false} BitsOfZero(w: nat)
    ensures Bits(0, w) == Zeros(w)
    decreases w
  {
    if w > 0 {
      BitsOfZero(w - 1);
    }
  }

  lemma {:induction false} BitsOfSmall(n: nat, v: nat, w: nat)
    requires n < Pow2(v) && v <= w
    ensures Bits(n, w) == Bits(n, v) + Zeros(w - v)
    decreases v
  {
    if v > 0 {
      BitsOfSmall(n / 2, v - 1, w - 1);
    } else {
      BitsOfZero(w);
    }
  }

  /** Halving drops the lowest bit and shifts a zero in. */
  lemma BitsOfHalf(n: uint32)
    ensures Bits(n / 2, 32) == Bits(n, 32)[1..] + [false]
  {
    hide Bits, Pow2;
    HalfIsSmall(n);
    BitsOfSmall(n / 2, 31, 32);
    BitsCons(n, 31);
  }

  lemma HalfIsSmall(n: uint32)
    ensures n / 2 < Pow2(31)
  {
    Pow2Of32();
  }

  lemma BitsCons(n: nat, w: nat)
    ensures Bits(n, w + 1) == [n % 2 == 1] + Bits(n / 2, w)
  {
  }

  function Shifted(n: nat, v: nat): nat
    decreases v
  {
    if v == 0 then n else Shifted(n / 2, v - 1)
  }

  lemma {:induction false} BitsSplit(n: nat, v: nat, w: nat)
    ensures Bits(n, v + w) == Bits(n, v) + Bits(Shifted(n, v), w)
    decreases v
  {
    if v > 0 {
      BitsSplit(n / 2, v - 1, w);
    }
  }

  lemma ShiftedBy(n: nat)
    ensures Shifted(n, 4) == n / 16 && Shifted(n, 8) == n / 256
  {
    assert Shifted(n / 16, 4) == n / 256;
  }

  lemma FourBits(n: nat, w: nat)
    ensures Bits(n, w + 4) == Bits(n, 4) + Bits(n / 16, w)
  {
    hide Bits, Shifted;
    BitsSplit(n, 4, w);
    ShiftedBy(n);
  }

  lemma BitsOfPoly()
    ensures Bits(POLY, 32) == Generator()[1..]
  {
    hide Bits, Generator;
    PolyLow();
    PolyHigh();
    NoBits();
    GeneratorIs();
    FourBits(0xEDB8_8320, 28);
    FourBits(0xEDB_8832, 24);
    FourBits(0xED_B883, 20);
    FourBits(0xE_DB88, 16);
    FourBits(0xEDB8, 12);
    FourBits(0xEDB, 8);
    FourBits(0xED, 4);
  }

  lemma NoBits()
    ensures Bits(0, 0) == []
  {
  }

  lemma GeneratorIs()
    ensures Generator()[1..] ==
      [false, false, false, false, false, true, false, false] +
      [true, true, false, false, false, false, false, true] +
      [false, false, false, true, true, true, false, true] +
      [true, false, true, true, false, true, true, true]
  {
  }

  lemma PolyLow()
    ensures Bits(0xEDB8_8320, 4) == [false, false, false, false]
    ensures Bits(0xEDB_8832, 4) == [false, true, false, false]
    ensures Bits(0xED_B883, 4) == [true, true, false, false]
    ensures Bits(0xE_DB88, 4) == [false, false, false, true]
  {
  }

  lemma PolyHigh()
    ensures Bits(0xEDB8, 4) == [false, false, false, true]
    ensures Bits(0xEDB, 4) == [true, true, false, true]
    ensures Bits(0xED, 4) == [true, false, true, true]
    ensures Bits(0xE, 4) == [false, true, true, true]
  {
  }

  // ---- the division and the fold ----------------------------------------------------------------

  lemma PlusTwice(p: seq<bool>, q: seq<bool>, r: seq<bool>)
    requires |r| == |q| <= |p|
    ensures Plus(Plus(p, q), r) == Plus(p, Plus(q, r))
  {
  }

  function OneShift(x: uint32): uint32 {
    if x % 2 == 1 then Xor(x / 2, POLY) else x / 2
  }

  lemma BitsXor(a: uint32, b: uint32)
    ensures Bits(Xor(a, b), 32) == Plus(Bits(a, 32), Bits(b, 32))
  {
    BitsOfXor(a, b, 32);
  }

  /** One step of the division is one single-bit step of the table construction. */
  lemma DivideOnce(x: uint32, rest: seq<bool>)
    requires |rest| >= 32
    ensures Remainder(Plus([false] + rest, Bits(x, 32))) == Remainder(Plus(rest, Bits(OneShift(x), 32)))
  {
    hide Xor, Generator, Bits;
    var p := Plus([false] + rest, Bits(x, 32));
    BitsCons(x, 31);
    BitsOfHalf(x);
    assert p[1..] == Plus(rest, Bits(x / 2, 32));
    if x % 2 == 1 {
      BitsOfPoly();
      BitsXor(x / 2, POLY);
      PlusTwice(rest, Bits(x / 2, 32), Bits(POLY, 32));
      assert Plus(p, Generator())[1..] == Plus(p[1..], Generator()[1..]);
    }
  }

  lemma {:induction false} Divide(x: uint32, n: nat, rest: seq<bool>)
    requires |rest| >= 32
    ensures Remainder(Plus(Zeros(n) + rest, Bits(x, 32))) == Remainder(Plus(rest, Bits(ShiftBits(x, n), 32)))
    decreases n
  {
    hide Remainder, Plus, Bits, Xor;
    if n > 0 {
      assert Zeros(n) + rest == [false] + (Zeros(n - 1) + rest);
      DivideOnce(x, Zeros(n - 1) + rest);
      Divide(OneShift(x), n - 1, rest);
    } else {
      assert Zeros(0) + rest == rest;
    }
  }

  function Doubled(n: nat, w: nat): nat
    decreases w
  {
    if w == 0 then n else 2 * Doubled(n, w - 1)
  }

  lemma {:induction false} HighDoesNotMatter(a: nat, k: nat, w: nat)
    ensures Bits(a + Doubled(k, w), w) == Bits(a, w)
    decreases w
  {
    if w > 0 {
      assert (a + Doubled(k, w)) / 2 == a / 2 + Doubled(k, w - 1);
      HighDoesNotMatter(a / 2, k, w - 1);
    }
  }

  lemma LowByte(n: nat)
    ensures Bits(n % 256, 8) == Bits(n, 8) && Bits(n % 256, 32) == Bits(n, 8) + Zeros(24)
  {
    hide Bits;
    assert Doubled(n / 256, 8) == 256 * (n / 256) by { Doubled8(n / 256); }
    HighDoesNotMatter(n % 256, n / 256, 8);
    Pow2Of8();
    BitsOfSmall(n % 256, 8, 32);
  }

  lemma Doubled8(n: nat)
    ensures Doubled(n, 8) == 256 * n
  {
  }

  lemma HighBytes(n: uint32)
    ensures Bits(n, 32) == Bits(n, 8) + Bits(n / 256, 24)
    ensures Bits(n / 256, 32) == Bits(n / 256, 24) + Zeros(8)
  {
    hide Bits, Shifted;
    BitsSplit(n, 8, 24);
    ShiftedBy(n);
    assert n / 256 < Pow2(24) by { Pow2Of24(); }
    BitsOfSmall(n / 256, 24, 32);
  }

  /** A byte joins the dividend at the low end of the register; the rest of the register waits for later bits. */
  lemma ByteJoins(c: uint32, b: byte, rest: seq<bool>)
    requires |rest| >= 32
    ensures Plus(Bits(b, 8) + rest, Bits(c, 32))
            == Plus(Zeros(8) + Plus(rest, Bits(c / 256, 32)), Bits(Xor(c, b) % 256, 32))
  {
    hide Bits, Xor;
    LowByte(Xor(c, b));
    LowByte(b);
    HighBytes(c);
    BitsXor(c, b);
    HighBytes(Xor(c, b));
    assert Bits(Xor(c, b), 8) == Bits(Xor(c, b), 32)[..8];
  }

  lemma DivideByte(c: uint32, b: byte, rest: seq<bool>)
    requires |rest| >= 32
    ensures Remainder(Plus(Bits(b, 8) + rest, Bits(c, 32))) == Remainder(Plus(rest, Bits(Step(c, b), 32)))
  {
    hide Remainder, Plus, Bits, Xor, ShiftBits;
    var i := Xor(c, b) % 256;
    ByteJoins(c, b, rest);
    Divide(i, 8, Plus(rest, Bits(c / 256, 32)));
    PlusTwice(rest, Bits(c / 256, 32), Bits(TableEntry(i), 32));
    PlusTwice(rest, Bits(TableEntry(i), 32), Bits(c / 256, 32));
    PlusCommutes(Bits(c / 256, 32), Bits(TableEntry(i), 32));
    BitsXor(TableEntry(i), c / 256);
  }

  lemma PlusCommutes(p: seq<bool>, q: seq<bool>)
    requires |p| == |q|
    ensures Plus(p, q) == Plus(q, p)
  {
  }

  /** The byte fold divides: what it leaves in the register is the remainder of the message behind the register. */
  lemma {:induction false} FoldDivides(c: uint32, s: seq<byte>)
    ensures Bits(Fold(c, s), 32) == Remainder(Plus(Coefficients(s) + Zeros(32), Bits(c, 32)))
    decreases |s|
  {
    hide Plus, Bits, Step;
    if s == [] {
      assert Coefficients(s) + Zeros(32) == Zeros(32);
      PlusZeros(Bits(c, 32));
    } else {
      var rest := Coefficients(s[1..]) + Zeros(32);
      assert Coefficients(s) + Zeros(32) == Bits(s[0], 8) + rest;
      DivideByte(c, s[0], rest);
      FoldDivides(Step(c, s[0]), s[1..]);
    }
  }

  lemma PlusZeros(p: seq<bool>)
    ensures Plus(Zeros(|p|), p) == p
  {
  }

  /**
   The checksum's law, in which neither the table nor its constant occurs: its inverse, lowest bit first, is the
   remainder of x^32 times the message modulo the generator, the first 32 coefficients of the dividend inverted.
   */
  lemma ChecksumIsRemainder(s: seq<byte>)
    ensures Bits(0xFFFF_FFFF - Checksum(s), 32)
            == Remainder(Plus(Coefficients(s) + Zeros(32), seq(32, _ => true)))
  {
    hide Bits, Plus, Remainder, Coefficients, Fold;
    FoldDivides(ONES, s);
    BitsOfOnes();
  }

  lemma BitsOfOnes()
    ensures Bits(ONES, 32) == seq(32, _ => true)
  {
    AllOnes(32);
    Pow2Of32();
  }

  lemma {:induction false} AllOnes(w: nat)
    ensures Bits(Pow2(w) - 1, w) == seq(w, _ => true)
    decreases w
  {
    if w > 0 {
      assert (Pow2(w) - 1) / 2 == Pow2(w - 1) - 1;
      AllOnes(w - 1);
    }
  }
}
