/** What the checksum catches: any change confined to four consecutive bytes. */
module CrcBursts {
  import opened Bytes
  import opened Crc32
  import opened CrcPolynomial

  // ---- the register never forgets ---------------------------------------------------------------

  lemma {:induction false} SameBits(a: nat, b: nat, w: nat)
    requires Bits(a, w) == Bits(b, w) && a < Pow2(w) && b < Pow2(w)
    ensures a == b
    decreases w
  {
    if w > 0 {
      BitsCons(a, w - 1);
      BitsCons(b, w - 1);
      assert Bits(a, w)[1..] == Bits(a / 2, w - 1) && Bits(b, w)[1..] == Bits(b / 2, w - 1);
      assert Bits(a, w)[0] == Bits(b, w)[0];
      SameBits(a / 2, b / 2, w - 1);
    }
  }

  lemma SameWords(a: uint32, b: uint32)
    requires Bits(a, 32) == Bits(b, 32)
    ensures a == b
  {
    Pow2Of32();
    SameBits(a, b, 32);
  }

  lemma PlusCancels(p: seq<bool>, q: seq<bool>, r: seq<bool>)
    requires |p| == |q| == |r| && Plus(p, q) == Plus(p, r)
    ensures q == r
  {
    forall i | 0 <= i < |q| ensures q[i] == r[i] {
      assert Plus(p, q)[i] == Plus(p, r)[i];
    }
  }

  lemma XorCancels(a: uint32, b: uint32, c: uint32)
    requires Xor(a, b) == Xor(a, c)
    ensures b == c
  {
    hide Bits, Xor, Plus;
    BitsXor(a, b);
    BitsXor(a, c);
    PlusCancels(Bits(a, 32), Bits(b, 32), Bits(c, 32));
    SameWords(b, c);
  }

  lemma XorSwaps(a: uint32, b: uint32)
    ensures Xor(a, b) == Xor(b, a)
  {
    hide Bits, Xor, Plus;
    BitsXor(a, b);
    BitsXor(b, a);
    PlusCommutes(Bits(a, 32), Bits(b, 32));
    SameWords(Xor(a, b), Xor(b, a));
  }

  /** The generator's lowest term is 1, so a single step tells from its highest bit whether it subtracted. */
  lemma TopBit(x: uint32)
    ensures Bits(OneShift(x), 32)[31] == (x % 2 == 1)
  {
    hide Bits, Xor, Generator;
    BitsOfHalf(x);
    BitsXor(x / 2, POLY);
    BitsOfPoly();
    GeneratorIs();
  }

  lemma OneShiftInjective(x: uint32, y: uint32)
    requires OneShift(x) == OneShift(y)
    ensures x == y
  {
    hide Bits, Xor;
    TopBit(x);
    TopBit(y);
    if x % 2 == 1 {
      XorSwaps(x / 2, POLY);
      XorSwaps(y / 2, POLY);
      XorCancels(POLY, x / 2, y / 2);
    }
  }

  lemma {:induction false} ShiftInjective(x: uint32, y: uint32, n: nat)
    requires ShiftBits(x, n) == ShiftBits(y, n)
    ensures x == y
    decreases n
  {
    hide Xor;
    if n > 0 {
      ShiftInjective(OneShift(x), OneShift(y), n - 1);
      OneShiftInjective(x, y);
    }
  }

  // ---- up to four bytes at once -----------------------------------------------------------------

  lemma {:induction false} CoefficientsOf(s: seq<byte>, w: nat)
    requires w >= 8 * |s|
    ensures Coefficients(s) + Zeros(w - 8 * |s|) == Bits(GetLE(s), w)
    decreases |s|
  {
    hide Bits;
    if s == [] {
      BitsOfZero(w);
      assert Coefficients(s) + Zeros(w) == Zeros(w);
    } else {
      var n := GetLE(s);
      CoefficientsOf(s[1..], w - 8);
      BitsSplit(n, 8, w - 8);
      ShiftedBy(n);
      LowByte(n);
      LowByte(s[0]);
      assert n % 256 == s[0] && n / 256 == GetLE(s[1..]);
      var rest := Coefficients(s[1..]) + Zeros(w - 8 - 8 * |s[1..]|);
      assert Coefficients(s) + Zeros(w - 8 * |s|) == Bits(s[0], 8) + rest;
    }
  }

  lemma GetLEBelow(s: seq<byte>)
    requires |s| <= 4
    ensures GetLE(s) < U32
  {
    Pow256Values();
    BelowLonger(|s|);
  }

  lemma BelowLonger(w: nat)
    requires w <= 4
    ensures Pow256(w) <= Pow256(4)
  {
  }

  /** Up to four bytes enter the register like one word, which is then shifted through. */
  lemma FewBytes(c: uint32, s: seq<byte>)
    requires |s| <= 4
    ensures GetLE(s) < U32 && Fold(c, s) == ShiftBits(Xor(c, GetLE(s)), 8 * |s|)
  {
    hide Bits, Xor, Fold, ShiftBits, Coefficients, GetLE, Plus, Remainder;
    GetLEBelow(s);
    var k, n := 8 * |s|, GetLE(s);
    var x := Xor(c, n);
    CoefficientsOf(s, 32);
    assert Coefficients(s) + Zeros(32) == Bits(n, 32) + Zeros(k);
    FoldDivides(c, s);
    BitsXor(c, n);
    AlignedSum(Bits(n, 32), Bits(c, 32), k);
    Divide(x, k, Zeros(32));
    PlusZeros(Bits(ShiftBits(x, k), 32));
    ShortRemainder(Bits(ShiftBits(x, k), 32));
    SameWords(Fold(c, s), ShiftBits(x, k));
  }

  lemma AlignedSum(p: seq<bool>, q: seq<bool>, k: nat)
    requires |p| == |q| == 32
    ensures Plus(p + Zeros(k), q) == Plus(Zeros(k) + Zeros(32), Plus(q, p))
  {
  }

  lemma ShortRemainder(p: seq<bool>)
    requires |p| == 32
    ensures Remainder(p) == p
  {
  }

  /** Equal bytes never bring different registers together. */
  lemma {:induction false} FoldInjective(c: uint32, d: uint32, s: seq<byte>)
    requires Fold(c, s) == Fold(d, s)
    ensures c == d
    decreases |s|
  {
    hide Xor, Step, ShiftBits;
    if s != [] {
      FoldInjective(Step(c, s[0]), Step(d, s[0]), s[1..]);
      var b := [s[0]];
      assert b[1..] == [];
      FewBytes(c, b);
      FewBytes(d, b);
      ShiftInjective(Xor(c, GetLE(b)), Xor(d, GetLE(b)), 8);
      XorSwaps(c, GetLE(b));
      XorSwaps(d, GetLE(b));
      XorCancels(GetLE(b), c, d);
    }
  }

  lemma SameBytes(a: seq<byte>, b: seq<byte>)
    requires |a| == |b| && GetLE(a) == GetLE(b)
    ensures a == b
  {
    PutAfterGet(a);
    PutAfterGet(b);
  }

  /** Two messages that differ in up to four consecutive bytes and nowhere else have different checksums. */
  lemma BurstDetected(before: seq<byte>, a: seq<byte>, b: seq<byte>, after: seq<byte>)
    requires |a| == |b| <= 4 && a != b
    ensures Checksum(before + a + after) != Checksum(before + b + after)
    ensures Fold(ONES, before + a + after) != Fold(ONES, before + b + after)
  {
    hide Fold, Xor, ShiftBits, GetLE;
    FoldConcat(ONES, before + a, after);
    FoldConcat(ONES, before + b, after);
    FoldConcat(ONES, before, a);
    FoldConcat(ONES, before, b);
    var c := Fold(ONES, before);
    FewBytes(c, a);
    FewBytes(c, b);
    if Fold(ONES, before + a + after) == Fold(ONES, before + b + after) {
      FoldInjective(Fold(c, a), Fold(c, b), after);
      ShiftInjective(Xor(c, GetLE(a)), Xor(c, GetLE(b)), 8 * |a|);
      XorCancels(c, GetLE(a), GetLE(b));
      SameBytes(a, b);
      assert false;
    }
  }

  // ---- five bytes are too many ------------------------------------------------------------------

  lemma XorBack(a: uint32, b: uint32)
    ensures Xor(a, Xor(a, b)) == b
  {
    hide Bits, Xor;
    BitsXor(a, b);
    BitsXor(a, Xor(a, b));
    SameWords(Xor(a, Xor(a, b)), b);
  }

  lemma {:induction false} TopClear(n: nat, w: nat)
    requires n < Pow2(w + 1) && !Bits(n, w + 1)[w]
    ensures n < Pow2(w)
    decreases w
  {
    if w > 0 {
      BitsCons(n, w);
      assert Bits(n, w + 1)[w] == Bits(n / 2, w)[w - 1];
      TopClear(n / 2, w - 1);
    }
  }

  /** Every register value is the outcome of a single step. */
  lemma Unshift(y: uint32) returns (x: uint32)
    ensures OneShift(x) == y
  {
    hide Bits, Xor, Pow2;
    Pow2Of32();
    Pow2Of31();
    if Bits(y, 32)[31] {
      var z := Xor(POLY, y);
      BitsXor(POLY, y);
      BitsOfPoly();
      GeneratorIs();
      TopClear(z, 31);
      XorBack(POLY, y);
      XorSwaps(POLY, z);
      x := 2 * z + 1;
    } else {
      TopClear(y, 31);
      x := 2 * y;
    }
  }

  lemma Pow2Of31()
    ensures Pow2(31) == 0x8000_0000
  {
    Pow2Of32();
  }

  lemma {:induction false} UnshiftAll(y: uint32, n: nat) returns (x: uint32)
    ensures ShiftBits(x, n) == y
    decreases n
  {
    hide Xor;
    if n == 0 {
      x := y;
    } else {
      var z := UnshiftAll(y, n - 1);
      x := Unshift(z);
    }
  }

  /** Four bytes can bring the register from any value to any other. */
  lemma Steer(c: uint32, y: uint32) returns (s: seq<byte>)
    ensures |s| == 4 && Fold(c, s) == y
  {
    hide Xor, ShiftBits, Fold, PutLE, GetLE;
    var x := UnshiftAll(y, 32);
    s := PutLE(Xor(c, x), 4);
    Pow256Values();
    GetAfterPut(Xor(c, x), 4);
    FewBytes(c, s);
    XorBack(c, x);
  }

  function Flip(n: nat): nat {
    if n % 2 == 0 then n + 1 else n - 1
  }

  lemma FlipsLow(n: nat)
    ensures Flip(n) / 2 == n / 2 && Flip(n) % 2 == 1 - n % 2 && Flip(n) / 256 == n / 256
  {
  }

  lemma XorOfFlips(a: nat, b: nat, w: nat)
    ensures XorBits(Flip(a), Flip(b), w) == XorBits(a, b, w)
  {
    hide Flip, Pow2;
    FlipsLow(a);
    FlipsLow(b);
  }

  lemma FlipBoth(r: uint32, x: byte)
    ensures Flip(r) < U32 && Flip(x) < 256 && Step(Flip(r), Flip(x)) == Step(r, x)
  {
    hide ShiftBits, XorBits, Pow2;
    FlipsLow(r);
    XorOfFlips(r, x, 32);
  }

  /** Any five consecutive bytes can be changed so that the checksum stays: four is the most it always catches. */
  lemma FiveBytesMayPass(before: seq<byte>, a: seq<byte>, after: seq<byte>)
    requires |a| == 5
    ensures exists b: seq<byte> :: |b| == 5 && b != a && Checksum(before + b + after) == Checksum(before + a + after)
  {
    hide Fold, Step, Flip;
    var c := Fold(ONES, before);
    var r, x := Fold(c, a[..4]), a[4];
    FlipBoth(r, x);
    Flips(x);
    var s := Steer(c, Flip(r));
    var b := s + [Flip(x)];
    assert a == a[..4] + [x];
    FoldConcat(c, a[..4], [x]);
    FoldConcat(c, s, [Flip(x)]);
    FoldOne(r, x);
    FoldOne(Flip(r), Flip(x));
    FoldConcat(ONES, before + a, after);
    FoldConcat(ONES, before + b, after);
    FoldConcat(ONES, before, a);
    FoldConcat(ONES, before, b);
    assert b[4] != a[4];
  }

  lemma Flips(x: nat)
    ensures Flip(x) != x
  {
  }

  lemma FoldOne(c: uint32, b: byte)
    ensures Fold(c, [b]) == Step(c, b)
  {
    assert [b][1..] == [];
  }

  // ---- a message with its checksum behind it ----------------------------------------------------

  lemma {:induction false} NotBits(c: nat, w: nat)
    requires c < Pow2(w)
    ensures XorBits(c, Pow2(w) - 1 - c, w) == Pow2(w) - 1
    decreases w
  {
    if w > 0 {
      var d := Pow2(w) - 1 - c;
      assert d % 2 == 1 - c % 2 && d / 2 == Pow2(w - 1) - 1 - c / 2;
      NotBits(c / 2, w - 1);
    }
  }

  lemma XorNot(c: uint32)
    ensures Xor(c, Not(c)) == ONES
  {
    Pow2Of32();
    NotBits(c, 32);
  }

  /** What the register holds behind a message and its little-endian checksum, whatever the message. */
  function Residue(): uint32 {
    ShiftBits(ONES, 32)
  }

  /** Checking a stored checksum is the same as running over it and finding the residue. */
  lemma ResidueIff(s: seq<byte>, t: seq<byte>)
    requires |t| == 4
    ensures GetU32(t) == Checksum(s) <==> Fold(ONES, s + t) == Residue()
  {
    hide Fold, Xor, ShiftBits, GetLE;
    var c := Fold(ONES, s);
    FoldConcat(ONES, s, t);
    FewBytes(c, t);
    XorNot(c);
    if Fold(ONES, s + t) == Residue() {
      ShiftInjective(Xor(c, GetLE(t)), ONES, 32);
      XorCancels(c, GetLE(t), Not(c));
    }
  }

  // ---- changes confined to four consecutive bytes -----------------------------------------------

  /** Outside the four bytes from position at on, s and t agree; the window may stick out at either end. */
  ghost predicate AgreeOutside(s: seq<byte>, t: seq<byte>, at: int)
    requires |s| == |t|
  {
    forall i | 0 <= i < |s| :: i < at || at + 4 <= i ==> s[i] == t[i]
  }

  /** t is s with at most four consecutive bytes changed. */
  ghost predicate Burst(s: seq<byte>, t: seq<byte>) {
    |s| == |t| && exists at :: AgreeOutside(s, t, at)
  }

  /** What a burst does to a part of a byte string is a burst, too. */
  lemma PartOfBurst(s: seq<byte>, t: seq<byte>, lo: nat, hi: nat)
    requires Burst(s, t) && lo <= hi <= |s|
    ensures Burst(s[lo..hi], t[lo..hi])
  {
    var at :| AgreeOutside(s, t, at);
    assert AgreeOutside(s[lo..hi], t[lo..hi], at - lo);
  }

  lemma BurstParts(s: seq<byte>, t: seq<byte>) returns (lo: nat, hi: nat)
    requires Burst(s, t)
    ensures lo <= hi <= |s| == |t| && hi - lo <= 4
    ensures s == s[..lo] + s[lo..hi] + s[hi..] && t == s[..lo] + t[lo..hi] + s[hi..]
  {
    var at :| AgreeOutside(s, t, at);
    lo := if at < 0 then 0 else if at > |s| then |s| else at;
    hi := if at + 4 < 0 then 0 else if at + 4 > |s| then |s| else at + 4;
    SameEnds(s, t, lo, hi);
    ThreeParts(s, lo, hi);
    ThreeParts(t, lo, hi);
  }

  lemma SameEnds(s: seq<byte>, t: seq<byte>, lo: nat, hi: nat)
    requires lo <= hi <= |s| == |t| && forall i | 0 <= i < |s| :: i < lo || hi <= i ==> s[i] == t[i]
    ensures s[..lo] == t[..lo] && s[hi..] == t[hi..]
  {
  }

  lemma ThreeParts(s: seq<byte>, lo: nat, hi: nat)
    requires lo <= hi <= |s|
    ensures s == s[..lo] + s[lo..hi] + s[hi..]
  {
  }

  lemma RegisterTells(s: seq<byte>, t: seq<byte>)
    requires Burst(s, t) && s != t
    ensures Checksum(s) != Checksum(t) && Fold(ONES, s) != Fold(ONES, t)
  {
    hide Fold, Checksum, Burst;
    var lo, hi := BurstParts(s, t);
    BurstDetected(s[..lo], s[lo..hi], t[lo..hi], s[hi..]);
  }

  /** A message with its checksum behind it does not survive a change of up to four consecutive bytes anywhere in it. */
  lemma StoredBurst(s: seq<byte>, t: seq<byte>)
    requires |s| >= 4 && Burst(s, t) && s != t
    requires var n := |s| - 4; GetU32(s[n..]) == Checksum(s[..n])
    ensures var n := |s| - 4; GetU32(t[n..]) != Checksum(t[..n])
  {
    hide Fold, Checksum, GetU32, Residue, Burst;
    assert |t| == |s| by { BurstLength(s, t); }
    var n := |s| - 4;
    assert s == s[..n] + s[n..] && t == t[..n] + t[n..];
    ResidueIff(s[..n], s[n..]);
    ResidueIff(t[..n], t[n..]);
    RegisterTells(s, t);
  }

  lemma BurstLength(s: seq<byte>, t: seq<byte>)
    requires Burst(s, t)
    ensures |s| == |t|
  {
  }
}
