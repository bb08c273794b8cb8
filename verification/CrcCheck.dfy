/** The check value of the IEEE CRC-32, computed on machine words and carried over to numbers. */
module CrcCheck {
  import opened Bytes
  import opened Crc32

  function Low(x: bv32): (b: nat)
    ensures b < 2
  {
    if x & 1 != 0 then 1 else 0
  }

  function Shr(x: bv32): bv32 {
    x >> 1
  }

  function Xor32(x: bv32, y: bv32): bv32 {
    x ^ y
  }

  /** The number the w low bits of a machine word denote. */
  function NumOf(x: bv32, w: nat): nat
    decreases w
  {
    if w == 0 then 0 else Low(x) + 2 * NumOf(Shr(x), w - 1)
  }

  lemma {:induction false} NumBelow(x: bv32, w: nat)
    ensures NumOf(x, w) < Pow2(w)
    decreases w
  {
    if w > 0 {
      NumBelow(Shr(x), w - 1);
    }
  }

  lemma XorLow(x: bv32, y: bv32)
    ensures Low(Xor32(x, y)) == (if Low(x) != Low(y) then 1 else 0) && Shr(Xor32(x, y)) == Xor32(Shr(x), Shr(y))
  {
  }

  lemma XorStep(p: nat, q: nat, a: nat, b: nat, w: nat)
    requires p < 2 && q < 2
    ensures XorBits(p + 2 * a, q + 2 * b, w + 1) == (if p != q then 1 else 0) + 2 * XorBits(a, b, w)
  {
  }

  lemma {:induction false} XorOf(x: bv32, y: bv32, w: nat)
    ensures XorBits(NumOf(x, w), NumOf(y, w), w) == NumOf(Xor32(x, y), w)
    decreases w
  {
    hide Low, Shr, Xor32, XorBits, Pow2;
    if w > 0 {
      XorLow(x, y);
      XorStep(Low(x), Low(y), NumOf(Shr(x), w - 1), NumOf(Shr(y), w - 1), w - 1);
      XorOf(Shr(x), Shr(y), w - 1);
    } else {
      NoBits();
    }
  }

  lemma NoBits()
    ensures XorBits(0, 0, 0) == 0
  {
  }

  // ---- shifts -----------------------------------------------------------------------------------

  /** Nothing is left above the w lowest bits. */
  predicate Short(x: bv32, w: nat)
    decreases w
  {
    if w == 0 then x == 0 else Short(Shr(x), w - 1)
  }

  lemma {:induction false} ShortNum(x: bv32, w: nat, v: nat)
    requires Short(x, w) && w <= v
    ensures NumOf(x, v) == NumOf(x, w)
    decreases v
  {
    if v > 0 {
      ShortNum(Shr(x), if w > 0 then w - 1 else 0, v - 1);
    }
  }

  function Down(x: bv32): bv32 {
    Shr(Shr(Shr(Shr(x))))
  }

  lemma {:induction false} Smaller(x: bv32, m: bv32, w: nat)
    requires x <= m && Short(m, w)
    ensures Short(x, w)
    decreases w
  {
    hide Shr;
    if w > 0 {
      ShrMonotone(x, m);
      Smaller(Shr(x), Shr(m), w - 1);
    } else {
      NothingBelow(x);
    }
  }

  lemma ShrMonotone(x: bv32, m: bv32)
    requires x <= m
    ensures Shr(x) <= Shr(m)
  {
  }

  lemma NothingBelow(x: bv32)
    ensures x <= 0 ==> x == 0
  {
  }

  lemma ShortStep(x: bv32, w: nat)
    ensures Short(x, w + 1) == Short(Shr(x), w)
  {
  }

  lemma FourLess(x: bv32, w: nat)
    requires Short(Down(x), w)
    ensures Short(x, w + 4)
  {
    hide Short, Shr;
    ShortStep(Shr(Shr(Shr(x))), w);
    ShortStep(Shr(Shr(x)), w + 1);
    ShortStep(Shr(x), w + 2);
    ShortStep(x, w + 3);
  }

  lemma Bounds()
    ensures Short(0x7FFF_FFFF, 31) && Short(0xFF_FFFF, 24) && Short(0xFF, 8)
  {
    assert Short(0, 0) && Short(0x7, 3);
    hide Short;
    FourLess(0xF, 0);
    FourLess(0xFF, 4);
    FourLess(0xFFF, 8);
    FourLess(0xFFFF, 12);
    FourLess(0xF_FFFF, 16);
    FourLess(0xFF_FFFF, 20);
    FourLess(0x7F, 3);
    FourLess(0x7FF, 7);
    FourLess(0x7FFF, 11);
    FourLess(0x7_FFFF, 15);
    FourLess(0x7F_FFFF, 19);
    FourLess(0x7FF_FFFF, 23);
    FourLess(0x7FFF_FFFF, 27);
  }

  lemma One(x: bv32, w: nat)
    ensures NumOf(x, w + 1) == Low(x) + 2 * NumOf(Shr(x), w)
  {
  }

  lemma TwoMore(x: bv32, w: nat)
    ensures NumOf(x, w + 2) == Low(x) + 2 * Low(Shr(x)) + 4 * NumOf(Shr(Shr(x)), w)
  {
    hide Low, Shr, NumOf;
    One(x, w + 1);
    One(Shr(x), w);
  }

  lemma FourMore(x: bv32, w: nat)
    ensures NumOf(x, w + 4) == NumOf(x, 4) + 16 * NumOf(Down(x), w)
  {
    hide Low, Shr, NumOf;
    var y := Shr(Shr(x));
    TwoMore(x, w + 2);
    TwoMore(y, w);
    TwoMore(x, 2);
    TwoMore(y, 0);
    NoNum(Down(x));
  }

  lemma NoNum(x: bv32)
    ensures NumOf(x, 0) == 0
  {
  }

  lemma EightMore(x: bv32, w: nat)
    ensures NumOf(x, w + 8) == NumOf(x, 8) + 256 * NumOf(x >> 8, w)
  {
    hide NumOf, Down;
    TwiceDown(x);
    FourMore(x, w + 4);
    FourMore(Down(x), w);
    FourMore(x, 4);
  }

  lemma TwiceDown(x: bv32)
    ensures Down(Down(x)) == x >> 8
  {
  }

  // ---- the number of a word ---------------------------------------------------------------------

  function Num(x: bv32): uint32 {
    Pow2Of32();
    NumBelow(x, 32);
    NumOf(x, 32)
  }

  lemma NumHalf(x: bv32)
    ensures Num(x) % 2 == Low(x) && Num(x) / 2 == Num(Shr(x))
  {
    hide NumOf, Low, Short;
    Bounds();
    assert Shr(x) <= 0x7FFF_FFFF;
    Smaller(Shr(x), 0x7FFF_FFFF, 31);
    ShortNum(Shr(x), 31, 32);
    One(x, 31);
  }

  predicate Mask(m: bv32, w: nat)
    decreases w
  {
    w == 0 || (m & 1 == 1 && Mask(Shr(m), w - 1))
  }

  lemma {:induction false} Masked(x: bv32, m: bv32, w: nat)
    requires Mask(m, w)
    ensures NumOf(x & m, w) == NumOf(x, w)
    decreases w
  {
    hide Low, Shr;
    if w > 0 {
      OneMasked(x, m);
      Masked(Shr(x), Shr(m), w - 1);
    }
  }

  lemma OneMasked(x: bv32, m: bv32)
    requires m & 1 == 1
    ensures Low(x & m) == Low(x) && Shr(x & m) == Shr(x) & Shr(m)
  {
  }

  lemma High(x: bv32)
    ensures NumOf(x >> 8, 32) == NumOf(x >> 8, 24) && NumOf(x & 0xFF, 32) == NumOf(x & 0xFF, 8)
  {
    hide NumOf, Low, Short;
    Bounds();
    assert x >> 8 <= 0xFF_FFFF && x & 0xFF <= 0xFF;
    Smaller(x >> 8, 0xFF_FFFF, 24);
    ShortNum(x >> 8, 24, 32);
    Smaller(x & 0xFF, 0xFF, 8);
    ShortNum(x & 0xFF, 8, 32);
  }

  lemma NumBytes(x: bv32)
    ensures Num(x) % 256 == Num(x & 0xFF) < 256 && Num(x) / 256 == Num(x >> 8)
  {
    hide NumOf, Mask, Pow2;
    High(x);
    ByteMask();
    Masked(x, 0xFF, 8);
    EightMore(x, 24);
    NumBelow(x, 8);
    Pow2Of8();
    DivMod(NumOf(x, 32), NumOf(x, 8), NumOf(x >> 8, 24));
  }

  lemma DivMod(n: nat, b: nat, h: nat)
    requires n == b + 256 * h && b < 256
    ensures n % 256 == b && n / 256 == h
  {
  }

  lemma ByteMask()
    ensures Mask(0xFF, 8)
  {
  }

  lemma NumXor(x: bv32, y: bv32)
    ensures Xor(Num(x), Num(y)) == Num(Xor32(x, y))
  {
    XorOf(x, y, 32);
  }

  // ---- the fold on words ------------------------------------------------------------------------

  lemma NumOfDigits(x: bv32, d: nat, w: nat, n: nat)
    requires NumOf(Down(x), w) == n && NumOf(x, 4) == d
    ensures NumOf(x, w + 4) == d + 16 * n
  {
    hide NumOf, Down;
    FourMore(x, w);
  }

  lemma Constants()
    ensures Num(0xEDB8_8320) == POLY && Num(0xFFFF_FFFF) == ONES
  {
    NoNum(0);
    PolyDigits();
    OnesDigits();
    hide NumOf;
    NumOfDigits(0xE, 0xE, 0, 0);
    NumOfDigits(0xED, 0xD, 4, 0xE);
    NumOfDigits(0xEDB, 0xB, 8, 0xED);
    NumOfDigits(0xEDB8, 0x8, 12, 0xEDB);
    NumOfDigits(0xE_DB88, 0x8, 16, 0xEDB8);
    NumOfDigits(0xED_B883, 0x3, 20, 0xE_DB88);
    NumOfDigits(0xEDB_8832, 0x2, 24, 0xED_B883);
    NumOfDigits(0xEDB8_8320, 0, 28, 0xEDB_8832);
    NumOfDigits(0xF, 0xF, 0, 0);
    NumOfDigits(0xFF, 0xF, 4, 0xF);
    NumOfDigits(0xFFF, 0xF, 8, 0xFF);
    NumOfDigits(0xFFFF, 0xF, 12, 0xFFF);
    NumOfDigits(0xF_FFFF, 0xF, 16, 0xFFFF);
    NumOfDigits(0xFF_FFFF, 0xF, 20, 0xF_FFFF);
    NumOfDigits(0xFFF_FFFF, 0xF, 24, 0xFF_FFFF);
    NumOfDigits(0xFFFF_FFFF, 0xF, 28, 0xFFF_FFFF);
  }

  lemma PolyDigits()
    ensures NumOf(0xE, 4) == 0xE && NumOf(0xED, 4) == 0xD && NumOf(0xEDB, 4) == 0xB && NumOf(0xEDB8, 4) == 8
    ensures NumOf(0xE_DB88, 4) == 8 && NumOf(0xED_B883, 4) == 3 && NumOf(0xEDB_8832, 4) == 2
    ensures NumOf(0xEDB8_8320, 4) == 0
  {
  }

  lemma OnesDigits()
    ensures NumOf(0xF, 4) == 0xF && NumOf(0xFF, 4) == 0xF && NumOf(0xFFF, 4) == 0xF && NumOf(0xFFFF, 4) == 0xF
    ensures NumOf(0xF_FFFF, 4) == 0xF && NumOf(0xFF_FFFF, 4) == 0xF && NumOf(0xFFF_FFFF, 4) == 0xF
    ensures NumOf(0xFFFF_FFFF, 4) == 0xF
  {
  }

  function Next(x: bv32): bv32 {
    if x & 1 != 0 then Xor32(x >> 1, 0xEDB8_8320) else x >> 1
  }

  function EightBits(x: bv32): bv32 {
    Next(Next(Next(Next(Next(Next(Next(Next(x))))))))
  }

  function StepBits(x: bv32, b: bv32): bv32 {
    Xor32(EightBits(Xor32(x, b) & 0xFF), x >> 8)
  }

  lemma OneShift(x: bv32, n: nat)
    ensures ShiftBits(Num(x), n + 1) == ShiftBits(Num(Next(x)), n)
  {
    hide Xor, Num, Xor32;
    NumHalf(x);
    NumXor(x >> 1, 0xEDB8_8320);
    Constants();
  }

  lemma EightShifts(x: bv32)
    ensures ShiftBits(Num(x), 8) == Num(EightBits(x))
  {
    hide ShiftBits, Num, Next;
    var x1 := Next(x);
    var x2 := Next(x1);
    var x3 := Next(x2);
    var x4 := Next(x3);
    var x5 := Next(x4);
    var x6 := Next(x5);
    OneShift(x, 7);
    OneShift(x1, 6);
    OneShift(x2, 5);
    OneShift(x3, 4);
    OneShift(x4, 3);
    OneShift(x5, 2);
    OneShift(x6, 1);
    OneShift(Next(x6), 0);
    NoShift(Num(EightBits(x)));
  }

  lemma NoShift(c: uint32)
    ensures ShiftBits(c, 0) == c
  {
  }

  lemma StepOf(x: bv32, b: bv32)
    requires Num(b) < 256
    ensures Step(Num(x), Num(b)) == Num(StepBits(x, b))
  {
    hide Num, Xor, ShiftBits, EightBits, Xor32;
    var y := Xor32(x, b);
    NumXor(x, b);
    NumBytes(y);
    NumBytes(x);
    EightShifts(y & 0xFF);
    NumXor(EightBits(y & 0xFF), x >> 8);
  }

  // ---- the check value --------------------------------------------------------------------------

  lemma FoldByte(x: bv32, b: bv32, n: byte, s: seq<byte>)
    requires Num(b) == n
    ensures Fold(Num(x), [n] + s) == Fold(Num(StepBits(x, b)), s)
  {
    hide Num, Step, StepBits;
    StepOf(x, b);
    assert ([n] + s)[1..] == s;
  }

  lemma AsciiDigits()
    ensures Num(0x31) == 0x31 && Num(0x32) == 0x32 && Num(0x33) == 0x33
    ensures Num(0x34) == 0x34 && Num(0x35) == 0x35 && Num(0x36) == 0x36
    ensures Num(0x37) == 0x37 && Num(0x38) == 0x38 && Num(0x39) == 0x39
  {
    LowThree();
    LowSix();
    LowNine();
    hide NumOf;
    AsciiDigit(0x31, 1);
    AsciiDigit(0x32, 2);
    AsciiDigit(0x33, 3);
    AsciiDigit(0x34, 4);
    AsciiDigit(0x35, 5);
    AsciiDigit(0x36, 6);
    AsciiDigit(0x37, 7);
    AsciiDigit(0x38, 8);
    AsciiDigit(0x39, 9);
  }

  lemma AsciiDigit(b: bv32, d: nat)
    requires b & 0xFF == b && Down(b) == 3 && NumOf(3, 4) == 3 && NumOf(b, 4) == d
    ensures Num(b) == 0x30 + d
  {
    hide NumOf, Down;
    High(b);
    NumOfDigits(b, d, 4, 3);
  }

  lemma LowThree()
    ensures NumOf(3, 4) == 3 && NumOf(0x31, 4) == 1 && NumOf(0x32, 4) == 2 && NumOf(0x33, 4) == 3
  {
  }

  lemma LowSix()
    ensures NumOf(0x34, 4) == 4 && NumOf(0x35, 4) == 5 && NumOf(0x36, 4) == 6
  {
  }

  lemma LowNine()
    ensures NumOf(0x37, 4) == 7 && NumOf(0x38, 4) == 8 && NumOf(0x39, 4) == 9
  {
  }

  /** The register after each of the nine steps. */
  lemma NineSteps()
    ensures StepBits(0xFFFF_FFFF, 0x31) == 0x7C23_1048 && StepBits(0x7C23_1048, 0x32) == 0xB0AC_BB32
    ensures StepBits(0xB0AC_BB32, 0x33) == 0x77B7_9C2D && StepBits(0x77B7_9C2D, 0x34) == 0x641C_1F5C
    ensures StepBits(0x641C_1F5C, 0x35) == 0x340A_C5E3 && StepBits(0x340A_C5E3, 0x36) == 0xF68D_2C9E
    ensures StepBits(0xF68D_2C9E, 0x37) == 0xAFFC_9660 && StepBits(0xAFFC_9660, 0x38) == 0x651F_2550
    ensures StepBits(0x651F_2550, 0x39) == 0x340B_C6D9
  {
  }

  lemma NumOfLast()
    ensures Num(0x340B_C6D9) == 0x340B_C6D9
  {
    NoNum(0);
    LastDigits();
    hide NumOf;
    NumOfDigits(0x3, 0x3, 0, 0);
    NumOfDigits(0x34, 0x4, 4, 0x3);
    NumOfDigits(0x340, 0x0, 8, 0x34);
    NumOfDigits(0x340B, 0xB, 12, 0x340);
    NumOfDigits(0x3_40BC, 0xC, 16, 0x340B);
    NumOfDigits(0x34_0BC6, 0x6, 20, 0x3_40BC);
    NumOfDigits(0x340_BC6D, 0xD, 24, 0x34_0BC6);
    NumOfDigits(0x340B_C6D9, 0x9, 28, 0x340_BC6D);
  }

  lemma LastDigits()
    ensures NumOf(0x3, 4) == 0x3 && NumOf(0x34, 4) == 0x4 && NumOf(0x340, 4) == 0 && NumOf(0x340B, 4) == 0xB
    ensures NumOf(0x3_40BC, 4) == 0xC && NumOf(0x34_0BC6, 4) == 6 && NumOf(0x340_BC6D, 4) == 0xD
    ensures NumOf(0x340B_C6D9, 4) == 9
  {
  }

  /** The check value of the IEEE CRC-32: the checksum of the ASCII digits from 1 to 9. */
  lemma CheckValue()
    ensures Checksum([0x31, 0x32, 0x33, 0x34, 0x35, 0x36, 0x37, 0x38, 0x39]) == 0xCBF4_3926
  {
    NineSteps();
    AsciiDigits();
    NumOfLast();
    Constants();
    hide StepBits, Num, Fold;
    var s8: seq<byte> := [0x39] + [];
    var s7 := [0x38] + s8;
    var s6 := [0x37] + s7;
    var s5 := [0x36] + s6;
    var s4 := [0x35] + s5;
    var s3 := [0x34] + s4;
    var s2 := [0x33] + s3;
    var s1 := [0x32] + s2;
    FoldByte(0xFFFF_FFFF, 0x31, 0x31, s1);
    FoldByte(0x7C23_1048, 0x32, 0x32, s2);
    FoldByte(0xB0AC_BB32, 0x33, 0x33, s3);
    FoldByte(0x77B7_9C2D, 0x34, 0x34, s4);
    FoldByte(0x641C_1F5C, 0x35, 0x35, s5);
    FoldByte(0x340A_C5E3, 0x36, 0x36, s6);
    FoldByte(0xF68D_2C9E, 0x37, 0x37, s7);
    FoldByte(0xAFFC_9660, 0x38, 0x38, s8);
    FoldByte(0x651F_2550, 0x39, 0x39, []);
    NoFold(Num(0x340B_C6D9));
    assert [0x31, 0x32, 0x33, 0x34, 0x35, 0x36, 0x37, 0x38, 0x39] == [0x31] + s1;
  }

  lemma NoFold(c: uint32)
    ensures Fold(c, []) == c
  {
  }
}
