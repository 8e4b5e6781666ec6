/**
 What the checksum is: the complement of a remainder.  The payload is read as one
 polynomial, the low bit of each byte first, and divided by the generator of
 section 8 of RFC 1952.
 */
module CrcRemainder {
  import opened Values
  import opened Gf2
  import opened Crc

  const GENERATOR: Poly := {32, 26, 23, 22, 16, 12, 11, 10, 8, 7, 5, 4, 2, 1, 0}

  // Bits

  predicate Low(w: bv32) {
    w & 1 == 1
  }

  function Half(w: bv32): bv32 {
    w >> 1
  }

  function Xor(a: bv32, b: bv32): bv32 {
    a ^ b
  }

  predicate Bit(w: bv32, i: nat) {
    if i == 0 then Low(w) else Bit(Half(w), i - 1)
  }

  predicate BitOf(b: nat, i: nat) {
    if i == 0 then b % 2 == 1 else BitOf(b / 2, i - 1)
  }

  lemma XorHalves(a: bv32, b: bv32)
    ensures Half(Xor(a, b)) == Xor(Half(a), Half(b))
    ensures Low(Xor(a, b)) == (Low(a) != Low(b))
  {
  }

  lemma {:induction false} XorBit(a: bv32, b: bv32, i: nat)
    ensures Bit(Xor(a, b), i) == (Bit(a, i) != Bit(b, i))
    decreases i
  {
    hide Half, Low, Xor;
    XorHalves(a, b);
    if i == 0 {
    } else {
      XorBit(Half(a), Half(b), i - 1);
    }
  }

  /** The word shifted right by k. */
  function Down(w: bv32, k: nat): bv32 {
    if k == 0 then w else Half(Down(w, k - 1))
  }

  lemma {:induction false} BitDown(w: bv32, k: nat, i: nat)
    ensures Bit(w, k + i) == Bit(Down(w, k), i)
    decreases k
  {
    hide Half, Low;
    if k == 0 {
    } else {
      BitDown(w, k - 1, i + 1);
    }
  }

  lemma {:induction false} DownTwice(w: bv32, j: nat, k: nat)
    ensures Down(Down(w, j), k) == Down(w, j + k)
    decreases k
  {
    hide Half;
    if k == 0 {
    } else {
      DownTwice(w, j, k - 1);
    }
  }

  function Octet(w: bv32): bv32 {
    w >> 8
  }

  lemma DownEight(w: bv32)
    ensures Down(w, 8) == Octet(w)
  {
    assert Down(w, 1) == w >> 1;
    assert Down(w, 2) == w >> 2;
    assert Down(w, 3) == w >> 3;
    assert Down(w, 4) == w >> 4;
    assert Down(w, 5) == w >> 5;
    assert Down(w, 6) == w >> 6;
    assert Down(w, 7) == w >> 7;
  }

  lemma FourOctets(w: bv32)
    ensures Octet(Octet(Octet(Octet(w)))) == 0 && !Low(0)
  {
  }

  /** A word has no bit beyond its thirty-second. */
  lemma NoBit32(w: bv32)
    ensures !Bit(w, 32)
  {
    hide Octet, Half, Low;
    FourOctets(w);
    DownEight(w);
    DownEight(Octet(w));
    DownEight(Octet(Octet(w)));
    DownEight(Octet(Octet(Octet(w))));
    DownTwice(w, 8, 8);
    DownTwice(w, 16, 8);
    DownTwice(w, 24, 8);
    BitDown(w, 32, 0);
  }

  lemma PolynomialBits(i: nat)
    requires i < 32
    ensures Bit(POLYNOMIAL, i) <==> 31 - i in GENERATOR
  {
    assert Down(POLYNOMIAL, 1) == 0x76DC_4190 && Down(POLYNOMIAL, 2) == 0x3B6E_20C8;
    assert Down(POLYNOMIAL, 3) == 0x1DB7_1064 && Down(POLYNOMIAL, 4) == 0x0EDB_8832;
    assert Down(POLYNOMIAL, 5) == 0x076D_C419 && Down(POLYNOMIAL, 6) == 0x03B6_E20C;
    assert Down(POLYNOMIAL, 7) == 0x01DB_7106 && Down(POLYNOMIAL, 8) == 0x00ED_B883;
    assert Down(POLYNOMIAL, 9) == 0x0076_DC41 && Down(POLYNOMIAL, 10) == 0x003B_6E20;
    assert Down(POLYNOMIAL, 11) == 0x001D_B710 && Down(POLYNOMIAL, 12) == 0x000E_DB88;
    assert Down(POLYNOMIAL, 13) == 0x0007_6DC4 && Down(POLYNOMIAL, 14) == 0x0003_B6E2;
    assert Down(POLYNOMIAL, 15) == 0x0001_DB71 && Down(POLYNOMIAL, 16) == 0x0000_EDB8;
    assert Down(POLYNOMIAL, 17) == 0x0000_76DC && Down(POLYNOMIAL, 18) == 0x0000_3B6E;
    assert Down(POLYNOMIAL, 19) == 0x0000_1DB7 && Down(POLYNOMIAL, 20) == 0x0000_0EDB;
    assert Down(POLYNOMIAL, 21) == 0x0000_076D && Down(POLYNOMIAL, 22) == 0x0000_03B6;
    assert Down(POLYNOMIAL, 23) == 0x0000_01DB && Down(POLYNOMIAL, 24) == 0x0000_00ED;
    assert Down(POLYNOMIAL, 25) == 0x0000_0076 && Down(POLYNOMIAL, 26) == 0x0000_003B;
    assert Down(POLYNOMIAL, 27) == 0x0000_001D && Down(POLYNOMIAL, 28) == 0x0000_000E;
    assert Down(POLYNOMIAL, 29) == 0x0000_0007 && Down(POLYNOMIAL, 30) == 0x0000_0003;
    assert Down(POLYNOMIAL, 31) == 0x0000_0001;
    BitDown(POLYNOMIAL, i, 0);
  }

  // The register and the payload as polynomials

  /** The lowest bit of a register is its highest coefficient. */
  predicate InRegister(w: bv32, e: nat) {
    e < 32 && Bit(w, 31 - e)
  }

  function RegisterPoly(w: bv32): Poly {
    set e: nat | e < 32 && InRegister(w, e)
  }

  /** So is the lowest bit of a byte. */
  predicate InByte(b: byte, e: nat) {
    e < 8 && BitOf(b, 7 - e)
  }

  function BytePoly(b: byte): Poly {
    set e: nat | e < 8 && InByte(b, e)
  }

  /** The payload as one polynomial, its first bit highest. */
  function PayloadPoly(bytes: Bytes): Poly {
    if bytes == [] then {}
    else Add(Shift(PayloadPoly(bytes[..|bytes| - 1]), 8), BytePoly(bytes[|bytes| - 1]))
  }

  lemma LowBit(w: bv32)
    ensures w & 1 == if Low(w) then 1 else 0
  {
  }

  lemma Masks(x: bv32)
    ensures (0 as bv32) - 1 == 0xFFFF_FFFF && x & 0xFFFF_FFFF == x
    ensures (0 as bv32) - 0 == 0 && x & 0 == 0 && x ^ 0 == x
  {
  }

  lemma StepBits(w: bv32)
    ensures BitStep(w) == if Low(w) then Xor(Half(w), POLYNOMIAL) else Half(w)
  {
    hide Low;
    LowBit(w);
    Masks(POLYNOMIAL);
    Masks(w >> 1);
  }

  lemma StepBit(w: bv32, i: nat)
    requires i < 32
    ensures Bit(BitStep(w), i) == (Bit(w, i + 1) != (Bit(w, 0) && 31 - i in GENERATOR))
  {
    hide BitStep, Half, Low, Xor;
    StepBits(w);
    PolynomialBits(i);
    XorBit(Half(w), POLYNOMIAL, i);
  }

  /** One step of the register multiplies by x and takes the remainder. */
  lemma StepIsTimesX(w: bv32)
    ensures Congruent(Shift(RegisterPoly(w), 1), RegisterPoly(BitStep(w)), GENERATOR)
  {
    hide BitStep, Bit;
    var before, after := Shift(RegisterPoly(w), 1), RegisterPoly(BitStep(w));
    NoBit32(w);
    forall e: nat ensures e in Add(before, after) <==> Bit(w, 0) && e in GENERATOR {
      InShift(RegisterPoly(w), 1, e);
      if e < 32 { StepBit(w, 31 - e); }
    }
    if Bit(w, 0) {
      assert Add(before, after) == GENERATOR;
      assert Times([], GENERATOR) == {} && Shift({}, 1) == {};
      assert Times([true], GENERATOR) == Add(before, after);
    } else {
      assert Times([], GENERATOR) == Add(before, after);
    }
  }

  lemma {:induction false} StepsAreTimesX(w: bv32, n: nat)
    ensures Congruent(Shift(RegisterPoly(w), n), RegisterPoly(BitSteps(w, n)), GENERATOR)
    decreases n
  {
    hide BitStep, RegisterPoly, Congruent;
    var p := RegisterPoly(w);
    if n == 0 {
      assert Shift(p, 0) == p;
      Reflexive(p, GENERATOR);
    } else {
      hide Shift;
      var next := BitStep(w);
      StepIsTimesX(w);
      ShiftsCongruent(Shift(p, 1), RegisterPoly(next), GENERATOR, n - 1);
      ShiftTwice(p, 1, n - 1);
      StepsAreTimesX(next, n - 1);
      Transitive(Shift(p, n), Shift(RegisterPoly(next), n - 1), RegisterPoly(BitSteps(next, n - 1)), GENERATOR);
    }
  }

  // Bytes

  lemma PackBits(b0: bool, b1: bool, b2: bool, b3: bool, b4: bool, b5: bool, b6: bool, b7: bool)
    ensures Low(Pack(b0, b1, b2, b3, b4, b5, b6, b7)) == b0
    ensures Half(Pack(b0, b1, b2, b3, b4, b5, b6, b7)) == Pack(b1, b2, b3, b4, b5, b6, b7, false)
  {
  }

  lemma WidenHalves(b: byte)
    ensures Low(Widen(b)) == (b % 2 == 1) && Half(Widen(b)) == Widen(b / 2)
  {
    hide Pack, Low, Half;
    var h1 := b / 2; var h2 := h1 / 2; var h3 := h2 / 2; var h4 := h3 / 2; var h5 := h4 / 2; var h6 := h5 / 2;
    var h7 := h6 / 2;
    assert h7 / 2 == 0;
    PackBits(b % 2 == 1, h1 % 2 == 1, h2 % 2 == 1, h3 % 2 == 1, h4 % 2 == 1, h5 % 2 == 1, h6 % 2 == 1, h7 % 2 == 1);
  }

  lemma {:induction false} WidenBit(b: byte, i: nat)
    ensures Bit(Widen(b), i) == BitOf(b, i)
    decreases i
  {
    hide Widen, Low, Half;
    WidenHalves(b);
    if i == 0 {
    } else {
      WidenBit(b / 2, i - 1);
    }
  }

  lemma {:induction false} NoBits(i: nat)
    ensures !BitOf(0, i)
    decreases i
  {
    if i == 0 {
    } else {
      NoBits(i - 1);
    }
  }

  lemma NoBit8(b: byte, i: nat)
    requires i >= 8
    ensures !BitOf(b, i)
  {
    var h1 := b / 2; var h2 := h1 / 2; var h3 := h2 / 2; var h4 := h3 / 2; var h5 := h4 / 2; var h6 := h5 / 2;
    var h7 := h6 / 2;
    assert h7 / 2 == 0;
    NoBits(i - 8);
    assert BitOf(h6, i - 6) == BitOf(h7, i - 7) == BitOf(0, i - 8);
    assert BitOf(h4, i - 4) == BitOf(h5, i - 5) == BitOf(h6, i - 6);
    assert BitOf(h2, i - 2) == BitOf(h3, i - 3) == BitOf(h4, i - 4);
    assert BitOf(b, i) == BitOf(h1, i - 1) == BitOf(h2, i - 2);
  }

  lemma XorPoly(a: bv32, b: bv32)
    ensures RegisterPoly(Xor(a, b)) == Add(RegisterPoly(a), RegisterPoly(b))
  {
    hide Bit, Xor;
    forall e: nat | e < 32 ensures InRegister(Xor(a, b), e) == (InRegister(a, e) != InRegister(b, e)) {
      XorBit(a, b, 31 - e);
    }
  }

  lemma WidenPoly(b: byte)
    ensures RegisterPoly(Widen(b)) == Shift(BytePoly(b), 24)
  {
    hide Bit, BitOf, Widen;
    forall e: nat ensures e in RegisterPoly(Widen(b)) <==> e in Shift(BytePoly(b), 24) {
      InShift(BytePoly(b), 24, e);
      if e < 32 {
        WidenBit(b, 31 - e);
        if e < 24 { NoBit8(b, 31 - e); }
      }
    }
  }

  /** Absorbing a byte adds it eight places above the register and takes the remainder. */
  lemma ByteStepPoly(w: bv32, b: byte)
    ensures Congruent(Add(Shift(RegisterPoly(w), 8), Shift(BytePoly(b), 32)), RegisterPoly(ByteStep(w, b)), GENERATOR)
  {
    hide RegisterPoly, BytePoly, Widen, BitSteps, Congruent, Shift, Add;
    StepsAreTimesX(Xor(w, Widen(b)), 8);
    XorPoly(w, Widen(b));
    WidenPoly(b);
    ShiftOfSum(RegisterPoly(w), Shift(BytePoly(b), 24), 8);
    ShiftTwice(BytePoly(b), 24, 8);
  }

  lemma SumReorders(a: Poly, b: Poly, c: Poly)
    ensures Add(Add(a, b), c) == Add(a, Add(b, c))
  {
  }

  /** One more byte multiplies everything before it by x^8. */
  lemma OneMoreByte(start: Poly, bytes: Bytes)
    requires bytes != []
    ensures var front := bytes[..|bytes| - 1];
            Add(Shift(start, 8 * |bytes|), Shift(PayloadPoly(bytes), 32)) ==
            Add(Shift(Add(Shift(start, 8 * |front|), Shift(PayloadPoly(front), 32)), 8),
                Shift(BytePoly(bytes[|bytes| - 1]), 32))
  {
    hide Shift, Add, BytePoly;
    var front, last := bytes[..|bytes| - 1], BytePoly(bytes[|bytes| - 1]);
    ShiftOfSum(Shift(start, 8 * |front|), Shift(PayloadPoly(front), 32), 8);
    ShiftTwice(start, 8 * |front|, 8);
    ShiftTwice(PayloadPoly(front), 32, 8);
    ShiftTwice(PayloadPoly(front), 8, 32);
    ShiftOfSum(Shift(PayloadPoly(front), 8), last, 32);
    SumReorders(Shift(start, 8 * |bytes|), Shift(PayloadPoly(front), 40), Shift(last, 32));
  }

  /** The register holds the remainder of its start followed by the payload. */
  lemma {:induction false} RegisterIsRemainder(w: bv32, bytes: Bytes)
    ensures Congruent(Add(Shift(RegisterPoly(w), 8 * |bytes|), Shift(PayloadPoly(bytes), 32)),
        RegisterPoly(Register(w, bytes)), GENERATOR)
  {
    hide ByteStep, Congruent, BytePoly, RegisterPoly;
    var g, r := GENERATOR, RegisterPoly(w);
    if bytes == [] {
      assert Add(Shift(r, 0), Shift({}, 32)) == r;
      Reflexive(r, g);
    } else {
      hide Shift, Add;
      var front, last := bytes[..|bytes| - 1], bytes[|bytes| - 1];
      assert bytes == front + [last];
      RegisterIsRemainder(w, front);
      RegisterSplits(w, front, [last]);
      var earlier := Add(Shift(r, 8 * |front|), Shift(PayloadPoly(front), 32));
      var middle := Register(w, front);
      ShiftsCongruent(earlier, RegisterPoly(middle), g, 8);
      SumsCongruent(Shift(earlier, 8), Shift(RegisterPoly(middle), 8), Shift(BytePoly(last), 32), g);
      OneMoreByte(r, bytes);
      assert Register(middle, [last]) == ByteStep(middle, last);
      ByteStepPoly(middle, last);
      Transitive(Add(Shift(earlier, 8), Shift(BytePoly(last), 32)),
                 Add(Shift(RegisterPoly(middle), 8), Shift(BytePoly(last), 32)),
                 RegisterPoly(ByteStep(middle, last)), g);
    }
  }

  // The checksum

  lemma AllOnesBits(i: nat)
    requires i < 32
    ensures Bit(ALL_ONES, i)
  {
    assert Down(ALL_ONES, 1) == 0x7FFF_FFFF && Down(ALL_ONES, 2) == 0x3FFF_FFFF && Down(ALL_ONES, 3) == 0x1FFF_FFFF;
    assert Down(ALL_ONES, 4) == 0x0FFF_FFFF && Down(ALL_ONES, 5) == 0x07FF_FFFF && Down(ALL_ONES, 6) == 0x03FF_FFFF;
    assert Down(ALL_ONES, 7) == 0x01FF_FFFF && Down(ALL_ONES, 8) == 0x00FF_FFFF && Down(ALL_ONES, 9) == 0x007F_FFFF;
    assert Down(ALL_ONES, 10) == 0x003F_FFFF && Down(ALL_ONES, 11) == 0x001F_FFFF && Down(ALL_ONES, 12) == 0x000F_FFFF;
    assert Down(ALL_ONES, 13) == 0x0007_FFFF && Down(ALL_ONES, 14) == 0x0003_FFFF && Down(ALL_ONES, 15) == 0x0001_FFFF;
    assert Down(ALL_ONES, 16) == 0x0000_FFFF && Down(ALL_ONES, 17) == 0x0000_7FFF && Down(ALL_ONES, 18) == 0x0000_3FFF;
    assert Down(ALL_ONES, 19) == 0x0000_1FFF && Down(ALL_ONES, 20) == 0x0000_0FFF && Down(ALL_ONES, 21) == 0x0000_07FF;
    assert Down(ALL_ONES, 22) == 0x0000_03FF && Down(ALL_ONES, 23) == 0x0000_01FF && Down(ALL_ONES, 24) == 0x0000_00FF;
    assert Down(ALL_ONES, 25) == 0x0000_007F && Down(ALL_ONES, 26) == 0x0000_003F && Down(ALL_ONES, 27) == 0x0000_001F;
    assert Down(ALL_ONES, 28) == 0x0000_000F && Down(ALL_ONES, 29) == 0x0000_0007 && Down(ALL_ONES, 30) == 0x0000_0003;
    assert Down(ALL_ONES, 31) == 0x0000_0001;
    BitDown(ALL_ONES, i, 0);
  }

  /** The register's start. */
  const ONES: Poly := {0, 1, 2, 3, 4, 5, 6, 7, 8, 9, 10, 11, 12, 13, 14, 15, 16, 17, 18, 19, 20, 21, 22, 23, 24, 25,
      26, 27, 28, 29, 30, 31}

  lemma StartIsOnes()
    ensures RegisterPoly(ALL_ONES) == ONES
  {
    hide Bit;
    forall e: nat | e < 32 ensures InRegister(ALL_ONES, e) { AllOnesBits(31 - e); }
  }

  /** The payload times x^32, with 32 ones added to its front. */
  function Dividend(bytes: Bytes): Poly {
    Add(Shift(ONES, 8 * |bytes|), Shift(PayloadPoly(bytes), 32))
  }

  /** The word's lowest bit is set exactly when the highest coefficient is absent, and so on upwards. */
  ghost predicate Complements(word: bv32, remainder: Poly) {
    forall e: nat :: e < 32 ==> (e in remainder <==> !Bit(word, 31 - e))
  }

  lemma FlippedBits(register: bv32)
    ensures Complements(Xor(register, ALL_ONES), RegisterPoly(register))
  {
    hide Bit, Xor;
    forall e: nat | e < 32 ensures InRegister(register, e) <==> !Bit(Xor(register, ALL_ONES), 31 - e) {
      AllOnesBits(31 - e);
      XorBit(register, ALL_ONES, 31 - e);
    }
  }

  lemma ChecksumIsWord(bytes: Bytes)
    ensures Crc32(bytes) == Xor(Register(ALL_ONES, bytes), ALL_ONES) as int
  {
    hide Register;
  }

  /** The checksum is the complement of the one remainder of the dividend by the generator. */
  lemma ChecksumIsRemainder(bytes: Bytes) returns (word: bv32, remainder: Poly)
    ensures Crc32(bytes) == word as int && Complements(word, remainder)
    ensures forall r ::
              (IsRemainder(r, Dividend(bytes), {32, 26, 23, 22, 16, 12, 11, 10, 8, 7, 5, 4, 2, 1, 0}, 32)
               <==> r == remainder)
  {
    hide Crc32, Bit, Xor, Congruent, Register, Complements, Dividend, InRegister;
    var register := Register(ALL_ONES, bytes);
    word, remainder := Xor(register, ALL_ONES), RegisterPoly(register);
    ChecksumIsWord(bytes);
    FlippedBits(register);
    StartIsOnes();
    RegisterIsRemainder(ALL_ONES, bytes);
    assert Dividend(bytes) == Add(Shift(RegisterPoly(ALL_ONES), 8 * |bytes|), Shift(PayloadPoly(bytes), 32)) by {
      DividendIs(bytes);
    }
    assert Leads(32, GENERATOR);
    forall r | IsRemainder(r, Dividend(bytes), GENERATOR, 32) ensures r == remainder {
      RemainderIsUnique(r, remainder, Dividend(bytes), GENERATOR, 32);
    }
  }

  lemma DividendIs(bytes: Bytes)
    ensures Dividend(bytes) == Add(Shift(ONES, 8 * |bytes|), Shift(PayloadPoly(bytes), 32))
  {
  }

  lemma EightSteps(a: bv32, b: bv32, c: bv32, d: bv32, e: bv32, f: bv32, g: bv32, h: bv32, i: bv32)
    requires BitStep(a) == b && BitStep(b) == c && BitStep(c) == d && BitStep(d) == e
    requires BitStep(e) == f && BitStep(f) == g && BitStep(g) == h && BitStep(h) == i
    ensures BitSteps(a, 8) == i
  {
    hide BitStep;
    assert BitSteps(a, 8) == BitSteps(b, 7) == BitSteps(c, 6) == BitSteps(d, 5) == BitSteps(e, 4);
    assert BitSteps(e, 4) == BitSteps(f, 3) == BitSteps(g, 2) == BitSteps(h, 1) == BitSteps(i, 0);
  }

  lemma CheckByte1()
    ensures ByteStep(0xFFFF_FFFF, 49) == 0x7C23_1048
  {
    assert Widen(49) == 49;
    EightSteps(0xFFFF_FFCE, 0x7FFF_FFE7, 0xD247_7CD3, 0x849B_3D49, 0xAFF5_1D84,
               0x57FA_8EC2, 0x2BFD_4761, 0xF846_2090, 0x7C23_1048);
  }

  lemma CheckByte2()
    ensures ByteStep(0x7C23_1048, 50) == 0xB0AC_BB32
  {
    assert Widen(50) == 50;
    EightSteps(0x7C23_107A, 0x3E11_883D, 0xF2B0_473E, 0x7958_239F, 0xD114_92EF,
               0x8532_CA57, 0xAF21_E60B, 0xBA28_7025, 0xB0AC_BB32);
  }

  lemma CheckByte3()
    ensures ByteStep(0xB0AC_BB32, 51) == 0x77B7_9C2D
  {
    assert Widen(51) == 51;
    EightSteps(0xB0AC_BB01, 0xB5EE_DEA0, 0x5AF7_6F50, 0x2D7B_B7A8, 0x16BD_DBD4,
               0x0B5E_EDEA, 0x05AF_76F5, 0xEF6F_385A, 0x77B7_9C2D);
  }

  lemma CheckByte4()
    ensures ByteStep(0x77B7_9C2D, 52) == 0x641C_1F5C
  {
    assert Widen(52) == 52;
    EightSteps(0x77B7_9C19, 0xD663_4D2C, 0x6B31_A696, 0x3598_D34B, 0xF774_EA85,
               0x9602_F662, 0x4B01_7B31, 0xC838_3EB8, 0x641C_1F5C);
  }

  lemma CheckByte5()
    ensures ByteStep(0x641C_1F5C, 53) == 0x340A_C5E3
  {
    assert Widen(53) == 53;
    EightSteps(0x641C_1F69, 0xDFB6_8C94, 0x6FDB_464A, 0x37ED_A325, 0xF64E_52B2,
               0x7B27_2959, 0xD02B_178C, 0x6815_8BC6, 0x340A_C5E3);
  }

  lemma CheckByte6()
    ensures ByteStep(0x340A_C5E3, 54) == 0xF68D_2C9E
  {
    assert Widen(54) == 54;
    EightSteps(0x340A_C5D5, 0xF7BD_E1CA, 0x7BDE_F0E5, 0xD057_FB52, 0x682B_FDA9,
               0xD9AD_7DF4, 0x6CD6_BEFA, 0x366B_5F7D, 0xF68D_2C9E);
  }

  lemma CheckByte7()
    ensures ByteStep(0xF68D_2C9E, 55) == 0xAFFC_9660
  {
    assert Widen(55) == 55;
    EightSteps(0xF68D_2CA9, 0x96FE_1574, 0x4B7F_0ABA, 0x25BF_855D, 0xFF67_418E,
               0x7FB3_A0C7, 0xD261_5343, 0x8488_2A81, 0xAFFC_9660);
  }

  lemma CheckByte8()
    ensures ByteStep(0xAFFC_9660, 56) == 0x651F_2550
  {
    assert Widen(56) == 56;
    EightSteps(0xAFFC_9658, 0x57FE_4B2C, 0x2BFF_2596, 0x15FF_92CB, 0xE747_4A45,
               0x9E1B_2602, 0x4F0D_9301, 0xCA3E_4AA0, 0x651F_2550);
  }

  lemma CheckByte9()
    ensures ByteStep(0x651F_2550, 57) == 0x340B_C6D9
  {
    assert Widen(57) == 57;
    EightSteps(0x651F_2569, 0xDF37_1194, 0x6F9B_88CA, 0x37CD_C465, 0xF65E_6112,
               0x7B2F_3089, 0xD02F_1B64, 0x6817_8DB2, 0x340B_C6D9);
  }

  lemma RegisterNext(w: bv32, first: byte, rest: Bytes)
    ensures Register(w, [first] + rest) == Register(ByteStep(w, first), rest)
  {
    hide ByteStep;
    assert ([first] + rest)[1..] == rest;
  }

  lemma Nothing(w: bv32)
    ensures Register(w, []) == w
  {
  }

  /** The check value of the nine digits "123456789". */
  lemma CheckValue()
    ensures Crc32([49, 50, 51, 52, 53, 54, 55, 56, 57]) == 0xCBF4_3926
  {
    hide Register, ByteStep;
    CheckByte1();
    CheckByte2();
    CheckByte3();
    CheckByte4();
    CheckByte5();
    CheckByte6();
    CheckByte7();
    CheckByte8();
    CheckByte9();
    RegisterNext(0xFFFF_FFFF, 49, [50, 51, 52, 53, 54, 55, 56, 57]);
    assert [49] + [50, 51, 52, 53, 54, 55, 56, 57] == [49, 50, 51, 52, 53, 54, 55, 56, 57];
    RegisterNext(0x7C23_1048, 50, [51, 52, 53, 54, 55, 56, 57]);
    assert [50] + [51, 52, 53, 54, 55, 56, 57] == [50, 51, 52, 53, 54, 55, 56, 57];
    RegisterNext(0xB0AC_BB32, 51, [52, 53, 54, 55, 56, 57]);
    assert [51] + [52, 53, 54, 55, 56, 57] == [51, 52, 53, 54, 55, 56, 57];
    RegisterNext(0x77B7_9C2D, 52, [53, 54, 55, 56, 57]);
    assert [52] + [53, 54, 55, 56, 57] == [52, 53, 54, 55, 56, 57];
    RegisterNext(0x641C_1F5C, 53, [54, 55, 56, 57]);
    assert [53] + [54, 55, 56, 57] == [53, 54, 55, 56, 57];
    RegisterNext(0x340A_C5E3, 54, [55, 56, 57]);
    assert [54] + [55, 56, 57] == [54, 55, 56, 57];
    RegisterNext(0xF68D_2C9E, 55, [56, 57]);
    assert [55] + [56, 57] == [55, 56, 57];
    RegisterNext(0xAFFC_9660, 56, [57]);
    assert [56] + [57] == [56, 57];
    RegisterNext(0x651F_2550, 57, []);
    Nothing(0x340B_C6D9);
    assert [57] + [] == [57];
  }
}
