/** The 64-bit FNV-1a hash (fingerprint.cpp), over integers modulo 2^64. */
module FowlerNollVo {
  import opened Values

  const FNV_OFFSET_BASIS: uint64 := 14695981039346656037
  const FNV_PRIME: uint64 := 1099511628211
  const TWO_64: int := 0x1_0000_0000_0000_0000

  function Pow2(n: nat): nat {
    if n == 0 then 1 else 2 * Pow2(n - 1)
  }

  /** Exclusive or of the low bits of two integers. */
  function Xor(a: nat, b: nat, bits: nat): (r: nat)
    ensures r < Pow2(bits)
    decreases bits
  {
    if bits == 0 then 0 else (if a % 2 == b % 2 then 0 else 1) + 2 * Xor(a / 2, b / 2, bits - 1)
  }

  lemma {:induction false} Pow2Adds(m: nat, n: nat)
    ensures Pow2(m + n) == Pow2(m) * Pow2(n)
    decreases m
  {
    if m == 0 {
    } else {
      Pow2Adds(m - 1, n);
    }
  }

  lemma Pow2Of64()
    ensures Pow2(64) == TWO_64
  {
    assert Pow2(3) == 8;
    Pow2Adds(5, 3);
    assert Pow2(5) == 32;
    Pow2Adds(8, 8);
    Pow2Adds(16, 16);
    Pow2Adds(32, 32);
  }

  function FnvStep(hash: uint64, b: byte): uint64 {
    Pow2Of64();
    Xor(hash, b, 64) * FNV_PRIME % TWO_64
  }

  function Fnv(hash: uint64, bytes: Bytes): uint64
    decreases |bytes|
  {
    if bytes == [] then hash else Fnv(FnvStep(hash, bytes[0]), bytes[1..])
  }

  function Fnv1a64(bytes: Bytes): uint64 {
    Fnv(FNV_OFFSET_BASIS, bytes)
  }

  lemma {:induction false} XorInjective(x: nat, y: nat, b: nat, c: nat, bits: nat)
    requires x < Pow2(bits) && y < Pow2(bits) && b < Pow2(bits) && c < Pow2(bits)
    requires Xor(x, b, bits) == Xor(y, c, bits)
    ensures b == c ==> x == y
    ensures x == y ==> b == c
    decreases bits
  {
    if bits == 0 {
    } else {
      assert Xor(x, b, bits) / 2 == Xor(x / 2, b / 2, bits - 1) && Xor(y, c, bits) / 2 == Xor(y / 2, c / 2, bits - 1);
      assert (x % 2 == b % 2) == (y % 2 == c % 2) by { assert Xor(x, b, bits) % 2 == Xor(y, c, bits) % 2; }
      XorInjective(x / 2, y / 2, b / 2, c / 2, bits - 1);
    }
  }

  lemma MultiplesCollapse(d: int, k: int)
    requires d * 1099511628211 == k * 0x1_0000_0000_0000_0000
    requires -0x1_0000_0000_0000_0000 < d < 0x1_0000_0000_0000_0000
    ensures d == 0
  {
    // 1099511628211 * 14886173955864302971 == 1 + 887285111055 * 2^64
    var m := k * 14886173955864302971 - d * 887285111055;
    assert d == 0x1_0000_0000_0000_0000 * m;
  }

  /** The prime is odd, so multiplying by it loses nothing modulo 2^64. */
  lemma PrimeInvertible(a: uint64, b: uint64)
    requires a * FNV_PRIME % TWO_64 == b * FNV_PRIME % TWO_64
    ensures a == b
  {
    var x: int, y: int := a * 1099511628211, b * 1099511628211;
    assert x % 0x1_0000_0000_0000_0000 == y % 0x1_0000_0000_0000_0000;
    var k := x / 0x1_0000_0000_0000_0000 - y / 0x1_0000_0000_0000_0000;
    assert x - y == k * 0x1_0000_0000_0000_0000;
    var d: int := a - b;
    MultiplesCollapse(d, k);
  }

  /** A step loses neither the register nor the byte. */
  lemma FnvStepInjective(g: uint64, h: uint64, b: byte, c: byte)
    requires FnvStep(g, b) == FnvStep(h, c)
    ensures b == c ==> g == h
    ensures g == h ==> b == c
  {
    hide Xor;
    Pow2Of64();
    PrimeInvertible(Xor(g, b, 64), Xor(h, c, 64));
    XorInjective(g, h, b, c, 64);
  }

  lemma {:induction false} FnvInjective(g: uint64, h: uint64, bytes: Bytes)
    requires g != h
    ensures Fnv(g, bytes) != Fnv(h, bytes)
    decreases |bytes|
  {
    hide FnvStep;
    if bytes == [] {
    } else {
      if FnvStep(g, bytes[0]) == FnvStep(h, bytes[0]) { FnvStepInjective(g, h, bytes[0], bytes[0]); }
      FnvInjective(FnvStep(g, bytes[0]), FnvStep(h, bytes[0]), bytes[1..]);
    }
  }

  lemma {:induction false} FnvFrom(hash: uint64, bytes: Bytes, i: nat, altered: byte)
    requires i < |bytes| && altered != bytes[i]
    ensures Fnv(hash, bytes[i := altered]) != Fnv(hash, bytes)
    decreases |bytes|
  {
    hide FnvStep;
    var changed := bytes[i := altered];
    if i == 0 {
      assert changed[1..] == bytes[1..];
      if FnvStep(hash, altered) == FnvStep(hash, bytes[0]) { FnvStepInjective(hash, hash, altered, bytes[0]); }
      FnvInjective(FnvStep(hash, altered), FnvStep(hash, bytes[0]), bytes[1..]);
    } else {
      assert changed[1..] == bytes[1..][i - 1 := altered];
      FnvFrom(FnvStep(hash, bytes[0]), bytes[1..], i - 1, altered);
    }
  }

  /** One altered byte of an export always changes its fingerprint, at any length. */
  lemma OneByteChangesFingerprint(bytes: Bytes, i: nat, altered: byte)
    requires i < |bytes| && altered != bytes[i]
    ensures Fnv1a64(bytes[i := altered]) != Fnv1a64(bytes)
  {
    FnvFrom(FNV_OFFSET_BASIS, bytes, i, altered);
  }

  /** The hash is folded byte by byte. */
  method ComputeFnv1a64(bytes: Bytes) returns (hash: uint64)
    ensures hash == Fnv1a64(bytes)
  {
    hash := FNV_OFFSET_BASIS;
    for i := 0 to |bytes|
      invariant Fnv1a64(bytes) == Fnv(hash, bytes[i..])
    {
      hide Xor;
      Pow2Of64();
      var mixed := Xor(hash, bytes[i], 64);
      assert bytes[i..][1..] == bytes[i + 1..];
      hash := mixed * FNV_PRIME % TWO_64;
    }
  }

  // The published hash of "hello"

  function Scaled(high: nat, bits: nat): nat {
    if bits == 0 then high else 2 * Scaled(high, bits - 1)
  }

  lemma XorUnfolds(a: nat, b: nat, bits: nat)
    requires bits > 0
    ensures Xor(a, b, bits) == (if a % 2 == b % 2 then 0 else 1) + 2 * Xor(a / 2, b / 2, bits - 1)
  {
  }

  /** Only the low bits take part in an exclusive or with a short operand. */
  lemma {:induction false} XorBelow(high: nat, low: nat, b: nat, bits: nat)
    requires high < Pow2(56) && low < Pow2(bits) && b < Pow2(bits)
    ensures Xor(Scaled(high, bits) + low, b, bits + 56) == Scaled(high, bits) + Xor(low, b, bits)
    decreases bits
  {
    hide Xor;
    if bits == 0 {
      XorZero(high, 56);
    } else {
      var m := Scaled(high, bits - 1);
      assert (2 * m + low) / 2 == m + low / 2 && (2 * m + low) % 2 == low % 2;
      XorUnfolds(2 * m + low, b, bits + 56);
      XorUnfolds(low, b, bits);
      XorBelow(high, low / 2, b / 2, bits - 1);
    }
  }

  lemma {:induction false} XorZero(a: nat, bits: nat)
    requires a < Pow2(bits)
    ensures Xor(a, 0, bits) == a
    decreases bits
  {
    if bits == 0 {
    } else {
      XorZero(a / 2, bits - 1);
    }
  }

  lemma Pow2Of8And56()
    ensures Pow2(8) == 0x100 && Pow2(56) == 0x100_0000_0000_0000
  {
    Pow2Adds(5, 3);
    Pow2Adds(8, 8);
    Pow2Adds(16, 8);
    Pow2Adds(24, 24);
    Pow2Adds(48, 8);
    assert Pow2(5) == 32 && Pow2(3) == 8;
  }

  lemma ScaledByte(high: nat)
    ensures Scaled(high, 8) == 0x100 * high
  {
    assert Scaled(high, 1) == 2 * high;
    assert Scaled(high, 3) == 8 * high;
    assert Scaled(high, 5) == 32 * high;
    assert Scaled(high, 7) == 128 * high;
  }

  lemma StepFrom(high: nat, low: byte, b: byte)
    requires high < 0x100_0000_0000_0000
    ensures FnvStep(0x100 * high + low, b) == (0x100 * high + Xor(low, b, 8)) * FNV_PRIME % TWO_64
  {
    hide Xor, Pow2, Scaled;
    Pow2Of8And56();
    ScaledByte(high);
    XorBelow(high, low, b, 8);
  }

  /** A step with its product divided out. */
  lemma StepTo(high: nat, low: byte, b: byte, quotient: nat, next: uint64)
    requires high < 0x100_0000_0000_0000
    requires (0x100 * high + Xor(low, b, 8)) * 1099511628211 == quotient * 0x1_0000_0000_0000_0000 + next
    ensures FnvStep(0x100 * high + low, b) == next
  {
    hide FnvStep, Xor;
    StepFrom(high, low, b);
    var product: int := (0x100 * high + Xor(low, b, 8)) * 1099511628211;
    assert product % 0x1_0000_0000_0000_0000 == next;
  }

  lemma FirstXor()
    ensures Xor(37, 104, 8) == 77
  {
    assert Xor(0, 1, 2) == 1;
    assert Xor(2, 6, 4) == 4;
    assert Xor(9, 26, 6) == 19;
  }

  lemma SecondXor()
    ensures Xor(215, 101, 8) == 178
  {
    assert Xor(3, 1, 2) == 2;
    assert Xor(13, 6, 4) == 11;
    assert Xor(53, 25, 6) == 44;
  }

  lemma ThirdXor()
    ensures Xor(118, 108, 8) == 26
  {
    assert Xor(1, 1, 2) == 0;
    assert Xor(7, 6, 4) == 1;
    assert Xor(29, 27, 6) == 6;
  }

  lemma FourthXor()
    ensures Xor(46, 108, 8) == 66
  {
    assert Xor(0, 1, 2) == 1;
    assert Xor(2, 6, 4) == 4;
    assert Xor(11, 27, 6) == 16;
  }

  lemma FifthXor()
    ensures Xor(38, 111, 8) == 73
  {
    assert Xor(0, 1, 2) == 1;
    assert Xor(2, 6, 4) == 4;
    assert Xor(9, 27, 6) == 18;
  }

  lemma HelloFirst()
    ensures FnvStep(0xCBF2_9CE4_8422_2325, 104) == 0xAF63_E54C_8601_FBD7
  {
    hide FnvStep, Xor;
    FirstXor();
    StepTo(0xCB_F29C_E484_2223, 37, 104, 875948729822, 0xAF63_E54C_8601_FBD7);
  }

  lemma HelloSecond()
    ensures FnvStep(0xAF63_E54C_8601_FBD7, 101) == 0x08BA_5307_B55E_AF76
  {
    hide FnvStep, Xor;
    SecondXor();
    StepTo(0xAF_63E5_4C86_01FB, 215, 101, 753295248816, 0x08BA_5307_B55E_AF76);
  }

  lemma HelloThird()
    ensures FnvStep(0x08BA_5307_B55E_AF76, 108) == 0x334A_3019_2FE3_892E
  {
    hide FnvStep, Xor;
    ThirdXor();
    StepTo(0x08_BA53_07B5_5EAF, 118, 108, 37485742020, 0x334A_3019_2FE3_892E);
  }

  lemma HelloFourth()
    ensures FnvStep(0x334A_3019_2FE3_892E, 108) == 0x0A98_FCCC_5FA2_3B26
  {
    hide FnvStep, Xor;
    FourthXor();
    StepTo(0x33_4A30_192F_E389, 46, 108, 220287998343, 0x0A98_FCCC_5FA2_3B26);
  }

  lemma HelloFifth()
    ensures FnvStep(0x0A98_FCCC_5FA2_3B26, 111) == 0xA430_D846_80AA_BD0B
  {
    hide FnvStep, Xor;
    FifthXor();
    StepTo(0x0A_98FC_CC5F_A23B, 38, 111, 45516377201, 0xA430_D846_80AA_BD0B);
  }

  /** Five steps from the offset basis. */
  lemma HelloHash()
    ensures Fnv1a64([104, 101, 108, 108, 111]) == 0xA430_D846_80AA_BD0B
  {
    hide FnvStep, Fnv;
    HelloFirst();
    HelloSecond();
    HelloThird();
    HelloFourth();
    HelloFifth();
    FnvNext(0xCBF2_9CE4_8422_2325, 104, [101, 108, 108, 111]);
    assert [104] + [101, 108, 108, 111] == [104, 101, 108, 108, 111];
    FnvNext(0xAF63_E54C_8601_FBD7, 101, [108, 108, 111]);
    assert [101] + [108, 108, 111] == [101, 108, 108, 111];
    FnvNext(0x08BA_5307_B55E_AF76, 108, [108, 111]);
    assert [108] + [108, 111] == [108, 108, 111];
    FnvNext(0x334A_3019_2FE3_892E, 108, [111]);
    assert [108] + [111] == [108, 111];
    FnvNext(0x0A98_FCCC_5FA2_3B26, 111, []);
    assert [111] + [] == [111];
    FnvOfNone(0xA430_D846_80AA_BD0B);
  }

  lemma FnvOfNone(hash: uint64)
    ensures Fnv(hash, []) == hash
  {
  }

  lemma FnvNext(hash: uint64, first: byte, rest: Bytes)
    ensures Fnv(hash, [first] + rest) == Fnv(FnvStep(hash, first), rest)
  {
    hide FnvStep;
    assert ([first] + rest)[1..] == rest;
  }
}
