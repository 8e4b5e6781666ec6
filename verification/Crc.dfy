/** The bitwise CRC-32 of codec.cpp (section 8 of RFC 1952). */
module Crc {
  import opened Values

  const POLYNOMIAL: bv32 := 0xEDB8_8320
  const ALL_ONES: bv32 := 0xFFFF_FFFF

  function BitStep(crc: bv32): bv32 {
    var mask: bv32 := 0 - (crc & 1);
    (crc >> 1) ^ (POLYNOMIAL & mask)
  }

  /** The polynomial's top bit records the bit that was shifted out. */
  function BitUnstep(crc: bv32): bv32 {
    if crc >> 31 == 1 then ((crc ^ POLYNOMIAL) << 1) | 1 else crc << 1
  }

  /** A step can be undone. */
  lemma UnstepUndoes(crc: bv32)
    ensures BitUnstep(BitStep(crc)) == crc
  {
  }

  /** Distinct registers stay distinct. */
  lemma BitStepInjective(a: bv32, b: bv32)
    requires a != b
    ensures BitStep(a) != BitStep(b)
  {
    hide BitStep, BitUnstep;
    UnstepUndoes(a);
    UnstepUndoes(b);
  }

  function BitSteps(crc: bv32, n: nat): bv32
    decreases n
  {
    if n == 0 then crc else BitSteps(BitStep(crc), n - 1)
  }

  lemma {:induction false} BitStepsInjective(a: bv32, b: bv32, n: nat)
    requires a != b
    ensures BitSteps(a, n) != BitSteps(b, n)
    decreases n
  {
    hide BitStep;
    if n == 0 {
    } else {
      BitStepInjective(a, b);
      BitStepsInjective(BitStep(a), BitStep(b), n - 1);
    }
  }

  /** A byte as the low bits of a register. */
  function Widen(b: byte): bv32 {
    WidenHigh(b / 2, b % 2 == 1)
  }

  function WidenHigh(h1: nat, b0: bool): bv32 {
    var h2 := h1 / 2; var h3 := h2 / 2; var h4 := h3 / 2; var h5 := h4 / 2; var h6 := h5 / 2; var h7 := h6 / 2;
    Pack(b0, h1 % 2 == 1, h2 % 2 == 1, h3 % 2 == 1, h4 % 2 == 1, h5 % 2 == 1, h6 % 2 == 1, h7 % 2 == 1)
  }

  function Pack(b0: bool, b1: bool, b2: bool, b3: bool, b4: bool, b5: bool, b6: bool, b7: bool): bv32 {
    (if b0 then 1 else 0) | (if b1 then 2 else 0) | (if b2 then 4 else 0) | (if b3 then 8 else 0)
    | (if b4 then 16 else 0) | (if b5 then 32 else 0) | (if b6 then 64 else 0) | (if b7 then 128 else 0)
  }

  function Absorb(crc: bv32, word: bv32): bv32 {
    BitSteps(crc ^ word, 8)
  }

  function ByteStep(crc: bv32, b: byte): bv32 {
    Absorb(crc, Widen(b))
  }

  lemma XorInjective(a: bv32, b: bv32, x: bv32)
    requires a != b
    ensures a ^ x != b ^ x && x ^ a != x ^ b
  {
  }

  lemma PackInjective(b0: bool, b1: bool, b2: bool, b3: bool, b4: bool, b5: bool, b6: bool, b7: bool,
                      c0: bool, c1: bool, c2: bool, c3: bool, c4: bool, c5: bool, c6: bool, c7: bool)
    requires Pack(b0, b1, b2, b3, b4, b5, b6, b7) == Pack(c0, c1, c2, c3, c4, c5, c6, c7)
    ensures b0 == c0 && b1 == c1 && b2 == c2 && b3 == c3 && b4 == c4 && b5 == c5 && b6 == c6 && b7 == c7
  {
  }

  lemma WidenDetermines(a: byte, b: byte)
    requires Widen(a) == Widen(b)
    ensures a == b
  {
    WidenHighDetermines(a / 2, a % 2 == 1, b / 2, b % 2 == 1);
  }

  lemma WidenHighDetermines(a1: nat, a0: bool, b1: nat, b0: bool)
    requires a1 < 128 && b1 < 128
    requires WidenHigh(a1, a0) == WidenHigh(b1, b0)
    ensures a1 == b1 && a0 == b0
  {
    hide Pack;
    var a2, b2 := a1 / 2, b1 / 2; var a3, b3 := a2 / 2, b2 / 2; var a4, b4 := a3 / 2, b3 / 2;
    var a5, b5 := a4 / 2, b4 / 2; var a6, b6 := a5 / 2, b5 / 2; var a7, b7 := a6 / 2, b6 / 2;
    PackInjective(a0, a1 % 2 == 1, a2 % 2 == 1, a3 % 2 == 1, a4 % 2 == 1, a5 % 2 == 1, a6 % 2 == 1, a7 % 2 == 1,
                  b0, b1 % 2 == 1, b2 % 2 == 1, b3 % 2 == 1, b4 % 2 == 1, b5 % 2 == 1, b6 % 2 == 1, b7 % 2 == 1);
    assert a7 / 2 == 0 && b7 / 2 == 0;
    assert SameBits(a7, b7, 1);
    assert SameBits(a5, b5, 3);
    assert SameBits(a3, b3, 5);
    assert SameBits(a1, b1, 7);
    SameBitsDetermine(a1, b1, 7);
  }

  lemma Rejoin(a: nat, b: nat)
    requires a % 2 == b % 2 && a / 2 == b / 2
    ensures a == b
  {
  }

  predicate SameBits(a: nat, b: nat, n: nat) {
    if n == 0 then a == b else a % 2 == b % 2 && SameBits(a / 2, b / 2, n - 1)
  }

  lemma {:induction false} SameBitsDetermine(a: nat, b: nat, n: nat)
    requires SameBits(a, b, n)
    ensures a == b
  {
    if n == 0 {
    } else {
      SameBitsDetermine(a / 2, b / 2, n - 1);
      Rejoin(a, b);
    }
  }

  lemma WidenInjective(a: byte, b: byte)
    requires a != b
    ensures Widen(a) != Widen(b)
  {
    hide Widen;
    if Widen(a) == Widen(b) { WidenDetermines(a, b); }
  }

  /** The register after some bytes. */
  function Register(crc: bv32, bytes: Bytes): bv32
    decreases |bytes|
  {
    if bytes == [] then crc else Register(ByteStep(crc, bytes[0]), bytes[1..])
  }

  function Complement(crc: bv32): uint32 {
    (crc ^ ALL_ONES) as int
  }

  lemma ComplementInjective(a: bv32, b: bv32)
    requires a != b
    ensures Complement(a) != Complement(b)
  {
    XorInjective(a, b, ALL_ONES);
    assert ((a ^ ALL_ONES) as int) as bv32 == a ^ ALL_ONES && ((b ^ ALL_ONES) as int) as bv32 == b ^ ALL_ONES;
  }

  function Crc32(bytes: Bytes): uint32 {
    Complement(Register(ALL_ONES, bytes))
  }

  /** Absorbing is injective in the register and in the word. */
  lemma AbsorbInjective(a: bv32, b: bv32, word: bv32)
    requires a != b
    ensures Absorb(a, word) != Absorb(b, word) && Absorb(word, a) != Absorb(word, b)
  {
    hide BitSteps;
    XorInjective(a, b, word);
    BitStepsInjective(a ^ word, b ^ word, 8);
    BitStepsInjective(word ^ a, word ^ b, 8);
  }

  lemma ByteStepKeepsDistinct(a: bv32, b: bv32, x: byte)
    requires a != b
    ensures ByteStep(a, x) != ByteStep(b, x)
  {
    hide Absorb, Widen;
    AbsorbInjective(a, b, Widen(x));
  }

  lemma {:induction false} RegisterInjective(a: bv32, b: bv32, bytes: Bytes)
    requires a != b
    ensures Register(a, bytes) != Register(b, bytes)
    decreases |bytes|
  {
    hide ByteStep;
    if bytes == [] {
    } else {
      ByteStepKeepsDistinct(a, b, bytes[0]);
      RegisterInjective(ByteStep(a, bytes[0]), ByteStep(b, bytes[0]), bytes[1..]);
    }
  }

  lemma {:induction false} RegisterSplits(crc: bv32, prefix: Bytes, suffix: Bytes)
    ensures Register(crc, prefix + suffix) == Register(Register(crc, prefix), suffix)
    decreases |prefix|
  {
    hide ByteStep;
    if prefix == [] {
      assert prefix + suffix == suffix;
    } else {
      assert (prefix + suffix)[1..] == prefix[1..] + suffix;
      RegisterSplits(ByteStep(crc, prefix[0]), prefix[1..], suffix);
    }
  }

  /** One altered byte always changes the checksum, at any length. */
  lemma OneByteDetected(payload: Bytes, i: nat, altered: byte)
    requires i < |payload| && altered != payload[i]
    ensures Crc32(payload[i := altered]) != Crc32(payload)
  {
    hide ByteStep, Complement;
    var before, after := payload[..i], payload[i + 1..];
    assert payload == before + ([payload[i]] + after);
    assert payload[i := altered] == before + ([altered] + after);
    RegisterSplits(ALL_ONES, before, [payload[i]] + after);
    RegisterSplits(ALL_ONES, before, [altered] + after);
    var r := Register(ALL_ONES, before);
    assert ([payload[i]] + after)[1..] == after && ([altered] + after)[1..] == after;
    ByteStepInjective(r, payload[i], altered);
    RegisterInjective(ByteStep(r, payload[i]), ByteStep(r, altered), after);
    ComplementInjective(Register(ALL_ONES, payload), Register(ALL_ONES, payload[i := altered]));
  }

  lemma ByteStepInjective(crc: bv32, a: byte, b: byte)
    requires a != b
    ensures ByteStep(crc, a) != ByteStep(crc, b)
  {
    hide Absorb, Widen;
    WidenInjective(a, b);
    AbsorbInjective(Widen(a), Widen(b), crc);
  }

  method AbsorbWord(register: bv32, word: bv32) returns (crc: bv32)
    ensures crc == Absorb(register, word)
  {
    crc := register ^ word;
    ghost var start := crc;
    for bit := 0 to 8
      invariant BitSteps(start, 8) == BitSteps(crc, 8 - bit)
    {
      var mask: bv32 := 0 - (crc & 1);
      crc := (crc >> 1) ^ (POLYNOMIAL & mask);
    }
  }

  method ComputeCrc32(bytes: Bytes) returns (checksum: uint32)
    ensures checksum == Crc32(bytes)
  {
    hide Absorb, Widen, Complement;
    var crc := ALL_ONES;
    for i := 0 to |bytes|
      invariant Register(ALL_ONES, bytes) == Register(crc, bytes[i..])
    {
      assert bytes[i..][1..] == bytes[i + 1..];
      crc := AbsorbWord(crc, Widen(bytes[i]));
    }
    checksum := Complement(crc);
  }
}
