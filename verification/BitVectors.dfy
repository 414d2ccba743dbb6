/** The few facts about machine words that need bit-level reasoning, each by itself. */
module BitVectors {

  /** Every byte value is the value of some octet. */
  lemma {:induction false} OctetOf(b: int) returns (x: bv8)
    requires 0 <= b < 0x100
    ensures x as int == b
    decreases b
  {
    if b == 0 {
      x := 0;
    } else {
      var y := OctetOf(b - 1);
      x := y + 1;
    }
  }

  lemma OctetBack(x: bv8)
    ensures (x as int) as bv8 == x && 0 <= x as int < 0x100
  {}

  lemma ByteRoundTrip(b: int)
    requires 0 <= b < 0x100
    ensures (b as bv8) as int == b
  {
    var x := OctetOf(b);
    OctetBack(x);
  }

  lemma WideInjective(a: bv8, b: bv8)
    ensures (a as bv32) << 24 == (b as bv32) << 24 ==> a == b
    ensures a as bv32 == b as bv32 ==> a == b
  {}

  lemma IntInjective(a: bv32, b: bv32)
    requires a as int == b as int
    ensures a == b
  {
    assert (a as int) as bv32 == a && (b as int) as bv32 == b;
  }

  lemma XorLeft(a: bv32, b: bv32)
    ensures ((a ^ b) & 0x8000_0000 != 0) == ((a & 0x8000_0000 != 0) != (b & 0x8000_0000 != 0))
    ensures (a ^ b) << 1 == (a << 1) ^ (b << 1)
  {}

  lemma XorRight(a: bv32, b: bv32)
    ensures ((a ^ b) & 1 != 0) == ((a & 1 != 0) != (b & 1 != 0))
    ensures (a ^ b) >> 1 == (a >> 1) ^ (b >> 1)
  {}

  lemma RebuildLeft(w: bv32)
    ensures (if w & 0x8000_0000 != 0 then 0x8000_0000 else 0) | ((w << 1) >> 1) == w
  {}

  lemma RebuildRight(w: bv32)
    ensures (if w & 1 != 0 then 1 else 0) | ((w >> 1) << 1) == w
  {}

  lemma EightLeft(w: bv32)
    ensures w << 1 << 1 << 1 << 1 << 1 << 1 << 1 << 1 == w << 8
  {}

  lemma EightRight(w: bv32)
    ensures w >> 1 >> 1 >> 1 >> 1 >> 1 >> 1 >> 1 >> 1 == w >> 8
  {}

  lemma FourBytes(w: bv32)
    ensures w << 8 << 8 << 8 << 8 == 0 && w >> 8 >> 8 >> 8 >> 8 == 0
  {}

  lemma ByteLeaves(b: bv8)
    ensures ((b as bv32) << 24) << 8 == 0 && (b as bv32) >> 8 == 0
  {}

  lemma LowBit(w: bv32)
    ensures w & 1 == 0 || w & 1 == 1
  {}

  lemma MaskOf(m: bv32)
    requires m == 0 || m == 1
    ensures 0xedb8_8320 & (0 - m) == if m == 1 then 0xedb8_8320 else 0
  {}

  lemma XorZero(w: bv32)
    ensures w ^ 0 == w
  {}

  lemma LeftBits(w: bv32)
    ensures (w << 1) & 0x8000_0000 != 0 <==> w & 0x4000_0000 != 0
    ensures (w << 1 << 1) & 0x8000_0000 != 0 <==> w & 0x2000_0000 != 0
    ensures (w << 1 << 1 << 1) & 0x8000_0000 != 0 <==> w & 0x1000_0000 != 0
  {}

  lemma RightBits(w: bv32)
    ensures (w >> 1) & 1 != 0 <==> w & 2 != 0
    ensures (w >> 1 >> 1) & 1 != 0 <==> w & 4 != 0
    ensures (w >> 1 >> 1 >> 1) & 1 != 0 <==> w & 8 != 0
  {}
}
