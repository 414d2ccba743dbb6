/** A 32-bit word that shifts bits out at its top (`left`) or at its bottom, and the sequence of bits it holds. */
module ShiftRegister {
  import opened BitVectors

  /** Whether the outgoing bit is set. */
  predicate Out(left: bool, w: bv32) {
    if left then w & 0x8000_0000 != 0 else w & 1 != 0
  }

  /** The plain shift. */
  function Next(left: bool, w: bv32): bv32 {
    if left then w << 1 else w >> 1
  }

  function Xored(a: bv32, b: bv32): bv32 {
    a ^ b
  }

  lemma OutXor(left: bool, a: bv32, b: bv32)
    ensures Out(left, Xored(a, b)) == (Out(left, a) != Out(left, b))
  {
    if left {
      XorLeft(a, b);
    } else {
      XorRight(a, b);
    }
  }

  lemma NextXor(left: bool, a: bv32, b: bv32)
    ensures Next(left, Xored(a, b)) == Xored(Next(left, a), Next(left, b))
  {
    if left {
      XorLeft(a, b);
    } else {
      XorRight(a, b);
    }
  }

  /** The word with that outgoing bit and that shift. */
  function Rebuilt(left: bool, out: bool, next: bv32): bv32 {
    if left then (if out then 0x8000_0000 else 0) | (next >> 1) else (if out then 1 else 0) | (next << 1)
  }

  lemma Rebuild(left: bool, w: bv32)
    ensures Rebuilt(left, Out(left, w), Next(left, w)) == w
  {
    if left {
      RebuildLeft(w);
    } else {
      RebuildRight(w);
    }
  }

  lemma NextInjective(left: bool, a: bv32, b: bv32)
    requires Out(left, a) == Out(left, b) && Next(left, a) == Next(left, b)
    ensures a == b
  {
    hide Out, Next, Rebuilt;
    Rebuild(left, a);
    Rebuild(left, b);
  }

  // ---- repeated shifts ------------------------------------------------------------------------------------------

  /** The word after `count` shifts. */
  function Shifted(left: bool, w: bv32, count: nat): bv32
    decreases count
  {
    if count == 0 then w else Shifted(left, Next(left, w), count - 1)
  }

  lemma {:induction false} ShiftedTwice(left: bool, w: bv32, m: nat, n: nat)
    ensures Shifted(left, w, m + n) == Shifted(left, Shifted(left, w, m), n)
    decreases m
  {
    hide Next;
    if m > 0 {
      ShiftedTwice(left, Next(left, w), m - 1, n);
    }
  }

  function ByteShifted(left: bool, w: bv32): bv32 {
    if left then w << 8 else w >> 8
  }

  lemma EightNextsLeft(w: bv32)
    ensures var w4 := Next(true, Next(true, Next(true, Next(true, w))));
      Next(true, Next(true, Next(true, Next(true, w4)))) == ByteShifted(true, w)
  {
    EightLeft(w);
  }

  lemma EightNextsRight(w: bv32)
    ensures var w4 := Next(false, Next(false, Next(false, Next(false, w))));
      Next(false, Next(false, Next(false, Next(false, w4)))) == ByteShifted(false, w)
  {
    EightRight(w);
  }

  lemma ShiftedByte(left: bool, w: bv32)
    ensures Shifted(left, w, 8) == ByteShifted(left, w)
  {
    hide Next, ByteShifted;
    if left {
      EightNextsLeft(w);
    } else {
      EightNextsRight(w);
    }
    var w4 := Next(left, Next(left, Next(left, Next(left, w))));
    var w6 := Next(left, Next(left, w4));
    assert Shifted(left, w6, 2) == Next(left, Next(left, w6));
    assert Shifted(left, w4, 4) == Shifted(left, w6, 2);
    assert Shifted(left, w, 8) == Shifted(left, w4, 4);
  }

  lemma FourShifts(left: bool, w: bv32)
    ensures ByteShifted(left, ByteShifted(left, ByteShifted(left, ByteShifted(left, w)))) == 0
  {
    FourBytes(w);
  }

  /** Nothing is left after 32 shifts. */
  lemma ShiftedOut(left: bool, w: bv32)
    ensures Shifted(left, w, 32) == 0
  {
    hide Next, Shifted, ByteShifted;
    FourShifts(left, w);
    ShiftedByte(left, w);
    var w1 := Shifted(left, w, 8);
    ShiftedByte(left, w1);
    var w2 := Shifted(left, w1, 8);
    ShiftedByte(left, w2);
    var w3 := Shifted(left, w2, 8);
    ShiftedByte(left, w3);
    ShiftedTwice(left, w, 8, 24);
    ShiftedTwice(left, w1, 8, 16);
    ShiftedTwice(left, w2, 8, 8);
  }

  // ---- the bits of a word ---------------------------------------------------------------------------------------

  /** The first `count` bits in the order they leave. */
  function WordBits(left: bool, w: bv32, count: nat): (s: seq<bool>)
    ensures |s| == count
    decreases count
  {
    if count == 0 then [] else [Out(left, w)] + WordBits(left, Next(left, w), count - 1)
  }

  lemma {:induction false} BitsXor(left: bool, a: bv32, b: bv32, count: nat)
    ensures forall i :: 0 <= i < count ==> WordBits(left, Xored(a, b), count)[i] == (WordBits(left, a, count)[i] != WordBits(left, b, count)[i])
    decreases count
  {
    hide Out, Next, Xored;
    if count > 0 {
      OutXor(left, a, b);
      NextXor(left, a, b);
      BitsXor(left, Next(left, a), Next(left, b), count - 1);
    }
  }

  lemma {:induction false} BitsSplit(left: bool, w: bv32, m: nat, n: nat)
    ensures WordBits(left, w, m + n) == WordBits(left, w, m) + WordBits(left, Shifted(left, w, m), n)
    decreases m
  {
    hide Out, Next;
    if m > 0 {
      BitsSplit(left, Next(left, w), m - 1, n);
    }
  }

  lemma NextZero(left: bool)
    ensures !Out(left, 0) && Next(left, 0) == 0
  {}

  lemma {:induction false} ZeroBits(left: bool, count: nat)
    ensures forall i :: 0 <= i < count ==> !WordBits(left, 0, count)[i]
    decreases count
  {
    hide Out, Next;
    if count > 0 {
      NextZero(left);
      ZeroBits(left, count - 1);
    }
  }

  /** A shift drops the first bit and brings in a clear one. */
  lemma BitsNext(left: bool, w: bv32)
    ensures WordBits(left, Next(left, w), 32) == WordBits(left, w, 32)[1..] + [false]
  {
    hide Out, Next, WordBits, Shifted;
    BitsSplit(left, w, 1, 32);
    BitsSplit(left, w, 32, 1);
    ShiftedOut(left, w);
    ZeroBits(left, 1);
    ShiftedOnce(left, w);
    assert WordBits(left, w, 33) == WordBits(left, w, 1) + WordBits(left, Next(left, w), 32);
    assert WordBits(left, w, 33) == WordBits(left, w, 32) + [false];
    assert WordBits(left, w, 33)[1..] == WordBits(left, Next(left, w), 32);
  }

  lemma ShiftedOnce(left: bool, w: bv32)
    ensures Shifted(left, w, 1) == Next(left, w)
  {
    hide Next;
  }

  /** A word that is empty after `count` shifts is determined by that many bits. */
  lemma {:induction false} BitsInjective(left: bool, a: bv32, b: bv32, count: nat)
    requires WordBits(left, a, count) == WordBits(left, b, count)
    requires Shifted(left, a, count) == 0 && Shifted(left, b, count) == 0
    ensures a == b
    decreases count
  {
    hide Out, Next;
    if count > 0 {
      assert WordBits(left, a, count)[0] == Out(left, a) && WordBits(left, b, count)[0] == Out(left, b);
      assert WordBits(left, a, count)[1..] == WordBits(left, Next(left, a), count - 1);
      assert WordBits(left, b, count)[1..] == WordBits(left, Next(left, b), count - 1);
      BitsInjective(left, Next(left, a), Next(left, b), count - 1);
      NextInjective(left, a, b);
    }
  }

  // ---- concrete words, four bits at a time ----------------------------------------------------------------------

  function FourLeft(w: bv32): seq<bool> {
    [w & 0x8000_0000 != 0, w & 0x4000_0000 != 0, w & 0x2000_0000 != 0, w & 0x1000_0000 != 0]
  }

  function FourRight(w: bv32): seq<bool> {
    [w & 1 != 0, w & 2 != 0, w & 4 != 0, w & 8 != 0]
  }

  lemma NextTwo(left: bool, w: bv32, count: nat)
    ensures WordBits(left, w, count + 2)
      == [Out(left, w), Out(left, Next(left, w))] + WordBits(left, Next(left, Next(left, w)), count)
  {
    NextOne(left, w, count + 1);
    NextOne(left, Next(left, w), count);
    hide Out, Next, WordBits;
    var rest := WordBits(left, Next(left, Next(left, w)), count);
    assert [Out(left, w)] + ([Out(left, Next(left, w))] + rest) == [Out(left, w), Out(left, Next(left, w))] + rest;
  }

  lemma NextOne(left: bool, w: bv32, count: nat)
    ensures WordBits(left, w, count + 1) == [Out(left, w)] + WordBits(left, Next(left, w), count)
  {
    hide Out, Next;
  }

  lemma NextFour(left: bool, w: bv32, count: nat)
    ensures var w2 := Next(left, Next(left, w));
      var w4 := Next(left, Next(left, w2));
      WordBits(left, w, count + 4)
        == [Out(left, w), Out(left, Next(left, w)), Out(left, w2), Out(left, Next(left, w2))] + WordBits(left, w4, count)
  {
    hide Out, Next, WordBits;
    NextTwo(left, w, count + 2);
    NextTwo(left, Next(left, Next(left, w)), count);
  }

  lemma OutsLeft(w: bv32)
    ensures var w2 := Next(true, Next(true, w));
      [Out(true, w), Out(true, Next(true, w)), Out(true, w2), Out(true, Next(true, w2))] == FourLeft(w)
      && Next(true, Next(true, w2)) == w << 1 << 1 << 1 << 1
  {
    LeftBits(w);
  }

  lemma OutsRight(w: bv32)
    ensures var w2 := Next(false, Next(false, w));
      [Out(false, w), Out(false, Next(false, w)), Out(false, w2), Out(false, Next(false, w2))] == FourRight(w)
      && Next(false, Next(false, w2)) == w >> 1 >> 1 >> 1 >> 1
  {
    RightBits(w);
  }

  /** Four bits leave a word of known value. */
  lemma PeelLeft(w: bv32, rest: bv32, count: nat)
    requires rest == w << 1 << 1 << 1 << 1
    ensures WordBits(true, w, count + 4) == FourLeft(w) + WordBits(true, rest, count)
  {
    NextFour(true, w, count);
    OutsLeft(w);
    hide Out, Next, FourLeft, WordBits;
  }

  lemma PeelRight(w: bv32, rest: bv32, count: nat)
    requires rest == w >> 1 >> 1 >> 1 >> 1
    ensures WordBits(false, w, count + 4) == FourRight(w) + WordBits(false, rest, count)
  {
    NextFour(false, w, count);
    OutsRight(w);
    hide Out, Next, FourRight, WordBits;
  }
}
