/** Bytes, machine words and their little-endian layout. */
module Bytes {
  import opened Wrappers

  type Byte = b: int | 0 <= b < 0x100
  type U16 = w: int | 0 <= w < 0x1_0000
  type U32 = w: int | 0 <= w < 0x1_0000_0000
  type I32 = v: int | -0x8000_0000 <= v < 0x8000_0000

  const U32_LIMIT := 0x1_0000_0000

  /** `value as u32` for a signed word: the two's-complement bit pattern. */
  function Bits(v: I32): U32 {
    if v < 0 then v + U32_LIMIT else v
  }

  /** `value as i32` for an unsigned word. */
  function Signed(w: U32): (v: I32)
    ensures Bits(v) == w
  {
    if w < 0x8000_0000 then w else w - U32_LIMIT
  }

  function LE16(w: U16): (s: seq<Byte>)
    ensures |s| == 2
  {
    [w % 0x100, w / 0x100]
  }

  function FromLE16(s: seq<Byte>): (w: U16)
    requires |s| == 2
    ensures LE16(w) == s
  {
    var b0: int, b1: int := s[0], s[1];
    b0 + 0x100 * b1
  }

  function LE32(w: U32): (s: seq<Byte>)
    ensures |s| == 4
  {
    var w1 := w / 0x100;
    var w2 := w1 / 0x100;
    [w % 0x100, w1 % 0x100, w2 % 0x100, w2 / 0x100]
  }

  lemma DigitSplit(digit: Byte, rest: nat)
    ensures (digit + 0x100 * rest) % 0x100 == digit
    ensures (digit + 0x100 * rest) / 0x100 == rest
  {}

  function FromLE32(s: seq<Byte>): (w: U32)
    requires |s| == 4
    ensures LE32(w) == s
  {
    var w2 := (s[2] as int) + 0x100 * (s[3] as int);
    var w1 := (s[1] as int) + 0x100 * w2;
    DigitSplit(s[0], w1);
    DigitSplit(s[1], w2);
    DigitSplit(s[2], s[3]);
    (s[0] as int) + 0x100 * w1
  }

  lemma LE32RoundTrip(w: U32)
    ensures FromLE32(LE32(w)) == w
  {}

  lemma LE16RoundTrip(w: U16)
    ensures FromLE16(LE16(w)) == w
  {}

  function Zeros(n: nat): (s: seq<Byte>)
    ensures |s| == n
    ensures forall i :: 0 <= i < n ==> s[i] == 0
  {
    seq(n, _ => 0)
  }

  /** The first non-zero byte from `from` up to `end`. */
  function FirstNonZero(s: seq<Byte>, from: nat, end: nat): (r: Option<nat>)
    requires from <= end <= |s|
    ensures r.None? <==> forall i :: from <= i < end ==> s[i] == 0
    ensures r.Some? ==> from <= r.value < end && s[r.value] != 0 && forall i :: from <= i < r.value ==> s[i] == 0
    decreases end - from
  {
    if from == end then None else if s[from] != 0 then Some(from) else FirstNonZero(s, from + 1, end)
  }

  const MAP_BYTES := 160
  const QUARTER_BYTES := 40

  /** A packed 40x32 registration or validity map. */
  type Bitmap = s: seq<Byte> | |s| == MAP_BYTES witness Zeros(MAP_BYTES)

  /** A packed 20x16 quarter-resolution validity mask. */
  type QuarterMask = s: seq<Byte> | |s| == QUARTER_BYTES witness Zeros(QUARTER_BYTES)

  /** The sixteen descriptor bytes of a feature point. */
  type Descriptor = s: seq<Byte> | |s| == 16 witness Zeros(16)

  /** Overwrites the bytes from `at` on with `data`. */
  method CopyInto(out: array<Byte>, at: nat, data: seq<Byte>)
    requires at + |data| <= out.Length
    modifies out
    ensures out[..] == old(out[..])[..at] + data + old(out[..])[at + |data|..]
  {
    for i := 0 to |data|
      invariant forall j :: 0 <= j < out.Length ==> out[j] == if at <= j < at + i then data[j - at] else old(out[..])[j]
    {
      out[at + i] := data[i];
    }
  }
}
