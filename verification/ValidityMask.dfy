/** Expanding the persisted quarter-resolution validity mask. */
module ValidityMask {
  import opened Arithmetic
  import opened Bytes
  import opened TemplateFormat

  /** Bit `index` of a packed mask, least significant bit of each byte first. */
  function Bit(packed: seq<Byte>, index: nat): int
    requires index < 8 * |packed|
  {
    packed[index / 8] / [1, 2, 4, 8, 16, 32, 64, 128][index % 8] % 2
  }

  /** The bit of weight `p`, with everything below it in `low` and everything above it in `high`. */
  lemma BitOfWeight(n: nat, p: nat, low: nat, bit: nat, high: nat)
    requires low < p && bit <= 1 && n == low + (bit + 2 * high) * p
    ensures n / p % 2 == bit
  {
    var q := bit + 2 * high;
    assert (q + 1) * p == q * p + p;
    DivideAtLeast(n, p, q);
    QuotientBelow(n, p, q + 1);
  }

  /** The bits of a byte, from the sum of their weights. */
  lemma ByteBits(b: seq<nat>, k: nat)
    requires |b| == 8 && (forall i :: 0 <= i < 8 ==> b[i] <= 1) && k < 8
    ensures (b[0] + 2 * b[1] + 4 * b[2] + 8 * b[3] + 16 * b[4] + 32 * b[5] + 64 * b[6] + 128 * b[7])
      / [1, 2, 4, 8, 16, 32, 64, 128][k] % 2 == b[k]
  {
    var n := b[0] + 2 * b[1] + 4 * b[2] + 8 * b[3] + 16 * b[4] + 32 * b[5] + 64 * b[6] + 128 * b[7];
    var low2, high5 := b[0] + 2 * b[1] + 4 * b[2], b[5] + 2 * b[6] + 4 * b[7];
    match k
    case 0 => BitOfWeight(n, 1, 0, b[0], b[1] + 2 * b[2] + 4 * b[3] + 8 * b[4] + 16 * high5);
    case 1 => BitOfWeight(n, 2, b[0], b[1], b[2] + 2 * b[3] + 4 * b[4] + 8 * high5);
    case 2 => BitOfWeight(n, 4, b[0] + 2 * b[1], b[2], b[3] + 2 * b[4] + 4 * high5);
    case 3 => BitOfWeight(n, 8, low2, b[3], b[4] + 2 * high5);
    case 4 => BitOfWeight(n, 16, low2 + 8 * b[3], b[4], high5);
    case 5 => BitOfWeight(n, 32, low2 + 8 * b[3] + 16 * b[4], b[5], b[6] + 2 * b[7]);
    case 6 => BitOfWeight(n, 64, low2 + 8 * b[3] + 16 * b[4] + 32 * b[5], b[6], b[7]);
    case 7 => BitOfWeight(n, 128, low2 + 8 * b[3] + 16 * b[4] + 32 * b[5] + 64 * b[6], b[7], 0);
  }

  lemma ExpandedBit(packed: QuarterMask, j: nat, k: nat)
    requires j < MAP_BYTES && k < 8
    ensures ActiveByte(packed, j) / [1, 2, 4, 8, 16, 32, 64, 128][k] % 2 == ActiveCell(packed, 8 * j + k)
  {
    hide ActiveCell;
    var cells := seq(8, i requires 0 <= i < 8 => ActiveCell(packed, 8 * j + i));
    forall i | 0 <= i < 8 ensures 0 <= cells[i] <= 1 {
      assert cells[i] == ActiveCell(packed, 8 * j + i);
    }
    ByteBits(cells, k);
  }

  /** Every pixel of the 40x32 mask is valid exactly when the 20x16 cell that covers its 2x2 block is. */
  lemma ExpandedPixel(packed: QuarterMask, x: nat, y: nat)
    requires x < 40 && y < 32
    ensures 40 * y + x < 8 * MAP_BYTES && y / 2 * 20 + x / 2 < 8 * QUARTER_BYTES
    ensures Bit(ExpandValidity(packed), 40 * y + x) == Bit(packed, y / 2 * 20 + x / 2)
  {
    hide ActiveCell, ActiveByte;
    var i := 40 * y + x;
    ExpandedBit(packed, i / 8, i % 8);
    CellOf(packed, x, y);
  }

  lemma CellOf(packed: QuarterMask, x: nat, y: nat)
    requires x < 40 && y < 32
    ensures ActiveCell(packed, 40 * y + x) == Bit(packed, y / 2 * 20 + x / 2)
  {
    assert (40 * y + x) / 80 == y / 2 && (40 * y + x) % 40 == x;
  }
}
