/** Reconstruction of the sensor image: 12-bit pixels unpacked from 132-byte rows and transposed. */
module SensorImage {
  import opened Wrappers
  import opened Bytes

  const WIDTH := 80
  const PIXELS := 5120
  const RAW_ROW := 132
  const PACKED_ROW := 96
  const DECRYPTED := 10560
  const PACKED := 7680

  type Pixel = p: int | 0 <= p < 0x1000

  datatype ImageError = UnexpectedDecryptedLength(expected: nat, actual: nat)

  // ---- six bytes, four pixels -----------------------------------------------------------------------------------

  datatype Group = Group(b0: Byte, b1: Byte, b2: Byte, b3: Byte, b4: Byte, b5: Byte)

  /** The four pixels in six packed bytes. */
  function Unpack(g: Group, k: nat): (p: Pixel)
    requires k < 4
  {
    match k
    case 0 => g.b0 % 16 * 256 + g.b1
    case 1 => g.b3 * 16 + g.b0 / 16
    case 2 => g.b5 % 16 * 256 + g.b2
    case _ => g.b4 * 16 + g.b5 / 16
  }

  function Pack(p0: Pixel, p1: Pixel, p2: Pixel, p3: Pixel): Group {
    Group(p0 / 256 + p1 % 16 * 16, p0 % 256, p2 % 256, p1 / 16, p3 / 16, p2 / 256 + p3 % 16 * 16)
  }

  lemma UnpackPack(p0: Pixel, p1: Pixel, p2: Pixel, p3: Pixel)
    ensures var g := Pack(p0, p1, p2, p3);
      Unpack(g, 0) == p0 && Unpack(g, 1) == p1 && Unpack(g, 2) == p2 && Unpack(g, 3) == p3
  {}

  lemma PackUnpack(g: Group)
    ensures Pack(Unpack(g, 0), Unpack(g, 1), Unpack(g, 2), Unpack(g, 3)) == g
  {
    PackPair(g.b0, g.b1, g.b3);
    PackPair(g.b5, g.b2, g.b4);
  }

  /** Two pixels that share a byte: it holds the high nibble of one and the low nibble of the other. */
  lemma PackPair(shared: Byte, low: Byte, high: Byte)
    ensures var p, q := shared % 16 * 256 + low, high * 16 + shared / 16;
      p / 256 + q % 16 * 16 == shared && p % 256 == low && q / 16 == high
  {}

  // ---- positions ------------------------------------------------------------------------------------------------

  /** Where the source pixel of a row and column of 80 rows of 64 goes. */
  function Destination(row: nat, column: nat): nat {
    column * WIDTH + row
  }

  /** The position of byte `j` of a raw row. */
  function RawIndex(row: nat, j: nat): nat {
    RAW_ROW * row + j
  }

  /** Group `column / 4` of a raw row holds the pixel. */
  function GroupAt(decrypted: seq<Byte>, row: nat, group: nat): Group
    requires |decrypted| == DECRYPTED && row < 80 && group < 16
  {
    Group(decrypted[RawIndex(row, 6 * group)], decrypted[RawIndex(row, 6 * group + 1)],
      decrypted[RawIndex(row, 6 * group + 2)], decrypted[RawIndex(row, 6 * group + 3)],
      decrypted[RawIndex(row, 6 * group + 4)], decrypted[RawIndex(row, 6 * group + 5)])
  }

  function SourcePixel(decrypted: seq<Byte>, row: nat, column: nat): Pixel
    requires |decrypted| == DECRYPTED && row < 80 && column < 64
  {
    Unpack(GroupAt(decrypted, row, column / 4), column % 4)
  }

  /** The pixel at an output index. */
  function PixelAt(decrypted: seq<Byte>, d: nat): Pixel
    requires |decrypted| == DECRYPTED && d < PIXELS
  {
    SourcePixel(decrypted, d % WIDTH, d / WIDTH)
  }

  lemma DestinationInverse(row: nat, column: nat)
    requires row < 80 && column < 64
    ensures Destination(row, column) < PIXELS
    ensures Destination(row, column) % WIDTH == row && Destination(row, column) / WIDTH == column
  {}

  /** The reconstructed image. */
  function Reconstruct(decrypted: seq<Byte>): (pixels: seq<Pixel>)
    requires |decrypted| == DECRYPTED
    ensures |pixels| == PIXELS
  {
    seq(PIXELS, d requires 0 <= d < PIXELS => PixelAt(decrypted, d))
  }

  /** A pixel from six bytes: twelve bits, of which one nibble shares its byte with a neighbouring pixel. */
  function TwelveBits(b0: int, b1: int, b2: int, b3: int, b4: int, b5: int, k: int): int {
    if k == 0 then b0 % 16 * 256 + b1
    else if k == 1 then b3 * 16 + b0 / 16
    else if k == 2 then b5 % 16 * 256 + b2
    else b4 * 16 + b5 / 16
  }

  /** Column `x` of output row `y` is pixel `y` of source row `x`: source rows take 132 bytes, four pixels take six. */
  lemma PixelExactly(decrypted: seq<Byte>, x: nat, y: nat)
    requires |decrypted| == 10560 && x < 80 && y < 64
    ensures |Reconstruct(decrypted)| == 5120 && 132 * x + y / 4 * 6 + 5 < 10560
    ensures var at, d := 132 * x + y / 4 * 6, decrypted;
      Reconstruct(d)[80 * y + x] == TwelveBits(d[at], d[at + 1], d[at + 2], d[at + 3], d[at + 4], d[at + 5], y % 4)
  {
    DestinationInverse(x, y);
  }

  // ---- repacking ------------------------------------------------------------------------------------------------

  function Repacked(pixels: seq<Pixel>, row: nat, group: nat): Group
    requires |pixels| == PIXELS && row < 80 && group < 16
  {
    Pack(pixels[Destination(row, 4 * group)], pixels[Destination(row, 4 * group + 1)],
      pixels[Destination(row, 4 * group + 2)], pixels[Destination(row, 4 * group + 3)])
  }

  /** Repacking the reconstructed image recovers every group of bytes that was used. */
  lemma RepackRecovers(decrypted: seq<Byte>, row: nat, group: nat)
    requires |decrypted| == DECRYPTED && row < 80 && group < 16
    ensures Repacked(Reconstruct(decrypted), row, group) == GroupAt(decrypted, row, group)
  {
    hide Unpack, Pack, GroupAt;
    var g := GroupAt(decrypted, row, group);
    forall k: nat | k < 4
      ensures Reconstruct(decrypted)[Destination(row, 4 * group + k)] == Unpack(g, k)
    {
      DestinationInverse(row, 4 * group + k);
    }
    PackUnpack(g);
  }

  /** All groups of the first 96 bytes of the 80 rows agree. */
  predicate SameGroups(a: seq<Byte>, b: seq<Byte>)
    requires |a| == |b| == DECRYPTED
  {
    forall row: nat, group: nat :: row < 80 && group < 16 ==> GroupAt(a, row, group) == GroupAt(b, row, group)
  }

  /** The first 96 bytes of all 80 rows agree. */
  predicate SameUsedBytes(a: seq<Byte>, b: seq<Byte>)
    requires |a| == |b| == DECRYPTED
  {
    forall row: nat, j: nat {:trigger RawIndex(row, j)} :: row < 80 && j < PACKED_ROW ==> a[RawIndex(row, j)] == b[RawIndex(row, j)]
  }

  lemma GroupsAreBytes(a: seq<Byte>, b: seq<Byte>)
    requires |a| == |b| == DECRYPTED
    ensures SameGroups(a, b) <==> SameUsedBytes(a, b)
  {
    if SameGroups(a, b) {
      forall row: nat, j: nat | row < 80 && j < PACKED_ROW
        ensures a[RawIndex(row, j)] == b[RawIndex(row, j)]
      {
        assert GroupAt(a, row, j / 6) == GroupAt(b, row, j / 6);
        assert RawIndex(row, j) == RawIndex(row, 6 * (j / 6) + j % 6);
      }
    }
  }

  /** Two buffers give the same image exactly when the bytes in use agree. */
  lemma ReconstructsEqually(a: seq<Byte>, b: seq<Byte>)
    requires |a| == |b| == DECRYPTED
    ensures Reconstruct(a) == Reconstruct(b) <==> SameUsedBytes(a, b)
  {
    GroupsAreBytes(a, b);
    hide Unpack, Pack, GroupAt, SameUsedBytes;
    if Reconstruct(a) == Reconstruct(b) {
      forall row: nat, group: nat | row < 80 && group < 16
        ensures GroupAt(a, row, group) == GroupAt(b, row, group)
      {
        RepackRecovers(a, row, group);
        RepackRecovers(b, row, group);
      }
    }
  }

  /** The bytes of a buffer that reconstructs to the given image. */
  function Sensor(pixels: seq<Pixel>): (decrypted: seq<Byte>)
    requires |pixels| == PIXELS
    ensures |decrypted| == DECRYPTED
  {
    seq(DECRYPTED, i requires 0 <= i < DECRYPTED => SensorByte(pixels, i / RAW_ROW, i % RAW_ROW))
  }

  function ByteOf(g: Group, k: nat): Byte
    requires k < 6
  {
    [g.b0, g.b1, g.b2, g.b3, g.b4, g.b5][k]
  }

  function SensorByte(pixels: seq<Pixel>, row: nat, j: nat): Byte
    requires |pixels| == PIXELS && row < 80
  {
    if j >= PACKED_ROW then 0 else ByteOf(Repacked(pixels, row, j / 6), j % 6)
  }

  lemma SensorAt(pixels: seq<Pixel>, row: nat, group: nat, k: nat)
    requires |pixels| == PIXELS && row < 80 && group < 16 && k < 6
    ensures Sensor(pixels)[RawIndex(row, 6 * group + k)] == ByteOf(Repacked(pixels, row, group), k)
  {
    hide Pack, Repacked, ByteOf;
    var i := RawIndex(row, 6 * group + k);
    assert i / RAW_ROW == row && i % RAW_ROW == 6 * group + k && (6 * group + k) / 6 == group && (6 * group + k) % 6 == k;
  }

  lemma SensorGroup(pixels: seq<Pixel>, row: nat, group: nat)
    requires |pixels| == PIXELS && row < 80 && group < 16
    ensures GroupAt(Sensor(pixels), row, group) == Repacked(pixels, row, group)
  {
    hide Pack, Repacked, Sensor, RawIndex;
    SensorAt(pixels, row, group, 0);
    SensorAt(pixels, row, group, 1);
    SensorAt(pixels, row, group, 2);
    SensorAt(pixels, row, group, 3);
    SensorAt(pixels, row, group, 4);
    SensorAt(pixels, row, group, 5);
  }

  /** Every image of 12-bit pixels is the reconstruction of some buffer. */
  lemma EveryImageIsReconstructed(pixels: seq<Pixel>)
    requires |pixels| == PIXELS
    ensures Reconstruct(Sensor(pixels)) == pixels
  {
    hide Unpack, Pack, GroupAt, Sensor;
    forall d: nat | d < PIXELS
      ensures Reconstruct(Sensor(pixels))[d] == pixels[d]
    {
      var row, column := d % WIDTH, d / WIDTH;
      var group := column / 4;
      SensorGroup(pixels, row, group);
      UnpackPack(pixels[Destination(row, 4 * group)], pixels[Destination(row, 4 * group + 1)],
        pixels[Destination(row, 4 * group + 2)], pixels[Destination(row, 4 * group + 3)]);
    }
  }

  // ---- the loops ------------------------------------------------------------------------------------------------

  /** The used part of every row, in row order. */
  function PackedByte(decrypted: seq<Byte>, j: nat): Byte
    requires |decrypted| == DECRYPTED && j < PACKED
  {
    decrypted[RAW_ROW * (j / PACKED_ROW) + j % PACKED_ROW]
  }

  method CompactRows(decrypted: seq<Byte>) returns (packed: seq<Byte>)
    requires |decrypted| == DECRYPTED
    ensures Compacted(decrypted, packed, 80)
  {
    hide PackedByte;
    packed := [];
    for row := 0 to 80
      invariant Compacted(decrypted, packed, row)
    {
      var start := RAW_ROW * row;
      CompactNext(decrypted, packed, row);
      packed := packed + decrypted[start..start + PACKED_ROW];
    }
  }

  lemma CompactNext(decrypted: seq<Byte>, packed: seq<Byte>, row: nat)
    requires |decrypted| == DECRYPTED && row < 80 && Compacted(decrypted, packed, row)
    ensures Compacted(decrypted, packed + decrypted[RAW_ROW * row..RAW_ROW * row + PACKED_ROW], row + 1)
  {
    hide PackedByte;
    var longer := packed + decrypted[RAW_ROW * row..RAW_ROW * row + PACKED_ROW];
    forall j: nat | j < |longer| ensures longer[j] == PackedByte(decrypted, j) {
      if j >= PACKED_ROW * row {
        PackedInRow(decrypted, row, j - PACKED_ROW * row);
      }
    }
  }

  lemma PackedInRow(decrypted: seq<Byte>, row: nat, k: nat)
    requires |decrypted| == DECRYPTED && row < 80 && k < PACKED_ROW
    ensures PackedByte(decrypted, PACKED_ROW * row + k) == decrypted[RAW_ROW * row + k]
  {}

  /** The used bytes of the first rows, one row behind the other. */
  ghost predicate Compacted(decrypted: seq<Byte>, packed: seq<Byte>, rows: nat)
    requires |decrypted| == DECRYPTED
  {
    && rows <= 80 && |packed| == PACKED_ROW * rows
    && forall j: nat :: j < |packed| ==> packed[j] == PackedByte(decrypted, j)
  }

  /** Writes the pixels chunk by chunk; every output is written exactly once. */
  method RestructureWn2(decrypted: seq<Byte>) returns (r: Result<array<Pixel>, ImageError>)
    ensures |decrypted| != DECRYPTED ==> r == Err(UnexpectedDecryptedLength(DECRYPTED, |decrypted|))
    ensures |decrypted| == DECRYPTED ==> r.Ok? && r.value[..] == Reconstruct(decrypted)
  {
    if |decrypted| != DECRYPTED {
      return Err(UnexpectedDecryptedLength(DECRYPTED, |decrypted|));
    }
    hide Unpack, GroupAt, PackedByte, Reconstruct;
    var packed := CompactRows(decrypted);
    var pixels := new Pixel[PIXELS](_ => 0);
    for chunk := 0 to 1280
      invariant Written(decrypted, pixels[..], 4 * chunk)
    {
      var group := ReadChunk(decrypted, packed, chunk);
      WriteChunk(decrypted, group, chunk, pixels);
    }
    AllWritten(decrypted, pixels[..]);
    return Ok(pixels);
  }

  method ReadChunk(ghost decrypted: seq<Byte>, packed: seq<Byte>, chunk: nat) returns (group: Group)
    requires |decrypted| == DECRYPTED && Compacted(decrypted, packed, 80) && chunk < 1280
    ensures group == GroupAt(decrypted, chunk / 16, chunk % 16)
  {
    hide PackedByte;
    group := Group(packed[6 * chunk], packed[6 * chunk + 1], packed[6 * chunk + 2], packed[6 * chunk + 3],
      packed[6 * chunk + 4], packed[6 * chunk + 5]);
    PackedAt(decrypted, chunk, 0);
    PackedAt(decrypted, chunk, 1);
    PackedAt(decrypted, chunk, 2);
    PackedAt(decrypted, chunk, 3);
    PackedAt(decrypted, chunk, 4);
    PackedAt(decrypted, chunk, 5);
  }

  lemma PackedAt(decrypted: seq<Byte>, chunk: nat, k: nat)
    requires |decrypted| == DECRYPTED && chunk < 1280 && k < 6
    ensures PackedByte(decrypted, 6 * chunk + k) == decrypted[RawIndex(chunk / 16, 6 * (chunk % 16) + k)]
  {
    var j := 6 * chunk + k;
    assert j / PACKED_ROW == chunk / 16 && j % PACKED_ROW == 6 * (chunk % 16) + k;
  }

  method WriteChunk(ghost decrypted: seq<Byte>, group: Group, chunk: nat, pixels: array<Pixel>)
    requires |decrypted| == DECRYPTED && chunk < 1280 && group == GroupAt(decrypted, chunk / 16, chunk % 16)
    requires Written(decrypted, pixels[..], 4 * chunk)
    modifies pixels
    ensures Written(decrypted, pixels[..], 4 * chunk + 4)
  {
    hide Unpack, GroupAt, Destination;
    assert pixels.Length == PIXELS;
    for k := 0 to 4
      invariant Written(decrypted, pixels[..], 4 * chunk + k)
    {
      hide Written;
      var sourcePixel := 4 * chunk + k;
      var row, column := sourcePixel / 64, sourcePixel % 64;
      ghost var before := pixels[..];
      WriteOne(decrypted, before, sourcePixel);
      pixels[Destination(row, column)] := Unpack(group, k);
      assert sourcePixel / 4 == chunk && sourcePixel % 4 == column % 4 == k;
    }
  }

  /** The first `count` source pixels are in their places. */
  ghost predicate Written(decrypted: seq<Byte>, pixels: seq<Pixel>, count: nat)
    requires |decrypted| == DECRYPTED
  {
    && |pixels| == PIXELS && count <= PIXELS
    && forall s: nat :: s < count ==> pixels[Destination(s / 64, s % 64)] == SourcePixel(decrypted, s / 64, s % 64)
  }

  lemma WriteOne(decrypted: seq<Byte>, before: seq<Pixel>, s: nat)
    requires |decrypted| == DECRYPTED && s < PIXELS && Written(decrypted, before, s)
    ensures Destination(s / 64, s % 64) < PIXELS
    ensures s / 4 / 16 == s / 64 && s / 4 % 16 == s % 64 / 4
    ensures Written(decrypted, before[Destination(s / 64, s % 64) := SourcePixel(decrypted, s / 64, s % 64)], s + 1)
  {
    hide SourcePixel, Destination;
    DestinationInverse(s / 64, s % 64);
    var after := before[Destination(s / 64, s % 64) := SourcePixel(decrypted, s / 64, s % 64)];
    forall t: nat | t < s + 1
      ensures Destination(t / 64, t % 64) < PIXELS
    {
      DestinationInverse(t / 64, t % 64);
    }
    forall t: nat | t < s + 1
      ensures after[Destination(t / 64, t % 64)] == SourcePixel(decrypted, t / 64, t % 64)
    {
      DestinationInverse(t / 64, t % 64);
    }
  }

  lemma AllWritten(decrypted: seq<Byte>, pixels: seq<Pixel>)
    requires |decrypted| == DECRYPTED && Written(decrypted, pixels, PIXELS)
    ensures pixels == Reconstruct(decrypted)
  {
    hide SourcePixel;
    forall d: nat | d < PIXELS ensures pixels[d] == PixelAt(decrypted, d) {
      var row, column := d % WIDTH, d / WIDTH;
      var s := 64 * row + column;
      assert s / 64 == row && s % 64 == column && Destination(row, column) == d;
      assert pixels[Destination(s / 64, s % 64)] == SourcePixel(decrypted, s / 64, s % 64);
    }
  }
}
