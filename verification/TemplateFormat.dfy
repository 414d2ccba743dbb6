/**
 The persisted type-0x18 template: its decoded value, the well-formedness its strict decoder insists on, and its byte
 layout.  Every `Put` writes a field in front of an already laid out tail, so a layout reads in field order.
 */
module TemplateFormat {
  import opened Wrappers
  import opened Bytes
  import opened Relations
  import Crc

  const POINT_CAPACITY := 120
  const POINT_BYTES := 32
  const SAMPLE_CAPACITY := 50
  const RELATION_BYTES := 45
  const FIXED_PACKED_SIZE := 0x5a3
  const TEMPLATE_00: U32 := 0x002e_14f4
  const TEMPLATE_04: U32 := 0x002d_f160
  const ALL_ONES: U32 := 0xffff_ffff

  const TOP_TAGS: seq<Byte> := [
    0x81, 0x88, 0x89, 0x98, 0x9a, 0x9b, 0x91, 0x97, 0x92, 0x9e, 0x9f, 0x9c, 0x9d, 0xfa, 0xfb]

  /** "Milan_v_3.02.00.20" and its terminating NUL. */
  const VERSION: seq<Byte> := [
    0x4d, 0x69, 0x6c, 0x61, 0x6e, 0x5f, 0x76, 0x5f, 0x33, 0x2e, 0x30, 0x32, 0x2e, 0x30, 0x30, 0x2e, 0x32, 0x30, 0x00]

  // ---- decoded values -------------------------------------------------------------------------------------------

  datatype PersistedPoint =
    PersistedPoint(geometryWord: U32, descriptor: Descriptor, hash20: U32, hash28: U32, hash2c: U32)

  datatype SampleScalars = SampleScalars(
    canonicalMember: bool,
    relationCheckpoint: I32,
    scalar108: I32,
    param3: I32,
    param4: I32,
    status114: I32,
    scalar118: I32,
    sampleIndex: I32,
    scalar120: I32,
    scalar124: I32,
    scalar13c: I32,
    embedded140: Option<I32>)

  datatype PersistedSample = PersistedSample(
    primaryMap: Bitmap,
    secondaryMap: Option<Bitmap>,
    lowThresholdMap: Option<Bitmap>,
    quarterValidity: QuarterMask,
    activeValidity: Bitmap,
    points: seq<PersistedPoint>,
    scalars: SampleScalars)

  datatype PersistedRelation =
    PersistedRelation(index: nat, high: nat, low: nat, value: I32, higherToLower: Affine)

  datatype Header =
    Header(sampleCount: nat, configuredMax: nat, relationCursor: nat, maxPointCount: nat, pointCapacity: nat)

  datatype GraphSummary = GraphSummary(anchor: Option<nat>, established: bool)

  datatype PersistedTemplate = PersistedTemplate(
    rawCrc: U32,
    header: Header,
    samples: seq<PersistedSample>,
    relations: seq<PersistedRelation>,
    graph: GraphSummary,
    activeSlots: seq<I32>)

  // ---- derived fields -------------------------------------------------------------------------------------------

  /** Cell `index` of the 20x16 quarter mask, stored least significant bit first. */
  function QuarterCell(packed: QuarterMask, index: nat): int
    requires index < 8 * QUARTER_BYTES
  {
    packed[index / 8] / [1, 2, 4, 8, 16, 32, 64, 128][index % 8] % 2
  }

  /** Pixel `index` of the 40x32 active mask: the quarter cell that covers it. */
  function ActiveCell(packed: QuarterMask, index: nat): (bit: int)
    requires index < 8 * MAP_BYTES
    ensures 0 <= bit <= 1
  {
    QuarterCell(packed, index / 80 * 20 + index % 40 / 2)
  }

  function ActiveByte(packed: QuarterMask, index: nat): Byte
    requires index < MAP_BYTES
  {
    var base := 8 * index;
    ActiveCell(packed, base) + 2 * ActiveCell(packed, base + 1) + 4 * ActiveCell(packed, base + 2)
    + 8 * ActiveCell(packed, base + 3) + 16 * ActiveCell(packed, base + 4) + 32 * ActiveCell(packed, base + 5)
    + 64 * ActiveCell(packed, base + 6) + 128 * ActiveCell(packed, base + 7)
  }

  /** The packed 40x32 validity mask rebuilt from the persisted 20x16 one. */
  function ExpandValidity(packed: QuarterMask): Bitmap
  {
    seq(MAP_BYTES, i requires 0 <= i < MAP_BYTES => ActiveByte(packed, i))
  }

  function ActiveSlot(slot: nat, sampleCount: nat): I32
    requires slot < SAMPLE_CAPACITY
  {
    if slot < sampleCount then slot else -1
  }

  function ActiveSlots(sampleCount: nat): seq<I32> {
    seq(SAMPLE_CAPACITY, slot requires 0 <= slot < SAMPLE_CAPACITY => ActiveSlot(slot, sampleCount))
  }

  // ---- well-formedness ------------------------------------------------------------------------------------------

  predicate WellFormedScalars(s: SampleScalars, index: nat, pointCount: nat) {
    && s.relationCheckpoint == RelationTableCursor(index)
    && 0 <= s.scalar108 <= pointCount
    && s.sampleIndex == index
    && (s.embedded140.Some? ==> s.embedded140.value != 0)
  }

  predicate WellFormedSample(s: PersistedSample, index: nat) {
    && s.activeValidity == ExpandValidity(s.quarterValidity)
    && |s.points| <= POINT_CAPACITY
    && WellFormedScalars(s.scalars, index, |s.points|)
  }

  predicate WellFormedRelation(r: PersistedRelation, sampleCount: nat) {
    && r.low < r.high < sampleCount
    && r.index == PairIndex(r.high, r.low)
    && r.value >= 0
  }

  predicate WellFormedRelations(relations: seq<PersistedRelation>, sampleCount: nat) {
    && (forall r <- relations :: WellFormedRelation(r, sampleCount))
    && (forall i, j :: 0 <= i < j < |relations| ==> relations[i].index != relations[j].index)
  }

  predicate WellFormedGraph(g: GraphSummary, sampleCount: nat) {
    && (g.established <==> g.anchor.Some?)
    && (g.anchor.Some? ==> g.anchor.value < sampleCount)
  }

  predicate WellFormedHeader(h: Header) {
    && h.sampleCount <= h.configuredMax <= SAMPLE_CAPACITY
    && h == Header(h.sampleCount, h.configuredMax, RelationTableCursor(h.sampleCount), POINT_CAPACITY, POINT_CAPACITY)
  }

  /** Samples `index` and on are well-formed at their own positions. */
  predicate WellFormedSamples(samples: seq<PersistedSample>, index: nat) {
    forall i :: 0 <= i < |samples| ==> WellFormedSample(samples[i], index + i)
  }

  predicate WellFormed(t: PersistedTemplate) {
    var n := |t.samples|;
    && WellFormedHeader(t.header)
    && t.header.sampleCount == n
    && WellFormedSamples(t.samples, 0)
    && WellFormedRelations(t.relations, n)
    && WellFormedGraph(t.graph, n)
    && t.activeSlots == ActiveSlots(n)
    && t.rawCrc == Crc.Checksum(Crc.IsoHdlc, PutPayload(t, []))
  }

  // ---- byte layout ----------------------------------------------------------------------------------------------

  /** A length or count in its 32-bit field. */
  function Field(n: nat): U32 {
    n % U32_LIMIT
  }

  function PutWord(w: U32, tail: seq<Byte>): seq<Byte> {
    LE32(w) + tail
  }

  function PutScalar(tag: Byte, value: U32, tail: seq<Byte>): seq<Byte> {
    [tag] + PutWord(value, tail)
  }

  function PutBlob(tag: Byte, data: seq<Byte>, tail: seq<Byte>): seq<Byte> {
    PutScalar(tag, Field(|data|), data + tail)
  }

  function PutScalars(tags: seq<Byte>, values: seq<U32>, tail: seq<Byte>): seq<Byte>
    requires |tags| == |values|
  {
    if tags == [] then tail else PutScalar(tags[0], values[0], PutScalars(tags[1..], values[1..], tail))
  }

  function PutMap(tag: Byte, data: Bitmap, tail: seq<Byte>): seq<Byte> {
    PutBlob(tag,
      PutScalar(0xc1, 40, PutScalar(0xc2, 32, PutScalar(0xc3, ALL_ONES, PutScalar(0xc4, 8,
      PutBlob(0xc5, data, []))))), tail)
  }

  function PutOptionalMap(tag: Byte, data: Option<Bitmap>, tail: seq<Byte>): seq<Byte> {
    if data.Some? then PutMap(tag, data.value, tail) else tail
  }

  /** Whether the `k`-th byte pair of a stored descriptor is swapped. */
  const SWAP: seq<bool> := [false, true, true, false, true, false, false, true]

  function HighNibble(b: Byte): Byte {
    b / 16 * 16
  }

  function LowNibble(b: Byte): Byte {
    b % 16
  }

  /** One byte from the high nibble of `high` and the low nibble of `low`. */
  function JoinNibbles(high: Byte, low: Byte): Byte {
    HighNibble(high) + LowNibble(low)
  }

  /** The stored form of bytes `k` and `8 + k` of a descriptor: their low nibbles change places. */
  function StoredPair(a: Byte, b: Byte, swap: bool): (Byte, Byte) {
    var p, q := JoinNibbles(b, a), JoinNibbles(a, b);
    if swap then (q, p) else (p, q)
  }

  function StoredDescriptorByte(d: Descriptor, j: nat): Byte
    requires j < 16
  {
    var k := j / 2;
    var pair := StoredPair(d[k], d[8 + k], SWAP[k]);
    if j % 2 == 0 then pair.0 else pair.1
  }

  function StoredDescriptor(d: Descriptor): Descriptor
  {
    seq(16, j requires 0 <= j < 16 => StoredDescriptorByte(d, j))
  }

  function PutPoint(p: PersistedPoint, tail: seq<Byte>): seq<Byte>
  {
    PutWord(p.geometryWord, StoredDescriptor(p.descriptor)
      + PutWord(p.hash20, PutWord(p.hash28, PutWord(p.hash2c, tail))))
  }

  function PutPoints(points: seq<PersistedPoint>, tail: seq<Byte>): seq<Byte>
  {
    if points == [] then tail else PutPoint(points[0], PutPoints(points[1..], tail))
  }

  function PutOptionalScalar(tag: Byte, value: Option<I32>, tail: seq<Byte>): seq<Byte> {
    if value.Some? then PutScalar(tag, Bits(value.value), tail) else tail
  }

  function Flag(b: bool): U32 {
    if b then 1 else 0
  }

  function PutSampleScalars(s: SampleScalars, tail: seq<Byte>): seq<Byte> {
    PutScalar(0xb5, Flag(s.canonicalMember), PutScalar(0xb6, Bits(s.relationCheckpoint),
    PutScalar(0xb7, Bits(s.scalar108), PutScalar(0xb8, Bits(s.param3), PutScalar(0xb9, Bits(s.param4),
    PutScalar(0xba, Bits(s.status114), PutScalar(0xbb, Bits(s.scalar118), PutScalar(0xbc, Bits(s.sampleIndex),
    PutScalar(0xbd, Bits(s.scalar120), PutScalar(0xbe, Bits(s.scalar124), PutScalar(0xc0, Bits(s.scalar13c),
    PutOptionalScalar(0xc7, s.embedded140, tail))))))))))))
  }

  function PutSamplePayload(s: PersistedSample): seq<Byte> {
    PutMap(0xb2, s.primaryMap, PutOptionalMap(0xcf, s.secondaryMap, PutBlob(0xce, s.quarterValidity,
    PutOptionalMap(0xcd, s.lowThresholdMap, PutScalar(0xb3, Field(|s.points|), PutBlob(0xb4, PutPoints(s.points, []),
    PutSampleScalars(s.scalars, [])))))))
  }

  function PutSample(s: PersistedSample, tail: seq<Byte>): seq<Byte>
  {
    PutBlob(0x95, PutSamplePayload(s), tail)
  }

  function PutSamples(samples: seq<PersistedSample>, tail: seq<Byte>): seq<Byte>
  {
    if samples == [] then tail else PutSample(samples[0], PutSamples(samples[1..], tail))
  }

  const AFFINE_TAGS: seq<Byte> := [0xe4, 0xe5, 0xe6, 0xe7, 0xe8, 0xe9]

  function AffineWords(t: Affine): (words: seq<U32>)
    ensures |words| == |AFFINE_TAGS|
  {
    [Bits(t.a), Bits(t.b), Bits(t.tx), Bits(t.c), Bits(t.d), Bits(t.ty)]
  }

  function PutRelation(r: PersistedRelation, tail: seq<Byte>): seq<Byte> {
    PutBlob(0x96,
      PutScalar(0xe3, Field(r.index), PutScalar(0xe1, Bits(r.value),
      PutScalars(AFFINE_TAGS, AffineWords(r.higherToLower), []))), tail)
  }

  function PutRelations(relations: seq<PersistedRelation>, tail: seq<Byte>): seq<Byte> {
    if relations == [] then tail else PutRelation(relations[0], PutRelations(relations[1..], tail))
  }

  function AnchorWord(g: GraphSummary): U32 {
    if g.anchor.Some? then Field(g.anchor.value) else ALL_ONES
  }

  function PutSection93(g: GraphSummary, tail: seq<Byte>): seq<Byte> {
    PutBlob(0x93,
      PutScalar(0xf2, AnchorWord(g), PutScalar(0xf3, ALL_ONES, PutScalar(0xf4, ALL_ONES,
      PutScalar(0xf5, Flag(g.established), [])))), tail)
  }

  function PutSlots(slots: seq<I32>, tail: seq<Byte>): seq<Byte> {
    if slots == [] then tail else PutWord(Bits(slots[0]), PutSlots(slots[1..], tail))
  }

  const VERSION_BUFFER: seq<Byte> := VERSION + Zeros(64 - |VERSION|)

  function PutSection94(slots: seq<I32>, tail: seq<Byte>): seq<Byte> {
    PutBlob(0x94,
      PutBlob(0xa1, PutSlots(slots, []), PutScalar(0xa2, ALL_ONES, PutBlob(0xa3, VERSION_BUFFER,
      PutBlob(0xa4, Zeros(1024), PutScalar(0xa5, 0, PutScalar(0xa6, 0, PutScalar(0xa7, 0,
      PutScalar(0xa8, 0, [])))))))), tail)
  }

  /** The values of the fifteen leading scalars. */
  function TopWords(h: Header): (words: seq<U32>)
    ensures |words| == |TOP_TAGS|
  {
    [TEMPLATE_00, TEMPLATE_00, TEMPLATE_04, 0x18, 64, 80, Field(h.sampleCount), Field(h.configuredMax),
     Field(h.relationCursor), Field(h.maxPointCount), Field(h.pointCapacity), 1, 1, 0, 0]
  }

  function PutPayload(t: PersistedTemplate, tail: seq<Byte>): seq<Byte> {
    PutScalars(TOP_TAGS, TopWords(t.header),
    PutSamples(t.samples, PutRelations(t.relations, PutSection93(t.graph, PutSection94(t.activeSlots, tail)))))
  }

  /** The raw template bytes of a decoded value. */
  function Print(t: PersistedTemplate): seq<Byte> {
    PutScalar(0x87, t.rawCrc, PutBlob(0x86, PutPayload(t, []), []))
  }
}
