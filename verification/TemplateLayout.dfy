/**
 Where every field of a raw template lies: tags, offsets and little-endian words of the type-0x18 grammar, said about
 positions in the bytes.
 */
module TemplateLayout {
  import opened Wrappers
  import opened Bytes
  import opened Relations
  import opened TemplateFormat
  import opened TemplateGrammar
  import opened TemplateRoundTrip

  function LittleEndian(b0: int, b1: int, b2: int, b3: int): int {
    b0 + 0x100 * b1 + 0x1_0000 * b2 + 0x100_0000 * b3
  }

  /** The word in the four bytes from `at` on, least significant byte first. */
  predicate WordAt(b: seq<Byte>, at: nat, value: int) {
    at + 4 <= |b| && LittleEndian(b[at], b[at + 1], b[at + 2], b[at + 3]) == value
  }

  predicate TaggedAt(b: seq<Byte>, at: nat, tag: int, value: int) {
    at < |b| && b[at] == tag && WordAt(b, at + 1, value)
  }

  predicate BytesAt(b: seq<Byte>, at: nat, data: seq<Byte>) {
    at + |data| <= |b| && b[at..at + |data|] == data
  }

  /** A signed word as its 32 bits. */
  function Pattern(v: int): int {
    if v < 0 then v + 0x1_0000_0000 else v
  }

  lemma WordBytes(w: U32)
    ensures WordAt(LE32(w), 0, w)
  {
    LE32RoundTrip(w);
  }

  // ---- reading on -----------------------------------------------------------------------------------------------

  lemma PlaceWord(b: seq<Byte>, at: nat, w: U32, tail: seq<Byte>)
    requires at <= |b| && b[at..] == PutWord(w, tail)
    ensures WordAt(b, at, w) && at + 4 <= |b| && b[at + 4..] == tail
  {
    hide LE32;
    WordBytes(w);
    assert forall i: nat :: i < 4 ==> b[at + i] == b[at..][i] == LE32(w)[i];
    assert b[at + 4..] == b[at..][4..] == tail;
  }

  lemma PlaceScalar(b: seq<Byte>, at: nat, tag: Byte, value: U32, tail: seq<Byte>)
    requires at <= |b| && b[at..] == PutScalar(tag, value, tail)
    ensures TaggedAt(b, at, tag, value) && at + 5 <= |b| && b[at + 5..] == tail
  {
    hide LE32, PutWord;
    assert b[at] == b[at..][0];
    assert b[at + 1..] == b[at..][1..];
    PlaceWord(b, at + 1, value, tail);
  }

  lemma PlaceData(b: seq<Byte>, at: nat, data: seq<Byte>, tail: seq<Byte>)
    requires at <= |b| && b[at..] == data + tail
    ensures BytesAt(b, at, data) && at + |data| <= |b| && b[at + |data|..] == tail
  {
    assert |b| - at == |data| + |tail|;
    assert b[at..at + |data|] == b[at..][..|data|];
    assert b[at + |data|..] == b[at..][|data|..];
  }

  lemma PlaceBlob(b: seq<Byte>, at: nat, tag: Byte, data: seq<Byte>, tail: seq<Byte>)
    requires at <= |b| && b[at..] == PutBlob(tag, data, tail) && |data| < U32_LIMIT
    ensures TaggedAt(b, at, tag, |data|) && BytesAt(b, at + 5, data) && at + 5 + |data| <= |b|
    ensures b[at + 5 + |data|..] == tail && b[at + 5..] == data + tail
  {
    hide PutScalar;
    assert Field(|data|) == |data|;
    PlaceScalar(b, at, tag, |data|, data + tail);
    PlaceData(b, at + 5, data, tail);
  }

  // ---- maps -----------------------------------------------------------------------------------------------------

  /** A nested map: its outer length, four fixed scalars and the 160 packed bytes. */
  predicate MapAt(b: seq<Byte>, at: nat, tag: int, data: Bitmap) {
    && TaggedAt(b, at, tag, 185)
    && TaggedAt(b, at + 5, 0xc1, 40) && TaggedAt(b, at + 10, 0xc2, 32)
    && TaggedAt(b, at + 15, 0xc3, 0xffff_ffff) && TaggedAt(b, at + 20, 0xc4, 8)
    && TaggedAt(b, at + 25, 0xc5, 160) && BytesAt(b, at + 30, data)
  }

  lemma MapPayload(data: Bitmap)
    ensures var m := PutScalar(0xc1, 40, PutScalar(0xc2, 32, PutScalar(0xc3, ALL_ONES, PutScalar(0xc4, 8,
        PutBlob(0xc5, data, [])))));
      |m| == 185
  {
    hide LE32;
  }

  lemma PlaceMap(b: seq<Byte>, at: nat, tag: Byte, data: Bitmap, tail: seq<Byte>)
    requires at <= |b| && b[at..] == PutMap(tag, data, tail)
    ensures MapAt(b, at, tag, data) && at + 190 <= |b| && b[at + 190..] == tail
  {
    hide PutScalar, PutBlob;
    MapPayload(data);
    var m5 := PutBlob(0xc5, data, []);
    var m4 := PutScalar(0xc4, 8, m5);
    var m3 := PutScalar(0xc3, ALL_ONES, m4);
    var m2 := PutScalar(0xc2, 32, m3);
    var m1 := PutScalar(0xc1, 40, m2);
    PlaceBlob(b, at, tag, m1, tail);
    ScalarThen(b, at + 5, 0xc1, 40, m2, tail);
    ScalarThen(b, at + 10, 0xc2, 32, m3, tail);
    ScalarThen(b, at + 15, 0xc3, ALL_ONES, m4, tail);
    ScalarThen(b, at + 20, 0xc4, 8, m5, tail);
    BlobThen(b, at + 25, 0xc5, data, [], tail);
  }

  /** A scalar inside a blob, with the rest of the blob and what follows the blob behind it. */
  lemma ScalarThen(b: seq<Byte>, at: nat, tag: Byte, value: U32, inner: seq<Byte>, tail: seq<Byte>)
    requires at <= |b| && b[at..] == PutScalar(tag, value, inner) + tail
    ensures TaggedAt(b, at, tag, value) && at + 5 <= |b| && b[at + 5..] == inner + tail
  {
    hide LE32;
    assert PutScalar(tag, value, inner) + tail == PutScalar(tag, value, inner + tail);
    PlaceScalar(b, at, tag, value, inner + tail);
  }

  lemma BlobThen(b: seq<Byte>, at: nat, tag: Byte, data: seq<Byte>, inner: seq<Byte>, tail: seq<Byte>)
    requires at <= |b| && b[at..] == PutBlob(tag, data, inner) + tail && |data| < U32_LIMIT
    ensures TaggedAt(b, at, tag, |data|) && BytesAt(b, at + 5, data) && at + 5 + |data| <= |b|
    ensures b[at + 5 + |data|..] == inner + tail && b[at + 5..] == data + (inner + tail)
  {
    hide LE32;
    assert PutBlob(tag, data, inner) + tail == PutBlob(tag, data, inner + tail);
    PlaceBlob(b, at, tag, data, inner + tail);
  }

  // ---- points ---------------------------------------------------------------------------------------------------

  /** Bytes `2k` and `2k + 1` of a stored descriptor: the nibbles of bytes `k` and `8 + k`, crosswise. */
  predicate DescriptorPair(first: int, second: int, a: int, b: int, k: nat) {
    var p, q := b / 16 * 16 + a % 16, a / 16 * 16 + b % 16;
    if k == 1 || k == 2 || k == 4 || k == 7 then first == q && second == p else first == p && second == q
  }

  /** The 32 bytes of a point. */
  predicate PointAt(b: seq<Byte>, at: nat, p: PersistedPoint) {
    && at + 32 <= |b|
    && WordAt(b, at, p.geometryWord)
    && (forall k: nat :: k < 8 ==>
          DescriptorPair(b[at + 4 + 2 * k], b[at + 5 + 2 * k], p.descriptor[k], p.descriptor[8 + k], k))
    && WordAt(b, at + 20, p.hash20) && WordAt(b, at + 24, p.hash28) && WordAt(b, at + 28, p.hash2c)
  }

  lemma StoredPairs(d: Descriptor, k: nat)
    requires k < 8
    ensures DescriptorPair(StoredDescriptor(d)[2 * k], StoredDescriptor(d)[2 * k + 1], d[k], d[8 + k], k)
  {
    hide StoredPair;
    assert (2 * k + 1) / 2 == k;
    StoredPairNibbles(d[k], d[8 + k], k);
  }

  lemma StoredPairNibbles(a: Byte, b: Byte, k: nat)
    requires k < 8
    ensures var pair := StoredPair(a, b, SWAP[k]); DescriptorPair(pair.0, pair.1, a, b, k)
  {
    NibblesJoin(a, b);
    NibblesJoin(b, a);
    hide JoinNibbles;
    assert SWAP[k] <==> k == 1 || k == 2 || k == 4 || k == 7;
  }

  lemma NibblesJoin(high: Byte, low: Byte)
    ensures JoinNibbles(high, low) == high / 16 * 16 + low % 16
  {}

  lemma PlacePoint(b: seq<Byte>, at: nat, p: PersistedPoint, tail: seq<Byte>)
    requires at <= |b| && b[at..] == PutPoint(p, tail)
    ensures PointAt(b, at, p) && b[at + 32..] == tail
  {
    hide PutWord, StoredDescriptor, DescriptorPair, WordAt;
    var hashes := PutWord(p.hash20, PutWord(p.hash28, PutWord(p.hash2c, tail)));
    var stored := StoredDescriptor(p.descriptor);
    PlaceWord(b, at, p.geometryWord, stored + hashes);
    PlaceData(b, at + 4, stored, hashes);
    PlaceWord(b, at + 20, p.hash20, PutWord(p.hash28, PutWord(p.hash2c, tail)));
    PlaceWord(b, at + 24, p.hash28, PutWord(p.hash2c, tail));
    PlaceWord(b, at + 28, p.hash2c, tail);
    forall k: nat | k < 8
      ensures DescriptorPair(b[at + 4 + 2 * k], b[at + 5 + 2 * k], p.descriptor[k], p.descriptor[8 + k], k)
    {
      StoredPairs(p.descriptor, k);
      assert b[at + 4..at + 20][2 * k] == b[at + 4 + 2 * k] && b[at + 4..at + 20][2 * k + 1] == b[at + 5 + 2 * k];
    }
  }

  lemma {:induction false} PlacePoints(b: seq<Byte>, at: nat, points: seq<PersistedPoint>, tail: seq<Byte>)
    requires at <= |b| && b[at..] == PutPoints(points, tail)
    ensures at + 32 * |points| <= |b| && b[at + 32 * |points|..] == tail
    ensures forall k: nat :: k < |points| ==> PointAt(b, at + 32 * k, points[k])
    decreases |points|
  {
    hide PutPoint, PointAt;
    if points != [] {
      PlacePoint(b, at, points[0], PutPoints(points[1..], tail));
      PointFits(b, at, points[0]);
      PlacePoints(b, at + 32, points[1..], tail);
      forall k: nat | k < |points|
        ensures PointAt(b, at + 32 * k, points[k])
      {
        if k > 0 {
          assert points[1..][k - 1] == points[k] && at + 32 + 32 * (k - 1) == at + 32 * k;
        }
      }
    }
  }

  lemma PointFits(b: seq<Byte>, at: nat, p: PersistedPoint)
    requires PointAt(b, at, p)
    ensures at + 32 <= |b|
  {}

  // ---- samples --------------------------------------------------------------------------------------------------

  /** The scalars behind the points, five bytes each; the last one is missing when there is no embedded state. */
  predicate SampleScalarsAt(b: seq<Byte>, at: nat, s: SampleScalars) {
    && TaggedAt(b, at, 0xb5, if s.canonicalMember then 1 else 0)
    && TaggedAt(b, at + 5, 0xb6, Pattern(s.relationCheckpoint))
    && TaggedAt(b, at + 10, 0xb7, Pattern(s.scalar108))
    && TaggedAt(b, at + 15, 0xb8, Pattern(s.param3))
    && TaggedAt(b, at + 20, 0xb9, Pattern(s.param4))
    && TaggedAt(b, at + 25, 0xba, Pattern(s.status114))
    && TaggedAt(b, at + 30, 0xbb, Pattern(s.scalar118))
    && TaggedAt(b, at + 35, 0xbc, Pattern(s.sampleIndex))
    && TaggedAt(b, at + 40, 0xbd, Pattern(s.scalar120))
    && TaggedAt(b, at + 45, 0xbe, Pattern(s.scalar124))
    && TaggedAt(b, at + 50, 0xc0, Pattern(s.scalar13c))
    && (s.embedded140.Some? ==> TaggedAt(b, at + 55, 0xc7, Pattern(s.embedded140.value)))
  }

  lemma PlaceSampleScalars(b: seq<Byte>, at: nat, s: SampleScalars, tail: seq<Byte>)
    requires at <= |b| && b[at..] == PutSampleScalars(s, []) + tail
    ensures SampleScalarsAt(b, at, s)
    ensures var n := if s.embedded140.Some? then 60 else 55; at + n <= |b| && b[at + n..] == tail
  {
    hide PutScalar, TaggedAt;
    var t12 := PutOptionalScalar(0xc7, s.embedded140, []);
    var t11 := PutScalar(0xc0, Bits(s.scalar13c), t12);
    var t10 := PutScalar(0xbe, Bits(s.scalar124), t11);
    var t9 := PutScalar(0xbd, Bits(s.scalar120), t10);
    var t8 := PutScalar(0xbc, Bits(s.sampleIndex), t9);
    var t7 := PutScalar(0xbb, Bits(s.scalar118), t8);
    var t6 := PutScalar(0xba, Bits(s.status114), t7);
    var t5 := PutScalar(0xb9, Bits(s.param4), t6);
    var t4 := PutScalar(0xb8, Bits(s.param3), t5);
    var t3 := PutScalar(0xb7, Bits(s.scalar108), t4);
    var t2 := PutScalar(0xb6, Bits(s.relationCheckpoint), t3);
    ScalarThen(b, at, 0xb5, Flag(s.canonicalMember), t2, tail);
    ScalarThen(b, at + 5, 0xb6, Bits(s.relationCheckpoint), t3, tail);
    ScalarThen(b, at + 10, 0xb7, Bits(s.scalar108), t4, tail);
    ScalarThen(b, at + 15, 0xb8, Bits(s.param3), t5, tail);
    ScalarThen(b, at + 20, 0xb9, Bits(s.param4), t6, tail);
    ScalarThen(b, at + 25, 0xba, Bits(s.status114), t7, tail);
    ScalarThen(b, at + 30, 0xbb, Bits(s.scalar118), t8, tail);
    ScalarThen(b, at + 35, 0xbc, Bits(s.sampleIndex), t9, tail);
    ScalarThen(b, at + 40, 0xbd, Bits(s.scalar120), t10, tail);
    ScalarThen(b, at + 45, 0xbe, Bits(s.scalar124), t11, tail);
    ScalarThen(b, at + 50, 0xc0, Bits(s.scalar13c), t12, tail);
    if s.embedded140.Some? {
      ScalarThen(b, at + 55, 0xc7, Bits(s.embedded140.value), [], tail);
    }
  }

  lemma PlaceOptionalMap(b: seq<Byte>, at: nat, tag: Byte, data: Option<Bitmap>, tail: seq<Byte>)
    requires at <= |b| && b[at..] == PutOptionalMap(tag, data, tail)
    ensures data.Some? ==> MapAt(b, at, tag, data.value)
    ensures var n := if data.Some? then 190 else 0; at + n <= |b| && b[at + n..] == tail
  {
    hide PutMap, MapAt;
    if data.Some? {
      PlaceMap(b, at, tag, data.value, tail);
    }
  }

  function MapSize(data: Option<Bitmap>): nat {
    if data.Some? then 190 else 0
  }

  /** Where the point count lies in a sample's payload. */
  function CountOffset(s: PersistedSample): nat {
    235 + MapSize(s.secondaryMap) + MapSize(s.lowThresholdMap)
  }

  function PayloadBytes(s: PersistedSample): nat {
    CountOffset(s) + 10 + 32 * |s.points| + if s.scalars.embedded140.Some? then 60 else 55
  }

  /** The payload of a sample: the maps and the mask, the points and the scalars. */
  predicate PayloadAt(b: seq<Byte>, at: nat, s: PersistedSample) {
    var quarter, count, n := at + 190 + MapSize(s.secondaryMap), at + CountOffset(s), |s.points|;
    && MapAt(b, at, 0xb2, s.primaryMap)
    && (s.secondaryMap.Some? ==> MapAt(b, at + 190, 0xcf, s.secondaryMap.value))
    && TaggedAt(b, quarter, 0xce, 40) && BytesAt(b, quarter + 5, s.quarterValidity)
    && (s.lowThresholdMap.Some? ==> MapAt(b, quarter + 45, 0xcd, s.lowThresholdMap.value))
    && TaggedAt(b, count, 0xb3, n) && TaggedAt(b, count + 5, 0xb4, 32 * n)
    && (forall k: nat :: k < n ==> PointAt(b, count + 10 + 32 * k, s.points[k]))
    && SampleScalarsAt(b, count + 10 + 32 * n, s.scalars)
  }

  /** A sample: its length and its payload. */
  predicate SampleAt(b: seq<Byte>, at: nat, s: PersistedSample) {
    TaggedAt(b, at, 0x95, PayloadBytes(s)) && PayloadAt(b, at + 5, s)
  }

  lemma MapThen(tag: Byte, data: Bitmap, inner: seq<Byte>, tail: seq<Byte>)
    ensures PutMap(tag, data, inner) + tail == PutMap(tag, data, inner + tail)
  {
    hide PutScalar;
    BlobTailed(tag, PutScalar(0xc1, 40, PutScalar(0xc2, 32, PutScalar(0xc3, ALL_ONES, PutScalar(0xc4, 8,
      PutBlob(0xc5, data, []))))), inner, tail);
  }

  lemma BlobTailed(tag: Byte, data: seq<Byte>, inner: seq<Byte>, tail: seq<Byte>)
    ensures PutBlob(tag, data, inner) + tail == PutBlob(tag, data, inner + tail)
  {
    hide LE32;
    assert PutBlob(tag, data, inner) + tail == PutBlob(tag, data, inner + tail);
  }

  lemma OptionalMapThen(tag: Byte, data: Option<Bitmap>, inner: seq<Byte>, tail: seq<Byte>)
    ensures PutOptionalMap(tag, data, inner) + tail == PutOptionalMap(tag, data, inner + tail)
  {
    hide PutMap;
    if data.Some? {
      MapThen(tag, data.value, inner, tail);
    }
  }

  lemma PlaceSample(b: seq<Byte>, at: nat, s: PersistedSample, tail: seq<Byte>)
    requires at <= |b| && b[at..] == PutSample(s, tail) && |s.points| <= POINT_CAPACITY
    ensures SampleAt(b, at, s) && at + 5 + PayloadBytes(s) <= |b| && b[at + 5 + PayloadBytes(s)..] == tail
  {
    hide PutBlob, TaggedAt, BytesAt, PayloadAt, PutSamplePayload;
    PutSampleLength(s, tail);
    var payload := PutSamplePayload(s);
    PlaceBlob(b, at, 0x95, payload, tail);
    PayloadInside(b, at + 5, s, tail);
  }

  lemma PayloadInside(b: seq<Byte>, at: nat, s: PersistedSample, tail: seq<Byte>)
    requires at <= |b| && b[at..] == PutSamplePayload(s) + tail && |s.points| <= POINT_CAPACITY
    ensures PayloadAt(b, at, s)
  {
    hide PutScalar, PutBlob, PutMap, PutOptionalMap, PutSampleScalars, PutPoints, TaggedAt, BytesAt, MapAt, PointAt,
      SampleScalarsAt;
    var n := |s.points|;
    var scalars, points := PutSampleScalars(s.scalars, []), PutPoints(s.points, []);
    PutPointsLength(s.points);
    var t6 := PutBlob(0xb4, points, scalars);
    var t5 := PutScalar(0xb3, Field(n), t6);
    var t4 := PutOptionalMap(0xcd, s.lowThresholdMap, t5);
    var t3 := PutBlob(0xce, s.quarterValidity, t4);
    var t2 := PutOptionalMap(0xcf, s.secondaryMap, t3);
    MapThen(0xb2, s.primaryMap, t2, tail);
    PlaceMap(b, at, 0xb2, s.primaryMap, t2 + tail);
    OptionalMapThen(0xcf, s.secondaryMap, t3, tail);
    PlaceOptionalMap(b, at + 190, 0xcf, s.secondaryMap, t3 + tail);
    var quarter := at + 190 + MapSize(s.secondaryMap);
    BlobThen(b, quarter, 0xce, s.quarterValidity, t4, tail);
    OptionalMapThen(0xcd, s.lowThresholdMap, t5, tail);
    PlaceOptionalMap(b, quarter + 45, 0xcd, s.lowThresholdMap, t5 + tail);
    var count := at + CountOffset(s);
    ScalarThen(b, count, 0xb3, Field(n), t6, tail);
    BlobThen(b, count + 5, 0xb4, points, scalars, tail);
    PointsThen(s.points, scalars + tail);
    PlacePoints(b, count + 10, s.points, scalars + tail);
    PlaceSampleScalars(b, count + 10 + 32 * n, s.scalars, tail);
  }

  lemma {:induction false} PointsThen(points: seq<PersistedPoint>, tail: seq<Byte>)
    ensures PutPoints(points, []) + tail == PutPoints(points, tail)
  {
    hide PutPoint;
    if points != [] {
      PointsThen(points[1..], tail);
      PutPointTail(points[0], PutPoints(points[1..], []));
      PutPointTail(points[0], PutPoints(points[1..], tail));
      assert PutPoint(points[0], []) + PutPoints(points[1..], []) + tail
        == PutPoint(points[0], []) + (PutPoints(points[1..], []) + tail);
    }
  }

  // ---- relations and sections -----------------------------------------------------------------------------------

  /** The 45 bytes of a relation. */
  predicate RelationAt(b: seq<Byte>, at: nat, r: PersistedRelation) {
    && TaggedAt(b, at, 0x96, 40)
    && TaggedAt(b, at + 5, 0xe3, r.index) && TaggedAt(b, at + 10, 0xe1, Pattern(r.value))
    && TaggedAt(b, at + 15, 0xe4, Pattern(r.higherToLower.a)) && TaggedAt(b, at + 20, 0xe5, Pattern(r.higherToLower.b))
    && TaggedAt(b, at + 25, 0xe6, Pattern(r.higherToLower.tx)) && TaggedAt(b, at + 30, 0xe7, Pattern(r.higherToLower.c))
    && TaggedAt(b, at + 35, 0xe8, Pattern(r.higherToLower.d)) && TaggedAt(b, at + 40, 0xe9, Pattern(r.higherToLower.ty))
  }

  lemma AffineScalars(m: Affine)
    ensures PutScalars(AFFINE_TAGS, AffineWords(m), []) ==
      PutScalar(0xe4, Bits(m.a), PutScalar(0xe5, Bits(m.b), PutScalar(0xe6, Bits(m.tx), PutScalar(0xe7, Bits(m.c),
      PutScalar(0xe8, Bits(m.d), PutScalar(0xe9, Bits(m.ty), []))))))
  {
    hide PutScalar;
    var tags, w := AFFINE_TAGS, AffineWords(m);
    assert tags[1..] == [0xe5, 0xe6, 0xe7, 0xe8, 0xe9];
    ScalarsUnfold(tags, w, []);
    ScalarsUnfold(tags[1..], w[1..], []);
    ScalarsUnfold(tags[2..], w[2..], []);
    ScalarsUnfold(tags[3..], w[3..], []);
    ScalarsUnfold(tags[4..], w[4..], []);
    ScalarsUnfold(tags[5..], w[5..], []);
  }

  lemma ScalarsUnfold(tags: seq<Byte>, words: seq<U32>, tail: seq<Byte>)
    requires |tags| == |words| > 0
    ensures PutScalars(tags, words, tail) == PutScalar(tags[0], words[0], PutScalars(tags[1..], words[1..], tail))
  {}

  lemma PlaceRelation(b: seq<Byte>, at: nat, r: PersistedRelation, tail: seq<Byte>)
    requires at <= |b| && b[at..] == PutRelation(r, tail) && r.index < U32_LIMIT
    ensures RelationAt(b, at, r) && at + 45 <= |b| && b[at + 45..] == tail
  {
    hide PutScalar, PutScalars, PutBlob, TaggedAt;
    PutSizes();
    var m := r.higherToLower;
    AffineScalars(m);
    var t6 := PutScalar(0xe9, Bits(m.ty), []);
    var t5 := PutScalar(0xe8, Bits(m.d), t6);
    var t4 := PutScalar(0xe7, Bits(m.c), t5);
    var t3 := PutScalar(0xe6, Bits(m.tx), t4);
    var t2 := PutScalar(0xe5, Bits(m.b), t3);
    var t1 := PutScalar(0xe4, Bits(m.a), t2);
    var t0 := PutScalar(0xe1, Bits(r.value), t1);
    PlaceBlob(b, at, 0x96, PutScalar(0xe3, Field(r.index), t0), tail);
    ScalarThen(b, at + 5, 0xe3, Field(r.index), t0, tail);
    ScalarThen(b, at + 10, 0xe1, Bits(r.value), t1, tail);
    ScalarThen(b, at + 15, 0xe4, Bits(m.a), t2, tail);
    ScalarThen(b, at + 20, 0xe5, Bits(m.b), t3, tail);
    ScalarThen(b, at + 25, 0xe6, Bits(m.tx), t4, tail);
    ScalarThen(b, at + 30, 0xe7, Bits(m.c), t5, tail);
    ScalarThen(b, at + 35, 0xe8, Bits(m.d), t6, tail);
    ScalarThen(b, at + 40, 0xe9, Bits(m.ty), [], tail);
  }

  /** The graph section: the anchor or all ones, and whether a component is established. */
  predicate GraphAt(b: seq<Byte>, at: nat, g: GraphSummary) {
    && TaggedAt(b, at, 0x93, 20)
    && TaggedAt(b, at + 5, 0xf2, if g.anchor.Some? then g.anchor.value else 0xffff_ffff)
    && TaggedAt(b, at + 10, 0xf3, 0xffff_ffff) && TaggedAt(b, at + 15, 0xf4, 0xffff_ffff)
    && TaggedAt(b, at + 20, 0xf5, if g.established then 1 else 0)
  }

  lemma GraphSection(b: seq<Byte>, at: nat, g: GraphSummary, tail: seq<Byte>)
    requires at <= |b| && b[at..] == PutSection93(g, tail) && (g.anchor.Some? ==> g.anchor.value < U32_LIMIT)
    ensures GraphAt(b, at, g) && at + 25 <= |b| && b[at + 25..] == tail
  {
    hide PutScalar, PutBlob, TaggedAt;
    PutSizes();
    var t3 := PutScalar(0xf5, Flag(g.established), []);
    var t2 := PutScalar(0xf4, ALL_ONES, t3);
    var t1 := PutScalar(0xf3, ALL_ONES, t2);
    PlaceBlob(b, at, 0x93, PutScalar(0xf2, AnchorWord(g), t1), tail);
    ScalarThen(b, at + 5, 0xf2, AnchorWord(g), t1, tail);
    ScalarThen(b, at + 10, 0xf3, ALL_ONES, t2, tail);
    ScalarThen(b, at + 15, 0xf4, ALL_ONES, t3, tail);
    ScalarThen(b, at + 20, 0xf5, Flag(g.established), [], tail);
  }

  predicate ZerosAt(b: seq<Byte>, from: nat, end: nat) {
    from <= end <= |b| && forall i :: from <= i < end ==> b[i] == 0
  }

  /** "Milan_v_3.02.00.20" in the first bytes, and zeros behind it. */
  predicate VersionAt(b: seq<Byte>, at: nat) {
    && at + 64 <= |b|
    && b[at..at + 18] == [0x4d, 0x69, 0x6c, 0x61, 0x6e, 0x5f, 0x76, 0x5f, 0x33, 0x2e, 0x30, 0x32, 0x2e, 0x30, 0x30, 0x2e, 0x32, 0x30]
    && ZerosAt(b, at + 18, at + 64)
  }

  /** The storage section: fifty slots, the version buffer, 1024 zero bytes and four zero scalars. */
  predicate StorageAt(b: seq<Byte>, at: nat, slots: seq<I32>) {
    && TaggedAt(b, at, 0x94, 1328) && TaggedAt(b, at + 5, 0xa1, 200)
    && |slots| == 50 && (forall i: nat :: i < 50 ==> WordAt(b, at + 10 + 4 * i, Pattern(slots[i])))
    && TaggedAt(b, at + 210, 0xa2, 0xffff_ffff)
    && TaggedAt(b, at + 215, 0xa3, 64) && VersionAt(b, at + 220)
    && TaggedAt(b, at + 284, 0xa4, 1024) && ZerosAt(b, at + 289, at + 1313)
    && TaggedAt(b, at + 1313, 0xa5, 0) && TaggedAt(b, at + 1318, 0xa6, 0)
    && TaggedAt(b, at + 1323, 0xa7, 0) && TaggedAt(b, at + 1328, 0xa8, 0)
  }

  lemma {:induction false} PlaceSlots(b: seq<Byte>, at: nat, slots: seq<I32>, tail: seq<Byte>)
    requires at <= |b| && b[at..] == PutSlots(slots, []) + tail
    ensures at + 4 * |slots| <= |b| && b[at + 4 * |slots|..] == tail
    ensures forall i: nat :: i < |slots| ==> WordAt(b, at + 4 * i, Pattern(slots[i]))
    decreases |slots|
  {
    hide LE32, WordAt;
    if slots != [] {
      var rest := PutSlots(slots[1..], []);
      assert PutWord(Bits(slots[0]), rest) + tail == PutWord(Bits(slots[0]), rest + tail);
      PlaceWord(b, at, Bits(slots[0]), rest + tail);
      PlaceSlots(b, at + 4, slots[1..], tail);
      forall i: nat | i < |slots|
        ensures WordAt(b, at + 4 * i, Pattern(slots[i]))
      {
        if i > 0 {
          assert slots[1..][i - 1] == slots[i] && at + 4 + 4 * (i - 1) == at + 4 * i;
        }
      }
    }
  }

  lemma VersionBytes(b: seq<Byte>, at: nat)
    requires BytesAt(b, at, VERSION_BUFFER)
    ensures VersionAt(b, at)
  {
    assert b[at..at + 64][..18] == b[at..at + 18];
    forall i | at + 18 <= i < at + 64
      ensures b[i] == 0
    {
      assert b[at..at + 64][i - at] == VERSION_BUFFER[i - at];
    }
  }

  lemma ZeroBytes(b: seq<Byte>, at: nat, n: nat)
    requires BytesAt(b, at, Zeros(n))
    ensures ZerosAt(b, at, at + n)
  {
    forall i | at <= i < at + n
      ensures b[i] == 0
    {
      assert b[at..at + n][i - at] == Zeros(n)[i - at];
    }
  }

  lemma StorageSection(b: seq<Byte>, at: nat, slots: seq<I32>, tail: seq<Byte>)
    requires at <= |b| && b[at..] == PutSection94(slots, tail) && |slots| == 50
    ensures StorageAt(b, at, slots) && at + 1333 <= |b| && b[at + 1333..] == tail
  {
    hide PutScalar, PutBlob, TaggedAt, BytesAt, PutSlots, WordAt, VersionAt, Zeros;
    assert |Zeros(1024)| == 1024 && |VERSION_BUFFER| == 64;
    PutSizes();
    PutSlotsLength(slots, []);
    var t8 := PutScalar(0xa8, 0, []);
    var t7 := PutScalar(0xa7, 0, t8);
    var t6 := PutScalar(0xa6, 0, t7);
    var t5 := PutScalar(0xa5, 0, t6);
    var t4 := PutBlob(0xa4, Zeros(1024), t5);
    var t3 := PutBlob(0xa3, VERSION_BUFFER, t4);
    var t2 := PutScalar(0xa2, ALL_ONES, t3);
    PlaceBlob(b, at, 0x94, PutBlob(0xa1, PutSlots(slots, []), t2), tail);
    BlobThen(b, at + 5, 0xa1, PutSlots(slots, []), t2, tail);
    PlaceSlots(b, at + 10, slots, t2 + tail);
    ScalarThen(b, at + 210, 0xa2, ALL_ONES, t3, tail);
    BlobThen(b, at + 215, 0xa3, VERSION_BUFFER, t4, tail);
    VersionBytes(b, at + 220);
    BlobThen(b, at + 284, 0xa4, Zeros(1024), t5, tail);
    ZeroBytes(b, at + 289, 1024);
    ScalarThen(b, at + 1313, 0xa5, 0, t6, tail);
    ScalarThen(b, at + 1318, 0xa6, 0, t7, tail);
    ScalarThen(b, at + 1323, 0xa7, 0, t8, tail);
    ScalarThen(b, at + 1328, 0xa8, 0, [], tail);
  }

  // ---- the whole template ---------------------------------------------------------------------------------------

  /** The envelope and the fifteen leading scalars. */
  predicate HeaderAt(b: seq<Byte>, crc: U32, h: Header) {
    && |b| >= 85
    && TaggedAt(b, 0, 0x87, crc) && TaggedAt(b, 5, 0x86, |b| - 10)
    && TaggedAt(b, 10, 0x81, 0x002e_14f4) && TaggedAt(b, 15, 0x88, 0x002e_14f4) && TaggedAt(b, 20, 0x89, 0x002d_f160)
    && TaggedAt(b, 25, 0x98, 0x18) && TaggedAt(b, 30, 0x9a, 64) && TaggedAt(b, 35, 0x9b, 80)
    && TaggedAt(b, 40, 0x91, h.sampleCount) && TaggedAt(b, 45, 0x97, h.configuredMax)
    && TaggedAt(b, 50, 0x92, h.relationCursor) && TaggedAt(b, 55, 0x9e, h.maxPointCount)
    && TaggedAt(b, 60, 0x9f, h.pointCapacity) && TaggedAt(b, 65, 0x9c, 1) && TaggedAt(b, 70, 0x9d, 1)
    && TaggedAt(b, 75, 0xfa, 0) && TaggedAt(b, 80, 0xfb, 0)
  }

  /** Samples one behind the other from `at` on, and the position behind the last. */
  ghost predicate SamplesAt(b: seq<Byte>, at: nat, samples: seq<PersistedSample>, end: nat)
    decreases |samples|
  {
    if samples == [] then at == end
    else SampleAt(b, at, samples[0]) && SamplesAt(b, at + 5 + PayloadBytes(samples[0]), samples[1..], end)
  }

  /** What follows the header: samples, relations, graph section and storage section, in this order. */
  ghost predicate BodyAt(b: seq<Byte>, t: PersistedTemplate, end: nat) {
    && SamplesAt(b, 85, t.samples, end)
    && (forall k: nat :: k < |t.relations| ==> RelationAt(b, end + 45 * k, t.relations[k]))
    && GraphAt(b, end + 45 * |t.relations|, t.graph)
    && StorageAt(b, end + 45 * |t.relations| + 25, t.activeSlots)
    && |b| == end + 45 * |t.relations| + 1358
  }

  /** The whole raw template. */
  ghost predicate TemplateAt(b: seq<Byte>, t: PersistedTemplate) {
    HeaderAt(b, t.rawCrc, t.header) && exists end: nat :: BodyAt(b, t, end)
  }

  lemma {:induction false} PlaceSamples(b: seq<Byte>, at: nat, samples: seq<PersistedSample>, tail: seq<Byte>)
    returns (end: nat)
    requires at <= |b| && b[at..] == PutSamples(samples, tail)
    requires forall s <- samples :: |s.points| <= POINT_CAPACITY
    ensures SamplesAt(b, at, samples, end) && end <= |b| && b[end..] == tail
    decreases |samples|
  {
    hide PutSample, SampleAt, PayloadBytes;
    end := at;
    if samples != [] {
      assert samples[0] in samples;
      PlaceSample(b, at, samples[0], PutSamples(samples[1..], tail));
      end := PlaceSamples(b, at + 5 + PayloadBytes(samples[0]), samples[1..], tail);
    }
  }

  lemma {:induction false} PlaceRelations(b: seq<Byte>, at: nat, relations: seq<PersistedRelation>, tail: seq<Byte>)
    requires at <= |b| && b[at..] == PutRelations(relations, tail)
    requires forall r <- relations :: r.index < U32_LIMIT
    ensures at + 45 * |relations| <= |b| && b[at + 45 * |relations|..] == tail
    ensures forall k: nat :: k < |relations| ==> RelationAt(b, at + 45 * k, relations[k])
    decreases |relations|
  {
    hide PutRelation, RelationAt;
    if relations != [] {
      assert relations[0] in relations;
      PlaceRelation(b, at, relations[0], PutRelations(relations[1..], tail));
      PlaceRelations(b, at + 45, relations[1..], tail);
      forall k: nat | k < |relations|
        ensures RelationAt(b, at + 45 * k, relations[k])
      {
        if k > 0 {
          assert relations[1..][k - 1] == relations[k] && at + 45 + 45 * (k - 1) == at + 45 * k;
        }
      }
    }
  }

  /** The fifteen scalars behind position `at`. */
  lemma {:induction false} PlaceTagged(b: seq<Byte>, at: nat, tags: seq<Byte>, words: seq<U32>, tail: seq<Byte>)
    requires |tags| == |words| && at <= |b| && b[at..] == PutScalars(tags, words, tail)
    ensures at + 5 * |tags| <= |b| && b[at + 5 * |tags|..] == tail
    ensures forall i: nat :: i < |tags| ==> TaggedAt(b, at + 5 * i, tags[i], words[i])
    decreases |tags|
  {
    hide PutScalar, TaggedAt;
    if tags != [] {
      PlaceScalar(b, at, tags[0], words[0], PutScalars(tags[1..], words[1..], tail));
      PlaceTagged(b, at + 5, tags[1..], words[1..], tail);
      forall i: nat | i < |tags|
        ensures TaggedAt(b, at + 5 * i, tags[i], words[i])
      {
        if i > 0 {
          assert tags[1..][i - 1] == tags[i] && words[1..][i - 1] == words[i] && at + 5 + 5 * (i - 1) == at + 5 * i;
        }
      }
    }
  }

  lemma HeaderPlaces(b: seq<Byte>, crc: U32, h: Header, payload: seq<Byte>, rest: seq<Byte>)
    requires WellFormedHeader(h) && h.relationCursor < U32_LIMIT && |payload| < U32_LIMIT
    requires b == PutScalar(0x87, crc, PutBlob(0x86, payload, [])) && payload == PutScalars(TOP_TAGS, TopWords(h), rest)
    ensures HeaderAt(b, crc, h) && |b| >= 85 && b[85..] == rest && |b| == |payload| + 10
  {
    hide PutScalar, PutScalars, PutBlob, TaggedAt, RelationTableCursor;
    PutSizes();
    assert b[0..] == b;
    PlaceScalar(b, 0, 0x87, crc, PutBlob(0x86, payload, []));
    PlaceBlob(b, 5, 0x86, payload, []);
    assert payload + [] == payload;
    PlaceTagged(b, 10, TOP_TAGS, TopWords(h), rest);
    TopFields(h);
    HeaderFromFields(b, crc, h);
  }

  lemma TopFields(h: Header)
    requires WellFormedHeader(h) && h.relationCursor < U32_LIMIT
    ensures |TopWords(h)| == |TOP_TAGS| == 15
    ensures TOP_TAGS == [0x81, 0x88, 0x89, 0x98, 0x9a, 0x9b, 0x91, 0x97, 0x92, 0x9e, 0x9f, 0x9c, 0x9d, 0xfa, 0xfb]
    ensures TopWords(h) == [0x002e_14f4, 0x002e_14f4, 0x002d_f160, 0x18, 64, 80, h.sampleCount, h.configuredMax,
      h.relationCursor, h.maxPointCount, h.pointCapacity, 1, 1, 0, 0]
  {
    hide RelationTableCursor;
  }

  lemma HeaderFromFields(b: seq<Byte>, crc: U32, h: Header)
    requires |b| >= 85 && TaggedAt(b, 0, 0x87, crc) && TaggedAt(b, 5, 0x86, |b| - 10)
    requires |TopWords(h)| == |TOP_TAGS| == 15
    requires TOP_TAGS == [0x81, 0x88, 0x89, 0x98, 0x9a, 0x9b, 0x91, 0x97, 0x92, 0x9e, 0x9f, 0x9c, 0x9d, 0xfa, 0xfb]
    requires TopWords(h) == [0x002e_14f4, 0x002e_14f4, 0x002d_f160, 0x18, 64, 80, h.sampleCount, h.configuredMax,
      h.relationCursor, h.maxPointCount, h.pointCapacity, 1, 1, 0, 0]
    requires forall i: nat :: i < 15 ==> TaggedAt(b, 10 + 5 * i, TOP_TAGS[i], TopWords(h)[i])
    ensures HeaderAt(b, crc, h)
  {
    hide TopWords, TaggedAt;
    var tags, words := TOP_TAGS, TopWords(h);
    assert TaggedAt(b, 10 + 5 * 0, tags[0], words[0]) && TaggedAt(b, 10 + 5 * 1, tags[1], words[1]);
    assert TaggedAt(b, 10 + 5 * 2, tags[2], words[2]) && TaggedAt(b, 10 + 5 * 3, tags[3], words[3]);
    assert TaggedAt(b, 10 + 5 * 4, tags[4], words[4]) && TaggedAt(b, 10 + 5 * 5, tags[5], words[5]);
    assert TaggedAt(b, 10 + 5 * 6, tags[6], words[6]) && TaggedAt(b, 10 + 5 * 7, tags[7], words[7]);
    assert TaggedAt(b, 10 + 5 * 8, tags[8], words[8]) && TaggedAt(b, 10 + 5 * 9, tags[9], words[9]);
    assert TaggedAt(b, 10 + 5 * 10, tags[10], words[10]) && TaggedAt(b, 10 + 5 * 11, tags[11], words[11]);
    assert TaggedAt(b, 10 + 5 * 12, tags[12], words[12]) && TaggedAt(b, 10 + 5 * 13, tags[13], words[13]);
    assert TaggedAt(b, 10 + 5 * 14, tags[14], words[14]);
  }

  lemma FieldsFit(t: PersistedTemplate)
    requires WellFormed(t)
    ensures forall s <- t.samples :: |s.points| <= POINT_CAPACITY
    ensures forall r <- t.relations :: r.index < U32_LIMIT
    ensures (t.graph.anchor.Some? ==> t.graph.anchor.value < U32_LIMIT) && |t.activeSlots| == 50
    ensures WellFormedHeader(t.header) && t.header.relationCursor < U32_LIMIT
  {
    hide PutPayload, WellFormedRelation, RelationTableCursor;
    var n := |t.samples|;
    forall s <- t.samples
      ensures |s.points| <= POINT_CAPACITY
    {
      var i :| 0 <= i < n && t.samples[i] == s;
      FewPersistedPoints(s, 0 + i);
    }
    forall r <- t.relations
      ensures r.index < U32_LIMIT
    {
      IndexFits(r, n);
      TableFits(n);
    }
    CursorFits(n);
  }

  /** The printed form of a well-formed template holds every field where the format has it. */
  lemma PrintedLayout(t: PersistedTemplate)
    requires WellFormed(t)
    ensures TemplateAt(Print(t), t)
  {
    PayloadFits(t);
    FieldsFit(t);
    hide WellFormed, SamplesSize, PutScalar, PutScalars, PutBlob, PutSamples, PutRelations, PutSection93, PutSection94,
      HeaderAt, BodyAt, RelationTableCursor, TopWords;
    var b := Print(t);
    HeaderPlaces(b, t.rawCrc, t.header, PutPayload(t, []), BodyOf(t));
    hide Print, PutPayload;
    var end := BodyPlaces(b, t);
  }

  function BodyOf(t: PersistedTemplate): seq<Byte> {
    PutSamples(t.samples, PutRelations(t.relations, PutSection93(t.graph, PutSection94(t.activeSlots, []))))
  }

  lemma BodyPlaces(b: seq<Byte>, t: PersistedTemplate) returns (end: nat)
    requires |b| >= 85 && b[85..] == BodyOf(t) && |t.activeSlots| == 50
    requires forall s <- t.samples :: |s.points| <= POINT_CAPACITY
    requires forall r <- t.relations :: r.index < U32_LIMIT
    requires t.graph.anchor.Some? ==> t.graph.anchor.value < U32_LIMIT
    ensures BodyAt(b, t, end)
  {
    hide PutSamples, PutRelations, PutSection93, PutSection94, SampleAt, RelationAt, GraphAt, StorageAt, SamplesAt;
    var t3 := PutSection94(t.activeSlots, []);
    var t2 := PutSection93(t.graph, t3);
    var t1 := PutRelations(t.relations, t2);
    end := PlaceSamples(b, 85, t.samples, t1);
    PlaceRelations(b, end, t.relations, t2);
    GraphSection(b, end + 45 * |t.relations|, t.graph, t3);
    StorageSection(b, end + 45 * |t.relations| + 25, t.activeSlots, []);
  }

  /** So does every accepted byte string. */
  lemma AcceptedLayout(raw: seq<Byte>, t: PersistedTemplate)
    requires ParseRaw(raw) == Ok(t)
    ensures TemplateAt(raw, t)
  {
    hide ParseRaw, Print, WellFormed, TemplateAt;
    AcceptedIffPrinted(raw, t);
    PrintedLayout(t);
  }
}
