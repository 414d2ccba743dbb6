/**
 The strict grammar of persisted templates as functions from the bytes still unread to a decoded value and the bytes
 left over, with every check in the order the decoder performs it.
 */
module TemplateGrammar {
  import opened Wrappers
  import opened Bytes
  import opened Relations
  import opened TemplateFormat
  import Crc

  datatype DecodeError =
    | RawTooShort(actual: nat)
    | Truncated(needed: nat, remaining: nat)
    | UnexpectedTag(expected: Byte, actualTag: Byte)
    | RawPayloadLengthMismatch(stored: nat, actualLength: nat)
    | RawCrcMismatch(storedCrc: U32, computed: U32)
    | ContainerLengthMismatch(declared: nat, consumed: int)
    | UnexpectedScalar(tag: Byte, expectedScalar: U32, actualScalar: U32)
    | InvalidValue(value: int)
    | BlobLengthMismatch(blobTag: Byte, expectedBytes: nat, actualBytes: nat)
    | PointBlobLengthMismatch(sample: nat, pointCount: nat, pointBytes: nat)
    | SampleIndexMismatch(expectedIndex: nat, actualIndex: I32)
    | RelationCheckpointMismatch(checkpointSample: nat, expectedCheckpoint: int, actualCheckpoint: I32)
    | RelationCursorMismatch(sampleCount: nat, expectedCursor: nat, actualCursor: nat)
    | RelationIndexOutOfRange(index: nat, count: nat)
    | DuplicateRelationIndex(duplicate: nat)
    | NegativePersistedRelation(negative: nat, relationValue: I32)
    | InvalidGraphAnchor(anchor: I32, samples: nat)
    | ActiveSlotMismatch(slot: nat, expectedSlot: I32, actualSlot: I32)
    | VersionBufferMismatch
    | NonZeroReservedBlob(reservedTag: Byte, at: nat, byte: Byte)
    | PackedSizeMismatch(expectedSize: int, actualSize: nat)

  type Parse<T> = Result<(T, seq<Byte>), DecodeError>
  type Check = Outcome<DecodeError>

  // ---- primitives -----------------------------------------------------------------------------------------------

  function Take(count: nat, b: seq<Byte>): Parse<seq<Byte>> {
    if count > |b| then Err(Truncated(count, |b|)) else Ok((b[..count], b[count..]))
  }

  function Peek(b: seq<Byte>): Result<Byte, DecodeError> {
    if b == [] then Err(Truncated(1, 0)) else Ok(b[0])
  }

  function ExpectTag(tag: Byte, b: seq<Byte>): Result<seq<Byte>, DecodeError> {
    if b == [] then Err(Truncated(1, 0))
    else if b[0] != tag then Err(UnexpectedTag(tag, b[0]))
    else Ok(b[1..])
  }

  function ParseWord(b: seq<Byte>): Parse<U32> {
    if 4 > |b| then Err(Truncated(4, |b|)) else Ok((FromLE32(b[..4]), b[4..]))
  }

  function ParseScalar(tag: Byte, b: seq<Byte>): (r: Parse<U32>)
    ensures r.Ok? ==> b == PutScalar(tag, r.value.0, r.value.1)
  {
    var b1 :- ExpectTag(tag, b);
    ParseWord(b1)
  }

  function ParseBlob(tag: Byte, b: seq<Byte>): (r: Parse<seq<Byte>>)
    ensures r.Ok? ==> b == PutBlob(tag, r.value.0, r.value.1) && |r.value.0| < U32_LIMIT
  {
    var (length, b1) :- ParseScalar(tag, b);
    var (data, rest) :- Take(length, b1);
    assert data + rest == b1 && Field(|data|) == length;
    Ok((data, rest))
  }

  function RequireScalar(tag: Byte, actual: U32, expected: U32): Check {
    Need(actual == expected, UnexpectedScalar(tag, expected, actual))
  }

  /** Reads one scalar and insists on its value. */
  function ParseFixed(tag: Byte, expected: U32, b: seq<Byte>): (r: Result<seq<Byte>, DecodeError>)
    ensures r.Ok? ==> b == PutScalar(tag, expected, r.value)
  {
    var (actual, rest) :- ParseScalar(tag, b);
    :- RequireScalar(tag, actual, expected);
    Ok(rest)
  }

  function ParseSigned(tag: Byte, b: seq<Byte>): (r: Parse<I32>)
    ensures r.Ok? ==> b == PutScalar(tag, Bits(r.value.0), r.value.1)
  {
    var (w, rest) :- ParseScalar(tag, b);
    Ok((Signed(w), rest))
  }

  function RequireEmpty(payload: seq<Byte>, rest: seq<Byte>): Check
  {
    Need(rest == [], ContainerLengthMismatch(|payload|, |payload| - |rest|))
  }

  // ---- samples --------------------------------------------------------------------------------------------------

  function ParseMap(tag: Byte, b: seq<Byte>): (r: Parse<Bitmap>)
    ensures r.Ok? ==> b == PutMap(tag, r.value.0, r.value.1)
  {
    var (payload, rest) :- ParseBlob(tag, b);
    var p1 :- ParseFixed(0xc1, 40, payload);
    var p2 :- ParseFixed(0xc2, 32, p1);
    var p3 :- ParseFixed(0xc3, ALL_ONES, p2);
    var p4 :- ParseFixed(0xc4, 8, p3);
    var (data, p5) :- ParseBlob(0xc5, p4);
    :- Need(|data| == MAP_BYTES, BlobLengthMismatch(0xc5, MAP_BYTES, |data|));
    :- RequireEmpty(payload, p5);
    Ok((data, rest))
  }

  /** A map that is present exactly when its tag is next. */
  function ParseOptionalMap(tag: Byte, b: seq<Byte>): (r: Parse<Option<Bitmap>>)
    ensures r.Ok? ==> b == PutOptionalMap(tag, r.value.0, r.value.1)
  {
    var next :- Peek(b);
    if next == tag then
      var (data, rest) :- ParseMap(tag, b);
      Ok((Some(data), rest))
    else Ok((None, b))
  }

  /** Bytes `k` and `8 + k` of a descriptor from their stored pair. */
  function RecoveredPair(first: Byte, second: Byte, swap: bool): (Byte, Byte) {
    var p, q := if swap then second else first, if swap then first else second;
    (JoinNibbles(q, p), JoinNibbles(p, q))
  }

  function RecoveredDescriptorByte(e: Descriptor, j: nat): Byte
    requires j < 16
  {
    var k := j % 8;
    var pair := RecoveredPair(e[2 * k], e[2 * k + 1], SWAP[k]);
    if j < 8 then pair.0 else pair.1
  }

  /** Undoes the nibble permutation of a stored descriptor. */
  function RecoverDescriptor(e: Descriptor): (d: Descriptor)
  {
    seq(16, j requires 0 <= j < 16 => RecoveredDescriptorByte(e, j))
  }

  function DecodePoint(raw: seq<Byte>): (p: PersistedPoint)
    requires |raw| == POINT_BYTES
  {
    PersistedPoint(FromLE32(raw[..4]), RecoverDescriptor(raw[4..20]),
      FromLE32(raw[20..24]), FromLE32(raw[24..28]), FromLE32(raw[28..32]))
  }

  /** Every whole 32-byte chunk, decoded. */
  function DecodePoints(blob: seq<Byte>): (points: seq<PersistedPoint>)
    ensures |points| == |blob| / POINT_BYTES
  {
    if |blob| < POINT_BYTES then [] else [DecodePoint(blob[..POINT_BYTES])] + DecodePoints(blob[POINT_BYTES..])
  }

  /** Exchanging low nibbles between two bytes twice restores the first. */
  lemma NibblesRestore(a: Byte, b: Byte)
    ensures JoinNibbles(JoinNibbles(a, b), JoinNibbles(b, a)) == a
  {}

  lemma PairsInverse(a: Byte, b: Byte, swap: bool)
    ensures var e := StoredPair(a, b, swap); RecoveredPair(e.0, e.1, swap) == (a, b)
    ensures var d := RecoveredPair(a, b, swap); StoredPair(d.0, d.1, swap) == (a, b)
  {
    hide JoinNibbles;
    NibblesRestore(a, b);
    NibblesRestore(b, a);
  }

  lemma RecoverStored(d: Descriptor, e: Descriptor, j: nat)
    requires j < 16 && e == StoredDescriptor(d)
    ensures RecoveredDescriptorByte(e, j) == d[j]
  {
    hide StoredPair, RecoveredPair;
    var k := j % 8;
    assert e[2 * k] == StoredDescriptorByte(d, 2 * k) && e[2 * k + 1] == StoredDescriptorByte(d, 2 * k + 1);
    PairsInverse(d[k], d[8 + k], SWAP[k]);
  }

  lemma StoreRecovered(e: Descriptor, d: Descriptor, j: nat)
    requires j < 16 && d == RecoverDescriptor(e)
    ensures StoredDescriptorByte(d, j) == e[j]
  {
    hide StoredPair, RecoveredPair;
    var k := j / 2;
    assert d[k] == RecoveredDescriptorByte(e, k) && d[8 + k] == RecoveredDescriptorByte(e, 8 + k);
    PairsInverse(e[2 * k], e[2 * k + 1], SWAP[k]);
  }

  /** The stored nibble permutation and its inverse cancel in either order. */
  lemma DescriptorInverse(d: Descriptor)
    ensures RecoverDescriptor(StoredDescriptor(d)) == d
    ensures StoredDescriptor(RecoverDescriptor(d)) == d
  {
    forall j | 0 <= j < 16
      ensures RecoveredDescriptorByte(StoredDescriptor(d), j) == d[j]
      ensures StoredDescriptorByte(RecoverDescriptor(d), j) == d[j]
    {
      RecoverStored(d, StoredDescriptor(d), j);
      StoreRecovered(d, RecoverDescriptor(d), j);
    }
  }

  /** Cutting a point blob into chunks loses nothing when its length is a multiple of the point size. */
  lemma {:induction false} DecodePointsSound(blob: seq<Byte>)
    requires |blob| % POINT_BYTES == 0
    ensures PutPoints(DecodePoints(blob), []) == blob
    decreases |blob|
  {
    if |blob| >= POINT_BYTES {
      var tail := blob[POINT_BYTES..];
      DecodePointsSound(tail);
      DecodePointSound(blob[..POINT_BYTES], tail);
      assert blob == blob[..POINT_BYTES] + tail;
    }
  }

  lemma DecodePointSound(raw: seq<Byte>, tail: seq<Byte>)
    requires |raw| == POINT_BYTES
    ensures PutPoint(DecodePoint(raw), tail) == raw + tail
  {
    hide StoredDescriptor, RecoverDescriptor, LE32, FromLE32;
    DescriptorInverse(raw[4..20]);
    assert raw + tail == raw[..4] + (raw[4..20] + (raw[20..24] + (raw[24..28] + (raw[28..32] + tail))));
  }

  lemma DecodePointRoundTrip(p: PersistedPoint)
    ensures |PutPoint(p, [])| == POINT_BYTES && DecodePoint(PutPoint(p, [])) == p
  {
    hide StoredDescriptor, RecoverDescriptor, LE32, FromLE32;
    var raw := PutPoint(p, []);
    DescriptorInverse(p.descriptor);
    LE32RoundTrip(p.geometryWord);
    LE32RoundTrip(p.hash20);
    LE32RoundTrip(p.hash28);
    LE32RoundTrip(p.hash2c);
    assert raw[..4] == LE32(p.geometryWord) && raw[4..20] == StoredDescriptor(p.descriptor);
    assert raw[20..24] == LE32(p.hash20) && raw[24..28] == LE32(p.hash28) && raw[28..32] == LE32(p.hash2c);
  }

  lemma PutPointTail(p: PersistedPoint, tail: seq<Byte>)
    ensures PutPoint(p, tail) == PutPoint(p, []) + tail
  {
    hide StoredDescriptor, LE32;
  }

  lemma {:induction false} DecodePointsRoundTrip(points: seq<PersistedPoint>)
    ensures |PutPoints(points, [])| == POINT_BYTES * |points|
    ensures DecodePoints(PutPoints(points, [])) == points
  {
    if points != [] {
      var tail := PutPoints(points[1..], []);
      DecodePointsRoundTrip(points[1..]);
      DecodePointRoundTrip(points[0]);
      PutPointTail(points[0], tail);
      var blob := PutPoint(points[0], []) + tail;
      assert blob[..POINT_BYTES] == PutPoint(points[0], []) && blob[POINT_BYTES..] == tail;
    }
  }

  function ParseFlag(tag: Byte, b: seq<Byte>): (r: Parse<bool>)
    ensures r.Ok? ==> b == PutScalar(tag, Flag(r.value.0), r.value.1)
  {
    var (w, rest) :- ParseScalar(tag, b);
    :- Need(w <= 1, InvalidValue(w));
    Ok((w == 1, rest))
  }

  /** The optional trailing scalar: when bytes remain they must be a non-zero 0xc7. */
  function ParseEmbeddedState(b: seq<Byte>): (r: Parse<Option<I32>>)
    ensures r.Ok? ==> b == PutOptionalScalar(0xc7, r.value.0, r.value.1)
    ensures r.Ok? && r.value.0.Some? ==> r.value.0.value != 0
  {
    if b == [] then Ok((None, b))
    else
      var (value, rest) :- ParseSigned(0xc7, b);
      :- Need(value != 0, InvalidValue(0));
      Ok((Some(value), rest))
  }

  function ParseSampleScalars(b: seq<Byte>, index: nat, pointCount: nat): Parse<SampleScalars>
    requires index < SAMPLE_CAPACITY
  {
    hide PutScalar, PutOptionalScalar, ParseSigned, ParseFlag, ParseEmbeddedState;
    var (canonical, p1) :- ParseFlag(0xb5, b);
    var (checkpoint, p2) :- ParseSigned(0xb6, p1);
    var cursor := RelationTableCursor(index);
    :- Need(checkpoint == cursor, RelationCheckpointMismatch(index, cursor, checkpoint));
    var (scalar108, p3) :- ParseSigned(0xb7, p2);
    :- Need(0 <= scalar108 <= pointCount, InvalidValue(scalar108));
    var (param3, p4) :- ParseSigned(0xb8, p3);
    var (param4, p5) :- ParseSigned(0xb9, p4);
    var (status, p6) :- ParseSigned(0xba, p5);
    var (scalar118, p7) :- ParseSigned(0xbb, p6);
    var (sampleIndex, p8) :- ParseSigned(0xbc, p7);
    :- Need(sampleIndex == index, SampleIndexMismatch(index, sampleIndex));
    var (scalar120, p9) :- ParseSigned(0xbd, p8);
    var (scalar124, p10) :- ParseSigned(0xbe, p9);
    var (scalar13c, p11) :- ParseSigned(0xc0, p10);
    var (embedded, p12) :- ParseEmbeddedState(p11);
    Ok((SampleScalars(canonical, checkpoint, scalar108, param3, param4, status, scalar118, sampleIndex, scalar120, scalar124,
      scalar13c, embedded), p12))
  }

  lemma ParseSampleScalarsSound(b: seq<Byte>, index: nat, pointCount: nat, s: SampleScalars, rest: seq<Byte>)
    requires index < SAMPLE_CAPACITY && ParseSampleScalars(b, index, pointCount) == Ok((s, rest))
    ensures b == PutSampleScalars(s, rest) && WellFormedScalars(s, index, pointCount)
  {
    hide PutScalar, PutOptionalScalar, ParseSigned, ParseFlag, ParseEmbeddedState, Flag;
  }

  function ParseSamplePayload(payload: seq<Byte>, index: nat): Result<PersistedSample, DecodeError>
    requires index < SAMPLE_CAPACITY
  {
    hide PutMap, PutOptionalMap, PutBlob, PutScalar, ExpandValidity,
      ParseMap, ParseOptionalMap, ParseBlob, ParseScalar, ParseSampleScalars;
    var (primary, p1) :- ParseMap(0xb2, payload);
    var (secondary, p2) :- ParseOptionalMap(0xcf, p1);
    var (quarter, p3) :- ParseBlob(0xce, p2);
    :- Need(|quarter| == QUARTER_BYTES, BlobLengthMismatch(0xce, QUARTER_BYTES, |quarter|));
    var (lowThreshold, p4) :- ParseOptionalMap(0xcd, p3);
    var (pointCount, p5) :- ParseScalar(0xb3, p4);
    :- Need(pointCount <= POINT_CAPACITY, InvalidValue(pointCount));
    var (blob, p6) :- ParseBlob(0xb4, p5);
    :- Need(|blob| == pointCount * POINT_BYTES, PointBlobLengthMismatch(index, pointCount, |blob|));
    var (scalars, p7) :- ParseSampleScalars(p6, index, pointCount);
    :- RequireEmpty(payload, p7);
    Ok(PersistedSample(primary, secondary, lowThreshold, quarter, ExpandValidity(quarter), DecodePoints(blob), scalars))
  }

  lemma ParseSamplePayloadSound(payload: seq<Byte>, index: nat, s: PersistedSample)
    requires index < SAMPLE_CAPACITY && ParseSamplePayload(payload, index) == Ok(s)
    ensures payload == PutSamplePayload(s) && WellFormedSample(s, index)
  {
    hide PutMap, PutOptionalMap, PutBlob, PutScalar, PutPoints, PutSampleScalars, WellFormedScalars, ExpandValidity,
      ParseMap, ParseOptionalMap, ParseBlob, ParseScalar, ParseSampleScalars, DecodePoints;
    var p1 := ParseMap(0xb2, payload).value.1;
    var p2 := ParseOptionalMap(0xcf, p1).value.1;
    var p3 := ParseBlob(0xce, p2).value.1;
    var p4 := ParseOptionalMap(0xcd, p3).value.1;
    var (pointCount, p5) := ParseScalar(0xb3, p4).value;
    var (blob, p6) := ParseBlob(0xb4, p5).value;
    var (scalars, p7) := ParseSampleScalars(p6, index, pointCount).value;
    ParseSampleScalarsSound(p6, index, pointCount, scalars, p7);
    assert |blob| % POINT_BYTES == 0;
    DecodePointsSound(blob);
    assert |s.points| == pointCount;
  }

  function ParseSample(b: seq<Byte>, index: nat): Parse<PersistedSample>
    requires index < SAMPLE_CAPACITY
  {
    var (payload, rest) :- ParseBlob(0x95, b);
    var sample :- ParseSamplePayload(payload, index);
    Ok((sample, rest))
  }

  lemma ParseSampleSound(b: seq<Byte>, index: nat, s: PersistedSample, rest: seq<Byte>)
    requires index < SAMPLE_CAPACITY && ParseSample(b, index) == Ok((s, rest))
    ensures b == PutSample(s, rest) && WellFormedSample(s, index)
  {
    hide PutBlob, PutSamplePayload, ParseBlob, ParseSamplePayload, WellFormedSample;
    ParseSamplePayloadSound(ParseBlob(0x95, b).value.0, index, s);
  }

  function ParseSamples(b: seq<Byte>, index: nat, count: nat): Parse<seq<PersistedSample>>
    requires index <= count <= SAMPLE_CAPACITY
    decreases count - index
  {
    if index == count then Ok(([], b))
    else
      var (sample, b1) :- ParseSample(b, index);
      var (samples, rest) :- ParseSamples(b1, index + 1, count);
      Ok(([sample] + samples, rest))
  }

  lemma {:induction false} ParseSamplesSound(
    b: seq<Byte>, index: nat, count: nat, samples: seq<PersistedSample>, rest: seq<Byte>)
    requires index <= count <= SAMPLE_CAPACITY && ParseSamples(b, index, count) == Ok((samples, rest))
    ensures b == PutSamples(samples, rest) && |samples| == count - index && WellFormedSamples(samples, index)
    decreases count - index
  {
    hide PutSample, ParseSample, WellFormedSample;
    if index < count {
      var (sample, b1) := ParseSample(b, index).value;
      var tail := ParseSamples(b1, index + 1, count).value.0;
      assert samples == [sample] + tail && samples[1..] == tail;
      ParseSampleSound(b, index, sample, b1);
      ParseSamplesSound(b1, index + 1, count, tail, rest);
      forall i | 0 <= i < |samples|
        ensures WellFormedSample(samples[i], index + i)
      {
        if i > 0 {
          assert WellFormedSample(tail[i - 1], index + 1 + (i - 1));
        }
      }
    }
  }

  // ---- relations ------------------------------------------------------------------------------------------------

  function ParseScalars(tags: seq<Byte>, b: seq<Byte>): (r: Parse<seq<U32>>)
    ensures r.Ok? ==> |r.value.0| == |tags|
  {
    if tags == [] then Ok(([], b))
    else
      var (value, b1) :- ParseScalar(tags[0], b);
      var (values, rest) :- ParseScalars(tags[1..], b1);
      Ok(([value] + values, rest))
  }

  lemma {:induction false} ParseScalarsSound(tags: seq<Byte>, b: seq<Byte>, values: seq<U32>, rest: seq<Byte>)
    requires ParseScalars(tags, b) == Ok((values, rest))
    ensures |tags| == |values| && b == PutScalars(tags, values, rest)
  {
    hide PutScalar, ParseScalar;
    if tags != [] {
      ParseScalarsSound(tags[1..], ParseScalar(tags[0], b).value.1, values[1..], rest);
    }
  }

  function AffineOf(words: seq<U32>): (t: Affine)
    requires |words| == |AFFINE_TAGS|
    ensures AffineWords(t) == words
  {
    Affine(Signed(words[0]), Signed(words[1]), Signed(words[2]), Signed(words[3]), Signed(words[4]), Signed(words[5]))
  }

  function ParseRelation(b: seq<Byte>, sampleCount: nat): Parse<PersistedRelation> {
    hide ParseBlob, ParseScalar, ParseSigned, ParseScalars, RelationIndices;
    var (payload, rest) :- ParseBlob(0x96, b);
    var (index, p1) :- ParseScalar(0xe3, payload);
    var (value, p2) :- ParseSigned(0xe1, p1);
    :- Need(value >= 0, NegativePersistedRelation(index, value));
    var (affine, p3) :- ParseScalars(AFFINE_TAGS, p2);
    :- RequireEmpty(payload, p3);
    var pair := RelationIndices(index, sampleCount);
    :- Need(pair.Some?, RelationIndexOutOfRange(index, sampleCount));
    Ok((PersistedRelation(index, pair.value.0, pair.value.1, value, AffineOf(affine)), rest))
  }

  lemma ParseRelationSound(b: seq<Byte>, sampleCount: nat, r: PersistedRelation, rest: seq<Byte>)
    requires ParseRelation(b, sampleCount) == Ok((r, rest))
    ensures b == PutRelation(r, rest) && WellFormedRelation(r, sampleCount)
  {
    hide PutBlob, PutScalar, PutScalars, ParseBlob, ParseScalar, ParseSigned, ParseScalars, FindRow, PairIndex, AffineOf, AffineWords;
    var p2 := ParseSigned(0xe1, ParseScalar(0xe3, ParseBlob(0x96, b).value.0).value.1).value.1;
    var (affine, p3) := ParseScalars(AFFINE_TAGS, p2).value;
    ParseScalarsSound(AFFINE_TAGS, p2, affine, p3);
  }

  /** Relations in stored order; `seen` holds the indices already used. */
  function ParseRelations(b: seq<Byte>, sampleCount: nat, seen: set<nat>): Parse<seq<PersistedRelation>>
    decreases |b|
  {
    if b == [] || b[0] != 0x96 then Ok(([], b))
    else
      var (relation, b1) :- ParseRelation(b, sampleCount);
      :- Need(relation.index !in seen, DuplicateRelationIndex(relation.index));
      ParseRelationShrinks(b, sampleCount, relation, b1);
      var (relations, rest) :- ParseRelations(b1, sampleCount, seen + {relation.index});
      Ok(([relation] + relations, rest))
  }

  lemma PutBlobLength(tag: Byte, data: seq<Byte>, tail: seq<Byte>)
    ensures |PutBlob(tag, data, tail)| == 5 + |data| + |tail|
  {
    hide LE32;
  }

  lemma PutScalarLength(tag: Byte, value: U32, tail: seq<Byte>)
    ensures |PutScalar(tag, value, tail)| == 5 + |tail|
  {
    hide LE32;
  }

  lemma {:induction false} PutScalarsLength(tags: seq<Byte>, values: seq<U32>, tail: seq<Byte>)
    requires |tags| == |values|
    ensures |PutScalars(tags, values, tail)| == 5 * |tags| + |tail|
  {
    hide PutScalar;
    if tags != [] {
      PutScalarLength(tags[0], values[0], PutScalars(tags[1..], values[1..], tail));
      PutScalarsLength(tags[1..], values[1..], tail);
    }
  }

  lemma PutRelationLength(r: PersistedRelation, tail: seq<Byte>)
    ensures |PutRelation(r, tail)| == RELATION_BYTES + |tail|
  {
    hide PutScalar, PutBlob, PutScalars, AffineWords;
    PutScalarsLength(AFFINE_TAGS, AffineWords(r.higherToLower), []);
    forall tag: Byte, value: U32, tail: seq<Byte> { PutScalarLength(tag, value, tail); }
    forall tag: Byte, data: seq<Byte>, tail: seq<Byte> { PutBlobLength(tag, data, tail); }
  }

  lemma ParseRelationShrinks(b: seq<Byte>, sampleCount: nat, r: PersistedRelation, rest: seq<Byte>)
    requires ParseRelation(b, sampleCount) == Ok((r, rest))
    ensures |rest| < |b|
  {
    hide ParseRelation, PutRelation;
    ParseRelationSound(b, sampleCount, r, rest);
    PutRelationLength(r, rest);
  }

  lemma {:induction false} ParseRelationsSound(
    b: seq<Byte>, sampleCount: nat, seen: set<nat>, relations: seq<PersistedRelation>, rest: seq<Byte>)
    requires ParseRelations(b, sampleCount, seen) == Ok((relations, rest))
    ensures b == PutRelations(relations, rest) && WellFormedRelations(relations, sampleCount)
    ensures forall r <- relations :: r.index !in seen
    decreases |b|
  {
    hide PutRelation, ParseRelation, WellFormedRelation;
    if b != [] && b[0] == 0x96 {
      var (relation, b1) := ParseRelation(b, sampleCount).value;
      ParseRelationShrinks(b, sampleCount, relation, b1);
      var tail := ParseRelations(b1, sampleCount, seen + {relation.index}).value.0;
      assert relations == [relation] + tail && relations[1..] == tail;
      ParseRelationSound(b, sampleCount, relation, b1);
      ParseRelationsSound(b1, sampleCount, seen + {relation.index}, tail, rest);
    }
  }

  // ---- trailing sections ----------------------------------------------------------------------------------------

  function ParseSection93(b: seq<Byte>, sampleCount: nat): Parse<GraphSummary> {
    hide PutBlob, PutScalar, ParseBlob, ParseFixed, ParseSigned, ParseFlag;
    var (payload, rest) :- ParseBlob(0x93, b);
    var (anchor, p1) :- ParseSigned(0xf2, payload);
    var p2 :- ParseFixed(0xf3, ALL_ONES, p1);
    var p3 :- ParseFixed(0xf4, ALL_ONES, p2);
    var (established, p4) :- ParseFlag(0xf5, p3);
    :- RequireEmpty(payload, p4);
    :- Need(if established then 0 <= anchor < sampleCount else anchor == -1, InvalidGraphAnchor(anchor, sampleCount));
    Ok((GraphSummary(if established then Some(anchor) else None, established), rest))
  }

  lemma ParseSection93Sound(b: seq<Byte>, sampleCount: nat, g: GraphSummary, rest: seq<Byte>)
    requires ParseSection93(b, sampleCount) == Ok((g, rest))
    ensures b == PutSection93(g, rest) && WellFormedGraph(g, sampleCount)
  {
    hide PutBlob, PutScalar, ParseBlob, ParseFixed, ParseSigned, ParseFlag;
    var (anchor, p1) := ParseSigned(0xf2, ParseBlob(0x93, b).value.0).value;
    assert Bits(anchor) == AnchorWord(g);
  }

  /** The active-slot table from slot `slot` on, which must list the samples and then -1. */
  function CheckSlots(blob: seq<Byte>, slot: nat, sampleCount: nat): Result<seq<I32>, DecodeError>
    requires slot <= SAMPLE_CAPACITY && |blob| == 4 * (SAMPLE_CAPACITY - slot)
    decreases SAMPLE_CAPACITY - slot
  {
    if slot == SAMPLE_CAPACITY then Ok([])
    else
      var actual, expected := Signed(FromLE32(blob[..4])), ActiveSlot(slot, sampleCount);
      :- Need(actual == expected, ActiveSlotMismatch(slot, expected, actual));
      var slots :- CheckSlots(blob[4..], slot + 1, sampleCount);
      Ok([actual] + slots)
  }

  lemma {:induction false} CheckSlotsSound(blob: seq<Byte>, slot: nat, sampleCount: nat, slots: seq<I32>)
    requires slot <= SAMPLE_CAPACITY && |blob| == 4 * (SAMPLE_CAPACITY - slot)
    requires CheckSlots(blob, slot, sampleCount) == Ok(slots)
    ensures blob == PutSlots(slots, []) && slots == ActiveSlots(sampleCount)[slot..]
    decreases SAMPLE_CAPACITY - slot
  {
    hide LE32, FromLE32, ActiveSlots;
    SlotsFrom(sampleCount, slot);
    if slot < SAMPLE_CAPACITY {
      CheckSlotsSound(blob[4..], slot + 1, sampleCount, slots[1..]);
      assert blob == blob[..4] + blob[4..];
    }
  }

  lemma SlotsFrom(sampleCount: nat, slot: nat)
    requires slot <= SAMPLE_CAPACITY
    ensures |ActiveSlots(sampleCount)| == SAMPLE_CAPACITY
    ensures ActiveSlots(sampleCount)[slot..] == if slot == SAMPLE_CAPACITY then []
      else [ActiveSlot(slot, sampleCount)] + ActiveSlots(sampleCount)[slot + 1..]
  {}

  function RequireZeros(tag: Byte, s: seq<Byte>): (r: Check)
    ensures r.Pass? <==> s == Zeros(|s|)
  {
    var at := FirstNonZero(s, 0, |s|);
    if at.Some? then Fail(NonZeroReservedBlob(tag, at.value, s[at.value])) else Pass
  }

  function ParseSection94(b: seq<Byte>, sampleCount: nat): Parse<seq<I32>> {
    hide PutBlob, PutScalar, ParseBlob, ParseFixed;
    var (payload, rest) :- ParseBlob(0x94, b);
    var (active, p1) :- ParseBlob(0xa1, payload);
    :- Need(|active| == 4 * SAMPLE_CAPACITY, BlobLengthMismatch(0xa1, 4 * SAMPLE_CAPACITY, |active|));
    var slots :- CheckSlots(active, 0, sampleCount);
    var p2 :- ParseFixed(0xa2, ALL_ONES, p1);
    var (version, p3) :- ParseBlob(0xa3, p2);
    :- Need(|version| == 64, BlobLengthMismatch(0xa3, 64, |version|));
    :- Need(version == VERSION_BUFFER, VersionBufferMismatch);
    var (zeros, p4) :- ParseBlob(0xa4, p3);
    :- Need(|zeros| == 1024, BlobLengthMismatch(0xa4, 1024, |zeros|));
    :- RequireZeros(0xa4, zeros);
    var p5 :- ParseFixed(0xa5, 0, p4);
    var p6 :- ParseFixed(0xa6, 0, p5);
    var p7 :- ParseFixed(0xa7, 0, p6);
    var p8 :- ParseFixed(0xa8, 0, p7);
    :- RequireEmpty(payload, p8);
    Ok((slots, rest))
  }

  lemma ParseSection94Sound(b: seq<Byte>, sampleCount: nat, slots: seq<I32>, rest: seq<Byte>)
    requires ParseSection94(b, sampleCount) == Ok((slots, rest))
    ensures b == PutSection94(slots, rest) && slots == ActiveSlots(sampleCount)
  {
    hide PutBlob, PutScalar, PutSlots, ParseBlob, ParseFixed, CheckSlots, ActiveSlots, FirstNonZero;
    var active := ParseBlob(0xa1, ParseBlob(0x94, b).value.0).value.0;
    CheckSlotsSound(active, 0, sampleCount, slots);
    assert ActiveSlots(sampleCount)[0..] == ActiveSlots(sampleCount);
  }

  // ---- the whole template ---------------------------------------------------------------------------------------

  function ParseHeader(b: seq<Byte>): Parse<Header> {
    hide ParseScalars;
    var (top, rest) :- ParseScalars(TOP_TAGS, b);
    :- RequireScalar(0x81, top[0], TEMPLATE_00);
    :- RequireScalar(0x88, top[1], TEMPLATE_00);
    :- RequireScalar(0x89, top[2], TEMPLATE_04);
    :- RequireScalar(0x98, top[3], 0x18);
    :- RequireScalar(0x9a, top[4], 64);
    :- RequireScalar(0x9b, top[5], 80);
    :- RequireScalar(0x9e, top[9], POINT_CAPACITY);
    :- RequireScalar(0x9f, top[10], POINT_CAPACITY);
    :- RequireScalar(0x9c, top[11], 1);
    :- RequireScalar(0x9d, top[12], 1);
    :- RequireScalar(0xfa, top[13], 0);
    :- RequireScalar(0xfb, top[14], 0);
    var h := Header(top[6], top[7], top[8], top[9], top[10]);
    :- Need(h.configuredMax <= SAMPLE_CAPACITY, InvalidValue(h.configuredMax));
    :- Need(h.sampleCount <= h.configuredMax, InvalidValue(h.sampleCount));
    var cursor := RelationTableCursor(h.sampleCount);
    :- Need(h.relationCursor == cursor, RelationCursorMismatch(h.sampleCount, cursor, h.relationCursor));
    Ok((h, rest))
  }

  lemma ParseHeaderSound(b: seq<Byte>, h: Header, rest: seq<Byte>)
    requires ParseHeader(b) == Ok((h, rest))
    ensures b == PutScalars(TOP_TAGS, TopWords(h), rest) && WellFormedHeader(h)
  {
    hide PutScalars, ParseScalars, RelationTableCursor;
    var top := ParseScalars(TOP_TAGS, b).value.0;
    ParseScalarsSound(TOP_TAGS, b, top, rest);
    assert top == TopWords(h);
  }

  /** Everything behind the raw envelope; the third component is the size of the encoded samples. */
  function ParsePayload(payload: seq<Byte>, crc: U32): Result<(PersistedTemplate, int), DecodeError> {
    hide ParseHeader, ParseSamples, ParseRelations, ParseSection93, ParseSection94, RelationTableCursor;
    var (header, p1) :- ParseHeader(payload);
    var n := header.sampleCount;
    assert n <= SAMPLE_CAPACITY by { ParseHeaderSound(payload, header, p1); }
    var (samples, p2) :- ParseSamples(p1, 0, n);
    var (relations, p3) :- ParseRelations(p2, n, {});
    var (graph, p4) :- ParseSection93(p3, n);
    var (slots, p5) :- ParseSection94(p4, n);
    :- RequireEmpty(payload, p5);
    Ok((PersistedTemplate(crc, header, samples, relations, graph, slots), |p1| - |p2|))
  }

  /** The strict decoder of raw templates. */
  function ParseRaw(raw: seq<Byte>): Result<PersistedTemplate, DecodeError> {
    hide ParsePayload, FromLE32;
    :- Need(|raw| >= 10, RawTooShort(|raw|));
    :- Need(raw[0] == 0x87, UnexpectedTag(0x87, raw[0]));
    :- Need(raw[5] == 0x86, UnexpectedTag(0x86, raw[5]));
    var crc, length, payload := FromLE32(raw[1..5]), FromLE32(raw[6..10]), raw[10..];
    :- Need(length == |payload|, RawPayloadLengthMismatch(length, |payload|));
    var computed := Crc.Checksum(Crc.IsoHdlc, payload);
    :- Need(crc == computed, RawCrcMismatch(crc, computed));
    var (template, sampleBytes) :- ParsePayload(payload, crc);
    var expected := FIXED_PACKED_SIZE + sampleBytes + RELATION_BYTES * |template.relations|;
    :- Need(|raw| == expected, PackedSizeMismatch(expected, |raw|));
    Ok(template)
  }
}
