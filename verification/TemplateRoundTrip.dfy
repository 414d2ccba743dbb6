/**
 Printing and strict parsing are inverse: a byte string is accepted with value `t` exactly when `t` is well-formed and
 the bytes are its printed form.
 */
module TemplateRoundTrip {
  import opened Wrappers
  import opened Bytes
  import opened Relations
  import opened TemplateFormat
  import opened TemplateGrammar
  import Crc

  // ---- sizes ----------------------------------------------------------------------------------------------------

  lemma PutSizes()
    ensures forall tag: Byte, value: U32, tail: seq<Byte> {:trigger PutScalar(tag, value, tail)} ::
      |PutScalar(tag, value, tail)| == 5 + |tail|
    ensures forall tag: Byte, data: seq<Byte>, tail: seq<Byte> {:trigger PutBlob(tag, data, tail)} ::
      |PutBlob(tag, data, tail)| == 5 + |data| + |tail|
  {
    forall tag: Byte, value: U32, tail: seq<Byte> { PutScalarLength(tag, value, tail); }
    forall tag: Byte, data: seq<Byte>, tail: seq<Byte> { PutBlobLength(tag, data, tail); }
  }

  lemma PutMapLength(tag: Byte, data: Bitmap, tail: seq<Byte>)
    ensures |PutMap(tag, data, tail)| == 190 + |tail|
  {
    hide PutScalar, PutBlob;
    PutSizes();
  }

  /** The encoded size of one sample. */
  function SampleSize(s: PersistedSample): nat {
    305 + (if s.secondaryMap.Some? then 190 else 0) + (if s.lowThresholdMap.Some? then 190 else 0)
    + POINT_BYTES * |s.points| + (if s.scalars.embedded140.Some? then 5 else 0)
  }

  lemma {:induction false} PutPointsLength(points: seq<PersistedPoint>)
    ensures |PutPoints(points, [])| == POINT_BYTES * |points|
  {
    DecodePointsRoundTrip(points);
  }

  lemma PutSampleLength(s: PersistedSample, tail: seq<Byte>)
    ensures |PutSamplePayload(s)| == SampleSize(s) - 5
    ensures |PutSample(s, tail)| == SampleSize(s) + |tail|
  {
    hide PutScalar, PutBlob, PutPoints, PutMap, Flag;
    PutSizes();
    PutPointsLength(s.points);
    forall tag: Byte, data: Bitmap, tail: seq<Byte> { PutMapLength(tag, data, tail); }
  }

  function SamplesSize(samples: seq<PersistedSample>): nat {
    if samples == [] then 0 else SampleSize(samples[0]) + SamplesSize(samples[1..])
  }

  lemma {:induction false} PutSamplesLength(samples: seq<PersistedSample>, tail: seq<Byte>)
    ensures |PutSamples(samples, tail)| == SamplesSize(samples) + |tail|
  {
    hide PutSample, SampleSize;
    if samples != [] {
      PutSamplesLength(samples[1..], tail);
      PutSampleLength(samples[0], PutSamples(samples[1..], tail));
    }
  }

  lemma {:induction false} PutRelationsLength(relations: seq<PersistedRelation>, tail: seq<Byte>)
    ensures |PutRelations(relations, tail)| == RELATION_BYTES * |relations| + |tail|
  {
    hide PutRelation;
    if relations != [] {
      PutRelationsLength(relations[1..], tail);
      PutRelationLength(relations[0], PutRelations(relations[1..], tail));
    }
  }

  lemma {:induction false} PutSlotsLength(slots: seq<I32>, tail: seq<Byte>)
    ensures |PutSlots(slots, tail)| == 4 * |slots| + |tail|
  {
    hide LE32;
    if slots != [] {
      PutSlotsLength(slots[1..], tail);
    }
  }

  lemma PutSectionsLength(g: GraphSummary, slots: seq<I32>, tail: seq<Byte>)
    requires |slots| == SAMPLE_CAPACITY
    ensures |PutSection93(g, PutSection94(slots, tail))| == 1358 + |tail|
    ensures |PutSection94(slots, tail)| == 1333 + |tail|
  {
    hide PutScalar, PutBlob, PutSlots, Flag;
    PutSizes();
    PutSlotsLength(slots, []);
  }

  lemma PutPayloadLength(t: PersistedTemplate)
    requires |t.activeSlots| == SAMPLE_CAPACITY
    ensures |PutPayload(t, [])| == 1433 + SamplesSize(t.samples) + RELATION_BYTES * |t.relations|
  {
    hide PutScalars, PutSamples, PutRelations, PutSection93, PutSection94, SamplesSize, TopWords;
    var tail94 := PutSection94(t.activeSlots, []);
    var tail93 := PutSection93(t.graph, tail94);
    var tailRelations := PutRelations(t.relations, tail93);
    var tailSamples := PutSamples(t.samples, tailRelations);
    PutSectionsLength(t.graph, t.activeSlots, []);
    PutRelationsLength(t.relations, tail93);
    PutSamplesLength(t.samples, tailRelations);
    PutScalarsLength(TOP_TAGS, TopWords(t.header), tailSamples);
  }

  // ---- parsing what was printed ---------------------------------------------------------------------------------

  lemma ScalarRoundTrip(tag: Byte, value: U32, tail: seq<Byte>)
    ensures ParseScalar(tag, PutScalar(tag, value, tail)) == Ok((value, tail))
  {
    hide LE32, FromLE32;
    LE32RoundTrip(value);
    var b := PutScalar(tag, value, tail);
    assert b[1..][..4] == LE32(value) && b[1..][4..] == tail;
  }

  lemma BlobRoundTrip(tag: Byte, data: seq<Byte>, tail: seq<Byte>)
    requires |data| < U32_LIMIT
    ensures ParseBlob(tag, PutBlob(tag, data, tail)) == Ok((data, tail))
  {
    hide PutScalar, ParseScalar;
    ScalarRoundTrip(tag, Field(|data|), data + tail);
  }

  lemma FixedRoundTrip(tag: Byte, value: U32, tail: seq<Byte>)
    ensures ParseFixed(tag, value, PutScalar(tag, value, tail)) == Ok(tail)
  {
    hide PutScalar, ParseScalar;
    ScalarRoundTrip(tag, value, tail);
  }

  lemma SignedBits(v: I32)
    ensures Signed(Bits(v)) == v
  {}

  lemma SignedRoundTrip(tag: Byte, value: I32, tail: seq<Byte>)
    ensures ParseSigned(tag, PutScalar(tag, Bits(value), tail)) == Ok((value, tail))
  {
    hide PutScalar, ParseScalar;
    ScalarRoundTrip(tag, Bits(value), tail);
    SignedBits(value);
  }

  lemma FlagRoundTrip(tag: Byte, value: bool, tail: seq<Byte>)
    ensures ParseFlag(tag, PutScalar(tag, Flag(value), tail)) == Ok((value, tail))
  {
    hide PutScalar, ParseScalar;
    ScalarRoundTrip(tag, Flag(value), tail);
  }

  lemma MapRoundTrip(tag: Byte, data: Bitmap, tail: seq<Byte>)
    ensures ParseMap(tag, PutMap(tag, data, tail)) == Ok((data, tail))
  {
    hide PutScalar, ParseFixed, PutBlob, ParseBlob;
    PutSizes();
    var p4 := PutBlob(0xc5, data, []);
    var p3 := PutScalar(0xc4, 8, p4);
    var p2 := PutScalar(0xc3, ALL_ONES, p3);
    var p1 := PutScalar(0xc2, 32, p2);
    var p0 := PutScalar(0xc1, 40, p1);
    BlobRoundTrip(tag, p0, tail);
    FixedRoundTrip(0xc1, 40, p1);
    FixedRoundTrip(0xc2, 32, p2);
    FixedRoundTrip(0xc3, ALL_ONES, p3);
    FixedRoundTrip(0xc4, 8, p4);
    BlobRoundTrip(0xc5, data, []);
  }

  lemma PutTags(tag: Byte, value: U32, data: seq<Byte>, tail: seq<Byte>)
    ensures PutScalar(tag, value, tail) != [] && PutScalar(tag, value, tail)[0] == tag
    ensures PutBlob(tag, data, tail) != [] && PutBlob(tag, data, tail)[0] == tag
  {
    hide LE32;
  }

  lemma OptionalMapRoundTrip(tag: Byte, data: Option<Bitmap>, tail: seq<Byte>)
    requires tail != [] && tail[0] != tag
    ensures ParseOptionalMap(tag, PutOptionalMap(tag, data, tail)) == Ok((data, tail))
  {
    hide ParseMap, PutBlob, PutScalar;
    if data.Some? {
      MapRoundTrip(tag, data.value, tail);
      forall payload: seq<Byte> { PutTags(tag, 0, payload, tail); }
    }
  }

  lemma EmbeddedStateRoundTrip(value: Option<I32>)
    requires value.Some? ==> value.value != 0
    ensures ParseEmbeddedState(PutOptionalScalar(0xc7, value, [])) == Ok((value, []))
  {
    hide PutScalar, ParseSigned;
    if value.Some? {
      SignedRoundTrip(0xc7, value.value, []);
      PutScalarLength(0xc7, Bits(value.value), []);
    }
  }

  lemma SampleScalarsRoundTrip(s: SampleScalars, index: nat, pointCount: nat)
    requires index < SAMPLE_CAPACITY && WellFormedScalars(s, index, pointCount)
    ensures ParseSampleScalars(PutSampleScalars(s, []), index, pointCount) == Ok((s, []))
  {
    hide PutScalar, ParseSigned, ParseFlag, ParseEmbeddedState, PutOptionalScalar, Flag, Bits, RelationTableCursor;
    var p11 := PutOptionalScalar(0xc7, s.embedded140, []);
    var p10 := PutScalar(0xc0, Bits(s.scalar13c), p11);
    var p9 := PutScalar(0xbe, Bits(s.scalar124), p10);
    var p8 := PutScalar(0xbd, Bits(s.scalar120), p9);
    var p7 := PutScalar(0xbc, Bits(s.sampleIndex), p8);
    var p6 := PutScalar(0xbb, Bits(s.scalar118), p7);
    var p5 := PutScalar(0xba, Bits(s.status114), p6);
    var p4 := PutScalar(0xb9, Bits(s.param4), p5);
    var p3 := PutScalar(0xb8, Bits(s.param3), p4);
    var p2 := PutScalar(0xb7, Bits(s.scalar108), p3);
    var p1 := PutScalar(0xb6, Bits(s.relationCheckpoint), p2);
    FlagRoundTrip(0xb5, s.canonicalMember, p1);
    SignedRoundTrip(0xb6, s.relationCheckpoint, p2);
    SignedRoundTrip(0xb7, s.scalar108, p3);
    SignedRoundTrip(0xb8, s.param3, p4);
    SignedRoundTrip(0xb9, s.param4, p5);
    SignedRoundTrip(0xba, s.status114, p6);
    SignedRoundTrip(0xbb, s.scalar118, p7);
    SignedRoundTrip(0xbc, s.sampleIndex, p8);
    SignedRoundTrip(0xbd, s.scalar120, p9);
    SignedRoundTrip(0xbe, s.scalar124, p10);
    SignedRoundTrip(0xc0, s.scalar13c, p11);
    EmbeddedStateRoundTrip(s.embedded140);
  }

  lemma SamplePayloadRoundTrip(s: PersistedSample, index: nat)
    requires index < SAMPLE_CAPACITY && WellFormedSample(s, index)
    ensures ParseSamplePayload(PutSamplePayload(s), index) == Ok(s)
  {
    hide PutScalar, ParseScalar, PutBlob, ParseBlob, PutMap, ParseMap, PutOptionalMap, ParseOptionalMap, PutPoints,
      DecodePoints, PutSampleScalars, ParseSampleScalars, ExpandValidity, WellFormedScalars;
    var count, blob := Field(|s.points|), PutPoints(s.points, []);
    var p6 := PutSampleScalars(s.scalars, []);
    var p5 := PutBlob(0xb4, blob, p6);
    var p4 := PutScalar(0xb3, count, p5);
    var p3 := PutOptionalMap(0xcd, s.lowThresholdMap, p4);
    var p2 := PutBlob(0xce, s.quarterValidity, p3);
    var p1 := PutOptionalMap(0xcf, s.secondaryMap, p2);
    DecodePointsRoundTrip(s.points);
    MapRoundTrip(0xb2, s.primaryMap, p1);
    PutTags(0xb3, count, [], p5);
    PutTags(0xce, 0, s.quarterValidity, p3);
    OptionalMapRoundTrip(0xcf, s.secondaryMap, p2);
    BlobRoundTrip(0xce, s.quarterValidity, p3);
    OptionalMapRoundTrip(0xcd, s.lowThresholdMap, p4);
    ScalarRoundTrip(0xb3, count, p5);
    BlobRoundTrip(0xb4, blob, p6);
    SampleScalarsRoundTrip(s.scalars, index, |s.points|);
  }

  lemma SampleRoundTrip(s: PersistedSample, index: nat, tail: seq<Byte>)
    requires index < SAMPLE_CAPACITY && WellFormedSample(s, index)
    ensures ParseSample(PutSample(s, tail), index) == Ok((s, tail))
  {
    hide PutBlob, ParseBlob, PutSamplePayload, ParseSamplePayload;
    PutSampleLength(s, tail);
    BlobRoundTrip(0x95, PutSamplePayload(s), tail);
    SamplePayloadRoundTrip(s, index);
  }

  lemma {:induction false} SamplesRoundTrip(samples: seq<PersistedSample>, index: nat, count: nat, tail: seq<Byte>)
    requires index + |samples| == count <= SAMPLE_CAPACITY && WellFormedSamples(samples, index)
    ensures ParseSamples(PutSamples(samples, tail), index, count) == Ok((samples, tail))
  {
    hide PutSample, ParseSample, WellFormedSample;
    if samples != [] {
      assert WellFormedSample(samples[0], index + 0);
      forall i | 0 <= i < |samples[1..]|
        ensures WellFormedSample(samples[1..][i], index + 1 + i)
      {
        assert WellFormedSample(samples[i + 1], index + (i + 1));
      }
      SampleRoundTrip(samples[0], index, PutSamples(samples[1..], tail));
      SamplesRoundTrip(samples[1..], index + 1, count, tail);
      assert [samples[0]] + samples[1..] == samples;
    }
  }

  lemma RelationRoundTrip(r: PersistedRelation, sampleCount: nat, tail: seq<Byte>)
    requires sampleCount <= SAMPLE_CAPACITY && WellFormedRelation(r, sampleCount)
    ensures ParseRelation(PutRelation(r, tail), sampleCount) == Ok((r, tail))
  {
    hide PutScalar, ParseScalar, ParseSigned, PutScalars, ParseScalars, PutBlob, ParseBlob, AffineOf, AffineWords,
      RelationIndices, PairIndex, RowBase;
    var words := AffineWords(r.higherToLower);
    var p2 := PutScalars(AFFINE_TAGS, words, []);
    var p1 := PutScalar(0xe1, Bits(r.value), p2);
    var p0 := PutScalar(0xe3, Field(r.index), p1);
    PutSizes();
    PutScalarsLength(AFFINE_TAGS, words, []);
    BlobRoundTrip(0x96, p0, tail);
    IndexFits(r, sampleCount);
    ScalarRoundTrip(0xe3, r.index, p1);
    SignedRoundTrip(0xe1, r.value, p2);
    ScalarsRoundTrip(AFFINE_TAGS, words, []);
    AffineRoundTrip(r.higherToLower);
    RelationIndicesInvert(r.index, sampleCount);
  }

  lemma AffineRoundTrip(t: Affine)
    ensures AffineOf(AffineWords(t)) == t
  {}

  lemma TableFits(sampleCount: nat)
    requires sampleCount <= SAMPLE_CAPACITY
    ensures RowBase(sampleCount) <= 1225
  {
    RowBaseMonotone(sampleCount, SAMPLE_CAPACITY);
  }

  lemma IndexFits(r: PersistedRelation, sampleCount: nat)
    requires sampleCount <= SAMPLE_CAPACITY && WellFormedRelation(r, sampleCount)
    ensures r.index < RowBase(sampleCount) && Field(r.index) == r.index
  {
    PairIndexBound(r.high, r.low, sampleCount);
    TableFits(sampleCount);
  }

  lemma {:induction false} RelationsRoundTrip(
    relations: seq<PersistedRelation>, sampleCount: nat, seen: set<nat>, tail: seq<Byte>)
    requires sampleCount <= SAMPLE_CAPACITY && WellFormedRelations(relations, sampleCount)
    requires forall r <- relations :: r.index !in seen
    requires tail != [] && tail[0] != 0x96
    ensures ParseRelations(PutRelations(relations, tail), sampleCount, seen) == Ok((relations, tail))
  {
    hide ParseRelation, WellFormedRelation, PutBlob, PutScalar;
    if relations != [] {
      var rest := PutRelations(relations[1..], tail);
      assert relations[0] in relations;
      RelationRoundTrip(relations[0], sampleCount, rest);
      forall payload: seq<Byte> { PutTags(0x96, 0, payload, rest); }
      RelationsRoundTrip(relations[1..], sampleCount, seen + {relations[0].index}, tail);
      assert [relations[0]] + relations[1..] == relations;
    }
  }

  lemma Section93RoundTrip(g: GraphSummary, sampleCount: nat, tail: seq<Byte>)
    requires sampleCount <= SAMPLE_CAPACITY && WellFormedGraph(g, sampleCount)
    ensures ParseSection93(PutSection93(g, tail), sampleCount) == Ok((g, tail))
  {
    hide PutScalar, ParseFixed, ParseSigned, ParseFlag, PutBlob, ParseBlob, Flag;
    var anchor: I32 := if g.anchor.Some? then g.anchor.value else -1;
    assert AnchorWord(g) == Bits(anchor);
    var p3 := PutScalar(0xf5, Flag(g.established), []);
    var p2 := PutScalar(0xf4, ALL_ONES, p3);
    var p1 := PutScalar(0xf3, ALL_ONES, p2);
    PutSizes();
    BlobRoundTrip(0x93, PutScalar(0xf2, Bits(anchor), p1), tail);
    SignedRoundTrip(0xf2, anchor, p1);
    FixedRoundTrip(0xf3, ALL_ONES, p2);
    FixedRoundTrip(0xf4, ALL_ONES, p3);
    FlagRoundTrip(0xf5, g.established, []);
  }

  lemma {:induction false} SlotsRoundTrip(slot: nat, sampleCount: nat)
    requires slot <= SAMPLE_CAPACITY
    ensures |PutSlots(ActiveSlots(sampleCount)[slot..], [])| == 4 * (SAMPLE_CAPACITY - slot)
    ensures CheckSlots(PutSlots(ActiveSlots(sampleCount)[slot..], []), slot, sampleCount)
         == Ok(ActiveSlots(sampleCount)[slot..])
    decreases SAMPLE_CAPACITY - slot
  {
    hide LE32, FromLE32, Bits;
    var slots := ActiveSlots(sampleCount)[slot..];
    PutSlotsLength(slots, []);
    if slot < SAMPLE_CAPACITY {
      SlotsRoundTrip(slot + 1, sampleCount);
      assert slots[1..] == ActiveSlots(sampleCount)[slot + 1..] && slots == [slots[0]] + slots[1..];
      var blob := PutSlots(slots, []);
      assert blob[..4] == LE32(Bits(slots[0])) && blob[4..] == PutSlots(slots[1..], []);
      LE32RoundTrip(Bits(slots[0]));
      SignedBits(slots[0]);
    }
  }

  lemma Section94RoundTrip(sampleCount: nat, tail: seq<Byte>)
    ensures ParseSection94(PutSection94(ActiveSlots(sampleCount), tail), sampleCount) == Ok((ActiveSlots(sampleCount), tail))
  {
    hide PutScalar, ParseFixed, PutBlob, ParseBlob, PutSlots, CheckSlots, ActiveSlots, RequireZeros;
    var slots := ActiveSlots(sampleCount);
    var active, zeros := PutSlots(slots, []), Zeros(1024);
    var p7 := PutScalar(0xa8, 0, []);
    var p6 := PutScalar(0xa7, 0, p7);
    var p5 := PutScalar(0xa6, 0, p6);
    var p4 := PutScalar(0xa5, 0, p5);
    var p3 := PutBlob(0xa4, zeros, p4);
    var p2 := PutBlob(0xa3, VERSION_BUFFER, p3);
    var p1 := PutScalar(0xa2, ALL_ONES, p2);
    PutSizes();
    SlotsRoundTrip(0, sampleCount);
    assert slots[0..] == slots;
    BlobRoundTrip(0x94, PutBlob(0xa1, active, p1), tail);
    BlobRoundTrip(0xa1, active, p1);
    FixedRoundTrip(0xa2, ALL_ONES, p2);
    BlobRoundTrip(0xa3, VERSION_BUFFER, p3);
    BlobRoundTrip(0xa4, zeros, p4);
    FixedRoundTrip(0xa5, 0, p5);
    FixedRoundTrip(0xa6, 0, p6);
    FixedRoundTrip(0xa7, 0, p7);
    FixedRoundTrip(0xa8, 0, []);
  }

  lemma {:induction false} ScalarsRoundTrip(tags: seq<Byte>, values: seq<U32>, tail: seq<Byte>)
    requires |tags| == |values|
    ensures ParseScalars(tags, PutScalars(tags, values, tail)) == Ok((values, tail))
  {
    hide PutScalar, ParseScalar;
    if tags != [] {
      ScalarRoundTrip(tags[0], values[0], PutScalars(tags[1..], values[1..], tail));
      ScalarsRoundTrip(tags[1..], values[1..], tail);
      assert [values[0]] + values[1..] == values;
    }
  }

  lemma CursorFits(sampleCount: nat)
    requires sampleCount <= SAMPLE_CAPACITY
    ensures RelationTableCursor(sampleCount) <= 1226
  {
    TableFits(sampleCount);
  }

  lemma HeaderRoundTrip(h: Header, tail: seq<Byte>)
    requires WellFormedHeader(h)
    ensures ParseHeader(PutScalars(TOP_TAGS, TopWords(h), tail)) == Ok((h, tail))
  {
    hide PutScalars, ParseScalars, RelationTableCursor;
    ScalarsRoundTrip(TOP_TAGS, TopWords(h), tail);
    CursorFits(h.sampleCount);
  }

  lemma PayloadRoundTrip(t: PersistedTemplate)
    requires WellFormed(t)
    ensures ParsePayload(PutPayload(t, []), t.rawCrc) == Ok((t, SamplesSize(t.samples)))
  {
    hide PutScalars, PutSamples, PutRelations, PutSection93, PutSection94, TopWords, ActiveSlots,
      ParseHeader, ParseSamples, ParseRelations, ParseSection93, ParseSection94,
      WellFormedHeader, WellFormedSamples, WellFormedRelations, WellFormedGraph;
    var n := |t.samples|;
    assert n <= SAMPLE_CAPACITY by { HeaderBound(t.header); }
    var p4 := PutSection94(t.activeSlots, []);
    var p3 := PutSection93(t.graph, p4);
    var p2 := PutRelations(t.relations, p3);
    var p1 := PutSamples(t.samples, p2);
    HeaderRoundTrip(t.header, p1);
    SamplesRoundTrip(t.samples, 0, n, p2);
    assert p3 != [] && p3[0] != 0x96 by { Section93Tag(t.graph, p4); }
    RelationsRoundTrip(t.relations, n, {}, p3);
    Section93RoundTrip(t.graph, n, p4);
    Section94RoundTrip(n, []);
    PutSamplesLength(t.samples, p2);
  }

  lemma HeaderBound(h: Header)
    requires WellFormedHeader(h)
    ensures h.sampleCount <= SAMPLE_CAPACITY
  {}

  lemma Section93Tag(g: GraphSummary, tail: seq<Byte>)
    ensures PutSection93(g, tail) != [] && PutSection93(g, tail)[0] == 0x93
  {
    hide PutBlob, PutScalar;
    forall payload: seq<Byte> { PutTags(0x93, 0, payload, tail); }
  }

  // ---- the template fits its length field -----------------------------------------------------------------------

  lemma {:induction false} DistinctBelow(relations: seq<PersistedRelation>, bound: nat, seen: set<nat>)
    requires forall i, j :: 0 <= i < j < |relations| ==> relations[i].index != relations[j].index
    requires forall r <- relations :: r.index < bound && r.index !in seen
    requires forall x <- seen :: x < bound
    ensures |relations| + |seen| <= bound
  {
    if relations == [] {
      SetBelow(seen, bound);
    } else {
      DistinctBelow(relations[1..], bound, seen + {relations[0].index});
    }
  }

  lemma {:induction false} SetBelow(s: set<nat>, bound: nat)
    requires forall x <- s :: x < bound
    ensures |s| <= bound
    decreases bound
  {
    if bound == 0 {
      assert s == {};
    } else {
      SetBelow(s - {bound - 1}, bound - 1);
      assert |s| <= |s - {bound - 1}| + 1;
    }
  }

  lemma RelationsBound(relations: seq<PersistedRelation>, sampleCount: nat)
    requires sampleCount <= SAMPLE_CAPACITY && WellFormedRelations(relations, sampleCount)
    ensures |relations| <= 1225
  {
    hide WellFormedRelation, RowBase;
    forall r | r in relations
      ensures r.index < RowBase(sampleCount)
    {
      IndexFits(r, sampleCount);
    }
    DistinctBelow(relations, RowBase(sampleCount), {});
    TableFits(sampleCount);
  }

  lemma {:induction false} SamplesSizeBound(samples: seq<PersistedSample>)
    requires forall i :: 0 <= i < |samples| ==> |samples[i].points| <= POINT_CAPACITY
    ensures SamplesSize(samples) <= 5000 * |samples|
  {
    if samples != [] {
      SamplesSizeBound(samples[1..]);
    }
  }

  lemma PayloadFits(t: PersistedTemplate)
    requires WellFormed(t)
    ensures |PutPayload(t, [])| == 1433 + SamplesSize(t.samples) + RELATION_BYTES * |t.relations| < 400_000
  {
    hide PutPayload, SamplesSize, WellFormedRelations, WellFormedSample;
    PutPayloadLength(t);
    RelationsBound(t.relations, |t.samples|);
    forall i | 0 <= i < |t.samples| ensures |t.samples[i].points| <= POINT_CAPACITY {
      FewPersistedPoints(t.samples[i], 0 + i);
    }
    SamplesSizeBound(t.samples);
  }

  lemma FewPersistedPoints(s: PersistedSample, index: nat)
    requires WellFormedSample(s, index)
    ensures |s.points| <= POINT_CAPACITY
  {}

  // ---- main results ---------------------------------------------------------------------------------------------

  lemma PrintLayout(t: PersistedTemplate)
    requires |PutPayload(t, [])| < U32_LIMIT
    ensures var payload, raw := PutPayload(t, []), Print(t);
      && |raw| == 10 + |payload| && raw[0] == 0x87 && raw[5] == 0x86
      && raw[1..5] == LE32(t.rawCrc) && raw[6..10] == LE32(|payload|) && raw[10..] == payload
  {
    hide PutPayload, LE32;
  }

  lemma PrintAccepted(t: PersistedTemplate)
    requires WellFormed(t)
    ensures ParseRaw(Print(t)) == Ok(t)
  {
    hide ParsePayload, PutPayload, Print, WellFormed, LE32, FromLE32, SamplesSize, Crc.Checksum;
    PayloadFits(t);
    PayloadRoundTrip(t);
    PrintLayout(t);
    CrcOf(t);
    LE32RoundTrip(t.rawCrc);
    LE32RoundTrip(|PutPayload(t, [])|);
  }

  lemma CrcOf(t: PersistedTemplate)
    requires WellFormed(t)
    ensures t.rawCrc == Crc.Checksum(Crc.IsoHdlc, PutPayload(t, []))
  {}

  lemma ParsePayloadSound(payload: seq<Byte>, crc: U32, t: PersistedTemplate, sampleBytes: int)
    requires ParsePayload(payload, crc) == Ok((t, sampleBytes)) && crc == Crc.Checksum(Crc.IsoHdlc, payload)
    ensures WellFormed(t) && t.rawCrc == crc && payload == PutPayload(t, []) && sampleBytes == SamplesSize(t.samples)
  {
    hide PutScalars, PutSamples, PutRelations, PutSection93, PutSection94, TopWords, ActiveSlots,
      ParseHeader, ParseSamples, ParseRelations, ParseSection93, ParseSection94, RelationTableCursor,
      WellFormedSamples, WellFormedRelations, WellFormedGraph, SamplesSize;
    var (header, p1) := ParseHeader(payload).value;
    ParseHeaderSound(payload, header, p1);
    var n := header.sampleCount;
    var (samples, p2) := ParseSamples(p1, 0, n).value;
    ParseSamplesSound(p1, 0, n, samples, p2);
    var (relations, p3) := ParseRelations(p2, n, {}).value;
    ParseRelationsSound(p2, n, {}, relations, p3);
    var (graph, p4) := ParseSection93(p3, n).value;
    ParseSection93Sound(p3, n, graph, p4);
    var (slots, p5) := ParseSection94(p4, n).value;
    ParseSection94Sound(p4, n, slots, p5);
    PutSamplesLength(samples, p2);
  }

  lemma RawLayout(raw: seq<Byte>)
    requires |raw| >= 10
    ensures raw == [raw[0]] + (raw[1..5] + ([raw[5]] + (raw[6..10] + (raw[10..] + []))))
  {}

  lemma AcceptedIsPrint(raw: seq<Byte>, t: PersistedTemplate)
    requires ParseRaw(raw) == Ok(t)
    ensures WellFormed(t) && raw == Print(t)
  {
    hide ParsePayload, PutPayload, WellFormed, LE32, FromLE32, SamplesSize, Crc.Checksum;
    var payload, crc := raw[10..], FromLE32(raw[1..5]);
    var sampleBytes := ParsePayload(payload, crc).value.1;
    ParsePayloadSound(payload, crc, t, sampleBytes);
    RawLayout(raw);
  }

  /** A byte string is accepted with value `t` exactly when it is the printed form of a well-formed `t`. */
  lemma AcceptedIffPrinted(raw: seq<Byte>, t: PersistedTemplate)
    ensures ParseRaw(raw) == Ok(t) <==> WellFormed(t) && raw == Print(t)
  {
    hide ParseRaw, Print, WellFormed;
    if ParseRaw(raw) == Ok(t) {
      AcceptedIsPrint(raw, t);
    }
    if WellFormed(t) && raw == Print(t) {
      PrintAccepted(t);
    }
  }

  /** No two byte strings decode to the same template. */
  lemma DecoderInjective(a: seq<Byte>, b: seq<Byte>)
    requires ParseRaw(a).Ok? && ParseRaw(a) == ParseRaw(b)
    ensures a == b
  {
    hide ParseRaw, Print, WellFormed;
    AcceptedIffPrinted(a, ParseRaw(a).value);
    AcceptedIffPrinted(b, ParseRaw(a).value);
  }

  /** The final size check of the decoder never fires once the payload itself was accepted. */
  lemma SizeCheckIsDead(payload: seq<Byte>)
    requires ParsePayload(payload, Crc.Checksum(Crc.IsoHdlc, payload)).Ok?
    ensures var (t, sampleBytes) := ParsePayload(payload, Crc.Checksum(Crc.IsoHdlc, payload)).value;
      |payload| + 10 == FIXED_PACKED_SIZE + sampleBytes + RELATION_BYTES * |t.relations|
  {
    hide ParsePayload, PutPayload, WellFormed, SamplesSize, Crc.Checksum;
    var (t, sampleBytes) := ParsePayload(payload, Crc.Checksum(Crc.IsoHdlc, payload)).value;
    ParsePayloadSound(payload, Crc.Checksum(Crc.IsoHdlc, payload), t, sampleBytes);
    PayloadFits(t);
  }
}
