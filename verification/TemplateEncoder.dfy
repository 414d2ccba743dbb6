/** The encoder as the byte-pushing code that it is, against the layout of the projected template. */
module TemplateEncoder {
  import opened Wrappers
  import opened Bytes
  import opened Relations
  import opened GraphModel
  import opened EnrollmentModel
  import opened ForestModel
  import opened ForestSelection
  import opened PointCodec
  import opened TemplateFormat
  import opened TemplateGrammar
  import opened TemplateRoundTrip
  import opened TemplateProjection
  import Crc

  // ---- a growing byte buffer ------------------------------------------------------------------------------------

  /**
   A byte vector.  A push is stated against whatever bytes are to follow it, so that a run of pushes reads as the nested
   layout functions do.
   */
  class Buffer {
    var bytes: seq<Byte>

    constructor ()
      ensures bytes == []
    {
      bytes := [];
    }

    method PushBytes(data: seq<Byte>, ghost tail: seq<Byte>)
      modifies this
      ensures bytes == old(bytes) + data
      ensures bytes + tail == old(bytes) + (data + tail)
    {
      bytes := bytes + data;
    }

    method PushScalar(tag: Byte, value: U32, ghost tail: seq<Byte>)
      modifies this
      ensures bytes + tail == old(bytes) + PutScalar(tag, value, tail)
    {
      hide LE32;
      bytes := bytes + [tag];
      bytes := bytes + LE32(value);
    }

    /** Fails only when the length does not fit its 32-bit field. */
    method PushBlob(tag: Byte, data: seq<Byte>, ghost tail: seq<Byte>) returns (r: Outcome<EncodeError>)
      modifies this
      ensures r == Need(|data| < U32_LIMIT, LengthOverflow(|data|))
      ensures r.Pass? ==> bytes + tail == old(bytes) + PutBlob(tag, data, tail)
    {
      hide PutScalar;
      bytes := bytes + [tag];
      if |data| >= U32_LIMIT {
        return Fail(LengthOverflow(|data|));
      }
      bytes := bytes + LE32(|data|);
      ghost var header := bytes;
      bytes := bytes + data;
      PutScalarBytes(tag, |data|, data + tail);
      assert bytes + tail == header + (data + tail);
      return Pass;
    }

    method PushMap(tag: Byte, data: Bitmap, ghost tail: seq<Byte>) returns (r: Outcome<EncodeError>)
      modifies this
      ensures r.Pass?
      ensures bytes + tail == old(bytes) + PutMap(tag, data, tail)
    {
      hide PutScalar, PutBlob, LE32;
      ghost var c5 := PutBlob(0xc5, data, tail);
      ghost var c4 := PutScalar(0xc4, 8, c5);
      ghost var c3 := PutScalar(0xc3, ALL_ONES, c4);
      ghost var c2 := PutScalar(0xc2, 32, c3);
      PushScalar(tag, 25 + MAP_BYTES, PutScalar(0xc1, 40, c2));
      PushScalar(0xc1, 40, c2);
      PushScalar(0xc2, 32, c3);
      PushScalar(0xc3, ALL_ONES, c4);
      PushScalar(0xc4, 8, c5);
      r := PushBlob(0xc5, data, tail);
      MapNesting(tag, data, tail);
    }
  }

  lemma Alone(bytes: seq<Byte>)
    ensures [] + bytes == bytes && bytes + [] == bytes
  {}

  lemma PutScalarBytes(tag: Byte, value: U32, tail: seq<Byte>)
    ensures PutScalar(tag, value, tail) == [tag] + LE32(value) + tail
  {
    hide LE32;
  }

  /** The nested scalars and blob of a map, written in place instead of as one blob. */
  lemma MapNesting(tag: Byte, data: Bitmap, tail: seq<Byte>)
    ensures PutMap(tag, data, tail)
      == PutScalar(tag, 25 + MAP_BYTES, PutScalar(0xc1, 40, PutScalar(0xc2, 32, PutScalar(0xc3, ALL_ONES,
         PutScalar(0xc4, 8, PutBlob(0xc5, data, tail))))))
  {
    hide PutScalar, PutBlob, LE32;
    PutSizes();
    var inner := PutBlob(0xc5, data, []);
    BlobTail(0xc5, data, tail);
    ScalarTail(0xc4, 8, inner, tail);
    var c4 := PutScalar(0xc4, 8, inner);
    ScalarTail(0xc3, ALL_ONES, c4, tail);
    var c3 := PutScalar(0xc3, ALL_ONES, c4);
    ScalarTail(0xc2, 32, c3, tail);
    var c2 := PutScalar(0xc2, 32, c3);
    ScalarTail(0xc1, 40, c2, tail);
    BlobIsScalar(tag, PutScalar(0xc1, 40, c2), tail);
  }

  lemma ScalarTail(tag: Byte, value: U32, inner: seq<Byte>, tail: seq<Byte>)
    ensures PutScalar(tag, value, inner) + tail == PutScalar(tag, value, inner + tail)
  {
    hide LE32;
  }

  lemma BlobTail(tag: Byte, data: seq<Byte>, tail: seq<Byte>)
    ensures PutBlob(tag, data, []) + tail == PutBlob(tag, data, tail)
  {
    hide LE32;
  }

  lemma BlobIsScalar(tag: Byte, data: seq<Byte>, tail: seq<Byte>)
    ensures PutBlob(tag, data, tail) == PutScalar(tag, Field(|data|), data + tail)
  {}

  // ---- points ---------------------------------------------------------------------------------------------------

  /** The nibble-permuted descriptor, pair by pair, in bytes 4 to 19. */
  method StoreDescriptor(out: array<Byte>, d: Descriptor)
    requires out.Length == POINT_BYTES
    modifies out
    ensures out[..4] == old(out[..4]) && out[4..20] == StoredDescriptor(d) && out[20..] == old(out[20..])
  {
    hide StoredPair;
    for k := 0 to 8
      invariant out[..4] == old(out[..4]) && out[20..] == old(out[20..])
      invariant forall j: nat :: j < 2 * k ==> out[4 + j] == StoredDescriptorByte(d, j)
    {
      var pair := StoredPair(d[k], d[8 + k], SWAP[k]);
      out[4 + 2 * k], out[5 + 2 * k] := pair.0, pair.1;
    }
  }

  /** The 32 bytes of one point, written field by field into a zeroed buffer. */
  method EncodePoint(p: FeaturePoint) returns (out: array<Byte>)
    ensures fresh(out) && out[..] == PutPoint(ProjectPoint(p), [])
  {
    hide LE32, Pack, StoredDescriptor;
    out := new Byte[POINT_BYTES](_ => 0);
    CopyInto(out, 0, LE32(ProjectPoint(p).geometryWord));
    StoreDescriptor(out, p.descriptor);
    ghost var front := out[..20];
    assert front[..4] == out[..4] && front[4..20] == out[4..20];
    CopyInto(out, 20, LE32(p.medianHash128));
    CopyInto(out, 24, LE32(p.hadamardHash32));
    CopyInto(out, 28, LE32(p.medianHash32));
    PointBytes(p, out[..], front);
  }

  lemma PointBytes(p: FeaturePoint, out: seq<Byte>, front: seq<Byte>)
    requires |front| == 20 && front[..4] == LE32(ProjectPoint(p).geometryWord)
    requires front[4..20] == StoredDescriptor(p.descriptor)
    requires out == front + LE32(p.medianHash128) + LE32(p.hadamardHash32) + LE32(p.medianHash32)
    ensures out == PutPoint(ProjectPoint(p), [])
  {
    hide LE32, Pack, StoredDescriptor;
    assert front == front[..4] + front[4..20];
  }

  method EncodePoints(points: seq<FeaturePoint>) returns (bytes: seq<Byte>)
    ensures bytes == PutPoints(ProjectPoints(points), [])
  {
    hide PutPoint, ProjectPoint;
    ghost var all := ProjectPoints(points);
    var buffer := new Buffer();
    for i := 0 to |points|
      invariant buffer.bytes + PutPoints(all[i..], []) == PutPoints(all, [])
    {
      var point := EncodePoint(points[i]);
      buffer.PushBytes(point[..], PutPoints(all[i + 1..], []));
      assert all[i..][0] == ProjectPoint(points[i]) && all[i..][1..] == all[i + 1..];
      PutPointTail(ProjectPoint(points[i]), PutPoints(all[i + 1..], []));
    }
    bytes := buffer.bytes;
    assert bytes + [] == bytes && all[|points|..] == [];
  }

  // ---- samples --------------------------------------------------------------------------------------------------

  method EncodeSample(s: PersistentSample, index: nat) returns (r: Result<seq<Byte>, EncodeError>)
    ensures r == if |s.points| > POINT_CAPACITY then Err(TooManyPoints(index, |s.points|))
                 else Ok(PutSample(ProjectSample(s), []))
  {
    if |s.points| > POINT_CAPACITY {
      return Err(TooManyPoints(index, |s.points|));
    }
    hide PutBlob, PutSamplePayload, ProjectSample;
    var payload := EncodeSamplePayload(s);
    PutSampleLength(ProjectSample(s), []);
    SampleFits(s);
    var out := new Buffer();
    var pushed := out.PushBlob(0x95, payload, []);
    Alone(out.bytes);
    Alone(PutBlob(0x95, payload, []));
    return Ok(out.bytes);
  }

  lemma SampleFits(s: PersistentSample)
    requires |s.points| <= POINT_CAPACITY
    ensures SampleSize(ProjectSample(s)) < U32_LIMIT
  {}

  method EncodeSamplePayload(s: PersistentSample) returns (bytes: seq<Byte>)
    requires |s.points| <= POINT_CAPACITY
    ensures bytes == PutSamplePayload(ProjectSample(s))
  {
    hide PutScalar, PutBlob, PutMap, PutPoints, ExpandValidity, PutSampleScalars, ProjectScalars, ProjectPoints;
    ghost var scalars := PutSampleScalars(ProjectScalars(s), []);
    ghost var points := PutScalar(0xb3, Field(|s.points|), PutBlob(0xb4, PutPoints(ProjectPoints(s.points), []), scalars));
    ghost var low := PutMap(0xcd, s.lowThresholdMap, points);
    ghost var quarter := PutBlob(0xce, s.quarterValidity, low);
    var payload := new Buffer();
    var o := payload.PushMap(0xb2, s.primaryMap, PutOptionalMap(0xcf, s.secondaryMap, quarter));
    if s.secondaryMap.Some? {
      o := payload.PushMap(0xcf, s.secondaryMap.value, quarter);
    }
    o := payload.PushBlob(0xce, s.quarterValidity, low);
    o := payload.PushMap(0xcd, s.lowThresholdMap, points);
    PushPoints(payload, s.points, scalars);
    PushSampleScalars(payload, s, []);
    bytes := payload.bytes;
    Alone(bytes);
    Alone(PutSamplePayload(ProjectSample(s)));
  }

  lemma SmallField(n: nat)
    requires n < U32_LIMIT
    ensures Field(n) == n
  {}

  method PushPoints(payload: Buffer, points: seq<FeaturePoint>, ghost tail: seq<Byte>)
    requires |points| <= POINT_CAPACITY
    modifies payload
    ensures payload.bytes + tail == old(payload.bytes)
      + PutScalar(0xb3, Field(|points|), PutBlob(0xb4, PutPoints(ProjectPoints(points), []), tail))
  {
    hide PutScalar, PutBlob, PutPoints, ProjectPoint, Field;
    SmallField(|points|);
    payload.PushScalar(0xb3, |points|, PutBlob(0xb4, PutPoints(ProjectPoints(points), []), tail));
    var bytes := EncodePoints(points);
    PutPointsLength(ProjectPoints(points));
    var o := payload.PushBlob(0xb4, bytes, tail);
  }

  method PushSampleScalars(payload: Buffer, s: PersistentSample, ghost tail: seq<Byte>)
    modifies payload
    ensures payload.bytes + tail == old(payload.bytes) + PutSampleScalars(ProjectScalars(s), tail)
  {
    hide PutScalar, Bits;
    ghost var c7 := PutOptionalScalar(0xc7, ProjectScalars(s).embedded140, tail);
    ghost var c0 := PutScalar(0xc0, Bits(s.scalar13c), c7);
    ghost var be := PutScalar(0xbe, Bits(0), c0);
    ghost var bd := PutScalar(0xbd, Bits(0), be);
    ghost var bc := PutScalar(0xbc, Bits(s.sampleIndex), bd);
    ghost var bb := PutScalar(0xbb, Bits(0), bc);
    ghost var ba := PutScalar(0xba, Bits(0), bb);
    ghost var b9 := PutScalar(0xb9, Bits(s.param4), ba);
    ghost var b8 := PutScalar(0xb8, Bits(s.param3), b9);
    ghost var b7 := PutScalar(0xb7, Bits(s.scalar108), b8);
    assert Bits(0) == 0 by { ZeroBits(); }
    payload.PushScalar(0xb5, if s.canonicalMember then 1 else 0, PutScalar(0xb6, Bits(s.relationCheckpoint), b7));
    payload.PushScalar(0xb6, Bits(s.relationCheckpoint), b7);
    payload.PushScalar(0xb7, Bits(s.scalar108), b8);
    payload.PushScalar(0xb8, Bits(s.param3), b9);
    payload.PushScalar(0xb9, Bits(s.param4), ba);
    payload.PushScalar(0xba, 0, bb);
    payload.PushScalar(0xbb, 0, bc);
    payload.PushScalar(0xbc, Bits(s.sampleIndex), bd);
    payload.PushScalar(0xbd, 0, be);
    payload.PushScalar(0xbe, 0, c0);
    payload.PushScalar(0xc0, Bits(s.scalar13c), c7);
    if s.embedded140 != 0 {
      payload.PushScalar(0xc7, Bits(s.embedded140), tail);
    }
  }

  lemma ZeroBits()
    ensures Bits(0) == 0
  {}

  // ---- relations and sections -----------------------------------------------------------------------------------

  method EncodeRelation(e: Selected) returns (bytes: seq<Byte>)
    ensures bytes == PutRelation(ProjectRelation(e), [])
  {
    hide PutScalar, PutBlob, PutScalars;
    var words := AffineWords(e.record.higherToLower);
    ghost var affine := PutScalars(AFFINE_TAGS, words, []);
    ghost var e1 := PutScalar(0xe1, Bits(e.record.value), affine);
    var out := new Buffer();
    out.PushScalar(0x96, 40, PutScalar(0xe3, Field(e.index), e1));
    out.PushScalar(0xe3, Field(e.index), e1);
    out.PushScalar(0xe1, Bits(e.record.value), affine);
    RelationNesting(ProjectRelation(e));
    PutScalarsDone(AFFINE_TAGS, words, []);
    for i := 0 to |AFFINE_TAGS|
      invariant out.bytes + PutScalars(AFFINE_TAGS[i..], words[i..], []) == [] + PutRelation(ProjectRelation(e), [])
    {
      out.PushScalar(AFFINE_TAGS[i], words[i], PutScalars(AFFINE_TAGS[i + 1..], words[i + 1..], []));
      PutScalarsStep(AFFINE_TAGS, words, i, []);
    }
    bytes := out.bytes;
    Alone(bytes);
    Alone(PutRelation(ProjectRelation(e), []));
  }

  lemma PutScalarsStep(tags: seq<Byte>, values: seq<U32>, i: nat, tail: seq<Byte>)
    requires i < |tags| == |values|
    ensures PutScalars(tags[i..], values[i..], tail)
      == PutScalar(tags[i], values[i], PutScalars(tags[i + 1..], values[i + 1..], tail))
  {
    assert tags[i..][1..] == tags[i + 1..] && values[i..][1..] == values[i + 1..];
  }

  lemma PutScalarsDone(tags: seq<Byte>, values: seq<U32>, tail: seq<Byte>)
    requires |tags| == |values|
    ensures PutScalars(tags[|tags|..], values[|tags|..], tail) == tail
    ensures tags[0..] == tags && values[0..] == values
  {}

  lemma RelationNesting(r: PersistedRelation)
    ensures PutRelation(r, [])
      == PutScalar(0x96, 40, PutScalar(0xe3, Field(r.index), PutScalar(0xe1, Bits(r.value),
         PutScalars(AFFINE_TAGS, AffineWords(r.higherToLower), []))))
  {
    hide PutScalar, PutBlob, PutScalars, AffineWords;
    PutScalarsLength(AFFINE_TAGS, AffineWords(r.higherToLower), []);
    PutSizes();
    var inner := PutScalar(0xe3, Field(r.index), PutScalar(0xe1, Bits(r.value),
      PutScalars(AFFINE_TAGS, AffineWords(r.higherToLower), [])));
    BlobIsScalar(0x96, inner, []);
    assert inner + [] == inner;
  }

  method EncodeSection93(g: Graph) returns (bytes: seq<Byte>)
    ensures bytes == PutSection93(ProjectGraph(g), [])
  {
    hide PutScalar, PutBlob;
    var anchor: U32 := if g.established then Field(g.anchor) else ALL_ONES;
    ghost var f5 := PutScalar(0xf5, Flag(g.established), []);
    ghost var f4 := PutScalar(0xf4, ALL_ONES, f5);
    ghost var f3 := PutScalar(0xf3, ALL_ONES, f4);
    ghost var inner := PutScalar(0xf2, anchor, f3);
    var out := new Buffer();
    out.PushScalar(0x93, 20, inner);
    out.PushScalar(0xf2, anchor, f3);
    out.PushScalar(0xf3, ALL_ONES, f4);
    out.PushScalar(0xf4, ALL_ONES, f5);
    out.PushScalar(0xf5, if g.established then 1 else 0, []);
    bytes := out.bytes;
    PutSizes();
    BlobIsScalar(0x93, inner, []);
    Alone(bytes);
    Alone(inner);
    Alone(PutSection93(ProjectGraph(g), []));
  }

  /** The 50-entry slot table, starting from all ones and overwritten for the first `count` samples. */
  method BuildSlots(count: nat) returns (a: array<Byte>)
    ensures fresh(a) && a[..] == PutSlots(ActiveSlots(count), [])
  {
    hide LE32;
    a := new Byte[4 * SAMPLE_CAPACITY](_ => 0xff);
    AllOnesBytes();
    var limit := if count < SAMPLE_CAPACITY then count else SAMPLE_CAPACITY;
    for i := 0 to limit
      invariant SlotsHold(a[..], i)
    {
      ghost var before := a[..];
      CopyInto(a, 4 * i, LE32(i));
      assert Bits(i) == i;
      SlotsStep(before, a[..], i);
    }
    SlotsDone(a[..], limit, count);
  }

  lemma SlotsDone(bytes: seq<Byte>, limit: nat, count: nat)
    requires SlotsHold(bytes, limit) && limit == if count < SAMPLE_CAPACITY then count else SAMPLE_CAPACITY
    ensures bytes == PutSlots(ActiveSlots(count), [])
  {
    hide LE32, PutSlots;
    forall j: nat | j < SAMPLE_CAPACITY
      ensures bytes[4 * j..4 * j + 4] == LE32(Bits(ActiveSlots(count)[j]))
    {
      assert ActiveSlots(count)[j] == ActiveSlot(j, limit);
    }
    SlotsFromWords(ActiveSlots(count), bytes);
  }

  /** The table bytes when the first `written` slots have been filled in. */
  ghost predicate SlotsHold(bytes: seq<Byte>, written: nat) {
    && |bytes| == 4 * SAMPLE_CAPACITY
    && forall j: nat :: j < SAMPLE_CAPACITY ==> bytes[4 * j..4 * j + 4] == LE32(Bits(ActiveSlot(j, written)))
  }

  lemma SlotsStep(before: seq<Byte>, after: seq<Byte>, i: nat)
    requires i < SAMPLE_CAPACITY && SlotsHold(before, i)
    requires after == before[..4 * i] + LE32(i) + before[4 * i + 4..]
    ensures SlotsHold(after, i + 1)
  {
    hide LE32;
    forall j: nat | j < SAMPLE_CAPACITY
      ensures after[4 * j..4 * j + 4] == LE32(Bits(ActiveSlot(j, i + 1)))
    {
      SlotUpdate(before, after, LE32(i), i, j);
      assert before[4 * j..4 * j + 4] == LE32(Bits(ActiveSlot(j, i)));
    }
  }

  lemma SlotUpdate(before: seq<Byte>, after: seq<Byte>, word: seq<Byte>, i: nat, j: nat)
    requires 4 * i + 4 <= |before| && 4 * j + 4 <= |before| && |word| == 4
    requires after == before[..4 * i] + word + before[4 * i + 4..]
    ensures after[4 * j..4 * j + 4] == if j == i then word else before[4 * j..4 * j + 4]
  {}

  lemma AllOnesBytes()
    ensures LE32(ALL_ONES) == [0xff, 0xff, 0xff, 0xff]
  {}

  lemma {:induction false} SlotsFromWords(slots: seq<I32>, bytes: seq<Byte>)
    requires |bytes| == 4 * |slots|
    requires forall j: nat :: j < |slots| ==> bytes[4 * j..4 * j + 4] == LE32(Bits(slots[j]))
    ensures bytes == PutSlots(slots, [])
  {
    hide LE32;
    if slots != [] {
      var rest := bytes[4..];
      forall j: nat | j < |slots| - 1 ensures rest[4 * j..4 * j + 4] == LE32(Bits(slots[1..][j])) {
        assert rest[4 * j..4 * j + 4] == bytes[4 * (j + 1)..4 * (j + 1) + 4];
      }
      SlotsFromWords(slots[1..], rest);
      assert bytes == bytes[0..4] + rest;
      assert bytes[4 * 0..4 * 0 + 4] == LE32(Bits(slots[0]));
    }
  }

  function Section94Payload(slots: seq<I32>): seq<Byte> {
    PutBlob(0xa1, PutSlots(slots, []), PutScalar(0xa2, ALL_ONES, PutBlob(0xa3, VERSION_BUFFER,
    PutBlob(0xa4, Zeros(1024), PutScalar(0xa5, 0, PutScalar(0xa6, 0, PutScalar(0xa7, 0, PutScalar(0xa8, 0, []))))))))
  }

  lemma Section94Length(slots: seq<I32>)
    requires |slots| == SAMPLE_CAPACITY
    ensures |PutSlots(slots, [])| == 200 && |Section94Payload(slots)| == 1328
  {
    hide PutScalar, PutBlob, PutSlots;
    PutSlotsLength(slots, []);
    PutSizes();
  }

  method EncodeSection94(count: nat) returns (r: Result<seq<Byte>, EncodeError>)
    ensures r == Ok(PutSection94(ActiveSlots(count), []))
  {
    hide PutScalar, PutBlob, PutSlots, ActiveSlots;
    ghost var slots := ActiveSlots(count);
    SlotCount(count);
    Section94Length(slots);
    ghost var a8 := PutScalar(0xa8, 0, []);
    ghost var a7 := PutScalar(0xa7, 0, a8);
    ghost var a6 := PutScalar(0xa6, 0, a7);
    ghost var a5 := PutScalar(0xa5, 0, a6);
    ghost var a4 := PutBlob(0xa4, Zeros(1024), a5);
    ghost var a3 := PutBlob(0xa3, VERSION_BUFFER, a4);
    var payload := new Buffer();
    var a1 := BuildSlots(count);
    var o := payload.PushBlob(0xa1, a1[..], PutScalar(0xa2, ALL_ONES, a3));
    payload.PushScalar(0xa2, ALL_ONES, a3);
    o := payload.PushBlob(0xa3, VERSION_BUFFER, a4);
    o := payload.PushBlob(0xa4, Zeros(1024), a5);
    payload.PushScalar(0xa5, 0, a6);
    payload.PushScalar(0xa6, 0, a7);
    payload.PushScalar(0xa7, 0, a8);
    payload.PushScalar(0xa8, 0, []);
    Alone(payload.bytes);
    Alone(Section94Payload(slots));
    var out := new Buffer();
    o := out.PushBlob(0x94, payload.bytes, []);
    Alone(out.bytes);
    Alone(PutBlob(0x94, payload.bytes, []));
    return Ok(out.bytes);
  }

  lemma SlotCount(count: nat)
    ensures |ActiveSlots(count)| == SAMPLE_CAPACITY
  {}

  // ---- the whole template ---------------------------------------------------------------------------------------

  /** All samples when every one of them carries its persistent state. */
  method CollectSamples(c: Core) returns (r: Result<seq<PersistentSample>, EncodeError>)
    requires |c.persistent| == |c.pointSets|
    ensures FirstIncomplete(c, 0).Some? ==> r == Err(IncompletePersistentSample(FirstIncomplete(c, 0).value))
    ensures FirstIncomplete(c, 0).None? ==> Complete(c) && r == Ok(States(c))
  {
    var samples: seq<PersistentSample> := [];
    for index := 0 to |c.pointSets|
      invariant FirstIncomplete(c, index) == FirstIncomplete(c, 0)
      invariant |samples| == index && forall i :: 0 <= i < index ==> c.persistent[i] == Some(samples[i])
    {
      if c.persistent[index].None? {
        return Err(IncompletePersistentSample(index));
      }
      samples := samples + [c.persistent[index].value];
    }
    assert Complete(c);
    assert samples == States(c);
    return Ok(samples);
  }

  /** Every sample encoded on its own, and the total size. */
  method EncodeSamples(samples: seq<PersistentSample>) returns (r: Result<(seq<seq<Byte>>, nat), EncodeError>)
    ensures FirstCrowded(samples, 0).Some? ==>
      r == Err(TooManyPoints(FirstCrowded(samples, 0).value, |samples[FirstCrowded(samples, 0).value].points|))
    ensures FirstCrowded(samples, 0).None? ==>
      && FewPoints(samples) && r.Ok? && Encoded(ProjectSamples(samples), r.value.0)
      && r.value.1 == SamplesSize(ProjectSamples(samples))
  {
    hide PutSample, ProjectSample, SampleSize, SamplesSize, Encoded;
    ghost var all := ProjectSamples(samples);
    var encoded: seq<seq<Byte>> := [];
    var sampleBytes: nat := 0;
    EncodedNone();
    for index := 0 to |samples|
      invariant FirstCrowded(samples, index) == FirstCrowded(samples, 0)
      invariant Encoded(all[..index], encoded)
      invariant sampleBytes + SamplesSize(all[index..]) == SamplesSize(all)
    {
      var bytes :- EncodeSample(samples[index], index);
      PutSampleLength(all[index], []);
      SamplesSizeStep(all, index);
      sampleBytes := sampleBytes + |bytes|;
      EncodedNext(all, encoded, index, bytes);
      encoded := encoded + [bytes];
    }
    assert all[..|samples|] == all;
    SamplesSizeStep(all, |samples|);
    return Ok((encoded, sampleBytes));
  }

  ghost predicate Encoded(samples: seq<PersistedSample>, encoded: seq<seq<Byte>>) {
    |encoded| == |samples| && forall i :: 0 <= i < |samples| ==> encoded[i] == PutSample(samples[i], [])
  }

  lemma EncodedNone()
    ensures Encoded([], [])
  {}

  lemma EncodedNext(samples: seq<PersistedSample>, encoded: seq<seq<Byte>>, index: nat, bytes: seq<Byte>)
    requires index < |samples| && Encoded(samples[..index], encoded) && bytes == PutSample(samples[index], [])
    ensures Encoded(samples[..index + 1], encoded + [bytes])
  {
    hide PutSample;
    var longer := encoded + [bytes];
    forall i | 0 <= i <= index ensures longer[i] == PutSample(samples[..index + 1][i], []) {
      if i < index {
        assert longer[i] == encoded[i] && samples[..index + 1][i] == samples[..index][i];
      }
    }
  }

  lemma SamplesSizeStep(samples: seq<PersistedSample>, i: nat)
    requires i <= |samples|
    ensures samples[0..] == samples
    ensures SamplesSize(samples[i..]) == if i == |samples| then 0 else SampleSize(samples[i]) + SamplesSize(samples[i + 1..])
  {
    hide SampleSize;
    assert i < |samples| ==> samples[i..][1..] == samples[i + 1..];
  }

  /** The largest point count, but no less than the default capacity. */
  method MaxPointCount(samples: seq<PersistentSample>) returns (max: nat)
    ensures max >= POINT_CAPACITY && forall s <- samples :: |s.points| <= max
    ensures max == POINT_CAPACITY || exists s <- samples :: |s.points| == max
  {
    max := POINT_CAPACITY;
    for i := 0 to |samples|
      invariant max >= POINT_CAPACITY && forall s <- samples[..i] :: |s.points| <= max
      invariant max == POINT_CAPACITY || exists s <- samples :: |s.points| == max
    {
      if |samples[i].points| > max {
        max := |samples[i].points|;
      }
      assert samples[i] in samples && samples[..i + 1] == samples[..i] + [samples[i]];
    }
    assert samples[..|samples|] == samples;
  }

  lemma PutSampleTail(s: PersistedSample, tail: seq<Byte>)
    ensures PutSample(s, []) + tail == PutSample(s, tail)
  {
    hide PutSamplePayload, PutBlob;
    BlobTail(0x95, PutSamplePayload(s), tail);
  }

  lemma PutRelationTail(r: PersistedRelation, tail: seq<Byte>)
    ensures PutRelation(r, []) + tail == PutRelation(r, tail)
  {
    hide PutScalar, PutScalars, PutBlob, AffineWords;
    BlobTail(0x96, PutScalar(0xe3, Field(r.index), PutScalar(0xe1, Bits(r.value),
      PutScalars(AFFINE_TAGS, AffineWords(r.higherToLower), []))), tail);
  }

  method PushSamples(
    payload: Buffer, encoded: seq<seq<Byte>>, ghost samples: seq<PersistedSample>, ghost tail: seq<Byte>)
    requires Encoded(samples, encoded)
    modifies payload
    ensures payload.bytes + tail == old(payload.bytes) + PutSamples(samples, tail)
  {
    hide PutSample, PutSamples;
    PutSamplesStep(samples, 0, tail);
    for i := 0 to |encoded|
      invariant payload.bytes + PutSamples(samples[i..], tail) == old(payload.bytes) + PutSamples(samples, tail)
    {
      PutSamplesStep(samples, i, tail);
      PutSampleTail(samples[i], PutSamples(samples[i + 1..], tail));
      payload.PushBytes(encoded[i], PutSamples(samples[i + 1..], tail));
    }
    PutSamplesStep(samples, |encoded|, tail);
  }

  lemma PutSamplesStep(samples: seq<PersistedSample>, i: nat, tail: seq<Byte>)
    requires i <= |samples|
    ensures samples[0..] == samples
    ensures PutSamples(samples[i..], tail)
      == if i == |samples| then tail else PutSample(samples[i], PutSamples(samples[i + 1..], tail))
  {
    hide PutSample;
    assert i < |samples| ==> samples[i..][1..] == samples[i + 1..];
  }

  method PushRelations(payload: Buffer, selected: seq<Selected>, ghost tail: seq<Byte>)
    modifies payload
    ensures payload.bytes + tail == old(payload.bytes) + PutRelations(ProjectRelations(selected), tail)
  {
    hide PutRelation, ProjectRelation, PutRelations;
    ghost var all := ProjectRelations(selected);
    PutRelationsStep(all, 0, tail);
    for i := 0 to |selected|
      invariant payload.bytes + PutRelations(all[i..], tail) == old(payload.bytes) + PutRelations(all, tail)
    {
      var bytes := EncodeRelation(selected[i]);
      PutRelationsStep(all, i, tail);
      PutRelationTail(all[i], PutRelations(all[i + 1..], tail));
      payload.PushBytes(bytes, PutRelations(all[i + 1..], tail));
    }
    PutRelationsStep(all, |selected|, tail);
  }

  lemma PutRelationsStep(relations: seq<PersistedRelation>, i: nat, tail: seq<Byte>)
    requires i <= |relations|
    ensures relations[0..] == relations
    ensures PutRelations(relations[i..], tail)
      == if i == |relations| then tail else PutRelation(relations[i], PutRelations(relations[i + 1..], tail))
  {
    hide PutRelation;
    assert i < |relations| ==> relations[i..][1..] == relations[i + 1..];
  }

  /** The header scalars from position `i` on. */
  ghost function HeaderFrom(words: seq<U32>, i: nat, tail: seq<Byte>): seq<Byte>
    requires i <= |words| == |TOP_TAGS|
  {
    PutScalars(TOP_TAGS[i..], words[i..], tail)
  }

  lemma HeaderSteps(words: seq<U32>, tail: seq<Byte>)
    requires |words| == |TOP_TAGS|
    ensures HeaderFrom(words, 0, tail) == PutScalars(TOP_TAGS, words, tail) && HeaderFrom(words, 15, tail) == tail
    ensures forall i: nat {:trigger HeaderFrom(words, i, tail)} :: i < |words| ==>
      HeaderFrom(words, i, tail) == PutScalar(TOP_TAGS[i], words[i], HeaderFrom(words, i + 1, tail))
  {
    hide PutScalar, PutScalars;
    PutScalarsDone(TOP_TAGS, words, tail);
    forall i: nat | i < |words| { PutScalarsStep(TOP_TAGS, words, i, tail); }
  }

  method PushHeader(
    payload: Buffer, count: nat, configuredMax: nat, cursor: nat, maxPoints: nat, ghost tail: seq<Byte>)
    modifies payload
    ensures payload.bytes + tail == old(payload.bytes)
      + PutScalars(TOP_TAGS, TopWords(Header(count, configuredMax, cursor, maxPoints, POINT_CAPACITY)), tail)
  {
    hide PutScalar, PutScalars, Field, HeaderFrom;
    SmallField(POINT_CAPACITY);
    ghost var w := TopWords(Header(count, configuredMax, cursor, maxPoints, POINT_CAPACITY));
    HeaderSteps(w, tail);
    payload.PushScalar(0x81, TEMPLATE_00, HeaderFrom(w, 1, tail));
    payload.PushScalar(0x88, TEMPLATE_00, HeaderFrom(w, 2, tail));
    payload.PushScalar(0x89, TEMPLATE_04, HeaderFrom(w, 3, tail));
    payload.PushScalar(0x98, 0x18, HeaderFrom(w, 4, tail));
    payload.PushScalar(0x9a, 64, HeaderFrom(w, 5, tail));
    payload.PushScalar(0x9b, 80, HeaderFrom(w, 6, tail));
    payload.PushScalar(0x91, Field(count), HeaderFrom(w, 7, tail));
    payload.PushScalar(0x97, Field(configuredMax), HeaderFrom(w, 8, tail));
    payload.PushScalar(0x92, Field(cursor), HeaderFrom(w, 9, tail));
    payload.PushScalar(0x9e, Field(maxPoints), HeaderFrom(w, 10, tail));
    payload.PushScalar(0x9f, POINT_CAPACITY, HeaderFrom(w, 11, tail));
    payload.PushScalar(0x9c, 1, HeaderFrom(w, 12, tail));
    payload.PushScalar(0x9d, 1, HeaderFrom(w, 13, tail));
    payload.PushScalar(0xfa, 0, HeaderFrom(w, 14, tail));
    payload.PushScalar(0xfb, 0, tail);
  }

  /** The payload, the encoded size of its samples and the number of its relations. */
  method EncodePayload(c: Core) returns (r: Result<(seq<Byte>, nat, nat), EncodeError>)
    requires |c.persistent| == |c.pointSets| && c.graph.table.Valid()
    ensures FirstIncomplete(c, 0).Some? ==> r == Err(IncompletePersistentSample(FirstIncomplete(c, 0).value))
    ensures FirstIncomplete(c, 0).None? && FirstCrowded(States(c), 0).Some? ==>
      r == Err(TooManyPoints(FirstCrowded(States(c), 0).value, |States(c)[FirstCrowded(States(c), 0).value].points|))
    ensures FirstIncomplete(c, 0).None? && FirstCrowded(States(c), 0).None? ==>
      r == Ok((PutPayload(Unsealed(c), []), SamplesSize(Unsealed(c).samples), |Unsealed(c).relations|))
  {
    hide PutPayload, Select, ActiveSlots, ProjectSample, ProjectSamples, SamplesSize, RelationTableCursor, ProjectHeader;
    var collected := CollectSamples(c);
    if collected.Err? {
      return Err(collected.error);
    }
    var samples := collected.value;
    var selected := SelectPersistentRelations(c.graph.table, |c.pointSets|);
    var encoded := EncodeSamples(samples);
    if encoded.Err? {
      return Err(encoded.error);
    }
    var payload := AssemblePayload(c, samples, encoded.value.0, selected);
    return Ok((payload, encoded.value.1, |selected|));
  }

  method AssemblePayload(c: Core, samples: seq<PersistentSample>, encoded: seq<seq<Byte>>, selected: seq<Selected>)
    returns (bytes: seq<Byte>)
    requires Complete(c) && c.graph.table.Valid() && samples == States(c) && FewPoints(samples)
    requires Encoded(ProjectSamples(samples), encoded) && selected == Select(c.graph.table, |c.pointSets|)
    ensures bytes == PutPayload(Unsealed(c), [])
  {
    hide PutScalars, PutSamples, PutRelations, PutSection93, PutSection94, TopWords, Select, ActiveSlots, ProjectSamples,
      ProjectRelations, RelationTableCursor, ProjectGraph, Encoded;
    var maxPoints := CappedPointCount(samples);
    var count := |c.pointSets|;
    ghost var tail94 := PutSection94(ActiveSlots(count), []);
    ghost var tail93 := PutSection93(ProjectGraph(c.graph), tail94);
    ghost var tailRelations := PutRelations(ProjectRelations(selected), tail93);
    var payload := new Buffer();
    PushHeader(payload, count, c.configuredMax, RelationTableCursor(count), maxPoints,
      PutSamples(ProjectSamples(samples), tailRelations));
    PushSamples(payload, encoded, ProjectSamples(samples), tailRelations);
    PushRelations(payload, selected, tail93);
    var section93 := EncodeSection93(c.graph);
    Section93Tail(ProjectGraph(c.graph), tail94);
    payload.PushBytes(section93, tail94);
    var section94 := EncodeSection94(count);
    payload.PushBytes(section94.value, []);
    bytes := payload.bytes;
    Alone(bytes);
    Alone(tail94);
    Alone(PutPayload(Unsealed(c), []));
  }

  method CappedPointCount(samples: seq<PersistentSample>) returns (max: nat)
    requires FewPoints(samples)
    ensures max == POINT_CAPACITY
  {
    max := MaxPointCount(samples);
    assert forall s <- samples :: |s.points| <= POINT_CAPACITY;
  }

  lemma Section93Tail(g: GraphSummary, tail: seq<Byte>)
    ensures PutSection93(g, []) + tail == PutSection93(g, tail)
  {
    hide PutScalar, PutBlob, AnchorWord;
    BlobTail(0x93, PutScalar(0xf2, AnchorWord(g), PutScalar(0xf3, ALL_ONES, PutScalar(0xf4, ALL_ONES,
      PutScalar(0xf5, Flag(g.established), [])))), tail);
  }

  /** The raw template; its closing size check never fails. */
  method EncodeRawTemplate(c: Core) returns (r: Result<seq<Byte>, EncodeError>)
    requires |c.persistent| == |c.pointSets| && c.graph.table.Valid()
    ensures r == EncodeRaw(c)
  {
    hide PutPayload, Unsealed, SamplesSize, PutScalar, PutBlob;
    var encoded := EncodePayload(c);
    if encoded.Err? {
      return Err(encoded.error);
    }
    SealKeepsPayload(c);
    var (payload, sampleBytes, relationCount) := encoded.value;
    var crc := Crc.RawTemplateCrc32(payload);
    PackedSize(c);
    var out := new Buffer();
    out.PushScalar(0x87, crc, PutBlob(0x86, payload, []));
    if |payload| >= U32_LIMIT {
      return Err(LengthOverflow(|payload|));
    }
    var pushed := out.PushBlob(0x86, payload, []);
    Alone(out.bytes);
    Alone(Print(Project(c)));
    var expected := FIXED_PACKED_SIZE + sampleBytes + RELATION_BYTES * relationCount;
    if |out.bytes| != expected {
      // The packed-size error cannot occur.
      assert false;
    }
    return Ok(out.bytes);
  }

  lemma PackedSize(c: Core)
    requires Complete(c) && c.graph.table.Valid()
    ensures |Print(Project(c))| == 10 + |PutPayload(Project(c), [])|
    ensures |Print(Project(c))|
      == FIXED_PACKED_SIZE + SamplesSize(Unsealed(c).samples) + RELATION_BYTES * |Unsealed(c).relations|
  {
    hide PutPayload, SamplesSize, Select, ActiveSlots, PutScalar, PutBlob;
    SlotCount(|c.pointSets|);
    PutSizes();
    PutPayloadLength(Project(c));
  }
}
