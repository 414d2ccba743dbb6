/** The cursor-based decoder, proved to compute the strict grammar of persisted templates. */
module TemplateDecoder {
  import opened Wrappers
  import opened Bytes
  import opened Relations
  import opened TemplateFormat
  import opened TemplateGrammar
  import Crc

  /** `r` and the unread bytes `rest` are what the grammar says about the bytes that were unread before. */
  ghost predicate Follows<T>(r: Result<T, DecodeError>, rest: seq<Byte>, grammar: Parse<T>) {
    if grammar.Ok? then r == Ok(grammar.value.0) && rest == grammar.value.1 else r == Err(grammar.error)
  }

  /** The grammar's answer when `front` was already read. */
  ghost function Prepend<T>(front: seq<T>, grammar: Parse<seq<T>>): Parse<seq<T>> {
    if grammar.Ok? then Ok((front + grammar.value.0, grammar.value.1)) else grammar
  }

  class Reader {
    const bytes: seq<Byte>
    var pos: nat

    constructor (bytes: seq<Byte>)
      ensures this.bytes == bytes && pos == 0 && Valid() && Rest() == bytes
    {
      this.bytes := bytes;
      pos := 0;
    }

    ghost predicate Valid()
      reads this
    {
      pos <= |bytes|
    }

    function Rest(): seq<Byte>
      reads this
      requires Valid()
    {
      bytes[pos..]
    }

    method Remaining() returns (n: nat)
      requires Valid()
      ensures n == |Rest()|
    {
      n := |bytes| - pos;
    }

    method Next() returns (r: Result<Byte, DecodeError>)
      requires Valid()
      ensures r == Peek(Rest())
    {
      r := if pos < |bytes| then Ok(bytes[pos]) else Err(Truncated(1, 0));
    }

    method Advance(count: nat) returns (r: Result<seq<Byte>, DecodeError>)
      requires Valid()
      modifies this
      ensures Valid() && Follows(r, Rest(), Take(count, old(Rest())))
    {
      var remaining := Remaining();
      if count > remaining {
        return Err(Truncated(count, remaining));
      }
      var start := pos;
      pos := pos + count;
      assert bytes[start..][..count] == bytes[start..start + count] && bytes[start..][count..] == bytes[pos..];
      return Ok(bytes[start..start + count]);
    }

    method Tag(expected: Byte) returns (r: Outcome<DecodeError>)
      requires Valid()
      modifies this
      ensures Valid()
      ensures match ExpectTag(expected, old(Rest()))
              case Ok(rest) => r == Pass && Rest() == rest
              case Err(e) => r == Fail(e)
    {
      var actual := Advance(1);
      if actual.Err? {
        return Fail(actual.error);
      }
      r := Need(actual.value[0] == expected, UnexpectedTag(expected, actual.value[0]));
    }

    method Word() returns (r: Result<U32, DecodeError>)
      requires Valid()
      modifies this
      ensures Valid() && Follows(r, Rest(), ParseWord(old(Rest())))
    {
      hide FromLE32;
      var raw :- Advance(4);
      r := Ok(FromLE32(raw));
    }

    method Scalar(tag: Byte) returns (r: Result<U32, DecodeError>)
      requires Valid()
      modifies this
      ensures Valid() && Follows(r, Rest(), ParseScalar(tag, old(Rest())))
    {
      hide ParseWord, PutScalar;
      :- Tag(tag);
      r := Word();
    }

    method SignedScalar(tag: Byte) returns (r: Result<I32, DecodeError>)
      requires Valid()
      modifies this
      ensures Valid() && Follows(r, Rest(), ParseSigned(tag, old(Rest())))
    {
      hide ParseScalar, PutScalar;
      var w :- Scalar(tag);
      r := Ok(Signed(w));
    }

    method FlagScalar(tag: Byte) returns (r: Result<bool, DecodeError>)
      requires Valid()
      modifies this
      ensures Valid() && Follows(r, Rest(), ParseFlag(tag, old(Rest())))
    {
      hide ParseScalar, PutScalar;
      var w :- Scalar(tag);
      :- Need(w <= 1, InvalidValue(w));
      r := Ok(w == 1);
    }

    /** Reads one scalar and insists on its value. */
    method Fixed(tag: Byte, expected: U32) returns (r: Outcome<DecodeError>)
      requires Valid()
      modifies this
      ensures Valid()
      ensures match ParseFixed(tag, expected, old(Rest()))
              case Ok(rest) => r == Pass && Rest() == rest
              case Err(e) => r == Fail(e)
    {
      hide ParseScalar, PutScalar;
      var actual := Scalar(tag);
      if actual.Err? {
        return Fail(actual.error);
      }
      r := RequireScalar(tag, actual.value, expected);
    }

    method Blob(tag: Byte) returns (r: Result<seq<Byte>, DecodeError>)
      requires Valid()
      modifies this
      ensures Valid() && Follows(r, Rest(), ParseBlob(tag, old(Rest())))
    {
      hide ParseScalar, PutScalar, PutBlob;
      var length :- Scalar(tag);
      r := Advance(length);
    }

    method Scalars(tags: seq<Byte>) returns (r: Result<seq<U32>, DecodeError>)
      requires Valid()
      modifies this
      ensures Valid() && Follows(r, Rest(), ParseScalars(tags, old(Rest())))
    {
      hide ParseScalar;
      var values: seq<U32> := [];
      assert tags[0..] == tags;
      PrependNone(ParseScalars(tags, Rest()));
      for i := 0 to |tags|
        invariant Valid() && |values| == i
        invariant ParseScalars(tags, old(Rest())) == Prepend(values, ParseScalars(tags[i..], Rest()))
      {
        assert tags[i..][1..] == tags[i + 1..];
        var value :- Scalar(tags[i]);
        values := values + [value];
        PrependTwice(values[..i], [value], ParseScalars(tags[i + 1..], Rest()));
      }
      assert values + [] == values;
      r := Ok(values);
    }

    method Map(tag: Byte) returns (r: Result<Bitmap, DecodeError>)
      requires Valid()
      modifies this
      ensures Valid() && Follows(r, Rest(), ParseMap(tag, old(Rest())))
    {
      hide ParseFixed, ParseBlob, PutMap, PutScalar, PutBlob;
      var payload :- Blob(tag);
      var nested := new Reader(payload);
      :- nested.Fixed(0xc1, 40);
      :- nested.Fixed(0xc2, 32);
      :- nested.Fixed(0xc3, ALL_ONES);
      :- nested.Fixed(0xc4, 8);
      var data :- nested.Blob(0xc5);
      :- Need(|data| == MAP_BYTES, BlobLengthMismatch(0xc5, MAP_BYTES, |data|));
      :- nested.AtEnd();
      r := Ok(data);
    }

    method OptionalMap(tag: Byte) returns (r: Result<Option<Bitmap>, DecodeError>)
      requires Valid()
      modifies this
      ensures Valid() && Follows(r, Rest(), ParseOptionalMap(tag, old(Rest())))
    {
      hide ParseMap, PutOptionalMap;
      var next :- Next();
      if next == tag {
        var data :- Map(tag);
        return Ok(Some(data));
      }
      r := Ok(None);
    }

    method AtEnd() returns (r: Outcome<DecodeError>)
      requires Valid()
      ensures r == RequireEmpty(bytes, Rest())
    {
      r := Need(pos == |bytes|, ContainerLengthMismatch(|bytes|, pos));
    }
  }

  lemma PrependNone<T>(grammar: Parse<seq<T>>)
    ensures Prepend([], grammar) == grammar
  {
    if grammar.Ok? {
      assert [] + grammar.value.0 == grammar.value.0;
    }
  }

  lemma PrependTwice<T>(front: seq<T>, middle: seq<T>, grammar: Parse<seq<T>>)
    ensures Prepend(front, Prepend(middle, grammar)) == Prepend(front + middle, grammar)
  {
    if grammar.Ok? {
      assert front + (middle + grammar.value.0) == (front + middle) + grammar.value.0;
    }
  }

  // ---- points ---------------------------------------------------------------------------------------------------

  /** Undoes the nibble permutation pair by pair into a fresh buffer. */
  method ReadDescriptor(encoded: Descriptor) returns (d: Descriptor)
    ensures d == RecoverDescriptor(encoded)
  {
    hide JoinNibbles;
    var out := new Byte[16](_ => 0);
    for k := 0 to 8
      invariant forall j :: 0 <= j < 16 && j % 8 < k ==> out[j] == RecoveredDescriptorByte(encoded, j)
    {
      var first, second := encoded[2 * k], encoded[2 * k + 1];
      var p, q := if SWAP[k] then second else first, if SWAP[k] then first else second;
      out[k] := JoinNibbles(q, p);
      out[8 + k] := JoinNibbles(p, q);
    }
    d := out[..];
  }

  method ReadPoint(raw: seq<Byte>) returns (p: PersistedPoint)
    requires |raw| == POINT_BYTES
    ensures p == DecodePoint(raw)
  {
    hide RecoverDescriptor, FromLE32;
    var descriptor := ReadDescriptor(raw[4..20]);
    p := PersistedPoint(FromLE32(raw[..4]), descriptor, FromLE32(raw[20..24]), FromLE32(raw[24..28]), FromLE32(raw[28..32]));
  }

  method ReadPoints(blob: seq<Byte>, count: nat) returns (points: seq<PersistedPoint>)
    requires |blob| == count * POINT_BYTES
    ensures points == DecodePoints(blob)
  {
    hide DecodePoint;
    points := [];
    assert blob[0..] == blob;
    for i := 0 to count
      invariant DecodePoints(blob) == points + DecodePoints(blob[i * POINT_BYTES..])
    {
      var rest := blob[i * POINT_BYTES..];
      var point := ReadPoint(rest[..POINT_BYTES]);
      assert rest[POINT_BYTES..] == blob[(i + 1) * POINT_BYTES..];
      assert points + ([point] + DecodePoints(rest[POINT_BYTES..])) == (points + [point]) + DecodePoints(rest[POINT_BYTES..]);
      points := points + [point];
    }
    assert blob[count * POINT_BYTES..] == [];
    assert points + [] == points;
  }

  // ---- samples --------------------------------------------------------------------------------------------------

  method ReadScalars(reader: Reader, index: nat, pointCount: nat) returns (r: Result<SampleScalars, DecodeError>)
    requires reader.Valid() && index < SAMPLE_CAPACITY
    modifies reader
    ensures reader.Valid()
    ensures Follows(r, reader.Rest(), ParseSampleScalars(old(reader.Rest()), index, pointCount))
  {
    hide ParseSigned, ParseFlag, ParseEmbeddedState, RelationTableCursor, PutScalar, PutOptionalScalar, Flag, Bits;
    var canonical :- reader.FlagScalar(0xb5);
    var checkpoint :- reader.SignedScalar(0xb6);
    var cursor := RelationTableCursor(index);
    :- Need(checkpoint == cursor, RelationCheckpointMismatch(index, cursor, checkpoint));
    var scalar108 :- reader.SignedScalar(0xb7);
    :- Need(0 <= scalar108 <= pointCount, InvalidValue(scalar108));
    var param3 :- reader.SignedScalar(0xb8);
    var param4 :- reader.SignedScalar(0xb9);
    var status :- reader.SignedScalar(0xba);
    var scalar118 :- reader.SignedScalar(0xbb);
    var sampleIndex :- reader.SignedScalar(0xbc);
    :- Need(sampleIndex == index, SampleIndexMismatch(index, sampleIndex));
    var scalar120 :- reader.SignedScalar(0xbd);
    var scalar124 :- reader.SignedScalar(0xbe);
    var scalar13c :- reader.SignedScalar(0xc0);
    var embedded :- ReadEmbeddedState(reader);
    r := Ok(SampleScalars(canonical, checkpoint, scalar108, param3, param4, status, scalar118, sampleIndex, scalar120,
      scalar124, scalar13c, embedded));
  }

  method ReadEmbeddedState(reader: Reader) returns (r: Result<Option<I32>, DecodeError>)
    requires reader.Valid()
    modifies reader
    ensures reader.Valid() && Follows(r, reader.Rest(), ParseEmbeddedState(old(reader.Rest())))
  {
    hide ParseSigned;
    var remaining := reader.Remaining();
    if remaining == 0 {
      return Ok(None);
    }
    var value :- reader.SignedScalar(0xc7);
    :- Need(value != 0, InvalidValue(0));
    r := Ok(Some(value));
  }

  method ReadSamplePayload(payload: seq<Byte>, index: nat) returns (r: Result<PersistedSample, DecodeError>)
    requires index < SAMPLE_CAPACITY
    ensures r == ParseSamplePayload(payload, index)
  {
    hide ParseMap, ParseOptionalMap, ParseBlob, ParseScalar, ParseSampleScalars, ExpandValidity, DecodePoints,
      PutMap, PutOptionalMap, PutBlob, PutScalar;
    var sample := new Reader(payload);
    var primary :- sample.Map(0xb2);
    var secondary :- sample.OptionalMap(0xcf);
    var quarter :- sample.Blob(0xce);
    :- Need(|quarter| == QUARTER_BYTES, BlobLengthMismatch(0xce, QUARTER_BYTES, |quarter|));
    var lowThreshold :- sample.OptionalMap(0xcd);
    var pointCount :- sample.Scalar(0xb3);
    :- Need(pointCount <= POINT_CAPACITY, InvalidValue(pointCount));
    var blob :- sample.Blob(0xb4);
    :- Need(|blob| == pointCount * POINT_BYTES, PointBlobLengthMismatch(index, pointCount, |blob|));
    var points := ReadPoints(blob, pointCount);
    var scalars :- ReadScalars(sample, index, pointCount);
    :- sample.AtEnd();
    r := Ok(PersistedSample(primary, secondary, lowThreshold, quarter, ExpandValidity(quarter), points, scalars));
  }

  method ReadSample(reader: Reader, index: nat) returns (r: Result<PersistedSample, DecodeError>)
    requires reader.Valid() && index < SAMPLE_CAPACITY
    modifies reader
    ensures reader.Valid() && Follows(r, reader.Rest(), ParseSample(old(reader.Rest()), index))
  {
    hide ParseBlob, ParseSamplePayload;
    var payload :- reader.Blob(0x95);
    r := ReadSamplePayload(payload, index);
  }

  method ReadSamples(reader: Reader, count: nat) returns (r: Result<seq<PersistedSample>, DecodeError>)
    requires reader.Valid() && count <= SAMPLE_CAPACITY
    modifies reader
    ensures reader.Valid() && Follows(r, reader.Rest(), ParseSamples(old(reader.Rest()), 0, count))
  {
    hide ParseSample;
    var samples: seq<PersistedSample> := [];
    PrependNone(ParseSamples(reader.Rest(), 0, count));
    for index := 0 to count
      invariant reader.Valid()
      invariant ParseSamples(old(reader.Rest()), 0, count) == Prepend(samples, ParseSamples(reader.Rest(), index, count))
    {
      var sample :- ReadSample(reader, index);
      PrependTwice(samples, [sample], ParseSamples(reader.Rest(), index + 1, count));
      samples := samples + [sample];
    }
    assert samples + [] == samples;
    r := Ok(samples);
  }

  // ---- relations ------------------------------------------------------------------------------------------------

  method ReadRelationIndices(index: nat, sampleCount: nat) returns (pair: Option<(nat, nat)>)
    ensures pair == RelationIndices(index, sampleCount)
  {
    hide RowBase;
    var high: nat := 1;
    assert RowBase(high) <= index by { FirstRow(); }
    while high < sampleCount
      invariant RowBase(high) <= index && FindRow(index, high, sampleCount) == RelationIndices(index, sampleCount)
    {
      RowBaseStep(high);
      if index < RowBase(high + 1) {
        return Some((high, index - RowBase(high)));
      }
      high := high + 1;
    }
    pair := None;
  }

  lemma FirstRow()
    ensures RowBase(1) == 0
  {}

  method ReadRelation(reader: Reader, sampleCount: nat) returns (r: Result<PersistedRelation, DecodeError>)
    requires reader.Valid()
    modifies reader
    ensures reader.Valid() && Follows(r, reader.Rest(), ParseRelation(old(reader.Rest()), sampleCount))
  {
    hide ParseBlob, ParseScalar, ParseSigned, ParseScalars, RelationIndices, AffineOf;
    var payload :- reader.Blob(0x96);
    var relation := new Reader(payload);
    var index :- relation.Scalar(0xe3);
    var value :- relation.SignedScalar(0xe1);
    :- Need(value >= 0, NegativePersistedRelation(index, value));
    var affine :- relation.Scalars(AFFINE_TAGS);
    :- relation.AtEnd();
    var pair := ReadRelationIndices(index, sampleCount);
    :- Need(pair.Some?, RelationIndexOutOfRange(index, sampleCount));
    r := Ok(PersistedRelation(index, pair.value.0, pair.value.1, value, AffineOf(affine)));
  }

  /** The indices marked in the table of relations already read. */
  ghost function Marked(seen: seq<bool>): set<nat> {
    set k: nat | k < |seen| && seen[k]
  }

  method ReadRelations(reader: Reader, sampleCount: nat) returns (r: Result<seq<PersistedRelation>, DecodeError>)
    requires reader.Valid()
    modifies reader
    ensures reader.Valid() && Follows(r, reader.Rest(), ParseRelations(old(reader.Rest()), sampleCount, {}))
  {
    hide ParseRelation, RowBase;
    var seen := new bool[RowBase(sampleCount)](_ => false);
    var relations: seq<PersistedRelation> := [];
    assert Marked(seen[..]) == {};
    PrependNone(ParseRelations(reader.Rest(), sampleCount, {}));
    var remaining := reader.Remaining();
    while remaining != 0
      invariant reader.Valid() && fresh(seen) && seen.Length == RowBase(sampleCount) && remaining == |reader.Rest()|
      invariant ParseRelations(old(reader.Rest()), sampleCount, {})
             == Prepend(relations, ParseRelations(reader.Rest(), sampleCount, Marked(seen[..])))
      decreases remaining
    {
      var next := reader.Next();
      if next != Ok(0x96) {
        break;
      }
      ghost var before := reader.Rest();
      var relation :- ReadRelation(reader, sampleCount);
      IndexInTable(before, sampleCount, relation, reader.Rest());
      if seen[relation.index] {
        return Err(DuplicateRelationIndex(relation.index));
      }
      ghost var marked := Marked(seen[..]);
      seen[relation.index] := true;
      assert Marked(seen[..]) == marked + {relation.index};
      PrependTwice(relations, [relation], ParseRelations(reader.Rest(), sampleCount, marked + {relation.index}));
      relations := relations + [relation];
      remaining := reader.Remaining();
    }
    assert relations + [] == relations;
    r := Ok(relations);
  }

  /** An accepted relation indexes inside the table of seen relations, and reading it consumes bytes. */
  lemma IndexInTable(b: seq<Byte>, sampleCount: nat, r: PersistedRelation, rest: seq<Byte>)
    requires ParseRelation(b, sampleCount) == Ok((r, rest))
    ensures r.index < RowBase(sampleCount) && |rest| < |b|
  {
    hide ParseRelation, RowBase;
    ParseRelationSound(b, sampleCount, r, rest);
    ParseRelationShrinks(b, sampleCount, r, rest);
    PairIndexBound(r.high, r.low, sampleCount);
  }

  // ---- trailing sections ----------------------------------------------------------------------------------------

  method ReadSection93(reader: Reader, sampleCount: nat) returns (r: Result<GraphSummary, DecodeError>)
    requires reader.Valid()
    modifies reader
    ensures reader.Valid() && Follows(r, reader.Rest(), ParseSection93(old(reader.Rest()), sampleCount))
  {
    hide ParseBlob, ParseFixed, ParseSigned, ParseFlag, PutBlob, PutScalar, Bits, Flag;
    var payload :- reader.Blob(0x93);
    var section := new Reader(payload);
    var anchor :- section.SignedScalar(0xf2);
    :- section.Fixed(0xf3, ALL_ONES);
    :- section.Fixed(0xf4, ALL_ONES);
    var established :- section.FlagScalar(0xf5);
    :- section.AtEnd();
    if established {
      :- Need(0 <= anchor < sampleCount, InvalidGraphAnchor(anchor, sampleCount));
      return Ok(GraphSummary(Some(anchor), true));
    } else {
      :- Need(anchor == -1, InvalidGraphAnchor(anchor, sampleCount));
      return Ok(GraphSummary(None, false));
    }
  }

  ghost function PrependSlots(front: seq<I32>, grammar: Result<seq<I32>, DecodeError>): Result<seq<I32>, DecodeError> {
    if grammar.Ok? then Ok(front + grammar.value) else grammar
  }

  method ReadSlots(blob: seq<Byte>, sampleCount: nat) returns (r: Result<seq<I32>, DecodeError>)
    requires |blob| == 4 * SAMPLE_CAPACITY
    ensures r == CheckSlots(blob, 0, sampleCount)
  {
    hide FromLE32;
    var slots: seq<I32> := [];
    assert blob[0..] == blob;
    SlotsTwice([], [], CheckSlots(blob, 0, sampleCount));
    for slot := 0 to SAMPLE_CAPACITY
      invariant CheckSlots(blob, 0, sampleCount) == PrependSlots(slots, CheckSlots(blob[4 * slot..], slot, sampleCount))
    {
      var rest := blob[4 * slot..];
      var actual := Signed(FromLE32(rest[..4]));
      var expected := ActiveSlot(slot, sampleCount);
      :- Need(actual == expected, ActiveSlotMismatch(slot, expected, actual));
      assert rest[4..] == blob[4 * (slot + 1)..];
      SlotsTwice(slots, [actual], CheckSlots(rest[4..], slot + 1, sampleCount));
      slots := slots + [actual];
    }
    assert slots + [] == slots;
    r := Ok(slots);
  }

  lemma SlotsTwice(front: seq<I32>, middle: seq<I32>, grammar: Result<seq<I32>, DecodeError>)
    ensures PrependSlots(front, PrependSlots(middle, grammar)) == PrependSlots(front + middle, grammar)
    ensures PrependSlots([], grammar) == grammar
  {
    if grammar.Ok? {
      assert front + (middle + grammar.value) == (front + middle) + grammar.value;
      assert [] + grammar.value == grammar.value;
    }
  }

  method ReadSection94(reader: Reader, sampleCount: nat) returns (r: Result<seq<I32>, DecodeError>)
    requires reader.Valid()
    modifies reader
    ensures reader.Valid() && Follows(r, reader.Rest(), ParseSection94(old(reader.Rest()), sampleCount))
  {
    hide ParseBlob, ParseFixed, CheckSlots, RequireZeros, PutBlob, PutScalar;
    var payload :- reader.Blob(0x94);
    var section := new Reader(payload);
    var active :- section.Blob(0xa1);
    :- Need(|active| == 4 * SAMPLE_CAPACITY, BlobLengthMismatch(0xa1, 4 * SAMPLE_CAPACITY, |active|));
    var slots :- ReadSlots(active, sampleCount);
    :- section.Fixed(0xa2, ALL_ONES);
    var version :- section.Blob(0xa3);
    :- Need(|version| == 64, BlobLengthMismatch(0xa3, 64, |version|));
    :- Need(version == VERSION_BUFFER, VersionBufferMismatch);
    var zeros :- section.Blob(0xa4);
    :- Need(|zeros| == 1024, BlobLengthMismatch(0xa4, 1024, |zeros|));
    :- RequireZeros(0xa4, zeros);
    :- section.Fixed(0xa5, 0);
    :- section.Fixed(0xa6, 0);
    :- section.Fixed(0xa7, 0);
    :- section.Fixed(0xa8, 0);
    :- section.AtEnd();
    r := Ok(slots);
  }

  // ---- the whole template ---------------------------------------------------------------------------------------

  method ReadHeader(reader: Reader) returns (r: Result<Header, DecodeError>)
    requires reader.Valid()
    modifies reader
    ensures reader.Valid() && Follows(r, reader.Rest(), ParseHeader(old(reader.Rest())))
  {
    hide ParseScalars, RelationTableCursor;
    var top :- reader.Scalars(TOP_TAGS);
    :- RequireScalar(0x81, top[0], TEMPLATE_00);
    :- RequireScalar(0x88, top[1], TEMPLATE_00);
    :- RequireScalar(0x89, top[2], TEMPLATE_04);
    :- RequireScalar(0x98, top[3], 0x18);
    :- RequireScalar(0x9a, top[4], 64);
    :- RequireScalar(0x9b, top[5], 80);
    :- RequireScalar(0x9e, top[9], POINT_CAPACITY);
    :- RequireScalar(0x9f, top[10], POINT_CAPACITY);
    :- RequireScalar(0x9c, top[11], 1);
    :- RequireScalar(0x9d, top[12], 1);
    :- RequireScalar(0xfa, top[13], 0);
    :- RequireScalar(0xfb, top[14], 0);
    var h := Header(top[6], top[7], top[8], top[9], top[10]);
    :- Need(h.configuredMax <= SAMPLE_CAPACITY, InvalidValue(h.configuredMax));
    :- Need(h.sampleCount <= h.configuredMax, InvalidValue(h.sampleCount));
    var cursor := RelationTableCursor(h.sampleCount);
    :- Need(h.relationCursor == cursor, RelationCursorMismatch(h.sampleCount, cursor, h.relationCursor));
    r := Ok(h);
  }

  method ReadPayload(payload: seq<Byte>, crc: U32) returns (r: Result<(PersistedTemplate, int), DecodeError>)
    ensures r == ParsePayload(payload, crc)
  {
    hide ParseHeader, ParseSamples, ParseRelations, ParseSection93, ParseSection94;
    var reader := new Reader(payload);
    var header :- ReadHeader(reader);
    assert header.sampleCount <= SAMPLE_CAPACITY by { ParseHeaderSound(payload, header, reader.Rest()); }
    var start := reader.pos;
    var samples :- ReadSamples(reader, header.sampleCount);
    var sampleBytes := reader.pos - start;
    var relations :- ReadRelations(reader, header.sampleCount);
    var graph :- ReadSection93(reader, header.sampleCount);
    var slots :- ReadSection94(reader, header.sampleCount);
    :- reader.AtEnd();
    r := Ok((PersistedTemplate(crc, header, samples, relations, graph, slots), sampleBytes));
  }

  /** The strict decoder of raw templates. */
  method DecodeRawTemplate(raw: seq<Byte>) returns (r: Result<PersistedTemplate, DecodeError>)
    ensures r == ParseRaw(raw)
  {
    hide FromLE32, ParsePayload, Crc.Checksum;
    :- Need(|raw| >= 10, RawTooShort(|raw|));
    :- Need(raw[0] == 0x87, UnexpectedTag(0x87, raw[0]));
    :- Need(raw[5] == 0x86, UnexpectedTag(0x86, raw[5]));
    var stored, length, payload := FromLE32(raw[1..5]), FromLE32(raw[6..10]), raw[10..];
    :- Need(length == |payload|, RawPayloadLengthMismatch(length, |payload|));
    var computed := Crc.RawTemplateCrc32(payload);
    :- Need(stored == computed, RawCrcMismatch(stored, computed));
    var decoded :- ReadPayload(payload, stored);
    var (template, sampleBytes) := decoded;
    var expected := FIXED_PACKED_SIZE + sampleBytes + RELATION_BYTES * |template.relations|;
    :- Need(|raw| == expected, PackedSizeMismatch(expected, |raw|));
    r := Ok(template);
  }
}
