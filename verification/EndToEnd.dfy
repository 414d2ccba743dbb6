/**
 From a sequence of adds to the bytes of a stored node and back: what is decoded is what was enrolled.
 */
module EndToEnd {
  import opened Wrappers
  import opened Bytes
  import opened Relations
  import opened GraphModel
  import opened GraphProofs
  import opened EnrollmentModel
  import opened EnrollmentProofs
  import opened ForestModel
  import opened ForestSelection
  import opened PointCodec
  import opened TemplateFormat
  import opened TemplateGrammar
  import opened TemplateRoundTrip
  import opened TemplateProjection
  import Crc
  import TemplateDecoder
  import TemplateEncoder
  import Tgla

  datatype NodeError = Storage(storage: Tgla.StorageError) | Template(template: DecodeError)

  /** Validates the node and decodes the raw template inside. */
  function DecodeNode(node: seq<Byte>): Result<PersistedTemplate, NodeError> {
    var parsed := Tgla.Parse(node);
    if parsed.Err? then Err(Storage(parsed.error))
    else
      var raw := ParseRaw(parsed.value.RawTemplate());
      if raw.Err? then Err(Template(raw.error)) else Ok(raw.value)
  }

  datatype StoreError = Encoding(encoding: EncodeError) | Wrapping(wrapping: Tgla.StorageError)

  /** Encodes a template and wraps it in a node. */
  function StoreNode(c: Core): Result<seq<Byte>, StoreError>
    requires |c.persistent| == |c.pointSets| && c.graph.table.Valid()
  {
    var raw := EncodeRaw(c);
    if raw.Err? then Err(Encoding(raw.error))
    else
      var node := Tgla.Wrap(raw.value);
      if node.Err? then Err(Wrapping(node.error)) else Ok(node.value)
  }

  // ---- one template ---------------------------------------------------------------------------------------------

  lemma EncodingFits(c: Core)
    requires Consistent(c) && Complete(c) && FewPoints(States(c)) && |c.pointSets| <= SAMPLE_CAPACITY
    requires c.graph.table.Valid()
    ensures |PutPayload(Project(c), [])| < 400_000
  {
    hide PutPayload, Select, SamplesSize, Component, RetainedAt, ProjectSample, Build, Roots, RelationTableCursor;
    OneRecordPerChild(c.graph.table, |c.pointSets|);
    forall i | 0 <= i < |States(c)| ensures |ProjectSamples(States(c))[i].points| <= POINT_CAPACITY {
      ProjectedPoints(States(c)[i]);
    }
    SamplesSizeBound(ProjectSamples(States(c)));
    PutPayloadLength(Project(c));
  }

  lemma ProjectedPoints(s: PersistentSample)
    ensures |ProjectSample(s).points| == |s.points|
  {}

  lemma PrintedLength(t: PersistedTemplate)
    ensures |Print(t)| == 10 + |PutPayload(t, [])|
  {
    hide PutPayload, PutScalar, PutBlob;
    PutSizes();
  }

  /**
   A consistent, complete template of at most fifty samples that fit the format is always stored; its node decodes to its
   projection exactly when the configured bound is at most fifty too and every stored polarity split lies within the
   points of its sample.
   */
  lemma StoredDecodes(c: Core)
    requires Consistent(c) && Complete(c) && FewPoints(States(c)) && |c.pointSets| <= SAMPLE_CAPACITY
    requires c.graph.table.Valid()
    ensures StoreNode(c).Ok?
    ensures DecodeNode(StoreNode(c).value) == Ok(Project(c)) <==> c.configuredMax <= SAMPLE_CAPACITY && SplitsInRange(States(c))
  {
    hide Print, PutPayload, Project, ParseRaw, Component, RetainedAt, FewPoints, SplitsInRange, WellFormed, Tgla.Node,
      Tgla.Parse, Consistent;
    EncodesWhenSmall(c);
    var raw := EncodeRaw(c).value;
    PrintedLength(Project(c));
    Tgla.ParsesIffWrapped(Tgla.Wrap(raw).value, raw);
    AcceptedIffPrinted(raw, Project(c));
    ProjectionWellFormed(c);
  }

  lemma EncodesWhenSmall(c: Core)
    requires Consistent(c) && Complete(c) && FewPoints(States(c)) && |c.pointSets| <= SAMPLE_CAPACITY
    requires c.graph.table.Valid()
    ensures EncodeRaw(c) == Ok(Print(Project(c))) && |PutPayload(Project(c), [])| < 400_000
  {
    hide Print, PutPayload, Project, Component, RetainedAt, FirstIncomplete, FirstCrowded;
    EncodingFits(c);
  }

  // ---- configured bounds the decoder rejects --------------------------------------------------------------------

  lemma {:induction false} WordAtPosition(tags: seq<Byte>, words: seq<U32>, tail: seq<Byte>, i: nat)
    requires |tags| == |words| && i < |words|
    ensures |PutScalars(tags, words, tail)| >= 5 * i + 5
    ensures PutScalars(tags, words, tail)[5 * i + 1..5 * i + 5] == LE32(words[i])
    decreases |words|
  {
    hide LE32;
    var rest := PutScalars(tags[1..], words[1..], tail);
    assert PutScalars(tags, words, tail) == [tags[0]] + LE32(words[0]) + rest;
    if i > 0 {
      WordAtPosition(tags[1..], words[1..], tail, i - 1);
      assert PutScalars(tags, words, tail)[5 * i + 1..5 * i + 5] == rest[5 * (i - 1) + 1..5 * (i - 1) + 5];
    }
  }

  lemma PayloadOfPrint(t: PersistedTemplate)
    ensures |Print(t)| >= 10 && Print(t)[10..] == PutPayload(t, [])
  {
    hide PutPayload, LE32;
    assert PutPayload(t, []) + [] == PutPayload(t, []);
  }

  /** Equal bytes have equal sample counts and bounds, as far as their 32-bit fields go. */
  lemma PrintFixesHeader(t: PersistedTemplate, u: PersistedTemplate)
    requires Print(t) == Print(u)
    ensures Field(t.header.sampleCount) == Field(u.header.sampleCount)
    ensures Field(t.header.configuredMax) == Field(u.header.configuredMax)
  {
    hide Print, PutScalars, PutSamples, PutRelations, PutSection93, PutSection94, LE32, FromLE32, Field;
    PayloadOfPrint(t);
    PayloadOfPrint(u);
    var a, b := TopWords(t.header), TopWords(u.header);
    var restA := PutSamples(t.samples, PutRelations(t.relations, PutSection93(t.graph, PutSection94(t.activeSlots, []))));
    var restB := PutSamples(u.samples, PutRelations(u.relations, PutSection93(u.graph, PutSection94(u.activeSlots, []))));
    WordAtPosition(TOP_TAGS, a, restA, 6);
    WordAtPosition(TOP_TAGS, b, restB, 6);
    WordAtPosition(TOP_TAGS, a, restA, 7);
    WordAtPosition(TOP_TAGS, b, restB, 7);
    LE32RoundTrip(a[6]);
    LE32RoundTrip(b[6]);
    LE32RoundTrip(a[7]);
    LE32RoundTrip(b[7]);
  }

  /** The template with the bound its 32-bit field keeps. */
  function Narrowed(c: Core): Core {
    c.(configuredMax := c.configuredMax % U32_LIMIT)
  }

  /** The encoder truncates the bound: the template with the narrowed bound has the same bytes. */
  lemma NarrowedPrints(c: Core)
    requires Complete(c) && c.graph.table.Valid()
    ensures Complete(Narrowed(c)) && Print(Project(Narrowed(c))) == Print(Project(c))
  {
    hide PutScalars, PutSamples, PutRelations, PutSection93, PutSection94, Select, ActiveSlots, ProjectSamples, Print,
      RelationTableCursor;
    assert States(Narrowed(c)) == States(c);
    SamePayload(Unsealed(c), Unsealed(Narrowed(c)));
    SealKeepsPayload(c);
    SealKeepsPayload(Narrowed(c));
    PrintByPayload(Project(c), Project(Narrowed(c)));
  }

  lemma SamePayload(t: PersistedTemplate, u: PersistedTemplate)
    requires TopWords(t.header) == TopWords(u.header)
    requires t.samples == u.samples && t.relations == u.relations && t.graph == u.graph && t.activeSlots == u.activeSlots
    ensures PutPayload(t, []) == PutPayload(u, [])
  {
    hide PutScalars, PutSamples, PutRelations, PutSection93, PutSection94, TopWords;
  }

  lemma PrintByPayload(t: PersistedTemplate, u: PersistedTemplate)
    requires t.rawCrc == u.rawCrc && PutPayload(t, []) == PutPayload(u, [])
    ensures Print(t) == Print(u)
  {
    hide PutPayload, PutScalar, PutBlob;
  }

  /**
   The encoder stores any configured bound without complaint and keeps its low 32 bits.  The decoder rejects the result
   when these are below the number of samples or above fifty, and otherwise reads the template with that bound.
   */
  lemma LargeBoundUndecodable(c: Core)
    requires Consistent(c) && Complete(c) && FewPoints(States(c)) && |c.pointSets| <= SAMPLE_CAPACITY
    requires c.graph.table.Valid()
    ensures EncodeRaw(c).Ok?
    ensures var decoded, kept := ParseRaw(EncodeRaw(c).value), c.configuredMax % U32_LIMIT;
      && (!(|c.pointSets| <= kept <= SAMPLE_CAPACITY) ==> decoded.Err?)
      && (|c.pointSets| <= kept <= SAMPLE_CAPACITY ==>
            Complete(Narrowed(c)) && (decoded == Ok(Project(Narrowed(c))) <==> SplitsInRange(States(c))))
  {
    hide Print, PutPayload, Project, ParseRaw, Component, RetainedAt, FewPoints, SplitsInRange, Consistent, RelationTableCursor;
    EncodesWhenSmall(c);
    NarrowedPrints(c);
    var raw, kept := EncodeRaw(c).value, c.configuredMax % U32_LIMIT;
    if |c.pointSets| <= kept <= SAMPLE_CAPACITY {
      var n := Narrowed(c);
      NarrowedConsistent(c);
      assert States(n) == States(c);
      AcceptedIffPrinted(raw, Project(n));
      hide WellFormed;
      ProjectionWellFormed(n);
    } else if ParseRaw(raw).Ok? {
      var t := ParseRaw(raw).value;
      AcceptedIffPrinted(raw, t);
      PrintFixesHeader(t, Project(c));
      ProjectedHeader(c);
      AcceptedHeader(t);
      assert false;
    }
  }

  lemma NarrowedConsistent(c: Core)
    requires Consistent(c) && |c.pointSets| <= c.configuredMax % U32_LIMIT
    ensures Consistent(Narrowed(c))
  {
    hide Component;
    forall i | 0 <= i < |c.persistent|
      ensures RetainedAt(Narrowed(c), i)
    {
      assert RetainedAt(c, i);
    }
    assert c.configuredMax % U32_LIMIT <= c.configuredMax;
  }

  lemma ProjectedHeader(c: Core)
    requires Complete(c) && c.graph.table.Valid()
    ensures Project(c).header.sampleCount == |c.pointSets| && Project(c).header.configuredMax == c.configuredMax
  {
    hide PutPayload, Select, ActiveSlots;
  }

  lemma AcceptedHeader(t: PersistedTemplate)
    requires WellFormed(t)
    ensures t.header.sampleCount <= t.header.configuredMax <= SAMPLE_CAPACITY
    ensures Field(t.header.sampleCount) == t.header.sampleCount && Field(t.header.configuredMax) == t.header.configuredMax
  {
    hide PutPayload, WellFormedSamples, WellFormedRelations, ActiveSlots, WellFormedGraph;
  }

  /** An empty template with room for 51 samples is encoded and not decoded; with 2^32 + 40 it comes back with 40. */
  lemma BoundsThatFail()
    ensures Consistent(Empty(51, 51)) && Complete(Empty(51, 51)) && Empty(51, 51).graph.table.Valid()
    ensures EncodeRaw(Empty(51, 51)).Ok? && ParseRaw(EncodeRaw(Empty(51, 51)).value).Err?
    ensures var c, d := Empty(U32_LIMIT + 40, U32_LIMIT + 40), Empty(U32_LIMIT + 40, 40);
      Complete(c) && Complete(d) && EncodeRaw(c).Ok? && ParseRaw(EncodeRaw(c).value) == Ok(Project(d))
  {
    hide ParseRaw, EncodeRaw, Print, PutPayload, Project, Component, EmptyTable;
    EmptyConsistent(51, 51);
    LargeBoundUndecodable(Empty(51, 51));
    var c := Empty(U32_LIMIT + 40, U32_LIMIT + 40);
    EmptyConsistent(U32_LIMIT + 40, U32_LIMIT + 40);
    LargeBoundUndecodable(c);
    assert Narrowed(c) == Empty(U32_LIMIT + 40, 40);
  }

  // ---- whole runs -----------------------------------------------------------------------------------------------

  /** An input of the persistence-capable add, of a size the format can hold. */
  predicate Storable(input: AddInput) {
    Fresh(input) && input.persistent.Some? && |input.persistent.value.points| <= POINT_CAPACITY
  }

  predicate SplitInRange(input: AddInput) {
    input.persistent.Some? && 0 <= input.persistent.value.scalar108 <= |input.persistent.value.points|
  }

  /** Every successful add pushes its input and then only touches the graph and the copied flags. */
  lemma AddPushes(m: Matching, c: Core, input: AddInput)
    requires Consistent(c) && Fresh(input) && c.graph.table.Valid() && |c.pointSets| < c.configuredMax
    ensures Add(m, c, input).0 == Synced(Pushed(c, input).(graph := Add(m, c, input).0.graph))
  {
    AddKeepsConsistent(m, c, input);
    hide Integrate, RegisterFrom, Consistent, Evolves, Synced, Pushed;
    SyncKeepsGraph(Pushed(c, input).(graph := Add(m, c, input).0.graph));
  }

  lemma SyncKeepsGraph(c: Core)
    ensures Synced(c).graph == c.graph
  {}

  /** What an accepted input becomes in the retained state, up to the membership flag. */
  ghost predicate Retains(entry: Option<PersistentSample>, input: AddInput, index: nat) {
    SameContent(if input.persistent.Some? then Some(Retained(input.persistent.value, index)) else None, entry)
  }

  lemma AddRetains(m: Matching, c: Core, input: AddInput)
    requires Consistent(c) && Fresh(input) && c.graph.table.Valid() && |c.pointSets| < c.configuredMax
    ensures var d := Add(m, c, input).0;
      |d.persistent| == |c.persistent| + 1 && Retains(d.persistent[|c.persistent|], input, |c.pointSets|)
  {
    AddPushes(m, c, input);
    hide Add, Component, RetainedAt, EnrollmentModel.Truncated, RelationTableCursor;
  }

  /** How many of the inputs a template still has room for. */
  function Accepted(c: Core, inputs: seq<AddInput>): nat
    requires |c.pointSets| <= c.configuredMax
  {
    if |c.pointSets| + |inputs| <= c.configuredMax then |inputs| else c.configuredMax - |c.pointSets|
  }

  /** The `count` entries from position `base` on are what the first `count` inputs become there. */
  ghost predicate RetainsFrom(d: Core, base: nat, inputs: seq<AddInput>, count: nat) {
    && count <= |inputs| && |d.persistent| == base + count
    && forall j: nat :: j < count ==> Retains(d.persistent[base + j], inputs[j], base + j)
  }

  lemma RetainsStep(d: Core, base: nat, inputs: seq<AddInput>, count: nat)
    requires inputs != [] && base < |d.persistent| && Retains(d.persistent[base], inputs[0], base)
    requires RetainsFrom(d, base + 1, inputs[1..], count)
    ensures RetainsFrom(d, base, inputs, count + 1)
  {
    hide Retains;
    forall j: nat | j <= count ensures Retains(d.persistent[base + j], inputs[j], base + j) {
      if j > 0 {
        assert inputs[1..][j - 1] == inputs[j] && d.persistent[base + 1 + (j - 1)] == d.persistent[base + j];
      }
    }
  }

  /** The run keeps the content of the first inputs, as many as fit, in order, behind what was there. */
  lemma {:induction false} RunRetains(m: Matching, c: Core, inputs: seq<AddInput>)
    requires Consistent(c) && c.graph.table.Valid() && forall input <- inputs :: Fresh(input)
    requires |c.persistent| == |c.pointSets| <= c.configuredMax
    ensures RetainsFrom(Run(m, c, inputs), |c.persistent|, inputs, Accepted(c, inputs))
    decreases |inputs|
  {
    hide Add, Consistent, Evolves, Retains, Fresh, RetainsFrom;
    if inputs == [] {
      RetainsNone(c, inputs);
    } else {
      assert inputs[0] in inputs;
      AddKeepsConsistent(m, c, inputs[0]);
      var d, rest := Add(m, c, inputs[0]).0, inputs[1..];
      Sizes(d);
      RunKeepsConsistent(m, d, rest);
      SameBound(c, d);
      RunRetains(m, d, rest);
      var e := Run(m, d, rest);
      if |c.pointSets| < c.configuredMax {
        AddRetains(m, c, inputs[0]);
        LaterRetains(d, e, inputs[0], |c.persistent|);
        RetainsStep(e, |c.persistent|, inputs, Accepted(d, rest));
      } else {
        FullRetains(e, |c.persistent|, inputs);
      }
    }
  }

  /** Adds behind the last one that fits change nothing at all. */
  lemma {:induction false} LaterAddsChangeNothing(m: Matching, c: Core, inputs: seq<AddInput>)
    requires Consistent(c) && c.graph.table.Valid() && forall input <- inputs :: Fresh(input)
    requires |c.pointSets| <= c.configuredMax
    ensures Run(m, c, inputs) == Run(m, c, inputs[..Accepted(c, inputs)])
    decreases |inputs|
  {
    hide Add, Consistent, Evolves, Fresh;
    if inputs != [] {
      assert inputs[0] in inputs;
      AddKeepsConsistent(m, c, inputs[0]);
      var d, rest, kept := Add(m, c, inputs[0]).0, inputs[1..], inputs[..Accepted(c, inputs)];
      Sizes(d);
      SameBound(c, d);
      LaterAddsChangeNothing(m, d, rest);
      if |c.pointSets| < c.configuredMax {
        assert kept[1..] == rest[..Accepted(d, rest)];
      } else {
        assert kept == [] && rest[..Accepted(d, rest)] == [];
      }
    }
  }

  lemma SameBound(c: Core, d: Core)
    requires Evolves(c, d)
    ensures d.configuredMax == c.configuredMax
  {}

  lemma RetainsNone(c: Core, inputs: seq<AddInput>)
    ensures RetainsFrom(c, |c.persistent|, inputs, 0)
  {}

  lemma FullRetains(e: Core, base: nat, inputs: seq<AddInput>)
    requires inputs != [] && RetainsFrom(e, base, inputs[1..], 0)
    ensures RetainsFrom(e, base, inputs, 0)
  {}

  lemma Sizes(c: Core)
    requires Consistent(c)
    ensures |c.persistent| == |c.pointSets| <= c.configuredMax
  {}

  lemma LaterRetains(d: Core, e: Core, input: AddInput, index: nat)
    requires Evolves(d, e) && index < |d.persistent| && Retains(d.persistent[index], input, index)
    ensures index < |e.persistent| && Retains(e.persistent[index], input, index)
  {
    hide EnrollmentModel.Truncated, RelationTableCursor;
    assert SameContent(d.persistent[index], e.persistent[index]);
  }

  // ---- what comes back ------------------------------------------------------------------------------------------

  /** A decoded point: the packed geometry, the descriptor, and the three hashes the format has room for. */
  predicate PointComesBack(p: FeaturePoint, q: PersistedPoint) {
    && q.geometryWord == Pack(Geometry(p.x, p.y, p.orientation)) as int
    && q.descriptor == p.descriptor
    && q.hash20 == p.medianHash128 && q.hash28 == p.hadamardHash32 && q.hash2c == p.medianHash32
  }

  predicate PointsComeBack(points: seq<FeaturePoint>, decoded: seq<PersistedPoint>) {
    |decoded| == |points| && forall k: nat :: k < |points| ==> PointComesBack(points[k], decoded[k])
  }

  /** The scalars of a decoded sample: those of the source, its position, its checkpoint, and four that are always zero. */
  predicate ScalarsComeBack(source: PersistentSample, index: nat, member: bool, decoded: SampleScalars) {
    && decoded.canonicalMember == member
    && decoded.sampleIndex == index
    && decoded.relationCheckpoint == (if index == 0 then 0 else 1 + index * (index - 1) / 2)
    && decoded.scalar108 == source.scalar108
    && decoded.param3 == source.param3
    && decoded.param4 == source.param4
    && decoded.scalar13c == source.scalar13c
    && (source.embedded140 == 0 ==> decoded.embedded140.None?)
    && (source.embedded140 != 0 ==> decoded.embedded140 == Some(source.embedded140))
    && decoded.status114 == 0 && decoded.scalar118 == 0 && decoded.scalar120 == 0 && decoded.scalar124 == 0
  }

  /** A decoded sample: every map, mask, point and scalar of the state it was added with. */
  predicate SampleComesBack(source: PersistentSample, index: nat, member: bool, decoded: PersistedSample) {
    && decoded.primaryMap == source.primaryMap
    && decoded.secondaryMap == source.secondaryMap
    && decoded.lowThresholdMap == Some(source.lowThresholdMap)
    && decoded.quarterValidity == source.quarterValidity
    && decoded.activeValidity == ExpandValidity(source.quarterValidity)
    && PointsComeBack(source.points, decoded.points)
    && ScalarsComeBack(source, index, member, decoded.scalars)
  }

  /** A decoded relation: the selected pair, its position in the table, and its record. */
  predicate RelationComesBack(selected: Selected, decoded: PersistedRelation) {
    && decoded.high == selected.high && decoded.low == selected.low && decoded.index == selected.index
    && decoded.value == selected.record.value && decoded.higherToLower == selected.record.higherToLower
  }

  predicate SlotsComeBack(count: nat, slots: seq<I32>) {
    |slots| == 50 && forall i: nat :: i < 50 ==> slots[i] == if i < count then i else -1
  }

  predicate HeaderComesBack(c: Core, h: Header) {
    var n := |c.pointSets|;
    && h.sampleCount == n && h.configuredMax == c.configuredMax
    && h.relationCursor == (if n == 0 then 0 else 1 + n * (n - 1) / 2)
    && h.maxPointCount == 120 && h.pointCapacity == 120
  }

  /** The decoded template holds what was enrolled, field by field. */
  ghost predicate Faithful(c: Core, inputs: seq<AddInput>, t: PersistedTemplate)
    requires c.graph.table.Valid()
  {
    var selected := Select(c.graph.table, |c.pointSets|);
    && |t.samples| == |c.pointSets| <= |inputs|
    && |c.pointSets| <= 50
    && (forall i: nat :: i < |t.samples| ==>
          inputs[i].persistent.Some? && SampleComesBack(inputs[i].persistent.value, i, c.graph.Member(i), t.samples[i]))
    && |t.relations| == |selected|
    && (forall k: nat :: k < |selected| ==> RelationComesBack(selected[k], t.relations[k]))
    && t.graph.established == c.graph.established
    && t.graph.anchor == (if c.graph.established then Some(c.graph.anchor) else None)
    && HeaderComesBack(c, t.header)
    && SlotsComeBack(|c.pointSets|, t.activeSlots)
    && t.rawCrc == Crc.Checksum(Crc.IsoHdlc, PutPayload(t, []))
  }

  lemma PointsComeBackOnce(points: seq<FeaturePoint>, a: seq<PersistedPoint>, b: seq<PersistedPoint>)
    requires PointsComeBack(points, a) && PointsComeBack(points, b)
    ensures a == b
  {
    hide Pack;
    forall k: nat | k < |points|
      ensures a[k] == b[k]
    {
      assert PointComesBack(points[k], a[k]) && PointComesBack(points[k], b[k]);
    }
  }

  lemma SampleComesBackOnce(source: PersistentSample, index: nat, member: bool, a: PersistedSample, b: PersistedSample)
    requires SampleComesBack(source, index, member, a) && SampleComesBack(source, index, member, b)
    ensures a == b
  {
    hide PointsComeBack, ExpandValidity;
    PointsComeBackOnce(source.points, a.points, b.points);
    assert a.scalars == b.scalars;
  }

  lemma ProjectedPointsComeBack(points: seq<FeaturePoint>)
    ensures PointsComeBack(points, ProjectPoints(points))
  {
    hide Pack;
    forall k: nat | k < |points|
      ensures PointComesBack(points[k], ProjectPoints(points)[k])
    {
      assert ProjectPoints(points)[k] == ProjectPoint(points[k]);
    }
  }

  /** The projection of a retained state is what must come back. */
  lemma ProjectionComesBack(source: PersistentSample, index: nat, member: bool)
    requires index < 50
    ensures SampleComesBack(source, index, member, ProjectSample(Retained(source, index).(canonicalMember := member)))
  {
    hide PointsComeBack, ExpandValidity, EnrollmentModel.Truncated, ProjectPoints;
    ProjectedPointsComeBack(source.points);
    SmallIndices(index);
  }

  lemma PayloadIgnoresSeal(t: PersistedTemplate, u: PersistedTemplate)
    requires t.(rawCrc := u.rawCrc) == u
    ensures PutPayload(t, []) == PutPayload(u, [])
  {
    hide PutScalars, PutSamples, PutRelations, PutSection93, PutSection94, TopWords;
  }

  /** Being faithful to a run determines the decoded value. */
  lemma FaithfulIsUnique(c: Core, inputs: seq<AddInput>, t: PersistedTemplate, u: PersistedTemplate)
    requires c.graph.table.Valid() && Faithful(c, inputs, t) && Faithful(c, inputs, u)
    ensures t == u
  {
    hide PutPayload, SampleComesBack, Select;
    forall i: nat | i < |t.samples|
      ensures t.samples[i] == u.samples[i]
    {
      SampleComesBackOnce(inputs[i].persistent.value, i, c.graph.Member(i), t.samples[i], u.samples[i]);
    }
    assert t.samples == u.samples;
    forall k: nat | k < |t.relations|
      ensures t.relations[k] == u.relations[k]
    {
      assert RelationComesBack(Select(c.graph.table, |c.pointSets|)[k], t.relations[k]);
      assert RelationComesBack(Select(c.graph.table, |c.pointSets|)[k], u.relations[k]);
    }
    assert t.relations == u.relations && t.activeSlots == u.activeSlots && t.header == u.header;
    PayloadIgnoresSeal(t, u);
  }

  /** How many of the inputs end up in a template that starts empty. */
  function Enrolled(configuredMax: nat, inputs: seq<AddInput>): nat {
    if |inputs| <= configuredMax then |inputs| else configuredMax
  }

  predicate SplitsOfInputs(inputs: seq<AddInput>, count: nat) {
    count <= |inputs| && forall i: nat :: i < count ==> SplitInRange(inputs[i])
  }

  lemma RunFromEmpty(m: Matching, storageCapacity: nat, configuredMax: nat, inputs: seq<AddInput>, c: Core)
    requires configuredMax <= storageCapacity && forall input <- inputs :: Storable(input)
    requires c == Run(m, Empty(storageCapacity, configuredMax), inputs)
    ensures Consistent(c) && c.configuredMax == configuredMax
    ensures RetainsFrom(c, 0, inputs, |c.pointSets|) && |c.pointSets| == Enrolled(configuredMax, inputs)
  {
    hide Run, Component, EnrollmentModel.Truncated, RelationTableCursor, Retains;
    var empty := Empty(storageCapacity, configuredMax);
    EmptyConsistent(storageCapacity, configuredMax);
    forall input | input in inputs ensures Fresh(input) { assert Storable(input); }
    RunKeepsConsistent(m, empty, inputs);
    RunRetains(m, empty, inputs);
  }

  /** The state retained for each input. */
  lemma RetainedStates(c: Core, inputs: seq<AddInput>)
    requires Consistent(c) && RetainsFrom(c, 0, inputs, |c.pointSets|) && forall input <- inputs :: Storable(input)
    ensures c.graph.table.Valid() && Complete(c) && |States(c)| <= |inputs|
    ensures forall i: nat :: i < |States(c)| ==>
      && inputs[i].persistent.Some?
      && States(c)[i] == Retained(inputs[i].persistent.value, i).(canonicalMember := c.graph.Member(i))
      && |States(c)[i].points| <= POINT_CAPACITY
    ensures SplitsInRange(States(c)) <==> SplitsOfInputs(inputs, |c.pointSets|)
  {
    hide Component, EnrollmentModel.Truncated, RelationTableCursor;
    ConsistentTable(c);
    forall i: nat | i < |c.persistent|
      ensures c.persistent[i].Some? && inputs[i].persistent.Some?
      ensures c.persistent[i].value == Retained(inputs[i].persistent.value, i).(canonicalMember := c.graph.Member(i))
      ensures |c.persistent[i].value.points| <= POINT_CAPACITY
    {
      assert inputs[i] in inputs && Storable(inputs[i]);
      assert Retains(c.persistent[0 + i], inputs[i], 0 + i) && RetainedAt(c, i);
    }
  }

  lemma ProjectionFaithful(c: Core, inputs: seq<AddInput>)
    requires Consistent(c) && RetainsFrom(c, 0, inputs, |c.pointSets|) && forall input <- inputs :: Storable(input)
    requires c.graph.table.Valid() && Complete(c)
    ensures FewPoints(States(c)) && (|c.pointSets| <= SAMPLE_CAPACITY ==> Faithful(c, inputs, Project(c)))
  {
    hide Component, EnrollmentModel.Truncated, Consistent, RetainsFrom, PutPayload, Select,
      ProjectSample, SplitsInRange, SplitsOfInputs, Retained, SampleComesBack;
    RetainedStates(c, inputs);
    SealKeepsPayload(c);
    if |c.pointSets| <= SAMPLE_CAPACITY {
      var t := Project(c);
      forall i: nat | i < |t.samples|
        ensures SampleComesBack(inputs[i].persistent.value, i, c.graph.Member(i), t.samples[i])
      {
        ProjectionComesBack(inputs[i].persistent.value, i, c.graph.Member(i));
      }
    }
  }

  /** The template can be stored. */
  ghost predicate Stored(c: Core) {
    |c.persistent| == |c.pointSets| && c.graph.table.Valid() && StoreNode(c).Ok?
  }

  /** What is stored is decoded again, with the content that was enrolled. */
  ghost predicate Recovered(c: Core, inputs: seq<AddInput>)
    requires Stored(c)
  {
    var r := DecodeNode(StoreNode(c).value);
    r.Ok? && Faithful(c, inputs, r.value)
  }

  /** Nothing that was enrolled under a bound above fifty is recovered. */
  lemma LargeBoundLost(c: Core, inputs: seq<AddInput>)
    requires Stored(c) && Recovered(c, inputs)
    ensures c.configuredMax <= SAMPLE_CAPACITY
  {
    hide StoreNode, ParseRaw, WellFormed, Print, PutPayload, Select, SampleComesBack;
    var t := DecodeNode(StoreNode(c).value).value;
    AcceptedIffPrinted(Tgla.Parse(StoreNode(c).value).value.RawTemplate(), t);
    AcceptedHeader(t);
  }

  /**
   Whatever sequence of adds happened, a template of at most fifty samples is stored, and what is stored decodes to
   exactly what was enrolled -- samples, flags, checkpoints, points, forest relations, anchor and active slots -- if and
   only if the configured bound is at most fifty and the polarity split of every retained input lies within its points.
   */
  lemma EnrolledIsDecoded(m: Matching, storageCapacity: nat, configuredMax: nat, inputs: seq<AddInput>, c: Core)
    requires configuredMax <= storageCapacity && forall input <- inputs :: Storable(input)
    requires c == Run(m, Empty(storageCapacity, configuredMax), inputs)
    ensures |c.pointSets| == Enrolled(configuredMax, inputs)
    ensures |c.pointSets| <= SAMPLE_CAPACITY ==> Stored(c)
    ensures Stored(c) ==>
      (Recovered(c, inputs) <==> configuredMax <= SAMPLE_CAPACITY && SplitsOfInputs(inputs, |c.pointSets|))
  {
    hide Run, StoreNode, DecodeNode, Faithful, Consistent, SplitsInRange, SplitsOfInputs, FewPoints, Project, RetainsFrom,
      Storable;
    RunFromEmpty(m, storageCapacity, configuredMax, inputs, c);
    Sizes(c);
    RetainedStates(c, inputs);
    ProjectionFaithful(c, inputs);
    if |c.pointSets| <= SAMPLE_CAPACITY {
      StoredDecodes(c);
    }
    if Stored(c) && Recovered(c, inputs) {
      LargeBoundLost(c, inputs);
      var r := DecodeNode(StoreNode(c).value);
      FaithfulIsUnique(c, inputs, r.value, Project(c));
    }
  }

  /** A sample without points whose polarity split is 1: stored, and not recovered. */
  function SplitPastTheEnd(): AddInput {
    var blank, quarter := Zeros(MAP_BYTES), Zeros(QUARTER_BYTES);
    AddInput([], Sample(false, 0, blank, None, blank),
      Some(PersistentSample([], blank, None, blank, quarter, blank, false, 0, 0, 1, 0, 0, 0, 0)), 0)
  }

  lemma SplitThatFails(m: Matching)
    ensures var inputs := [SplitPastTheEnd()];
      var c := Run(m, Empty(1, 1), inputs);
      Stored(c) && !Recovered(c, inputs)
  {
    hide Run, Stored, Recovered;
    var inputs := [SplitPastTheEnd()];
    EnrolledIsDecoded(m, 1, 1, inputs, Run(m, Empty(1, 1), inputs));
    assert !SplitInRange(inputs[0]);
  }

  /** The geometry of every decoded point that was rounded before it was enrolled. */
  lemma DecodedPointGeometry(
    c: Core, inputs: seq<AddInput>, t: PersistedTemplate, i: nat, k: nat, unrounded: PointCodec.Geometry)
    requires c.graph.table.Valid() && Faithful(c, inputs, t) && i < |t.samples|
    requires k < |inputs[i].persistent.value.points|
    requires GeometryOf(inputs[i].persistent.value.points[k]) == Rounded(unrounded)
    ensures |t.samples[i].points| == |inputs[i].persistent.value.points|
    ensures var seen, enrolled := MatcherGeometry(t.samples[i].points[k]), Rounded(unrounded);
      && seen.x == enrolled.x && seen.y == enrolled.y
      && (seen.orientation == Normalised(enrolled.orientation) <==> !(0x7f80 <= unrounded.orientation <= 0x8080))
  {
    hide Rounded, Normalised, Pack, Unpack, Select, PutPayload, HeaderComesBack, SlotsComeBack, RelationComesBack,
      ScalarsComeBack, ExpandValidity;
    var p := inputs[i].persistent.value.points[k];
    assert PointComesBack(p, t.samples[i].points[k]);
    WordSurvives(Pack(GeometryOf(p)));
    RoundedPointsSurvive(unrounded);
  }

  // ---- the running code -----------------------------------------------------------------------------------------

  method StoreTemplate(c: Core) returns (r: Result<seq<Byte>, StoreError>)
    requires |c.persistent| == |c.pointSets| && c.graph.table.Valid()
    ensures r == StoreNode(c)
  {
    hide EncodeRaw, Tgla.Node;
    var raw := TemplateEncoder.EncodeRawTemplate(c);
    if raw.Err? {
      return Err(Encoding(raw.error));
    }
    var node := Tgla.WrapFresh(raw.value);
    if node.Err? {
      return Err(Wrapping(node.error));
    }
    return Ok(node.value[..]);
  }

  method DecodeFreshNode(node: seq<Byte>) returns (r: Result<PersistedTemplate, NodeError>)
    ensures r == DecodeNode(node)
  {
    hide ParseRaw, Tgla.Parse;
    var parsed := Tgla.Parse(node);
    if parsed.Err? {
      return Err(Storage(parsed.error));
    }
    var raw := TemplateDecoder.DecodeRawTemplate(parsed.value.RawTemplate());
    if raw.Err? {
      return Err(Template(raw.error));
    }
    return Ok(raw.value);
  }
}
