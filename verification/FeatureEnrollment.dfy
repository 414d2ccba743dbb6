/** Extracted features as inputs of enrollment, and what becomes of a whole enrollment of them. */
module FeatureEnrollment {
  import opened Wrappers
  import opened Bytes
  import opened EnrollmentModel
  import opened EnrollmentProofs
  import opened FeaturePartition
  import opened TemplateFormat
  import opened TemplateProjection
  import opened EndToEnd
  import ForestModel
  import GraphModel

  const STORAGE_CAPACITY := 50
  const CONFIGURED_MAX := 40
  const SCORE_THRESHOLD := 0xcd

  datatype SourceScalars =
    SourceScalars(scalar108: I32, param3: I32, param4: I32, scalar13c: I32, embedded140: I32)

  /** The maps and validity masks of a capture. */
  datatype CaptureMaps =
    CaptureMaps(primary: Bitmap, secondary: Option<Bitmap>, lowThreshold: Bitmap, quarterValidity: QuarterMask)

  /** A feature ready for enrollment: its points in extractor order and, separately, in persisted order. */
  datatype ReadyFeature = ReadyFeature(
    points: seq<FeaturePoint>,
    persistentPoints: seq<FeaturePoint>,
    maps: CaptureMaps,
    packedValidity: Bitmap,
    scalars: SourceScalars,
    status: I32)

  datatype FeatureError = TooManyFeaturePoints(actual: nat, capacity: nat)

  /** What construction guarantees of a feature. */
  predicate Ready(f: ReadyFeature) {
    && |f.points| == |f.persistentPoints| <= POINT_CAPACITY
    && 0 <= f.scalars.scalar108 <= |f.persistentPoints|
    && f.packedValidity == ExpandValidity(f.maps.quarterValidity)
  }

  function Mapped<T, U>(f: T -> U, s: seq<T>): (r: seq<U>)
    ensures |r| == |s|
  {
    seq(|s|, i requires 0 <= i < |s| => f(s[i]))
  }

  /** The persisted points are the extracted ones, class 0 first, and the stored split is their number. */
  ghost predicate PartitionedFrom<T(!new)>(f: ReadyFeature, extraction: seq<T>, polarity: T -> U16, mode0: T -> FeaturePoint) {
    && f.points == Mapped(mode0, extraction)
    && f.scalars.scalar108 == ZeroCount(polarity, extraction)
    && exists ordered: seq<T> ::
      && Permutes(ordered, extraction) && Split(polarity, ordered, ZeroCount(polarity, extraction))
      && f.persistentPoints == Mapped(mode0, ordered)
  }

  /**
   Builds a feature from at most 120 extracted points.  `mode0` projects an extracted point to an enrollment point,
   `polarity` is its binary matcher polarity, and `quality` and `coverage` come from the capture.
   */
  method FromExtraction<T(!new)>(
    extraction: seq<T>, polarity: T -> U16, mode0: T -> FeaturePoint, maps: CaptureMaps, scalars: SourceScalars,
    quality: I32, coverage: I32, status: I32) returns (r: Result<ReadyFeature, FeatureError>)
    requires Binary(polarity, extraction)
    ensures |extraction| > POINT_CAPACITY ==> r == Err(TooManyFeaturePoints(|extraction|, POINT_CAPACITY))
    ensures |extraction| <= POINT_CAPACITY ==>
      && r.Ok? && Ready(r.value) && PartitionedFrom(r.value, extraction, polarity, mode0)
      && r.value.maps == maps && r.value.status == status
      && r.value.scalars == scalars.(scalar108 := ZeroCount(polarity, extraction), param3 := quality, param4 := coverage)
  {
    if |extraction| > POINT_CAPACITY {
      return Err(TooManyFeaturePoints(|extraction|, POINT_CAPACITY));
    }
    hide ExpandValidity, Split, ZeroCount, Permutes;
    var ordered := new T[|extraction|](i requires 0 <= i < |extraction| => extraction[i]);
    assert ordered[..] == extraction;
    var boundary := PartitionBy(ordered, polarity);
    var feature := ReadyFeature(Mapped(mode0, extraction), Mapped(mode0, ordered[..]), maps,
      ExpandValidity(maps.quarterValidity), scalars.(scalar108 := boundary, param3 := quality, param4 := coverage), status);
    assert Permutes(ordered[..], extraction);
    return Ok(feature);
  }

  /** Only an odd value above 0x3e9 of this scalar is kept. */
  function Kept13c(value: I32): I32 {
    if value % 2 == 1 && value > 0x3e9 then value else 0
  }

  function PersistentState(f: ReadyFeature): PersistentSample {
    PersistentSample(f.persistentPoints, f.maps.primary, f.maps.secondary, f.maps.lowThreshold, f.maps.quarterValidity,
      f.packedValidity, false, 0, 0, f.scalars.scalar108, f.scalars.param3, f.scalars.param4, Kept13c(f.scalars.scalar13c),
      f.scalars.embedded140)
  }

  /** The input one feature is added with; `register` derives the registration view of a point. */
  function AsInput(f: ReadyFeature, register: FeaturePoint -> RegistrationPoint): AddInput {
    AddInput(Mapped(register, f.points),
      GraphModel.Sample(false, f.status, f.maps.primary, f.maps.secondary, f.packedValidity),
      Some(PersistentState(f)), SCORE_THRESHOLD)
  }

  function Inputs(features: seq<ReadyFeature>, register: FeaturePoint -> RegistrationPoint): (inputs: seq<AddInput>)
    ensures |inputs| == |features|
  {
    seq(|features|, i requires 0 <= i < |features| => AsInput(features[i], register))
  }

  /**
   A decoded sample is the feature it came from: its points in persisted order, its maps and masks, its quality and
   coverage, and of scalar 13c only an odd value above 0x3e9.
   */
  ghost predicate FeatureComesBack(f: ReadyFeature, index: nat, member: bool, s: PersistedSample) {
    && PointsComeBack(f.persistentPoints, s.points)
    && s.primaryMap == f.maps.primary && s.secondaryMap == f.maps.secondary
    && s.lowThresholdMap == Some(f.maps.lowThreshold)
    && s.quarterValidity == f.maps.quarterValidity && s.activeValidity == f.packedValidity
    && s.scalars.canonicalMember == member && s.scalars.sampleIndex == index
    && s.scalars.relationCheckpoint == (if index == 0 then 0 else 1 + index * (index - 1) / 2)
    && s.scalars.scalar108 == f.scalars.scalar108
    && s.scalars.param3 == f.scalars.param3 && s.scalars.param4 == f.scalars.param4
    && s.scalars.scalar13c ==
      (if f.scalars.scalar13c % 2 == 1 && f.scalars.scalar13c > 0x3e9 then f.scalars.scalar13c else 0)
    && s.scalars.embedded140 == (if f.scalars.embedded140 == 0 then None else Some(f.scalars.embedded140))
    && s.scalars.status114 == s.scalars.scalar118 == s.scalars.scalar120 == s.scalars.scalar124 == 0
  }

  /** Each decoded sample is the feature it came from. */
  ghost predicate DecodedFeatures(c: Core, features: seq<ReadyFeature>, t: PersistedTemplate) {
    && |t.samples| == |c.pointSets| <= |features| && |t.samples| <= 50
    && forall i: nat :: i < |t.samples| ==> FeatureComesBack(features[i], i, c.graph.Member(i), t.samples[i])
  }

  /**
   Any number of ready features, added to a new template of the recovered profile, is stored and decoded again: the first
   forty come back as they were, and every later add changes nothing.
   */
  lemma EnrolledFeaturesAreDecoded(
    m: Matching, features: seq<ReadyFeature>, register: FeaturePoint -> RegistrationPoint, c: Core)
    requires forall f <- features :: Ready(f)
    requires c == Run(m, Empty(STORAGE_CAPACITY, CONFIGURED_MAX), Inputs(features, register))
    ensures Stored(c) && |c.pointSets| == Enrolled(CONFIGURED_MAX, Inputs(features, register))
    ensures Recovered(c, Inputs(features, register))
    ensures c == Run(m, Empty(STORAGE_CAPACITY, CONFIGURED_MAX), Inputs(features[..|c.pointSets|], register))
    ensures DecodedFeatures(c, features, DecodeNode(StoreNode(c).value).value)
  {
    hide Run, StoreNode, DecodeNode, Faithful, ExpandValidity, AsInput;
    var inputs := Inputs(features, register);
    forall i: nat | i < |inputs| ensures Storable(inputs[i]) && SplitInRange(inputs[i]) && Fresh(inputs[i]) {
      InputStorable(features[i], register);
    }
    EnrolledIsDecoded(m, STORAGE_CAPACITY, CONFIGURED_MAX, inputs, c);
    EmptyConsistent(STORAGE_CAPACITY, CONFIGURED_MAX);
    LaterAddsChangeNothing(m, Empty(STORAGE_CAPACITY, CONFIGURED_MAX), inputs);
    assert inputs[..|c.pointSets|] == Inputs(features[..|c.pointSets|], register);
    FaithfulFeatures(c, features, register, DecodeNode(StoreNode(c).value).value);
  }

  lemma InputStorable(f: ReadyFeature, register: FeaturePoint -> RegistrationPoint)
    requires Ready(f)
    ensures Storable(AsInput(f, register)) && SplitInRange(AsInput(f, register))
  {
    hide ExpandValidity;
  }

  lemma FaithfulFeatures(c: Core, features: seq<ReadyFeature>, register: FeaturePoint -> RegistrationPoint, t: PersistedTemplate)
    requires forall f <- features :: Ready(f)
    requires c.graph.table.Valid() && Faithful(c, Inputs(features, register), t)
    ensures DecodedFeatures(c, features, t)
  {
    hide ExpandValidity, ForestModel.Select, PutPayload, FeatureComesBack, SampleComesBack, Mapped, HeaderComesBack,
      SlotsComeBack, RelationComesBack;
    forall i: nat | i < |t.samples|
      ensures FeatureComesBack(features[i], i, c.graph.Member(i), t.samples[i])
    {
      assert features[i] in features && Ready(features[i]);
      assert Inputs(features, register)[i] == AsInput(features[i], register);
      FeatureOfSample(features[i], i, c.graph.Member(i), t.samples[i]);
    }
  }

  lemma FeatureOfSample(f: ReadyFeature, i: nat, member: bool, s: PersistedSample)
    requires Ready(f) && i < 50 && SampleComesBack(PersistentState(f), i, member, s)
    ensures FeatureComesBack(f, i, member, s)
  {
    hide ExpandValidity, PointsComeBack;
  }
}
