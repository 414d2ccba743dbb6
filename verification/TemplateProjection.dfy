/** What an enrollment template persists, as a value, and when that value is one the strict decoder accepts. */
module TemplateProjection {
  import opened Wrappers
  import opened Bytes
  import opened Relations
  import opened GraphModel
  import opened GraphProofs
  import opened EnrollmentModel
  import opened EnrollmentProofs
  import opened ForestModel
  import opened ForestSelection
  import opened PointCodec
  import opened TemplateFormat
  import Crc

  datatype EncodeError =
    | IncompletePersistentSample(index: nat)
    | TooManyPoints(index: nat, actual: nat)
    | LengthOverflow(length: nat)
    | PackedSizeMismatch(expected: nat, actual: nat)

  // ---- projection -----------------------------------------------------------------------------------------------

  function ProjectPoints(points: seq<FeaturePoint>): (r: seq<PersistedPoint>)
    ensures |r| == |points|
  {
    seq(|points|, i requires 0 <= i < |points| => ProjectPoint(points[i]))
  }

  function ProjectScalars(s: PersistentSample): SampleScalars {
    SampleScalars(s.canonicalMember, s.relationCheckpoint, s.scalar108, s.param3, s.param4, 0, 0, s.sampleIndex, 0, 0,
      s.scalar13c, if s.embedded140 != 0 then Some(s.embedded140) else None)
  }

  function ProjectSample(s: PersistentSample): PersistedSample {
    PersistedSample(s.primaryMap, s.secondaryMap, Some(s.lowThresholdMap), s.quarterValidity,
      ExpandValidity(s.quarterValidity), ProjectPoints(s.points), ProjectScalars(s))
  }

  /** Every sample carries its full persistent state. */
  predicate Complete(c: Core) {
    |c.persistent| == |c.pointSets| && forall i :: 0 <= i < |c.persistent| ==> c.persistent[i].Some?
  }

  /** The persistent states of a complete template. */
  function States(c: Core): (r: seq<PersistentSample>)
    requires Complete(c)
    ensures |r| == |c.pointSets|
  {
    seq(|c.persistent|, i requires 0 <= i < |c.persistent| => c.persistent[i].value)
  }

  function ProjectSamples(samples: seq<PersistentSample>): (r: seq<PersistedSample>)
    ensures |r| == |samples|
  {
    seq(|samples|, i requires 0 <= i < |samples| => ProjectSample(samples[i]))
  }

  function ProjectRelation(s: Selected): PersistedRelation {
    PersistedRelation(s.index, s.high, s.low, s.record.value, s.record.higherToLower)
  }

  function ProjectRelations(selected: seq<Selected>): (r: seq<PersistedRelation>)
    ensures |r| == |selected|
  {
    seq(|selected|, i requires 0 <= i < |selected| => ProjectRelation(selected[i]))
  }

  function ProjectGraph(g: Graph): GraphSummary {
    GraphSummary(if g.established then Some(g.anchor) else None, g.established)
  }

  function ProjectHeader(c: Core): Header {
    Header(|c.pointSets|, c.configuredMax, RelationTableCursor(|c.pointSets|), POINT_CAPACITY, POINT_CAPACITY)
  }

  function Unsealed(c: Core): PersistedTemplate
    requires Complete(c) && c.graph.table.Valid()
  {
    PersistedTemplate(0, ProjectHeader(c), ProjectSamples(States(c)),
      ProjectRelations(Select(c.graph.table, |c.pointSets|)), ProjectGraph(c.graph), ActiveSlots(|c.pointSets|))
  }

  /** The persisted meaning of an enrollment template. */
  function Project(c: Core): PersistedTemplate
    requires Complete(c) && c.graph.table.Valid()
  {
    Unsealed(c).(rawCrc := Crc.Checksum(Crc.IsoHdlc, PutPayload(Unsealed(c), [])))
  }

  /** The checksum field is outside the payload it covers. */
  lemma SealKeepsPayload(c: Core)
    requires Complete(c) && c.graph.table.Valid()
    ensures PutPayload(Project(c), []) == PutPayload(Unsealed(c), [])
  {
    hide PutScalars, PutSamples, PutRelations, PutSection93, PutSection94, TopWords, Select, ActiveSlots;
  }

  // ---- when the projection is well-formed -----------------------------------------------------------------------

  /** Room for at most 120 points in every sample. */
  predicate FewPoints(samples: seq<PersistentSample>) {
    forall i :: 0 <= i < |samples| ==> |samples[i].points| <= POINT_CAPACITY
  }

  /** The stored polarity split of every sample lies within its points. */
  predicate SplitsInRange(samples: seq<PersistentSample>) {
    forall i :: 0 <= i < |samples| ==> 0 <= samples[i].scalar108 <= |samples[i].points|
  }

  lemma SmallIndices(i: nat)
    requires i < SAMPLE_CAPACITY
    ensures Truncated(i) == i && Truncated(RelationTableCursor(i)) == RelationTableCursor(i)
  {
    SmallCursor(i);
    hide RelationTableCursor, Truncated;
    NotTruncated(i);
    NotTruncated(RelationTableCursor(i));
  }

  lemma NotTruncated(n: nat)
    requires n < 0x8000_0000
    ensures Truncated(n) == n
  {}

  lemma SmallCursor(i: nat)
    requires i < SAMPLE_CAPACITY
    ensures RelationTableCursor(i) < 0x8000_0000
  {
    assert i * (i - 1) <= 50 * 50;
  }

  lemma SampleProjection(c: Core, i: nat)
    requires Consistent(c) && Complete(c) && FewPoints(States(c)) && i < |c.persistent| <= SAMPLE_CAPACITY
    ensures WellFormedSample(ProjectSamples(States(c))[i], i)
      <==> 0 <= States(c)[i].scalar108 <= |States(c)[i].points|
  {
    hide Component, RelationTableCursor, Truncated;
    SmallIndices(i);
    assert RetainedAt(c, i);
  }

  lemma RelationsProjection(t: RelationTable, count: nat)
    requires t.Valid()
    ensures WellFormedRelations(ProjectRelations(Select(t, count)), count)
  {
    hide Build, SelectFrom, Linked;
    SelectionIsTheParentLinks(t, count);
    var s := Select(t, count);
    forall r | r in ProjectRelations(s) ensures WellFormedRelation(r, count) {
      var i :| 0 <= i < |s| && r == ProjectRelation(s[i]);
      assert Entry(t, Build(t, count), s[i]);
    }
  }

  /** Consistent templates project to well-formed ones exactly when the decoder's two value ranges are respected. */
  lemma ProjectionWellFormed(c: Core)
    requires Consistent(c) && Complete(c) && FewPoints(States(c)) && c.graph.table.Valid()
    ensures WellFormed(Project(c)) <==> c.configuredMax <= SAMPLE_CAPACITY && SplitsInRange(States(c))
  {
    hide PutPayload, Select, WellFormedSamples, WellFormedRelations, ActiveSlots, Component, RetainedAt, RelationTableCursor,
      SplitsInRange, FewPoints;
    SealKeepsPayload(c);
    RelationsProjection(c.graph.table, |c.pointSets|);
    AnchorIsASample(c.graph);
    if c.configuredMax <= SAMPLE_CAPACITY {
      SamplesProjection(c);
    }
  }

  lemma SamplesProjection(c: Core)
    requires Consistent(c) && Complete(c) && FewPoints(States(c)) && c.configuredMax <= SAMPLE_CAPACITY
    ensures WellFormedSamples(ProjectSamples(States(c)), 0) <==> SplitsInRange(States(c))
  {
    hide WellFormedSample, Component, RetainedAt, ProjectSample;
    forall i: nat | i < |c.persistent|
      ensures WellFormedSample(ProjectSamples(States(c))[i], 0 + i) <==> 0 <= States(c)[i].scalar108 <= |States(c)[i].points|
    {
      SampleProjection(c, i);
    }
  }

  lemma AnchorIsASample(g: Graph)
    requires Component(g)
    ensures g.established ==> g.anchor < |g.samples|
  {}

  // ---- the encoder's outcome ------------------------------------------------------------------------------------

  /** The first sample from `index` on without full persistent state. */
  function FirstIncomplete(c: Core, index: nat): (r: Option<nat>)
    requires index <= |c.persistent|
    ensures r.None? <==> forall i :: index <= i < |c.persistent| ==> c.persistent[i].Some?
    decreases |c.persistent| - index
  {
    if index == |c.persistent| then None
    else if c.persistent[index].None? then Some(index)
    else FirstIncomplete(c, index + 1)
  }

  /** The first sample from `index` on with more points than the format holds. */
  function FirstCrowded(samples: seq<PersistentSample>, index: nat): (r: Option<nat>)
    requires index <= |samples|
    ensures r.None? <==> forall i :: index <= i < |samples| ==> |samples[i].points| <= POINT_CAPACITY
    ensures r.Some? ==> r.value < |samples|
    decreases |samples| - index
  {
    if index == |samples| then None
    else if |samples[index].points| > POINT_CAPACITY then Some(index)
    else FirstCrowded(samples, index + 1)
  }

  /** What encoding a template yields: its first problem, in the order the encoder looks for them, or its printed projection. */
  function EncodeRaw(c: Core): Result<seq<Byte>, EncodeError>
    requires |c.persistent| == |c.pointSets| && c.graph.table.Valid()
  {
    hide PutPayload, Print, Project;
    var incomplete := FirstIncomplete(c, 0);
    if incomplete.Some? then Err(IncompletePersistentSample(incomplete.value))
    else
      var samples := States(c);
      var crowded := FirstCrowded(samples, 0);
      if crowded.Some? then Err(TooManyPoints(crowded.value, |samples[crowded.value].points|))
      else
        var length := |PutPayload(Project(c), [])|;
        if length >= U32_LIMIT then Err(LengthOverflow(length)) else Ok(Print(Project(c)))
  }

  /** Sample `i` is the first one that is incomplete. */
  predicate FirstMissing(c: Core, i: nat) {
    i < |c.persistent| && c.persistent[i].None? && forall j :: 0 <= j < i ==> c.persistent[j].Some?
  }

  /** Sample `i` is the first one with more than 120 points. */
  predicate FirstTooLarge(samples: seq<PersistentSample>, i: nat) {
    i < |samples| && |samples[i].points| > 120 && forall j :: 0 <= j < i ==> |samples[j].points| <= 120
  }

  lemma {:induction false} IncompleteIsFirst(c: Core, index: nat)
    requires index <= |c.persistent| && forall j :: 0 <= j < index ==> c.persistent[j].Some?
    ensures FirstIncomplete(c, index).Some? ==> FirstMissing(c, FirstIncomplete(c, index).value)
    decreases |c.persistent| - index
  {
    if index < |c.persistent| && c.persistent[index].Some? {
      IncompleteIsFirst(c, index + 1);
    }
  }

  lemma {:induction false} CrowdedIsFirst(samples: seq<PersistentSample>, index: nat)
    requires index <= |samples| && forall j :: 0 <= j < index ==> |samples[j].points| <= 120
    ensures FirstCrowded(samples, index).Some? ==> FirstTooLarge(samples, FirstCrowded(samples, index).value)
    decreases |samples| - index
  {
    if index < |samples| && |samples[index].points| <= POINT_CAPACITY {
      CrowdedIsFirst(samples, index + 1);
    }
  }

  /** Why encoding fails: the first incomplete sample, else the first one with more than 120 points, else the total length. */
  lemma EncodingRefusedFor(c: Core)
    requires |c.persistent| == |c.pointSets| && c.graph.table.Valid() && EncodeRaw(c).Err?
    ensures match EncodeRaw(c).error
      case IncompletePersistentSample(i) => FirstMissing(c, i)
      case TooManyPoints(i, n) => Complete(c) && FirstTooLarge(States(c), i) && n == |States(c)[i].points|
      case LengthOverflow(n) => Complete(c) && FewPoints(States(c)) && n == |PutPayload(Project(c), [])| >= 0x1_0000_0000
      case PackedSizeMismatch(_, _) => false
  {
    hide PutPayload, Print, Project;
    IncompleteIsFirst(c, 0);
    if FirstIncomplete(c, 0).None? {
      CrowdedIsFirst(States(c), 0);
    }
  }
}
