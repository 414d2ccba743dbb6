/** Adding samples to an enrollment template as a value: capacity, pair registration, graph integration, flag sync. */
module EnrollmentModel {
  import opened Wrappers
  import opened Bytes
  import opened Relations
  import opened GraphModel

  /** One retained feature point: its geometry words, its 16 descriptor bytes and its three hashes. */
  datatype FeaturePoint = FeaturePoint(
    x: bv16, y: bv16, orientation: bv16, descriptor: Descriptor, medianHash128: U32, hadamardHash32: U32, medianHash32: U32)

  datatype RegistrationPoint = RegistrationPoint(x: bv16, y: bv16, descriptor: seq<Byte>)

  type PointSet = seq<RegistrationPoint>

  /** The full state kept for the serializer. */
  datatype PersistentSample = PersistentSample(
    points: seq<FeaturePoint>,
    primaryMap: Bitmap,
    secondaryMap: Option<Bitmap>,
    lowThresholdMap: Bitmap,
    quarterValidity: QuarterMask,
    activeValidity: Bitmap,
    canonicalMember: bool,
    relationCheckpoint: I32,
    sampleIndex: I32,
    scalar108: I32,
    param3: I32,
    param4: I32,
    scalar13c: I32,
    embedded140: I32)

  datatype Core = Core(configuredMax: nat, graph: Graph, pointSets: seq<PointSet>, persistent: seq<Option<PersistentSample>>)

  type InlierCount = n: nat | n < 0x8000_0000

  datatype Registration = Registration(inliers: InlierCount, transform: Affine)

  datatype MapScores = MapScores(score: int, metricA: int, metricB: int)

  /** The matching code the coordinator calls: transform arithmetic, point registration, map scoring, novelty metric. */
  datatype Matching = Matching(
    ops: AffineOps,
    register: (PointSet, PointSet) -> Option<Registration>,
    scores: (seq<Sample>, nat, nat, Affine) -> MapScores,
    metric: Metric)

  datatype AddKind = FirstSample | NoSuccessfulPrevious | Integrated

  datatype AddResult =
    AddResult(kind: AddKind, currentIndex: nat, successfulPrevious: seq<nat>, integration: Option<Integration>)

  datatype AddError = CapacityReached(capacity: nat) | GraphFailed(error: GraphError)

  datatype AddInput = AddInput(points: PointSet, sample: Sample, persistent: Option<PersistentSample>, threshold: int)

  // ---- one add --------------------------------------------------------------------------------------------------

  /** The final acceptance table after geometric matching. */
  predicate Accepts(inliers: nat, metricA: int, metricB: int) {
    if inliers <= 5 then false
    else if inliers == 6 then metricA >= 216
    else if inliers <= 10 then metricA >= 216 || (metricA >= SCORE_WEAK && metricB >= 65)
    else true
  }

  /** `n as i32`. */
  function Truncated(n: nat): I32 {
    Signed(n % U32_LIMIT)
  }

  /** What is retained of a persistent sample that becomes sample `current`. */
  function Retained(sample: PersistentSample, current: nat): PersistentSample {
    sample.(relationCheckpoint := Truncated(RelationTableCursor(current)), sampleIndex := Truncated(current), canonicalMember := false)
  }

  function Pushed(c: Core, input: AddInput): Core {
    var current := |c.pointSets|;
    c.(pointSets := c.pointSets + [input.points],
       persistent := c.persistent + [if input.persistent.Some? then Some(Retained(input.persistent.value, current)) else None],
       graph := c.graph.(samples := c.graph.samples + [input.sample]))
  }

  /** The registration of the newest sample against a previous one, when it is accepted. */
  function AcceptedPair(m: Matching, g: Graph, pointSets: seq<PointSet>, current: nat, previous: nat): Option<Registration>
    requires previous < |pointSets| && current < |pointSets|
  {
    var registration := m.register(pointSets[previous], pointSets[current]);
    if registration.None? || registration.value.inliers <= 4 then None
    else
      var scores := m.scores(g.samples, current, previous, registration.value.transform);
      if Accepts(registration.value.inliers, scores.metricA, scores.metricB) then registration else None
  }

  /** Stores a direct record for every accepted pair from `previous` on and lists the partners. */
  function RegisterFrom(m: Matching, g: Graph, pointSets: seq<PointSet>, current: nat, previous: nat, successful: seq<nat>)
    : (r: (Graph, seq<nat>))
    requires g.table.Valid() && previous <= current < |pointSets|
    ensures r.0.table.Valid() && r.0.samples == g.samples
    decreases current - previous
  {
    if previous == current then (g, successful)
    else
      var accepted := AcceptedPair(m, g, pointSets, current, previous);
      if accepted.None? then RegisterFrom(m, g, pointSets, current, previous + 1, successful)
      else
        var stored := g.table.Write(m.ops, current, previous, accepted.value.inliers, accepted.value.transform);
        RegisterFrom(m, g.(table := stored), pointSets, current, previous + 1, successful + [previous])
  }

  /** Persistent flags copied from the graph. */
  function Synced(c: Core): Core {
    c.(persistent := seq(|c.persistent|, i requires 0 <= i < |c.persistent| =>
      if c.persistent[i].Some? then Some(c.persistent[i].value.(canonicalMember := c.graph.Member(i))) else None))
  }

  function PairScore(m: Matching, samples: seq<Sample>): Score {
    (source: nat, target: nat, transform: Affine) => m.scores(samples, source, target, transform).score
  }

  function Add(m: Matching, c: Core, input: AddInput): (r: (Core, Result<AddResult, AddError>))
    requires c.graph.table.Valid()
    ensures r.0.graph.table.Valid()
  {
    hide Integrate, RegisterFrom;
    var current := |c.pointSets|;
    if current >= c.configuredMax then (c, Err(CapacityReached(c.configuredMax)))
    else
      var pushed := Pushed(c, input);
      if current == 0 then (Synced(pushed), Ok(AddResult(FirstSample, current, [], None)))
      else
        var (registered, successful) := RegisterFrom(m, pushed.graph, pushed.pointSets, current, 0, []);
        if successful == [] then
          (Synced(pushed.(graph := registered)), Ok(AddResult(NoSuccessfulPrevious, current, [], None)))
        else
          var (integrated, r) := Integrate(m.ops, registered, current, successful, input.threshold,
            PairScore(m, registered.samples), m.metric);
          if r.Err? then (pushed.(graph := integrated), Err(GraphFailed(r.error)))
          else (Synced(pushed.(graph := integrated)), Ok(AddResult(Integrated, current, successful, Some(r.value))))
  }

  function Empty(storageCapacity: nat, configuredMax: nat): Core {
    Core(configuredMax, Graph([], EmptyTable(storageCapacity), 0, false), [], [])
  }

  /** The template after a sequence of adds, failing ones included. */
  function Run(m: Matching, c: Core, inputs: seq<AddInput>): (r: Core)
    requires c.graph.table.Valid()
    ensures r.graph.table.Valid()
    decreases |inputs|
  {
    hide Add;
    if inputs == [] then c else Run(m, Add(m, c, inputs[0]).0, inputs[1..])
  }
}
