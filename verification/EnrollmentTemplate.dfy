/** The mutable enrollment template; every method is proved to compute the enrollment model. */
module EnrollmentTemplate {
  import opened Wrappers
  import opened Bytes
  import opened Relations
  import opened GraphModel
  import opened EnrollmentModel
  import EnrollmentGraph

  class Template {
    const configuredMax: nat
    const graph: EnrollmentGraph.Enrollment
    var pointSets: seq<PointSet>
    var persistent: seq<Option<PersistentSample>>

    constructor (storageCapacity: nat, configuredMax: nat)
      requires configuredMax <= storageCapacity
      ensures Valid() && fresh(graph) && State() == Empty(storageCapacity, configuredMax)
    {
      this.configuredMax := configuredMax;
      graph := new EnrollmentGraph.Enrollment(storageCapacity);
      pointSets := [];
      persistent := [];
    }

    ghost predicate Valid()
      reads this, graph
    {
      graph.Valid() && |graph.samples| == |pointSets| == |persistent|
    }

    function State(): Core
      reads this, graph
    {
      Core(configuredMax, graph.State(), pointSets, persistent)
    }

    /** Copies the membership flags of the graph into the retained samples, one by one. */
    method SyncFlags()
      requires Valid()
      modifies this
      ensures Valid() && State() == Synced(old(State()))
    {
      ghost var before := State();
      var i := 0;
      while i < |persistent|
        invariant Valid() && i <= |persistent| && |persistent| == |before.persistent|
        invariant State() == before.(persistent := persistent)
        invariant forall k :: 0 <= k < i ==> persistent[k] == Synced(before).persistent[k]
        invariant forall k :: i <= k < |persistent| ==> persistent[k] == before.persistent[k]
        decreases |persistent| - i
      {
        if persistent[i].Some? {
          var flagged := persistent[i].value.(canonicalMember := i < |graph.samples| && graph.samples[i].canonicalMember);
          persistent := persistent[i := Some(flagged)];
        }
        i := i + 1;
      }
    }

    /** Registers the newest sample against every previous one and stores the accepted direct records. */
    method RegisterAll(m: Matching, current: nat) returns (successful: seq<nat>)
      requires Valid() && current < |pointSets|
      modifies graph
      ensures Valid()
      ensures (graph.State(), successful) == RegisterFrom(m, old(graph.State()), pointSets, current, 0, [])
    {
      hide RelationTable.Write;
      successful := [];
      for previous := 0 to current
        invariant Valid()
        invariant RegisterFrom(m, old(graph.State()), pointSets, current, 0, [])
               == RegisterFrom(m, graph.State(), pointSets, current, previous, successful)
      {
        var registration := m.register(pointSets[previous], pointSets[current]);
        if registration.None? || registration.value.inliers <= 4 {
          continue;
        }
        var scores := m.scores(graph.samples, current, previous, registration.value.transform);
        if !Accepts(registration.value.inliers, scores.metricA, scores.metricB) {
          continue;
        }
        var _ := graph.SetRelation(m.ops, current, previous, registration.value.inliers, registration.value.transform);
        successful := successful + [previous];
      }
    }

    method AddSample(m: Matching, input: AddInput) returns (r: Result<AddResult, AddError>)
      requires Valid()
      modifies this, graph
      ensures Valid() && (State(), r) == Add(m, old(State()), input)
    {
      hide RegisterFrom, Integrate, Synced;
      if |pointSets| >= configuredMax {
        return Err(CapacityReached(configuredMax));
      }
      var current := |pointSets|;
      var retained := if input.persistent.Some? then Some(Retained(input.persistent.value, current)) else None;
      pointSets := pointSets + [input.points];
      persistent := persistent + [retained];
      var _ := graph.PushSample(input.sample);
      if current == 0 {
        SyncFlags();
        return Ok(AddResult(FirstSample, current, [], None));
      }
      var successful := RegisterAll(m, current);
      if successful == [] {
        SyncFlags();
        return Ok(AddResult(NoSuccessfulPrevious, current, successful, None));
      }
      var score := PairScore(m, graph.samples);
      var integration := graph.IntegrateNewest(m.ops, current, successful, input.threshold, score, m.metric);
      if integration.Err? {
        return Err(GraphFailed(integration.error));
      }
      SyncFlags();
      r := Ok(AddResult(Integrated, current, successful, Some(integration.value)));
    }
  }
}
