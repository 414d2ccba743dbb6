/** What every sequence of adds keeps. */
module EnrollmentProofs {
  import opened Wrappers
  import opened Bytes
  import opened Relations
  import opened GraphModel
  import opened GraphProofs
  import opened GraphPoses
  import opened EnrollmentModel

  /** A retained sample knows its own position, its relation checkpoint and whether the graph counts it as a member. */
  predicate RetainedAt(c: Core, i: nat)
    requires i < |c.persistent|
  {
    c.persistent[i].Some? ==>
      && c.persistent[i].value.sampleIndex == Truncated(i)
      && c.persistent[i].value.relationCheckpoint == Truncated(RelationTableCursor(i))
      && c.persistent[i].value.canonicalMember == c.graph.Member(i)
  }

  ghost predicate Consistent(c: Core) {
    && Component(c.graph)
    && |c.graph.samples| == |c.pointSets| == |c.persistent|
    && |c.pointSets| <= c.configuredMax <= c.graph.table.capacity
    && forall i :: 0 <= i < |c.persistent| ==> RetainedAt(c, i)
  }

  /** The graph sample of an input does not claim membership, as every extracted feature guarantees. */
  predicate Fresh(input: AddInput) {
    !input.sample.canonicalMember
  }

  lemma EmptyConsistent(storageCapacity: nat, configuredMax: nat)
    requires configuredMax <= storageCapacity
    ensures Consistent(Empty(storageCapacity, configuredMax))
  {}

  // ---- pair registration ----------------------------------------------------------------------------------------

  /** Registration writes only records of the newest sample, which every partner then has with its inlier count. */
  lemma {:induction false} RegisterKeeps(
    m: Matching, g: Graph, pointSets: seq<PointSet>, current: nat, previous: nat, successful: seq<nat>)
    requires g.table.Valid() && previous <= current < |pointSets| && current < g.table.capacity
    requires forall p <- successful :: p < current && g.table.Value(current, p) >= 6
    ensures var (h, s) := RegisterFrom(m, g, pointSets, current, previous, successful);
      && h == g.(table := h.table) && h.table.capacity == g.table.capacity
      && (forall p <- s :: p < current && h.table.Value(current, p) >= 6)
      && (forall a: nat, b: nat :: a != current && b != current ==> h.table.Record(a, b) == g.table.Record(a, b))
    decreases current - previous
  {
    hide PairIndex, RowBase, RelationTable.Set, RelationTable.Write;
    if previous < current {
      var accepted := AcceptedPair(m, g, pointSets, current, previous);
      var g1, s1 := g, successful;
      if accepted.Some? {
        var (value, transform) := (accepted.value.inliers, accepted.value.transform);
        g1, s1 := g.(table := g.table.Write(m.ops, current, previous, value, transform)), successful + [previous];
        forall a: nat, b: nat
          ensures !SamePair(current, previous, a, b) ==> g1.table.Record(a, b) == g.table.Record(a, b)
          ensures g1.table.Value(current, previous) == value
        {
          WriteFrame(m.ops, g.table, current, previous, value, transform, a, b);
        }
      }
      hide AcceptedPair, RelationTable.Record;
      RegisterKeeps(m, g1, pointSets, current, previous + 1, s1);
    }
  }

  predicate Increasing(s: seq<nat>, bound: nat) {
    (forall p <- s :: p < bound) && forall i, j :: 0 <= i < j < |s| ==> s[i] < s[j]
  }

  lemma IncreasingPush(s: seq<nat>, bound: nat)
    requires Increasing(s, bound)
    ensures Increasing(s, bound + 1) && Increasing(s + [bound], bound + 1)
  {
    var longer := s + [bound];
    forall p | p in longer ensures p < bound + 1 {
      assert p in s || p == bound;
    }
    forall i, j | 0 <= i < j < |longer| ensures longer[i] < longer[j] {
      assert longer[i] == s[i];
      assert s[i] in s;
    }
  }

  /** The value a pair with the newest sample has after registration: its inliers when accepted, else what it was. */
  function RegisteredValue(m: Matching, g: Graph, pointSets: seq<PointSet>, current: nat, p: nat): int
    requires g.table.Valid() && p < |pointSets| && current < |pointSets|
  {
    var accepted := AcceptedPair(m, g, pointSets, current, p);
    if accepted.Some? then accepted.value.inliers else g.table.Value(current, p)
  }

  /** The table of accepted registrations: more than ten inliers always, exactly six only with a strong first metric. */
  predicate Acceptable(inliers: int, metricA: int, metricB: int) {
    || inliers > 10
    || (inliers == 6 && metricA >= 216)
    || (7 <= inliers <= 10 && (metricA >= 216 || (metricA >= 209 && metricB >= 65)))
  }

  /** The previous points register against the newest ones, with scores of the newest sample over the previous one. */
  predicate Passes(m: Matching, samples: seq<Sample>, pointSets: seq<PointSet>, current: nat, p: nat)
    requires p < |pointSets| && current < |pointSets|
  {
    var registration := m.register(pointSets[p], pointSets[current]);
    registration.Some? &&
    var scores := m.scores(samples, current, p, registration.value.transform);
    Acceptable(registration.value.inliers, scores.metricA, scores.metricB)
  }

  lemma AcceptedWhenPassing(m: Matching, g: Graph, pointSets: seq<PointSet>, current: nat, p: nat)
    requires p < |pointSets| && current < |pointSets|
    ensures AcceptedPair(m, g, pointSets, current, p)
      == if Passes(m, g.samples, pointSets, current, p) then m.register(pointSets[p], pointSets[current]) else None
    ensures AcceptedPair(m, g, pointSets, current, p).Some? <==> Passes(m, g.samples, pointSets, current, p)
  {}

  /** What a record of the table is after registration: that of a passing partner is its registration. */
  function RecordAfter(m: Matching, g: Graph, pointSets: seq<PointSet>, current: nat, a: nat, b: nat): Option<PairRelation>
    requires g.table.Valid() && current < |pointSets| && b < a
  {
    if a == current && Passes(m, g.samples, pointSets, current, b) then
      var registration := m.register(pointSets[b], pointSets[current]).value;
      Some(PairRelation(registration.inliers, registration.transform))
    else g.table.Record(a, b)
  }

  lemma WrittenRecord(m: Matching, g: Graph, current: nat, previous: nat, value: I32, transform: Affine, a: nat, b: nat)
    requires g.table.Valid() && previous < current < g.table.capacity && b < a
    ensures g.table.Write(m.ops, current, previous, value, transform).Record(a, b)
      == if a == current && b == previous then Some(PairRelation(value, transform)) else g.table.Record(a, b)
  {
    hide RelationTable.Record, RelationTable.Set;
    SetFrame(g.table, current, previous, PairRelation(value, transform), a, b);
  }

  /** Registration lists the passing partners in ascending order and records each one's inliers and transform; no other record changes. */
  lemma {:induction false} RegistersPassing(
    m: Matching, g: Graph, pointSets: seq<PointSet>, current: nat, previous: nat, successful: seq<nat>)
    requires g.table.Valid() && previous <= current < |pointSets| && current < g.table.capacity
    requires Increasing(successful, previous)
    ensures var (h, s) := RegisterFrom(m, g, pointSets, current, previous, successful);
      && h == g.(table := h.table) && h.table.capacity == g.table.capacity && Increasing(s, current)
      && (forall p: nat :: p in s <==>
            p in successful || (previous <= p < current && Passes(m, g.samples, pointSets, current, p)))
      && (forall a: nat, b: nat :: b < a ==>
            h.table.Record(a, b) == if previous <= b < current then RecordAfter(m, g, pointSets, current, a, b) else g.table.Record(a, b))
    decreases current - previous
  {
    hide PairIndex, RowBase, RelationTable.Set, RelationTable.Write, RelationTable.Record, Increasing, Passes;
    if previous < current {
      AcceptedWhenPassing(m, g, pointSets, current, previous);
      IncreasingPush(successful, previous);
      hide AcceptedPair;
      var accepted := AcceptedPair(m, g, pointSets, current, previous);
      var g1, s1 := g, successful;
      if accepted.Some? {
        var (value, transform) := (accepted.value.inliers, accepted.value.transform);
        g1, s1 := g.(table := g.table.Write(m.ops, current, previous, value, transform)), successful + [previous];
        forall a: nat, b: nat | b < a
          ensures g1.table.Record(a, b) == if a == current && b == previous then Some(PairRelation(value, transform)) else g.table.Record(a, b)
        {
          WrittenRecord(m, g, current, previous, value, transform, a, b);
        }
      }
      RegistersPassing(m, g1, pointSets, current, previous + 1, s1);
    }
  }

  /** Registration lists exactly the accepted partners, in ascending order, each recorded with its inlier count. */
  lemma {:induction false} RegisteredExactly(
    m: Matching, g: Graph, pointSets: seq<PointSet>, current: nat, previous: nat, successful: seq<nat>)
    requires g.table.Valid() && previous <= current < |pointSets| && current < g.table.capacity
    requires Increasing(successful, previous)
    ensures var (h, s) := RegisterFrom(m, g, pointSets, current, previous, successful);
      && Increasing(s, current)
      && (forall p: nat :: p in s <==>
            p in successful || (previous <= p < current && AcceptedPair(m, g, pointSets, current, p).Some?))
      && (forall p: nat :: p < previous ==> h.table.Value(current, p) == g.table.Value(current, p))
      && (forall p: nat :: previous <= p < current ==>
            h.table.Value(current, p) == RegisteredValue(m, g, pointSets, current, p))
    decreases current - previous
  {
    hide PairIndex, RowBase, RelationTable.Set, RelationTable.Write;
    if previous < current {
      var accepted := AcceptedPair(m, g, pointSets, current, previous);
      var g1, s1 := g, successful;
      if accepted.Some? {
        var (value, transform) := (accepted.value.inliers, accepted.value.transform);
        g1, s1 := g.(table := g.table.Write(m.ops, current, previous, value, transform)), successful + [previous];
        forall p: nat | p < current
          ensures g1.table.Value(current, p) == if p == previous then value else g.table.Value(current, p)
        {
          WriteFrame(m.ops, g.table, current, previous, value, transform, current, p);
        }
      }
      IncreasingPush(successful, previous);
      forall p: nat | p < current
        ensures AcceptedPair(m, g1, pointSets, current, p) == AcceptedPair(m, g, pointSets, current, p)
      {}
      hide AcceptedPair, RelationTable.Record, RelationTable.Value, Increasing;
      RegisteredExactly(m, g1, pointSets, current, previous + 1, s1);
    }
  }

  // ---- one add --------------------------------------------------------------------------------------------------

  /** Pushing an outsider behind the samples leaves the component as it was. */
  lemma PushReady(c: Core, input: AddInput)
    requires Consistent(c) && Fresh(input) && |c.pointSets| < c.configuredMax
    ensures Ready(Pushed(c, input).graph, |c.pointSets|)
    ensures forall i: nat :: Pushed(c, input).graph.Member(i) == c.graph.Member(i)
  {
    var g := Pushed(c, input).graph;
    forall i: nat
      ensures g.Member(i) == c.graph.Member(i)
    {
      if i < |c.pointSets| {
        assert g.samples[i] == c.graph.samples[i];
      }
    }
  }

  /** Direct records of the newest sample do not disturb the component. */
  lemma RegisterReady(m: Matching, g: Graph, pointSets: seq<PointSet>, current: nat)
    requires Ready(g, current) && current < |pointSets|
    ensures var (h, s) := RegisterFrom(m, g, pointSets, current, 0, []);
      && Ready(h, current)
      && (forall i: nat :: h.Member(i) == g.Member(i)) && h.established == g.established && h.anchor == g.anchor
      && |h.samples| == |g.samples| && h.table.capacity == g.table.capacity
      && forall p <- s :: p < current && h.table.Value(current, p) >= 6
  {
    hide RegisterFrom;
    RegisterKeeps(m, g, pointSets, current, 0, []);
    var (h, s) := RegisterFrom(m, g, pointSets, current, 0, []);
    assert forall i: nat :: h.Member(i) == g.Member(i);
    hide PairIndex, RowBase;
    forall i: nat | h.Member(i) && i != h.anchor && h.established
      ensures h.table.Value(i, h.anchor) >= 0
    {
      assert g.Member(i) && h.table.Record(i, g.anchor) == g.table.Record(i, g.anchor);
    }
    assert Component(h);
  }

  lemma RecordsExist(t: RelationTable, current: nat, partners: seq<nat>)
    requires t.Valid() && forall p <- partners :: t.Value(current, p) >= 6
    ensures forall p <- partners :: t.Record(current, p).Some?
  {
    hide RelationTable.Record;
  }

  lemma SyncedConsistent(c: Core)
    requires Component(c.graph)
    requires |c.graph.samples| == |c.pointSets| == |c.persistent| && |c.pointSets| <= c.configuredMax <= c.graph.table.capacity
    requires forall i :: 0 <= i < |c.persistent| ==> c.persistent[i].Some? ==>
      && c.persistent[i].value.sampleIndex == Truncated(i)
      && c.persistent[i].value.relationCheckpoint == Truncated(RelationTableCursor(i))
    ensures Consistent(Synced(c))
  {
    hide Component, Truncated, RelationTableCursor;
    var d := Synced(c);
    assert d.graph == c.graph && |d.persistent| == |c.persistent|;
    forall i | 0 <= i < |d.persistent|
      ensures RetainedAt(d, i)
    {
      assert c.persistent[i].Some? ==> d.persistent[i] == Some(c.persistent[i].value.(canonicalMember := c.graph.Member(i)));
    }
    assert Component(d.graph) && d.pointSets == c.pointSets && d.configuredMax == c.configuredMax;
  }

  /** Growth from one template state to the next: the anchor stays, members stay, earlier samples keep their content. */
  ghost predicate Evolves(c: Core, d: Core) {
    && d.configuredMax == c.configuredMax && d.graph.table.capacity == c.graph.table.capacity
    && (c.graph.established ==> d.graph.established && d.graph.anchor == c.graph.anchor)
    && (forall i: nat :: c.graph.Member(i) ==> d.graph.Member(i))
    && c.pointSets <= d.pointSets
    && |c.persistent| <= |d.persistent|
    && forall i :: 0 <= i < |c.persistent| ==> SameContent(c.persistent[i], d.persistent[i])
  }

  predicate SameContent(a: Option<PersistentSample>, b: Option<PersistentSample>) {
    (a.Some? <==> b.Some?) && (a.Some? ==> b.value.(canonicalMember := a.value.canonicalMember) == a.value)
  }

  lemma PushedEvolves(c: Core, input: AddInput, g: Graph)
    requires g.table.capacity == c.graph.table.capacity
    requires c.graph.established ==> g.established && g.anchor == c.graph.anchor
    requires forall i: nat :: c.graph.Member(i) ==> g.Member(i)
    ensures Evolves(c, Synced(Pushed(c, input).(graph := g)))
  {}

  lemma PushedRetains(c: Core, input: AddInput)
    requires Consistent(c)
    ensures var d := Pushed(c, input);
      forall i :: 0 <= i < |d.persistent| ==> d.persistent[i].Some? ==>
        && d.persistent[i].value.sampleIndex == Truncated(i)
        && d.persistent[i].value.relationCheckpoint == Truncated(RelationTableCursor(i))
  {
    hide Truncated, RelationTableCursor, Component;
    var d := Pushed(c, input);
    forall i | 0 <= i < |d.persistent| && d.persistent[i].Some?
      ensures d.persistent[i].value.sampleIndex == Truncated(i)
      ensures d.persistent[i].value.relationCheckpoint == Truncated(RelationTableCursor(i))
    {
      if i < |c.persistent| {
        assert RetainedAt(c, i) && d.persistent[i] == c.persistent[i];
      }
    }
  }

  /**
   Adding to a consistent template fails only at capacity, and then changes nothing; otherwise it appends one sample and
   the template stays consistent.
   */
  lemma AddKeepsConsistent(m: Matching, c: Core, input: AddInput)
    requires Consistent(c) && Fresh(input)
    ensures var (d, r) := Add(m, c, input);
      && Consistent(d) && Evolves(c, d)
      && (r.Err? <==> |c.pointSets| == c.configuredMax)
      && (r.Err? ==> r.error == CapacityReached(c.configuredMax) && d == c)
      && (r.Ok? ==> d.pointSets == c.pointSets + [input.points] && r.value.currentIndex == |c.pointSets|)
  {
    ConsistentTable(c);
    if |c.pointSets| < c.configuredMax {
      var current, pushed := |c.pointSets|, Pushed(c, input);
      PushReady(c, input);
      PushedRetains(c, input);
      var g := pushed.graph;
      hide Component, RegisterFrom, Integrate, Evolves, RetainedAt, Closed, Tracks, Truncated, RelationTableCursor;
      if current == 0 {
        ReadyComponent(g, current);
        PushedEvolves(c, input, g);
        SyncedConsistent(pushed);
      } else {
        RegisterReady(m, g, pushed.pointSets, current);
        var (registered, successful) := RegisterFrom(m, g, pushed.pointSets, current, 0, []);
        ReadyComponent(registered, current);
        RecordsExist(registered.table, current, successful);
        if successful == [] {
          PushedEvolves(c, input, registered);
          SyncedConsistent(pushed.(graph := registered));
        } else {
          var score := PairScore(m, registered.samples);
          IntegrationKeepsComponent(m.ops, registered, current, successful, input.threshold, score, m.metric);
          var h := Integrate(m.ops, registered, current, successful, input.threshold, score, m.metric).0;
          PushedEvolves(c, input, h);
          SyncedConsistent(pushed.(graph := h));
        }
      }
    } else {
      EvolvesSelf(c);
    }
  }

  lemma ConsistentTable(c: Core)
    requires Consistent(c)
    ensures c.graph.table.Valid()
  {}

  lemma ReadyComponent(g: Graph, current: nat)
    requires Ready(g, current)
    ensures Component(g) && g.table.Valid()
  {}

  lemma EvolvesSelf(c: Core)
    ensures Evolves(c, c)
  {}

  lemma EvolvesTransitive(c: Core, d: Core, e: Core)
    requires Evolves(c, d) && Evolves(d, e)
    ensures Evolves(c, e)
  {
    forall i | 0 <= i < |c.persistent|
      ensures SameContent(c.persistent[i], e.persistent[i])
    {
      assert SameContent(c.persistent[i], d.persistent[i]) && SameContent(d.persistent[i], e.persistent[i]);
    }
  }

  /** Every sequence of adds of fresh samples keeps the template consistent and only lets it grow. */
  lemma {:induction false} RunKeepsConsistent(m: Matching, c: Core, inputs: seq<AddInput>)
    requires Consistent(c) && forall input <- inputs :: Fresh(input)
    ensures Consistent(Run(m, c, inputs)) && Evolves(c, Run(m, c, inputs))
    decreases |inputs|
  {
    ConsistentTable(c);
    hide Add, Consistent, Evolves, Fresh;
    if inputs == [] {
      EvolvesSelf(c);
    } else {
      assert inputs[0] in inputs;
      AddKeepsConsistent(m, c, inputs[0]);
      var d := Add(m, c, inputs[0]).0;
      RunKeepsConsistent(m, d, inputs[1..]);
      EvolvesTransitive(c, d, Run(m, d, inputs[1..]));
    }
  }

  // ---- transforms over whole runs -------------------------------------------------------------------------------

  /** Every registration the add would accept agrees with the poses. */
  ghost predicate Agrees(m: Matching, pose: Poses, c: Core, input: AddInput) {
    var d, current := Pushed(c, input), |c.pointSets|;
    forall p: nat :: p < current && AcceptedPair(m, d.graph, d.pointSets, current, p).Some? ==>
      AcceptedPair(m, d.graph, d.pointSets, current, p).value.transform == Between(m.ops, pose, current, p)
  }

  lemma {:induction false} RegisterPosed(
    m: Matching, pose: Poses, g: Graph, pointSets: seq<PointSet>, current: nat, previous: nat, successful: seq<nat>)
    requires Exact(m.ops) && g.table.Valid() && Posed(m.ops, pose, g.table) && previous <= current < |pointSets|
    requires forall p: nat :: p < current && AcceptedPair(m, g, pointSets, current, p).Some? ==>
      AcceptedPair(m, g, pointSets, current, p).value.transform == Between(m.ops, pose, current, p)
    ensures Posed(m.ops, pose, RegisterFrom(m, g, pointSets, current, previous, successful).0.table)
    decreases current - previous
  {
    hide Exact, Posed, Between, RelationTable.Write;
    if previous < current {
      var accepted := AcceptedPair(m, g, pointSets, current, previous);
      var g1, s1 := g, successful;
      if accepted.Some? {
        WritePosed(m.ops, pose, g.table, current, previous, accepted.value.inliers);
        g1 := g.(table := g.table.Write(m.ops, current, previous, accepted.value.inliers, accepted.value.transform));
        s1 := successful + [previous];
      }
      assert forall p: nat | p < current :: AcceptedPair(m, g1, pointSets, current, p) == AcceptedPair(m, g, pointSets, current, p);
      hide AcceptedPair;
      RegisterPosed(m, pose, g1, pointSets, current, previous + 1, s1);
    }
  }

  /** An add whose registrations agree with the poses leaves every stored transform in agreement with them. */
  lemma AddKeepsPoses(m: Matching, pose: Poses, c: Core, input: AddInput)
    requires Exact(m.ops) && Consistent(c) && Fresh(input) && Posed(m.ops, pose, c.graph.table) && Agrees(m, pose, c, input)
    ensures Posed(m.ops, pose, Add(m, c, input).0.graph.table)
  {
    ConsistentTable(c);
    var current, pushed := |c.pointSets|, Pushed(c, input);
    if 0 < current < c.configuredMax {
      var g := pushed.graph;
      PushReady(c, input);
      assert g.table == c.graph.table;
      RegisterPosed(m, pose, g, pushed.pointSets, current, 0, []);
      RegisterReady(m, g, pushed.pointSets, current);
      hide Exact, Posed, Between, RegisterFrom, Integrate, Component, AcceptedPair;
      var (registered, successful) := RegisterFrom(m, g, pushed.pointSets, current, 0, []);
      if successful != [] {
        var score := PairScore(m, registered.samples);
        IntegrationKeepsPoses(m.ops, pose, registered, current, successful, input.threshold, score, m.metric);
      }
    }
  }

  /** Along the whole run, every accepted registration agrees with the poses. */
  ghost predicate AgreesAlong(m: Matching, pose: Poses, c: Core, inputs: seq<AddInput>)
    requires c.graph.table.Valid()
    decreases |inputs|
  {
    inputs == [] || (Agrees(m, pose, c, inputs[0]) && AgreesAlong(m, pose, Add(m, c, inputs[0]).0, inputs[1..]))
  }

  /**
   If direct registrations always agree with one assignment of poses, so does every record of the final table, however
   many samples were attached, promoted or reached by closure on the way.
   */
  lemma {:induction false} RunKeepsPoses(m: Matching, pose: Poses, c: Core, inputs: seq<AddInput>)
    requires Exact(m.ops) && Consistent(c) && Posed(m.ops, pose, c.graph.table)
    requires (forall input <- inputs :: Fresh(input)) && AgreesAlong(m, pose, c, inputs)
    ensures Posed(m.ops, pose, Run(m, c, inputs).graph.table)
    decreases |inputs|
  {
    ConsistentTable(c);
    hide Exact, Posed, Add, Consistent, Evolves, Fresh, Agrees;
    if inputs != [] {
      assert inputs[0] in inputs;
      AddKeepsConsistent(m, c, inputs[0]);
      AddKeepsPoses(m, pose, c, inputs[0]);
      RunKeepsPoses(m, pose, Add(m, c, inputs[0]).0, inputs[1..]);
    }
  }

  lemma EmptyPosed(ops: AffineOps, pose: Poses, storageCapacity: nat)
    ensures Posed(ops, pose, EmptyTable(storageCapacity))
  {
    var t := EmptyTable(storageCapacity);
    forall a: nat, b: nat
      ensures t.Value(a, b) == -1
    {
      if a != b && a < storageCapacity && b < storageCapacity {
        PairIndexBound(a, b, storageCapacity);
      }
    }
  }

  /** In particular from an empty template on: every record of what was enrolled agrees with the poses. */
  lemma EnrolledPosed(m: Matching, pose: Poses, storageCapacity: nat, configuredMax: nat, inputs: seq<AddInput>)
    requires Exact(m.ops) && configuredMax <= storageCapacity && forall input <- inputs :: Fresh(input)
    requires AgreesAlong(m, pose, Empty(storageCapacity, configuredMax), inputs)
    ensures Posed(m.ops, pose, Run(m, Empty(storageCapacity, configuredMax), inputs).graph.table)
  {
    hide Exact, Posed, Run, AgreesAlong, Consistent, EmptyTable;
    EmptyConsistent(storageCapacity, configuredMax);
    EmptyPosed(m.ops, pose, storageCapacity);
    RunKeepsPoses(m, pose, Empty(storageCapacity, configuredMax), inputs);
  }

  /** The acceptance table is monotone: more inliers or better metrics never lose an accepted registration. */
  lemma AcceptsMonotone(i: nat, a: int, b: int, i': nat, a': int, b': int)
    requires i <= i' && a <= a' && b <= b' && Accepts(i, a, b)
    ensures i > 5 && Accepts(i', a', b')
  {}
}
