/**
 When an add fails, whatever the samples claim: exactly, for every template any sequence of adds can reach, and what a
 sample that arrives with its membership flag already set does to the template.
 */
module EnrollmentFailures {
  import opened Wrappers
  import opened Bytes
  import opened Relations
  import opened GraphModel
  import opened GraphProofs
  import opened GraphFailures
  import opened EnrollmentModel
  import opened EnrollmentProofs

  // ---- every reachable template ---------------------------------------------------------------------------------

  /** What every add keeps, of marked samples too: the anchor is a member, and samples to come have no records. */
  ghost predicate Reachable(c: Core) {
    && Rooted(c.graph)
    && |c.graph.samples| == |c.pointSets| == |c.persistent|
    && |c.pointSets| <= c.configuredMax <= c.graph.table.capacity
    && Blank(c.graph)
  }

  /** Samples that do not exist yet have no records. */
  ghost predicate Blank(g: Graph)
    requires g.table.Valid()
  {
    forall a: nat, b: nat :: a >= |g.samples| ==> g.table.Value(a, b) == -1
  }

  lemma EmptyReachable(storageCapacity: nat, configuredMax: nat)
    requires configuredMax <= storageCapacity
    ensures Reachable(Empty(storageCapacity, configuredMax))
  {
    var t := EmptyTable(storageCapacity);
    forall a: nat, b: nat
      ensures t.Value(a, b) == -1
    {
      if a != b && a < storageCapacity && b < storageCapacity {
        PairIndexBound(a, b, storageCapacity);
      }
    }
  }

  /** The graph and the partners an integration of the input would start from. */
  function Registered(m: Matching, c: Core, input: AddInput): (Graph, seq<nat>)
    requires c.graph.table.Valid()
  {
    var pushed := Pushed(c, input);
    RegisterFrom(m, pushed.graph, pushed.pointSets, |c.pointSets|, 0, [])
  }

  /** Registration leaves all but the rows of the newest sample alone. */
  lemma RegisteredFacts(m: Matching, c: Core, input: AddInput)
    requires Reachable(c) && |c.pointSets| < c.configuredMax
    ensures c.graph.table.Valid()
    ensures var (g, s) := Registered(m, c, input);
      && Rooted(g) && g.anchor == c.graph.anchor && g.established == c.graph.established
      && (g.established ==> g.anchor < |c.pointSets|)
      && g.samples == c.graph.samples + [input.sample] && g.table.capacity == c.graph.table.capacity
      && (forall p <- s :: p < |c.pointSets| && g.table.Value(|c.pointSets|, p) >= 6 && g.table.Record(|c.pointSets|, p).Some?)
      && (forall a: nat, b: nat :: a != |c.pointSets| && b != |c.pointSets| ==>
            g.table.Record(a, b) == c.graph.table.Record(a, b))
      && (forall p: nat :: p < |c.pointSets| && p !in s ==> g.table.Value(|c.pointSets|, p) == -1)
      && Increasing(s, |c.pointSets|)
  {
    hide RegisterFrom;
    var pushed, current := Pushed(c, input), |c.pointSets|;
    RegisterKeeps(m, pushed.graph, pushed.pointSets, current, 0, []);
    RegisteredExactly(m, pushed.graph, pushed.pointSets, current, 0, []);
    var (g, s) := Registered(m, c, input);
    RecordsExist(g.table, current, s);
    hide RelationTable.Record, RelationTable.Value, AcceptedPair;
    forall p: nat | p < current && p !in s
      ensures g.table.Value(current, p) == -1
    {
      assert RegisteredValue(m, pushed.graph, pushed.pointSets, current, p) == c.graph.table.Value(current, p) == -1;
    }
  }

  /** An add as its outcome on the integrated graph. */
  lemma AddOutcome(m: Matching, c: Core, input: AddInput)
    requires Reachable(c) && c.graph.table.Valid() && |c.pointSets| < c.configuredMax
    ensures var (d, r) := Add(m, c, input);
      var (g, s) := Registered(m, c, input);
      var current, pushed := |c.pointSets|, Pushed(c, input);
      var (h, i) := Integrate(m.ops, g, current, s, input.threshold, PairScore(m, g.samples), m.metric);
      if current == 0 then d == Synced(pushed) && r == Ok(AddResult(FirstSample, 0, [], None))
      else if s == [] then d == Synced(pushed.(graph := g)) && r == Ok(AddResult(NoSuccessfulPrevious, current, [], None))
      else if i.Err? then d == pushed.(graph := h) && r == Err(GraphFailed(i.error))
      else d == Synced(pushed.(graph := h)) && r == Ok(AddResult(Integrated, current, s, Some(i.value)))
  {
    hide RegisterFrom, Integrate;
  }

  lemma SyncedReachable(c: Core, input: AddInput, g: Graph)
    requires Reachable(c) && |c.pointSets| < c.configuredMax
    requires Rooted(g) && |g.samples| == |c.pointSets| + 1 && g.table.capacity == c.graph.table.capacity && Blank(g)
    ensures Reachable(Pushed(c, input).(graph := g)) && Reachable(Synced(Pushed(c, input).(graph := g)))
  {
    hide Rooted, Blank;
  }

  lemma PushedRooted(c: Core, input: AddInput)
    requires Reachable(c)
    ensures Rooted(Pushed(c, input).graph) <== |c.pointSets| < c.configuredMax
    ensures Blank(Pushed(c, input).graph)
  {}

  /** Registration writes no row behind the newest sample. */
  lemma {:induction false} RegisterSameAhead(
    m: Matching, g: Graph, pointSets: seq<PointSet>, current: nat, previous: nat, successful: seq<nat>)
    requires g.table.Valid() && previous <= current < |pointSets| && current < g.table.capacity
    ensures var h := RegisterFrom(m, g, pointSets, current, previous, successful).0;
      forall a: nat, b: nat :: a > current ==> h.table.Record(a, b) == g.table.Record(a, b)
    decreases current - previous
  {
    hide PairIndex, RowBase, RelationTable.Set, RelationTable.Write, AcceptedPair;
    if previous < current {
      var accepted := AcceptedPair(m, g, pointSets, current, previous);
      if accepted.None? {
        RegisterSameAhead(m, g, pointSets, current, previous + 1, successful);
      } else {
        var (value, transform) := (accepted.value.inliers, accepted.value.transform);
        var g1 := g.(table := g.table.Write(m.ops, current, previous, value, transform));
        forall a: nat, b: nat | a > current
          ensures g1.table.Record(a, b) == g.table.Record(a, b)
        {
          WriteFrame(m.ops, g.table, current, previous, value, transform, a, b);
        }
        hide RelationTable.Record;
        RegisterSameAhead(m, g1, pointSets, current, previous + 1, successful + [previous]);
      }
    }
  }

  lemma RegisteredBlank(m: Matching, c: Core, input: AddInput)
    requires Reachable(c) && c.graph.table.Valid() && |c.pointSets| < c.configuredMax
    ensures Registered(m, c, input).0.table.Valid() && Blank(Registered(m, c, input).0)
  {
    RegisteredFacts(m, c, input);
    var pushed := Pushed(c, input);
    hide RegisterFrom, RelationTable.Record;
    RegisterSameAhead(m, pushed.graph, pushed.pointSets, |c.pointSets|, 0, []);
    var g := Registered(m, c, input).0;
    forall a: nat, b: nat | a >= |g.samples|
      ensures g.table.Value(a, b) == -1
    {
      assert g.table.Record(a, b) == c.graph.table.Record(a, b) && c.graph.table.Value(a, b) == -1;
    }
  }

  lemma SameAheadBlank(g: Graph, h: Graph)
    requires SameAhead(g, h) && Blank(g)
    ensures Blank(h)
  {
    hide RelationTable.Record;
    forall a: nat, b: nat | a >= |h.samples|
      ensures h.table.Value(a, b) == -1
    {
      assert h.table.Record(a, b) == g.table.Record(a, b) && g.table.Value(a, b) == -1;
    }
  }

  ghost predicate FailsWith(m: Matching, g: Graph, current: nat, partners: seq<nat>, threshold: int)
    requires g.table.Valid()
  {
    Fails(m.ops, g, current, partners, threshold, PairScore(m, g.samples))
  }

  /**
   Whatever the samples claim: an add fails at capacity, and otherwise if and only if the newest sample has a successful
   partner and the stated condition holds of the graph with its registrations.  Every template stays reachable.
   */
  lemma AddFailsExactly(m: Matching, c: Core, input: AddInput)
    requires Reachable(c) && c.graph.table.Valid()
    ensures var (d, r) := Add(m, c, input);
      var (g, s) := Registered(m, c, input);
      && Reachable(d)
      && (|c.pointSets| == c.configuredMax ==> r == Err(CapacityReached(c.configuredMax)) && d == c)
      && (|c.pointSets| < c.configuredMax ==>
            && (r.Err? <==> |c.pointSets| > 0 && s != [] && FailsWith(m, g, |c.pointSets|, s, input.threshold))
            && (r.Err? ==> r.error.GraphFailed? && r.error.error.MissingCanonicalTransform?))
  {
    if |c.pointSets| < c.configuredMax {
      RegisteredFacts(m, c, input);
      RegisteredBlank(m, c, input);
      PushedRooted(c, input);
      AddOutcome(m, c, input);
      hide RegisterFrom, Integrate, Add, Registered, Rooted, Fails, Blank, Synced, Pushed, Increasing, RelationTable.Record,
        Reachable;
      var (g, s) := Registered(m, c, input);
      var score := PairScore(m, g.samples);
      if |c.pointSets| == 0 {
        SyncedReachable(c, input, Pushed(c, input).graph);
        PushedGraph(c, input);
      } else if s == [] {
        SyncedReachable(c, input, g);
      } else {
        IntegrationFailsExactly(m.ops, g, |c.pointSets|, s, input.threshold, score, m.metric);
        var h := Integrate(m.ops, g, |c.pointSets|, s, input.threshold, score, m.metric).0;
        SameAheadBlank(g, h);
        SyncedReachable(c, input, h);
      }
    }
  }

  lemma PushedGraph(c: Core, input: AddInput)
    ensures Pushed(c, input).(graph := Pushed(c, input).graph) == Pushed(c, input)
  {}

  /** Every sequence of adds, of marked samples too, stays reachable. */
  lemma {:induction false} RunKeepsReachable(m: Matching, c: Core, inputs: seq<AddInput>)
    requires Reachable(c) && c.graph.table.Valid()
    ensures Reachable(Run(m, c, inputs))
    decreases |inputs|
  {
    hide Add, Reachable, Registered, Fails, RegisterFrom;
    if inputs != [] {
      AddFailsExactly(m, c, inputs[0]);
      RunKeepsReachable(m, Add(m, c, inputs[0]).0, inputs[1..]);
    }
  }

  // ---- consistent templates -------------------------------------------------------------------------------------

  lemma ConsistentReachable(c: Core)
    requires Consistent(c) && c.graph.table.Valid() && Blank(c.graph)
    ensures Reachable(c)
  {
    hide Blank, RetainedAt;
  }

  /** The graph with its registrations, the newest sample's own claim taken back. */
  function Unclaimed(g: Graph, current: nat): Graph
    requires current < |g.samples|
  {
    g.(samples := g.samples[current := g.samples[current].(canonicalMember := false)])
  }

  /** Registrations leave a consistent template intact, whatever the newest sample claims. */
  lemma RegisteredIntact(m: Matching, c: Core, input: AddInput)
    requires Consistent(c) && c.graph.table.Valid() && Blank(c.graph) && |c.pointSets| < c.configuredMax
    ensures Reachable(c)
    ensures var (g, s) := Registered(m, c, input);
      && g.table.Valid() && Intact(g, |c.pointSets|)
      && (forall i: nat :: i < |c.pointSets| ==> g.Member(i) == c.graph.Member(i))
      && |g.samples| == |c.pointSets| + 1 && g.Member(|c.pointSets|) == !Fresh(input)
      && Ready(Unclaimed(g, |c.pointSets|), |c.pointSets|)
      && (g.established ==> (HasRecord(g, |c.pointSets|) <==> g.anchor in s))
  {
    ConsistentReachable(c);
    RegisteredFacts(m, c, input);
    hide Registered, RetainedAt, Blank, Reachable, Increasing, RelationTable.Record;
    var (g, s) := Registered(m, c, input);
    var current, u := |c.pointSets|, Unclaimed(g, |c.pointSets|);
    forall i: nat
      ensures i < current ==> g.Member(i) == c.graph.Member(i)
      ensures u.Member(i) == c.graph.Member(i)
    {}
    if g.established {
      forall i: nat | i < current && g.Member(i) && i != g.anchor
        ensures g.table.Value(i, g.anchor) >= 0
      {
        assert g.table.Record(i, g.anchor) == c.graph.table.Record(i, g.anchor);
      }
    }
  }

  /**
   On a consistent template an add below capacity fails if and only if its sample claims membership, a component exists,
   and the sample has successful partners none of which is a member; the transform it misses is its own.
   */
  lemma ClaimFailsExactly(m: Matching, c: Core, input: AddInput)
    requires Consistent(c) && c.graph.table.Valid() && Blank(c.graph) && |c.pointSets| < c.configuredMax
    ensures var r, s := Add(m, c, input).1, Registered(m, c, input).1;
      && (r.Err? <==> !Fresh(input) && c.graph.established && s != [] && forall p <- s :: !c.graph.Member(p))
      && (r.Err? ==> r == Err(GraphFailed(MissingCanonicalTransform(|c.pointSets|, c.graph.anchor))))
  {
    RegisteredIntact(m, c, input);
    RegisteredFacts(m, c, input);
    AddOutcome(m, c, input);
    hide Registered, Add, Integrate, Consistent, Blank, Reachable, Increasing, RelationTable.Record, RelationTable.Value, Ready,
      HasRecord, Intact, Fresh;
    var (g, s) := Registered(m, c, input);
    assert s != [] ==> s[0] in s;
    if s != [] && |c.pointSets| > 0 {
      IntactFailsExactly(m.ops, g, |c.pointSets|, s, input.threshold, PairScore(m, g.samples), m.metric);
      assert g.established ==> g.Member(g.anchor) by { AnchorMember(c); }
    }
  }

  lemma AnchorMember(c: Core)
    requires Consistent(c)
    ensures c.graph.established ==> c.graph.Member(c.graph.anchor)
  {}

  lemma UnclaimedBack(g: Graph, current: nat)
    requires current < |g.samples| && g.Member(current)
    ensures Mark(Unclaimed(g, current), current) == g
  {}

  /** A claim that is not granted leaves a template that is no longer consistent. */
  lemma ClaimBreaks(c: Core, current: nat)
    requires c.graph.table.Valid() && c.graph.Member(current)
    requires !c.graph.established || !HasRecord(c.graph, current)
    ensures !Consistent(c)
  {
    hide RetainedAt;
  }

  /** When the unclaimed sample would have become a member, the claim makes no difference to the graph. */
  lemma GrantedClaim(m: Matching, c: Core, input: AddInput)
    requires Consistent(c) && c.graph.table.Valid() && Blank(c.graph) && |c.pointSets| < c.configuredMax && !Fresh(input)
    requires var (g, s) := Registered(m, c, input);
      && |g.samples| == |c.pointSets| + 1 && g.table.Valid() && (forall p <- s :: p < |c.pointSets|) && s != []
      && Based(m.ops, Unclaimed(g, |c.pointSets|), |c.pointSets|, s, input.threshold, PairScore(m, g.samples)).Member(|c.pointSets|)
    ensures var (d, r) := Add(m, c, input);
      r.Ok? && r.value.kind == Integrated && d.graph.established && Consistent(d)
  {
    var current, pushed := |c.pointSets|, Pushed(c, input);
    RegisteredIntact(m, c, input);
    RegisteredFacts(m, c, input);
    AddOutcome(m, c, input);
    PushedRetains(c, input);
    hide Registered, Add, Integrate, Blank, Reachable, Increasing, RelationTable.Record, RelationTable.Value, Ready, Based,
      HasRecord, Intact, RegisterFrom, Component, Truncated, RelationTableCursor, Closed, Tracks;
    var (g, s) := Registered(m, c, input);
    var u, score := Unclaimed(g, current), PairScore(m, g.samples);
    assert s[0] in s;
    UnclaimedBack(g, current);
    MarkedIntegration(m.ops, u, current, s, input.threshold, score, m.metric);
    IntegrationKeepsComponent(m.ops, u, current, s, input.threshold, score, m.metric);
    var h := Integrate(m.ops, g, current, s, input.threshold, score, m.metric).0;
    TracksMember(Based(m.ops, u, current, s, input.threshold, score), current, h,
      Integrate(m.ops, g, current, s, input.threshold, score, m.metric).1.value.promoted);
    SyncedConsistent(pushed.(graph := h));
  }

  lemma TracksMember(base: Graph, current: nat, g: Graph, q: seq<nat>)
    requires Tracks(base, current, g, q) && base.Member(current)
    ensures g.Member(current) && g.established
  {}

  /** Without a component and without founding one, an integration changes nothing. */
  lemma IdleIntegration(
    ops: AffineOps, g: Graph, current: nat, previous: seq<nat>, threshold: int, score: Score, metric: Metric)
    requires g.table.Valid() && !g.established && current + 1 == |g.samples|
    requires forall p <- previous :: p < current && g.table.Record(current, p).Some?
    requires !Founds(ops, g, current, previous, threshold, score)
    ensures Integrate(ops, g, current, previous, threshold, score, metric).0 == g
  {
    hide Founds, Establish, Strongest;
    Phases(ops, g, current, previous, threshold, score, metric);
    EstablishIdle(ops, g, current, previous, threshold, score);
    PromoteIdle(ops, g, current, previous, threshold, score);
  }

  /** The unclaimed sample becomes a member exactly when a partner is one, or when a component is founded. */
  lemma GrantedExactly(
    ops: AffineOps, g: Graph, current: nat, previous: seq<nat>, threshold: int, score: Score)
    requires Ready(g, current) && forall p <- previous :: p < current && g.table.Record(current, p).Some?
    ensures g.table.Valid()
    ensures Based(ops, g, current, previous, threshold, score).Member(current) <==>
      if g.established then exists p :: p in previous && g.Member(p)
      else Founds(ops, Mark(g, current), current, previous, threshold, score)
  {
    hide RelationTable.Record, Strongest;
    ReadyComponent(g, current);
    BasedStep(ops, g, current, previous, threshold, score);
    if g.established {
      AttachStep(ops, g, current, previous);
    } else {
      StrongestUnmarked(ops, g, current, previous, false);
      EstablishStep(ops, g, current, previous, threshold, score);
      StrongestIn(ops, g, current, previous, false);
    }
  }

  /** The anchor of the component an integration would found. */
  function FoundedAnchor(ops: AffineOps, g: Graph, current: nat, previous: seq<nat>, threshold: int, score: Score)
    : (anchor: Option<nat>)
    requires g.table.Valid()
  {
    if Founds(ops, g, current, previous, threshold, score) then
      Some(Strongest(ops, g, current, previous, false).value.index)
    else None
  }

  /** The anchor of the component an add would found. */
  function AddFounds(m: Matching, c: Core, input: AddInput): Option<nat>
    requires c.graph.table.Valid()
  {
    var (g, s) := Registered(m, c, input);
    FoundedAnchor(m.ops, g, |c.pointSets|, s, input.threshold, PairScore(m, g.samples))
  }

  /**
   Whether a claim is one the template would have granted anyway: the sample has successful partners, and one of them is a
   member, or they found a component.
   */
  ghost predicate Granted(m: Matching, c: Core, input: AddInput)
    requires c.graph.table.Valid()
  {
    var s := Registered(m, c, input).1;
    && |c.pointSets| > 0 && s != []
    && if c.graph.established then exists p :: p in s && c.graph.Member(p) else AddFounds(m, c, input).Some?
  }

  /** An integration that fails on the newest sample's own transform has changed nothing. */
  lemma RefusedIntegration(
    ops: AffineOps, g: Graph, current: nat, previous: seq<nat>, threshold: int, score: Score, metric: Metric)
    requires Rooted(g) && g.established && g.anchor < current && current + 1 == |g.samples|
    requires forall p <- previous :: p < current && g.table.Record(current, p).Some?
    requires (forall p <- previous :: !g.Member(p)) && g.Member(current) && !HasRecord(g, current)
    ensures Integrate(ops, g, current, previous, threshold, score, metric)
      == (g, Err(MissingCanonicalTransform(current, g.anchor)))
  {
    hide Strongest, Establish, Novelty, Integrate, RelationTable.Record, RequireAnchor, HasRecord, PromoteDirect, Close;
    StrongestExists(ops, g, current, previous, true);
    Phases(ops, g, current, previous, threshold, score, metric);
    EstablishIdle(ops, g, current, previous, threshold, score);
    AnchorExactly(ops, g, current);
  }

  /**
   A sample that claims membership leaves a consistent template consistent if and only if the claim is granted.  Otherwise
   the add reports success on a template that is no longer consistent, or it fails and leaves the sample behind: pushed,
   with its registrations, claim included and the persisted flags not copied.
   */
  lemma ClaimConsistentExactly(m: Matching, c: Core, input: AddInput)
    requires Consistent(c) && c.graph.table.Valid() && Blank(c.graph) && |c.pointSets| < c.configuredMax && !Fresh(input)
    ensures var (d, r) := Add(m, c, input);
      && (Consistent(d) <==> Granted(m, c, input))
      && (r.Err? ==>
            && d == Pushed(c, input).(graph := Registered(m, c, input).0)
            && d != c && |d.pointSets| == |c.pointSets| + 1 && !Consistent(d))
  {
    var current := |c.pointSets|;
    RegisteredIntact(m, c, input);
    RegisteredFacts(m, c, input);
    AddOutcome(m, c, input);
    hide Registered, Add, Integrate, Blank, Reachable, Increasing, RelationTable.Record, RelationTable.Value, Ready, Based,
      Intact, RegisterFrom, Consistent, Truncated, RelationTableCursor, Founds, HasRecord;
    var (g, s) := Registered(m, c, input);
    var d, score := Add(m, c, input).0, PairScore(m, g.samples);
    assert s != [] ==> s[0] in s;
    if current == 0 {
      FirstUnestablished(c);
      ClaimBreaks(d, current);
    } else if s == [] {
      AnchorMember(c);
      ClaimBreaks(d, current);
    } else {
      GrantedExactly(m.ops, Unclaimed(g, current), current, s, input.threshold, score);
      UnclaimedBack(g, current);
      if Based(m.ops, Unclaimed(g, current), current, s, input.threshold, score).Member(current) {
        GrantedClaim(m, c, input);
      } else if g.established {
        AnchorMember(c);
        RefusedIntegration(m.ops, g, current, s, input.threshold, score, m.metric);
        ClaimBreaks(d, current);
      } else {
        ClaimFailsExactly(m, c, input);
        IdleIntegration(m.ops, g, current, s, input.threshold, score, m.metric);
        ClaimBreaks(d, current);
      }
    }
  }

  lemma FirstUnestablished(c: Core)
    requires Consistent(c)
    ensures |c.pointSets| == 0 ==> !c.graph.established
  {}

  // ---- after a marked first sample ------------------------------------------------------------------------------

  /** No component yet, and sample 0 the only one that claims membership. */
  ghost predicate FirstClaims(c: Core) {
    Reachable(c) && c.pointSets != [] && !c.graph.established && forall i: nat :: c.graph.Member(i) <==> i == 0
  }

  /** A first sample that claims membership is accepted, into a template that is not consistent. */
  lemma FirstClaimAccepted(m: Matching, storageCapacity: nat, configuredMax: nat, input: AddInput)
    requires 0 < configuredMax <= storageCapacity && !Fresh(input)
    ensures var (d, r) := Add(m, Empty(storageCapacity, configuredMax), input);
      r == Ok(AddResult(FirstSample, 0, [], None)) && FirstClaims(d) && !Consistent(d)
  {
    var c := Empty(storageCapacity, configuredMax);
    EmptyReachable(storageCapacity, configuredMax);
    AddFailsExactly(m, c, input);
    hide Reachable;
    ClaimBreaks(Add(m, c, input).0, 0);
  }

  /** With sample 0 the only claimed member, the founded component lacks exactly its record. */
  lemma LaterIntegration(
    ops: AffineOps, g: Graph, current: nat, previous: seq<nat>, threshold: int, score: Score, metric: Metric)
    requires Rooted(g) && !g.established && 0 < current && current + 1 == |g.samples| && forall i: nat :: g.Member(i) <==> i == 0
    requires forall p <- previous :: p < current && g.table.Record(current, p).Some?
    ensures var (h, r) := Integrate(ops, g, current, previous, threshold, score, metric);
      var anchor := FoundedAnchor(ops, g, current, previous, threshold, score);
      && (anchor.Some? ==> anchor.value in previous)
      && (r.Err? <==> anchor.Some? && Stray(g, anchor.value, current, 0))
      && (r.Err? ==> r == Err(MissingCanonicalTransform(0, anchor.value)))
      && (anchor.None? ==> h == g)
  {
    hide Integrate, RelationTable.Record, RelationTable.Value, Rooted, Strongest;
    RootedValid(g);
    StrongestIn(ops, g, current, previous, false);
    UnestablishedFailsExactly(ops, g, current, previous, threshold, score, metric);
    if !Founds(ops, g, current, previous, threshold, score) {
      IdleIntegration(ops, g, current, previous, threshold, score, metric);
    }
  }

  lemma LaterMembers(m: Matching, c: Core, input: AddInput)
    requires FirstClaims(c) && Fresh(input) && |c.pointSets| < c.configuredMax
    ensures c.graph.table.Valid() && Reachable(c)
    ensures var g := Registered(m, c, input).0;
      && (forall i: nat :: g.Member(i) <==> i == 0) && (forall i: nat :: Pushed(c, input).graph.Member(i) <==> i == 0)
  {
    RegisteredFacts(m, c, input);
    hide Registered, Blank, Increasing, RelationTable.Record, Rooted;
    var g := Registered(m, c, input).0;
    forall i: nat
      ensures g.Member(i) <==> i == 0
      ensures Pushed(c, input).graph.Member(i) <==> i == 0
    {
      if i < |c.pointSets| {
        assert g.samples[i] == c.graph.samples[i];
        assert c.graph.Member(i) <==> i == 0;
      }
    }
  }

  /**
   After a marked first sample, a later add fails if and only if it founds a component on another sample that has no
   usable relation to the first one, unless the first one has status 5.  Until a component is founded nothing changes.
   */
  lemma LaterAddFailsExactly(m: Matching, c: Core, input: AddInput)
    requires FirstClaims(c) && Fresh(input) && |c.pointSets| < c.configuredMax
    ensures c.graph.table.Valid() && c.graph.samples != []
    ensures var (d, r) := Add(m, c, input);
      var anchor := AddFounds(m, c, input);
      && (r.Err? <==> anchor.Some? && Stray(c.graph, anchor.value, |c.pointSets|, 0))
      && (r.Err? ==> r == Err(GraphFailed(MissingCanonicalTransform(0, anchor.value))))
      && (anchor.None? ==> r.Ok? && FirstClaims(d))
  {
    var current := |c.pointSets|;
    LaterMembers(m, c, input);
    RegisteredFacts(m, c, input);
    AddOutcome(m, c, input);
    AddFailsExactly(m, c, input);
    hide Registered, Add, Integrate, Blank, Reachable, Increasing, RelationTable.Record, Rooted, FoundedAnchor, Founds,
      FailsWith, RelationTable.Value, Synced, Stray;
    FirstClaimsSizes(c);
    var (g, s) := Registered(m, c, input);
    var score := PairScore(m, g.samples);
    if s == [] {
      NothingFounded(m.ops, g, current, input.threshold, score);
      SyncKeeps(Pushed(c, input).(graph := g));
    } else {
      LaterIntegration(m.ops, g, current, s, input.threshold, score, m.metric);
      SyncKeeps(Pushed(c, input).(graph := g));
      var anchor := FoundedAnchor(m.ops, g, current, s, input.threshold, score);
      if anchor.Some? {
        assert anchor.value in s;
        SameStray(c.graph, g, anchor.value, current);
      }
    }
  }

  lemma FirstClaimsSizes(c: Core)
    requires FirstClaims(c)
    ensures |c.graph.samples| == |c.pointSets| > 0 && !c.graph.established
  {}

  lemma NothingFounded(ops: AffineOps, g: Graph, current: nat, threshold: int, score: Score)
    requires g.table.Valid()
    ensures FoundedAnchor(ops, g, current, [], threshold, score).None?
  {}

  lemma SyncKeeps(c: Core)
    ensures Synced(c).graph == c.graph && Synced(c).pointSets == c.pointSets
  {}

  lemma SameStray(c: Graph, g: Graph, anchor: nat, current: nat)
    requires c.table.Valid() && g.table.Valid() && 0 < |c.samples| == current < |g.samples| && anchor < current
    requires g.samples[..current] == c.samples && g.table.Record(0, anchor) == c.table.Record(0, anchor)
    ensures Stray(g, anchor, current, 0) == Stray(c, anchor, current, 0)
  {
    hide RelationTable.Record;
    assert g.samples[..current][0] == g.samples[0];
  }

  // ---- concrete failing runs ------------------------------------------------------------------------------------

  /** A sample with that many points, fresh or claiming membership. */
  function Plain(points: nat, claims: bool): AddInput {
    AddInput(seq(points, _ => RegistrationPoint(0, 0, [])),
      Sample(claims, 0, Zeros(MAP_BYTES), None, Zeros(MAP_BYTES)), None, 0)
  }

  /** Registration succeeds for the listed pairs of point counts; every score is 1. */
  function Pairing(pairs: set<(nat, nat)>): Matching {
    Matching(
      AffineOps((a: Affine, b: Affine) => a, (a: Affine) => a),
      (p: PointSet, q: PointSet) => if (|p|, |q|) in pairs then Some(Registration(11, IDENTITY)) else None,
      (samples: seq<Sample>, i: nat, j: nat, t: Affine) => MapScores(1, 0, 0),
      (mask: Bitmap, others: seq<Affine>) => 0)
  }

  lemma PairAccepted(pairs: set<(nat, nat)>, g: Graph, pointSets: seq<PointSet>, current: nat, previous: nat)
    requires previous < |pointSets| && current < |pointSets|
    ensures AcceptedPair(Pairing(pairs), g, pointSets, current, previous)
      == if (|pointSets[previous]|, |pointSets[current]|) in pairs then Some(Registration(11, IDENTITY)) else None
  {}

  /** The partners of sample `current` are the earlier samples whose pair is listed. */
  lemma PlainPartners(pairs: set<(nat, nat)>, c: Core, points: nat, claims: bool)
    requires Reachable(c) && c.graph.table.Valid() && |c.pointSets| < c.configuredMax
    ensures var s := Registered(Pairing(pairs), c, Plain(points, claims)).1;
      && Increasing(s, |c.pointSets|)
      && forall p: nat :: p in s <==> p < |c.pointSets| && (|c.pointSets[p]|, points) in pairs
  {
    hide RegisterFrom, Increasing, Pairing;
    var m, input, current := Pairing(pairs), Plain(points, claims), |c.pointSets|;
    var pushed := Pushed(c, input);
    NoneIncreasing();
    RegisteredExactly(m, pushed.graph, pushed.pointSets, current, 0, []);
    forall p: nat | p < current
      ensures AcceptedPair(m, pushed.graph, pushed.pointSets, current, p).Some? <==> (|c.pointSets[p]|, points) in pairs
    {
      PairAccepted(pairs, pushed.graph, pushed.pointSets, current, p);
    }
  }

  lemma NoneIncreasing()
    ensures Increasing([], 0)
  {}

  lemma NothingIncreasing(s: seq<nat>)
    requires forall p: nat :: p !in s
    ensures s == []
  {
    if s != [] {
      HeadIn(s);
    }
  }

  lemma HeadIn(s: seq<nat>)
    requires s != []
    ensures s[0] in s
  {}

  lemma TwoDiffer(s: seq<nat>, bound: nat)
    requires Increasing(s, bound) && |s| > 1
    ensures exists p, q :: p in s && q in s && p != q
  {
    assert s[0] in s && s[1] in s && s[0] < s[1];
  }

  /** A sequence of partners that holds exactly one of them. */
  lemma SinglePartner(s: seq<nat>, bound: nat, partner: nat)
    requires Increasing(s, bound) && forall p: nat :: p in s <==> p == partner
    ensures s == [partner]
  {
    assert partner in s;
    forall i | 0 <= i < |s| ensures s[i] == partner {
      assert s[i] in s;
    }
    if |s| > 1 {
      TwoDiffer(s, bound);
    }
  }

  /** An add that finds no partner. */
  lemma PlainUnrelated(pairs: set<(nat, nat)>, c: Core, points: nat)
    requires Reachable(c) && c.graph.table.Valid() && |c.pointSets| < c.configuredMax
    requires forall p: nat :: p < |c.pointSets| ==> (|c.pointSets[p]|, points) !in pairs
    ensures AddFounds(Pairing(pairs), c, Plain(points, false)).None?
    ensures var (d, r) := Add(Pairing(pairs), c, Plain(points, false));
      && r.Ok? && Reachable(d) && d.graph.table.Valid() && d.configuredMax == c.configuredMax
      && d.pointSets == c.pointSets + [Plain(points, false).points] && d.graph.samples == c.graph.samples + [Plain(points, false).sample]
      && d.graph.established == c.graph.established && d.graph.anchor == c.graph.anchor
      && (forall p: nat :: p < |c.pointSets| ==> d.graph.table.Value(|c.pointSets|, p) == -1)
  {
    var m, input := Pairing(pairs), Plain(points, false);
    PlainPartners(pairs, c, points, false);
    RegisteredFacts(m, c, input);
    AddOutcome(m, c, input);
    AddFailsExactly(m, c, input);
    hide Registered, Add, Integrate, Blank, Increasing, RelationTable.Record, Rooted, Pairing, Plain, FailsWith;
    var (g, s) := Registered(m, c, input);
    NothingIncreasing(s);
    NothingFounded(m.ops, g, |c.pointSets|, input.threshold, PairScore(m, g.samples));
    SyncKeeps(Pushed(c, input));
    SyncKeeps(Pushed(c, input).(graph := g));
  }

  /** A founding integration on a single partner. */
  lemma PlainFounds(pairs: set<(nat, nat)>, c: Core, points: nat, claims: bool, partner: nat)
    requires Reachable(c) && c.graph.table.Valid() && |c.pointSets| < c.configuredMax && partner < |c.pointSets|
    requires forall p: nat :: p < |c.pointSets| ==> ((|c.pointSets[p]|, points) in pairs <==> p == partner)
    ensures Registered(Pairing(pairs), c, Plain(points, claims)).1 == [partner]
    ensures AddFounds(Pairing(pairs), c, Plain(points, claims)) == Some(partner)
  {
    var m, input := Pairing(pairs), Plain(points, claims);
    PlainPartners(pairs, c, points, claims);
    RegisteredFacts(m, c, input);
    var (g, s) := Registered(m, c, input);
    SinglePartner(s, |c.pointSets|, partner);
    assert partner in s;
    SingleStrongest(m.ops, g, |c.pointSets|, partner);
  }

  lemma SingleStrongest(ops: AffineOps, g: Graph, current: nat, partner: nat)
    requires g.table.Valid() && g.table.Record(current, partner).Some? && g.table.Value(current, partner) >= 6
    ensures var link := Strongest(ops, g, current, [partner], false);
      link.Some? && link.value.index == partner && link.value.value > 5
  {
    RecordSymmetric(g.table, current, partner);
    hide RelationTable.Record;
    var previous := [partner];
    var front := previous[..|previous| - 1];
    assert front == [] && previous[|previous| - 1] == partner;
    assert Strongest(ops, g, current, front, false).None?;
    var read := g.table.Read(ops, current, previous[|previous| - 1]);
    assert read.Some? && read.value.0 == g.table.Value(current, partner);
    assert Strongest(ops, g, current, previous, false) == Some(Link(partner, read.value.0, read.value.1));
  }

  /**
   A marked first sample is accepted, an unrelated second one too; the third founds a component on the second and fails
   because the first has no relation to it.
   */
  lemma LaterAddFails()
    ensures Empty(3, 3).graph.table.Valid()
    ensures var m, c := Pairing({(1, 2)}), Run(Pairing({(1, 2)}), Empty(3, 3), [Plain(0, true), Plain(1, false)]);
      Add(m, c, Plain(2, false)).1 == Err(GraphFailed(MissingCanonicalTransform(0, 1)))
  {
    hide Add, Registered, Reachable, Plain, Pairing, AddFounds, Rooted, Blank, RelationTable.Record;
    var pairs := {(1, 2)};
    var m, first, second, third := Pairing(pairs), Plain(0, true), Plain(1, false), Plain(2, false);
    PlainShape(0, true);
    PlainShape(1, false);
    PlainShape(2, false);
    FirstClaimAccepted(m, 3, 3, first);
    var c1 := Add(m, Empty(3, 3), first).0;
    FirstSize(m, first);
    PlainUnrelated(pairs, c1, 1);
    LaterAddFailsExactly(m, c1, second);
    var c2 := Add(m, c1, second).0;
    assert FirstClaims(c2) && |c2.pointSets| == 2;
    assert |c2.pointSets[0]| == 0 && |c2.pointSets[1]| == 1;
    PlainFounds(pairs, c2, 2, false, 1);
    RecordSymmetric(c2.graph.table, 0, 1);
    assert c2.graph.table.Value(1, 0) == -1;
    assert c2.graph.samples[0].status == 0;
    assert c2.graph.Member(0);
    assert Stray(c2.graph, 1, 2, 0);
    LaterAddFailsExactly(m, c2, third);
    assert AddFounds(m, c2, third) == Some(1);
    assert Add(m, c2, third).1 == Err(GraphFailed(MissingCanonicalTransform(0, 1)));
    RunTwo(m, Empty(3, 3), first, second);
  }

  lemma PlainShape(points: nat, claims: bool)
    ensures |Plain(points, claims).points| == points && Plain(points, claims).sample.status == 0
    ensures Fresh(Plain(points, claims)) == !claims
  {}

  lemma FirstSize(m: Matching, input: AddInput)
    ensures var c := Add(m, Empty(3, 3), input).0;
      c.pointSets == [input.points] && c.configuredMax == 3 && c.graph.samples == [input.sample]
  {
    hide RegisterFrom, Integrate;
  }

  lemma RunTwo(m: Matching, c: Core, a: AddInput, b: AddInput)
    requires c.graph.table.Valid()
    ensures Run(m, c, [a, b]) == Add(m, Add(m, c, a).0, b).0
  {
    hide Add;
    assert [a, b][1..] == [b];
    assert [b][1..] == [];
    assert Run(m, Add(m, c, a).0, [b]) == Run(m, Add(m, Add(m, c, a).0, b).0, []);
  }

  /** Founding a component establishes it on the chosen partner. */
  lemma FoundingEstablishes(m: Matching, c: Core, input: AddInput)
    requires Consistent(c) && c.graph.table.Valid() && Blank(c.graph) && |c.pointSets| < c.configuredMax && Fresh(input)
    requires !c.graph.established && AddFounds(m, c, input).Some?
    ensures var d := Add(m, c, input).0;
      d.graph.established && d.graph.anchor == AddFounds(m, c, input).value && d.pointSets == c.pointSets + [input.points]
  {
    var current := |c.pointSets|;
    RegisteredIntact(m, c, input);
    RegisteredFacts(m, c, input);
    AddOutcome(m, c, input);
    AddKeepsConsistent(m, c, input);
    hide Registered, Add, Integrate, Blank, Increasing, RelationTable.Record, Rooted, Founds, Component, Intact, Strongest,
      RetainedAt, Closed, Reachable;
    var (g, s) := Registered(m, c, input);
    var score := PairScore(m, g.samples);
    UnclaimedFresh(g, current);
    FoundingPartner(m.ops, g, current, s, input.threshold, score);
    assert s[0] in s;
    IntegrationKeepsComponent(m.ops, g, current, s, input.threshold, score, m.metric);
    var (h, r) := Integrate(m.ops, g, current, s, input.threshold, score, m.metric);
    TracksRoot(Based(m.ops, g, current, s, input.threshold, score), current, h, r.value.promoted);
    SyncKeeps(Pushed(c, input).(graph := h));
  }

  lemma UnclaimedFresh(g: Graph, current: nat)
    requires current < |g.samples| && !g.Member(current)
    ensures Unclaimed(g, current) == g
  {}

  lemma TracksRoot(base: Graph, current: nat, g: Graph, q: seq<nat>)
    requires Tracks(base, current, g, q)
    ensures g.established == base.established && g.anchor == base.anchor
  {}

  lemma FoundingPartner(ops: AffineOps, g: Graph, current: nat, previous: seq<nat>, threshold: int, score: Score)
    requires Ready(g, current) && g.table.Valid() && !g.established
    requires forall p <- previous :: p < current && g.table.Record(current, p).Some?
    requires Founds(ops, g, current, previous, threshold, score)
    ensures previous != []
    ensures var b := Based(ops, g, current, previous, threshold, score);
      b.established && b.anchor == Strongest(ops, g, current, previous, false).value.index
  {
    hide RelationTable.Record, RelationTable.Write;
    StrongestIn(ops, g, current, previous, false);
  }

  /**
   Two fresh samples found a component and a third stays outside; a fourth that claims membership and is related to the
   third only makes its add fail and the template inconsistent.
   */
  lemma ClaimFails()
    ensures Empty(4, 4).graph.table.Valid()
    ensures var m := Pairing({(0, 1), (2, 3)});
      var c := Run(m, Empty(4, 4), [Plain(0, false), Plain(1, false), Plain(2, false)]);
      && Consistent(c) && Add(m, c, Plain(3, true)).1 == Err(GraphFailed(MissingCanonicalTransform(3, 0)))
      && !Consistent(Add(m, c, Plain(3, true)).0)
  {
    hide Add, Registered, Reachable, Plain, Pairing, AddFounds, Rooted, Blank, RelationTable.Record, Consistent, Increasing,
      Granted;
    var pairs := {(0, 1), (2, 3)};
    var m, c0 := Pairing(pairs), Empty(4, 4);
    var first, second, third, fourth := Plain(0, false), Plain(1, false), Plain(2, false), Plain(3, true);
    PlainShape(0, false);
    PlainShape(1, false);
    PlainShape(2, false);
    PlainShape(3, true);
    EmptyConsistent(4, 4);
    EmptyReachable(4, 4);
    StepBoth(m, c0, first);
    var c1 := Add(m, c0, first).0;
    PlainUnrelated(pairs, c0, 0);
    PlainFounds(pairs, c1, 1, false, 0);
    FoundingEstablishes(m, c1, second);
    StepBoth(m, c1, second);
    var c2 := Add(m, c1, second).0;
    assert |c2.pointSets[0]| == 0 && |c2.pointSets[1]| == 1;
    PlainUnrelated(pairs, c2, 2);
    StepBoth(m, c2, third);
    var c3 := Add(m, c2, third).0;
    assert |c3.pointSets[0]| == 0 && |c3.pointSets[1]| == 1 && |c3.pointSets[2]| == 2;
    assert !c3.graph.Member(2);
    PlainPartners(pairs, c3, 3, true);
    SinglePartner(Registered(m, c3, fourth).1, 3, 2);
    ClaimFailsExactly(m, c3, fourth);
    ClaimConsistentExactly(m, c3, fourth);
    RunThree(m, c0, first, second, third);
  }

  lemma StepBoth(m: Matching, c: Core, input: AddInput)
    requires Consistent(c) && Reachable(c) && Fresh(input) && |c.pointSets| < c.configuredMax
    ensures c.graph.table.Valid() && Blank(c.graph) && |c.graph.samples| == |c.pointSets|
    ensures var d := Add(m, c, input).0;
      && Consistent(d) && Reachable(d) && d.graph.table.Valid() && Blank(d.graph) && d.configuredMax == c.configuredMax
      && |d.pointSets| == |c.pointSets| + 1 == |d.graph.samples|
  {
    ConsistentTable(c);
    AddKeepsConsistent(m, c, input);
    AddFailsExactly(m, c, input);
    hide Add, Registered, FailsWith, Component, RetainedAt, Blank;
  }

  lemma RunThree(m: Matching, c: Core, a: AddInput, b: AddInput, d: AddInput)
    requires c.graph.table.Valid()
    ensures Run(m, c, [a, b, d]) == Add(m, Add(m, Add(m, c, a).0, b).0, d).0
  {
    hide Add;
    assert [a, b, d][1..] == [b, d];
    RunTwo(m, Add(m, c, a).0, b, d);
  }
}
