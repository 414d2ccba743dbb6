/** One add from outside: who registers, who joins the component, and what the template holds afterwards. */
module EnrollmentAdds {
  import opened Wrappers
  import opened Bytes
  import opened Relations
  import opened GraphModel
  import opened GraphProofs
  import opened GraphRecords
  import opened GraphPromotion
  import opened EnrollmentModel
  import opened EnrollmentProofs

  /** A record that holds the inliers and the transform of a registration. */
  predicate RegistrationOf(registration: Option<Registration>, record: Option<PairRelation>) {
    registration.Some? && record == Some(PairRelation(registration.value.inliers, registration.value.transform))
  }

  /** The graph in front of integration: the new sample appended, and the registrations of its partners recorded. */
  ghost predicate RegisteredGraph(m: Matching, c: Core, input: AddInput, partners: seq<nat>, g: Graph)
    requires c.graph.table.Valid()
  {
    var current, pointSets := |c.pointSets|, c.pointSets + [input.points];
    && g.table.Valid() && g.table.capacity == c.graph.table.capacity
    && g.samples == c.graph.samples + [input.sample]
    && g.anchor == c.graph.anchor && g.established == c.graph.established
    && Increasing(partners, current)
    && (forall p: nat :: p in partners <==> p < current && Passes(m, g.samples, pointSets, current, p))
    && (forall b: nat :: b in partners ==> RegistrationOf(m.register(pointSets[b], pointSets[current]), g.table.Record(current, b)))
    && (forall a: nat, b: nat :: b < a && !(a == current && b in partners) ==> g.table.Record(a, b) == c.graph.table.Record(a, b))
  }

  /** `score` is the first of the map scores over these samples. */
  ghost predicate ScoresSamples(m: Matching, samples: seq<Sample>, score: Score) {
    forall source: nat, target: nat, transform: Affine ::
      score(source, target, transform) == m.scores(samples, source, target, transform).score
  }

  /** Which samples join: the newest through a member or by founding, then those the gates reach. */
  ghost predicate Joins(m: Matching, g: Graph, current: nat, partners: seq<nat>, threshold: int, score: Score, d: Graph,
                        integration: Integration)
    requires g.table.Valid()
  {
    && (d.Member(current) <==> if g.established then exists p :: p in partners && g.Member(p)
                               else exists k: nat :: Founding(m.ops, g, current, partners, threshold, score, k))
    && (forall i: nat :: d.Member(i) <==>
          g.Member(i) || i in integration.promoted || (d.Member(current) && (i == current || i == d.anchor)))
    && (if d.Member(current)
        then PromotesReached(m.ops, g.table, Outsiders(g, current, d.anchor), current, partners, threshold, score, integration.promoted)
        else integration.promoted == [])
    && integration.currentIndex == current && integration.currentIsCanonical == d.Member(current)
    && integration.canonicalAnchor == (if d.established then Some(d.anchor) else None)
  }

  /**
   An add with room for it: the first sample is only retained, one without partners only recorded, and any other one
   integrated with exactly the partners that registered.
   */
  lemma AddExactly(m: Matching, c: Core, input: AddInput) returns (g: Graph, score: Score)
    requires Consistent(c) && Fresh(input) && |c.pointSets| < c.configuredMax && c.graph.table.Valid()
    ensures var ((d, r), current) := (Add(m, c, input), |c.pointSets|);
      && r.Ok? && r.value.currentIndex == current && d.pointSets == c.pointSets + [input.points]
      && RegisteredGraph(m, c, input, r.value.successfulPrevious, g) && ScoresSamples(m, g.samples, score)
      && (current == 0 ==> r.value == AddResult(FirstSample, 0, [], None))
      && (current > 0 && r.value.successfulPrevious == [] ==>
            r.value == AddResult(NoSuccessfulPrevious, current, [], None) && d.graph == g)
      && (r.value.successfulPrevious != [] ==>
            && r.value.kind == Integrated && r.value.integration.Some?
            && Joins(m, g, current, r.value.successfulPrevious, input.threshold, score, d.graph, r.value.integration.value))
  {
    AddKeepsConsistent(m, c, input);
    PushReady(c, input);
    var current, pushed := |c.pointSets|, Pushed(c, input);
    hide Component, RegisterFrom, Integrate, Evolves, RetainedAt, Joins, RegisteredGraph;
    g, score := pushed.graph, PairScore(m, pushed.graph.samples);
    RegistrationMeans(m, c, input);
    if current > 0 {
      RegisterReady(m, pushed.graph, pushed.pointSets, current);
      var (registered, successful) := RegisterFrom(m, pushed.graph, pushed.pointSets, current, 0, []);
      g := registered;
      if successful != [] {
        RecordsExist(registered.table, current, successful);
        JoinsIntegrated(m, registered, current, successful, input.threshold, score);
      }
    }
  }

  lemma JoinsIntegrated(m: Matching, g: Graph, current: nat, partners: seq<nat>, threshold: int, score: Score)
    requires Ready(g, current) && forall p <- partners :: p < current && g.table.Record(current, p).Some?
    ensures var (h, r) := Integrate(m.ops, g, current, partners, threshold, score, m.metric);
      r.Ok? && g.table.Valid() && Joins(m, g, current, partners, threshold, score, h, r.value)
  {
    IntegrationPromotes(m.ops, g, current, partners, threshold, score, m.metric);
    IntegrationKeepsComponent(m.ops, g, current, partners, threshold, score, m.metric);
    hide Integrate, Component, PromotesReached, Founding, Tracks, Closed;
  }

  lemma RegistrationMeans(m: Matching, c: Core, input: AddInput)
    requires Consistent(c) && Fresh(input) && |c.pointSets| < c.configuredMax && c.graph.table.Valid()
    ensures var (current, pushed) := (|c.pointSets|, Pushed(c, input));
      var (h, s) := RegisterFrom(m, pushed.graph, pushed.pointSets, current, 0, []);
      RegisteredGraph(m, c, input, s, h)
  {
    var current, pushed := |c.pointSets|, Pushed(c, input);
    hide Component, RegisterFrom, RelationTable.Record;
    RegistersPassing(m, pushed.graph, pushed.pointSets, current, 0, []);
  }
}
