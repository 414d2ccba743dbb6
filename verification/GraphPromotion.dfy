/**
 Which samples one integration promotes, said in the records of the graph it starts from: the hard gate of the direct
 promotion, the threshold of the closure, and nothing that either reaches less than the other.
 */
module GraphPromotion {
  import opened Wrappers
  import opened Bytes
  import opened Relations
  import opened GraphModel
  import opened GraphProofs
  import opened GraphRecords

  /** The newest sample's record to `p` is not negative and scores at least 209. */
  predicate PassesDirectly(t: RelationTable, current: nat, p: nat, score: Score)
    requires t.Valid()
  {
    var record := t.Record(current, p);
    && record.Some? && record.value.value >= 0
    && score(current, p, record.value.higherToLower) >= 209
  }

  /** The record between `p` and `q` is not negative, and the transform from `p` to `q` scores above the threshold. */
  predicate PassesThrough(ops: AffineOps, t: RelationTable, p: nat, q: nat, threshold: int, score: Score)
    requires t.Valid()
  {
    var record := t.Record(p, q);
    && record.Some? && record.value.value >= 0
    && score(p, q, if p > q then record.value.higherToLower else ops.inverse(record.value.higherToLower)) > threshold
  }

  /** A partner that passes directly, or a sample that passes through one of `s`. */
  ghost predicate Reached(ops: AffineOps, t: RelationTable, current: nat, previous: seq<nat>, threshold: int, score: Score,
                          p: nat, s: iset<nat>)
    requires t.Valid()
  {
    || (p in previous && PassesDirectly(t, current, p, score))
    || exists q: nat :: q in s && PassesThrough(ops, t, p, q, threshold, score)
  }

  lemma SeedIsDirect(ops: AffineOps, g: Graph, current: nat, previous: seq<nat>, score: Score, p: nat)
    requires g.table.Valid() && p < current
    ensures Seed(ops, g, current, previous, score, p)
       <==> p in previous && !g.Member(p) && PassesDirectly(g.table, current, p, score)
  {
    RecordSymmetric(g.table, current, p);
    hide RelationTable.Record;
  }

  lemma EdgeIsThrough(ops: AffineOps, g: Graph, current: nat, threshold: int, score: Score, p: nat, q: nat)
    requires g.table.Valid()
    ensures Edge(ops, g, current, threshold, score, p, q)
       <==> p < current && !g.Member(p) && PassesThrough(ops, g.table, p, q, threshold, score)
  {
    RecordSymmetric(g.table, p, q);
    hide RelationTable.Record;
  }

  /** The samples before the newest one that lie outside the component and are not the anchor. */
  ghost function Outsiders(g: Graph, current: nat, anchor: nat): iset<nat> {
    iset p: nat | p < current && !g.Member(p) && p != anchor
  }

  /** `s` holds every outsider that is reached directly or through `s`. */
  ghost predicate ClosedUnderGates(ops: AffineOps, t: RelationTable, outsiders: iset<nat>, current: nat, previous: seq<nat>,
                                   threshold: int, score: Score, s: iset<nat>)
    requires t.Valid()
  {
    forall p: nat :: p in outsiders && Reached(ops, t, current, previous, threshold, score, p, s) ==> p in s
  }

  /** Exactly the outsiders reached are promoted, and no smaller set is closed under reaching. */
  ghost predicate PromotesReached(ops: AffineOps, t: RelationTable, outsiders: iset<nat>, current: nat, previous: seq<nat>,
                                  threshold: int, score: Score, promoted: seq<nat>)
    requires t.Valid()
  {
    && (forall p: nat :: p in promoted <==>
          p in outsiders && Reached(ops, t, current, previous, threshold, score, p, Elements(promoted)))
    && forall s: iset<nat> :: ClosedUnderGates(ops, t, outsiders, current, previous, threshold, score, s) ==> Within(promoted, s)
  }

  lemma SeedsAndEdges(ops: AffineOps, g: Graph, current: nat, previous: seq<nat>, threshold: int, score: Score, p: nat)
    requires g.table.Valid() && forall x <- previous :: x < current
    ensures Seed(ops, g, current, previous, score, p) <==>
      (p < current && p in previous && !g.Member(p) && PassesDirectly(g.table, current, p, score))
    ensures forall q: nat :: (Edge(ops, g, current, threshold, score, p, q) <==>
      (p < current && !g.Member(p) && PassesThrough(ops, g.table, p, q, threshold, score)))
  {
    hide Edge, PassesDirectly, PassesThrough;
    if p < current {
      SeedIsDirect(ops, g, current, previous, score, p);
    }
    forall q: nat
      ensures Edge(ops, g, current, threshold, score, p, q)
         <==> p < current && !g.Member(p) && PassesThrough(ops, g.table, p, q, threshold, score)
    {
      EdgeIsThrough(ops, g, current, threshold, score, p, q);
    }
  }

  /** Seeds and usable edges are the two gates. */
  lemma ClosedIsGated(ops: AffineOps, g: Graph, current: nat, previous: seq<nat>, threshold: int, score: Score, s: iset<nat>)
    requires g.table.Valid() && g.Member(g.anchor) && forall p <- previous :: p < current
    ensures var outsiders := Outsiders(g, current, g.anchor);
      Closed(ops, g, current, previous, threshold, score, s) <==>
        (ClosedUnderGates(ops, g.table, outsiders, current, previous, threshold, score, s))
  {
    hide Seed, Edge, PassesDirectly, PassesThrough;
    var t, outsiders := g.table, Outsiders(g, current, g.anchor);
    forall p: nat
      ensures Seed(ops, g, current, previous, score, p) <==>
        p in outsiders && p in previous && PassesDirectly(t, current, p, score)
      ensures forall q: nat :: (Edge(ops, g, current, threshold, score, p, q) <==>
        (p in outsiders && PassesThrough(ops, t, p, q, threshold, score)))
    {
      SeedsAndEdges(ops, g, current, previous, threshold, score, p);
    }
    if Closed(ops, g, current, previous, threshold, score, s) {
      forall p: nat | p in outsiders && Reached(ops, t, current, previous, threshold, score, p, s)
        ensures p in s
      {
        if !(p in previous && PassesDirectly(t, current, p, score)) {
          var q: nat :| q in s && PassesThrough(ops, t, p, q, threshold, score);
          assert Edge(ops, g, current, threshold, score, p, q);
        }
      }
    }
    if ClosedUnderGates(ops, t, outsiders, current, previous, threshold, score, s) {
      forall p: nat | Seed(ops, g, current, previous, score, p)
        ensures p in s
      {
        assert Reached(ops, t, current, previous, threshold, score, p, s);
      }
      forall x: nat, q: nat | q in s && Edge(ops, g, current, threshold, score, x, q)
        ensures x in s
      {
        assert Reached(ops, t, current, previous, threshold, score, x, s);
      }
    }
  }

  /** Without a sample that is not reached, the others are still closed. */
  lemma OthersStayClosed(ops: AffineOps, t: RelationTable, outsiders: iset<nat>, current: nat, previous: seq<nat>,
                         threshold: int, score: Score, s: iset<nat>, p: nat)
    requires t.Valid() && ClosedUnderGates(ops, t, outsiders, current, previous, threshold, score, s)
    ensures !Reached(ops, t, current, previous, threshold, score, p, s) ==>
      ClosedUnderGates(ops, t, outsiders, current, previous, threshold, score, s - iset{p})
  {
    hide PassesDirectly, PassesThrough;
    forall x: nat | Reached(ops, t, current, previous, threshold, score, x, s - iset{p})
      ensures Reached(ops, t, current, previous, threshold, score, x, s)
    {}
  }

  lemma FixpointReaches(ops: AffineOps, g: Graph, current: nat, previous: seq<nat>, threshold: int, score: Score,
                        promoted: seq<nat>)
    requires g.table.Valid() && g.Member(g.anchor) && forall p <- previous :: p < current
    requires forall p <- promoted :: p < current && !g.Member(p)
    requires Closed(ops, g, current, previous, threshold, score, Elements(promoted))
    requires forall s: iset<nat> :: Closed(ops, g, current, previous, threshold, score, s) ==> forall p <- promoted :: p in s
    ensures PromotesReached(ops, g.table, Outsiders(g, current, g.anchor), current, previous, threshold, score, promoted)
  {
    hide Reached, Closed;
    var t, outsiders := g.table, Outsiders(g, current, g.anchor);
    forall s: iset<nat>
      ensures ClosedUnderGates(ops, t, outsiders, current, previous, threshold, score, s) ==>
        Closed(ops, g, current, previous, threshold, score, s) && Within(promoted, s)
    {
      ClosedIsGated(ops, g, current, previous, threshold, score, s);
    }
    ClosedIsGated(ops, g, current, previous, threshold, score, Elements(promoted));
    forall p <- promoted
      ensures Reached(ops, t, current, previous, threshold, score, p, Elements(promoted))
    {
      OthersStayClosed(ops, t, outsiders, current, previous, threshold, score, Elements(promoted), p);
      assert p !in Elements(promoted) - iset{p};
    }
  }

  /** Promotion takes exactly the outsiders with a relation past the gates, directly or through one it has taken. */
  lemma PromotedExactly(ops: AffineOps, g: Graph, current: nat, previous: seq<nat>, threshold: int, score: Score)
    requires Component(g) && g.established && g.Member(current) && g.anchor < current && current + 1 == |g.samples|
    requires forall p <- previous :: p < current
    ensures var r := Promote(ops, g, current, previous, threshold, score).1;
      r.Ok? && PromotesReached(ops, g.table, Outsiders(g, current, g.anchor), current, previous, threshold, score, r.value)
  {
    PromotionIsLeastFixpoint(ops, g, current, previous, threshold, score);
    hide Promote, Closed, PromotesReached;
    FixpointReaches(ops, g, current, previous, threshold, score, Promote(ops, g, current, previous, threshold, score).1.value);
  }

  // ---- the whole integration ------------------------------------------------------------------------------------

  /** Attaching or founding touches no record but the one between the newest sample and the anchor. */
  ghost predicate SameRecords(t: RelationTable, u: RelationTable, current: nat, anchor: nat)
    requires t.Valid() && u.Valid()
  {
    forall a: nat, b: nat :: !SamePair(current, anchor, a, b) ==> u.Record(a, b) == t.Record(a, b)
  }

  lemma BasedRecords(ops: AffineOps, g: Graph, current: nat, previous: seq<nat>, threshold: int, score: Score)
    requires Ready(g, current) && forall p <- previous :: p < current && g.table.Record(current, p).Some?
    ensures var b := Based(ops, g, current, previous, threshold, score);
      b.table.Valid() && SameRecords(g.table, b.table, current, b.anchor)
  {
    BasedStep(ops, g, current, previous, threshold, score);
    hide RelationTable.Write, PairIndex, RowBase, RelationTable.Record, Strongest, RequireAnchor;
    var b := Based(ops, g, current, previous, threshold, score);
    StrongestIn(ops, g, current, previous, false);
    forall a: nat, c: nat | !SamePair(current, b.anchor, a, c)
      ensures b.table.Record(a, c) == g.table.Record(a, c)
    {
      forall value: I32, transform: Affine
        ensures b.anchor != current && b.anchor < g.table.capacity ==>
          g.table.Write(ops, current, b.anchor, value, transform).Record(a, c) == g.table.Record(a, c)
      {
        if b.anchor != current && b.anchor < g.table.capacity {
          WriteFrame(ops, g.table, current, b.anchor, value, transform, a, c);
        }
      }
    }
  }

  lemma ReachedAlike(ops: AffineOps, t: RelationTable, u: RelationTable, anchor: nat, current: nat, previous: seq<nat>,
                     threshold: int, score: Score, p: nat, s: iset<nat>)
    requires t.Valid() && u.Valid() && SameRecords(t, u, current, anchor) && p != current && p != anchor
    ensures Reached(ops, t, current, previous, threshold, score, p, s)
       <==> Reached(ops, u, current, previous, threshold, score, p, s)
  {
    hide RelationTable.Record;
  }

  lemma PromotesAlike(ops: AffineOps, t: RelationTable, u: RelationTable, outsiders: iset<nat>, anchor: nat, current: nat,
                      previous: seq<nat>, threshold: int, score: Score, promoted: seq<nat>)
    requires t.Valid() && u.Valid() && SameRecords(t, u, current, anchor)
    requires forall p <- outsiders :: p != current && p != anchor
    requires PromotesReached(ops, u, outsiders, current, previous, threshold, score, promoted)
    ensures PromotesReached(ops, t, outsiders, current, previous, threshold, score, promoted)
  {
    hide Reached, SameRecords;
    forall p: nat, s: iset<nat> | p in outsiders
      ensures Reached(ops, t, current, previous, threshold, score, p, s)
         <==> Reached(ops, u, current, previous, threshold, score, p, s)
    {
      ReachedAlike(ops, t, u, anchor, current, previous, threshold, score, p, s);
    }
    forall s: iset<nat> | ClosedUnderGates(ops, t, outsiders, current, previous, threshold, score, s)
      ensures ClosedUnderGates(ops, u, outsiders, current, previous, threshold, score, s)
    {}
  }

  /**
   One integration, on the graph it starts from: when the newest sample joins, who else does.  It joins through a member,
   or by founding the component with its strongest partner.
   */
  lemma IntegrationPromotes(
    ops: AffineOps, g: Graph, current: nat, previous: seq<nat>, threshold: int, score: Score, metric: Metric)
    requires Ready(g, current) && forall p <- previous :: p < current && g.table.Record(current, p).Some?
    ensures var (h, r) := Integrate(ops, g, current, previous, threshold, score, metric);
      && r.Ok? && g.table.Valid()
      && (h.Member(current) <==> if g.established then exists p :: p in previous && g.Member(p)
                                else exists k: nat :: Founding(ops, g, current, previous, threshold, score, k))
      && (forall i: nat :: h.Member(i) <==>
            g.Member(i) || i in r.value.promoted || (h.Member(current) && (i == current || i == h.anchor)))
      && if h.Member(current)
         then PromotesReached(ops, g.table, Outsiders(g, current, h.anchor), current, previous, threshold, score, r.value.promoted)
         else r.value.promoted == []
  {
    assert g.table.Valid() by { ReadyValid(g, current); }
    IntegrationKeepsComponent(ops, g, current, previous, threshold, score, metric);
    BasedStep(ops, g, current, previous, threshold, score);
    BasedRecords(ops, g, current, previous, threshold, score);
    BasedMembers(ops, g, current, previous, threshold, score);
    hide Integrate, Based, Closed, PromotesReached, Founding, SameRecords;
    var b := Based(ops, g, current, previous, threshold, score);
    var (h, r) := Integrate(ops, g, current, previous, threshold, score, metric);
    if b.Member(current) {
      FixpointReaches(ops, b, current, previous, threshold, score, r.value.promoted);
      assert Outsiders(b, current, b.anchor) == Outsiders(g, current, h.anchor);
      PromotesAlike(ops, g.table, b.table, Outsiders(b, current, b.anchor), b.anchor, current, previous, threshold, score,
        r.value.promoted);
    }
  }

  /** Who is a member before promotion. */
  lemma BasedMembers(ops: AffineOps, g: Graph, current: nat, previous: seq<nat>, threshold: int, score: Score)
    requires Ready(g, current) && forall p <- previous :: p < current && g.table.Record(current, p).Some?
    ensures var b := Based(ops, g, current, previous, threshold, score);
      && g.table.Valid()
      && (b.Member(current) ==> b.established && b.Member(b.anchor))
      && (b.Member(current) <==> if g.established then exists p :: p in previous && g.Member(p)
                                else exists k: nat :: Founding(ops, g, current, previous, threshold, score, k))
      && forall i: nat :: b.Member(i) <==> g.Member(i) || (b.Member(current) && (i == current || i == b.anchor))
  {
    assert g.table.Valid() by { ReadyValid(g, current); }
    BasedStep(ops, g, current, previous, threshold, score);
    if g.established {
      AttachStep(ops, g, current, previous);
    } else {
      EstablishStep(ops, g, current, previous, threshold, score);
      FoundedExactly(ops, g, current, previous, threshold, score);
    }
    hide Strongest, Founding, Grows, RelationTable.Record, RelationTable.Value, StoreCurrent;
  }

  // ---- refused arguments ----------------------------------------------------------------------------------------

  /** An argument a partner list may hold: an earlier sample with a stored record. */
  predicate Admissible(g: Graph, current: nat, p: nat)
    requires g.table.Valid()
  {
    p < current && g.table.Record(current, p).Some?
  }

  /** The check stops at the first partner that is not admissible, and says whether its index or its record is at fault. */
  lemma {:induction false} ChecksInOrder(g: Graph, current: nat, previous: seq<nat>) returns (k: nat)
    requires g.table.Valid()
    ensures k <= |previous| && forall j :: 0 <= j < k ==> Admissible(g, current, previous[j])
    ensures var r := CheckPrevious(g, current, previous);
      && (r.Pass? <==> k == |previous|)
      && (k < |previous| ==> !Admissible(g, current, previous[k]) && r == Fail(
            if previous[k] >= current then PreviousIndexOutOfRange(previous[k], current)
            else MissingDirectRelation(current, previous[k])))
  {
    hide RelationTable.Record;
    k := 0;
    if previous != [] && Admissible(g, current, previous[0]) {
      var j := ChecksInOrder(g, current, previous[1..]);
      k := j + 1;
      forall i | 0 <= i < k
        ensures Admissible(g, current, previous[i])
      {
        if i > 0 {
          assert previous[i] == previous[1..][i - 1];
        }
      }
      assert k < |previous| ==> previous[1..][j] == previous[k];
    }
  }

  /** An integration of any other sample than the newest, or with an inadmissible partner, changes nothing. */
  lemma RefusedUnchanged(
    ops: AffineOps, g: Graph, current: nat, previous: seq<nat>, threshold: int, score: Score, metric: Metric)
    requires g.table.Valid()
    requires current + 1 != |g.samples| || exists p <- previous :: !Admissible(g, current, p)
    ensures var (h, r) := Integrate(ops, g, current, previous, threshold, score, metric);
      && h == g && r.Err?
      && (current + 1 != |g.samples| ==> r.error == CurrentIsNotNewest(current, |g.samples|))
      && (current + 1 == |g.samples| ==> r.error.PreviousIndexOutOfRange? || r.error.MissingDirectRelation?)
  {
    hide RelationTable.Record, Attach, Establish, Promote, Novelty;
    if current + 1 == |g.samples| {
      var k := ChecksInOrder(g, current, previous);
      var p :| p in previous && !Admissible(g, current, p);
      var i :| 0 <= i < |previous| && previous[i] == p;
    }
  }
}
