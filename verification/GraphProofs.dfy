/** What every integration keeps, what it promotes, and what its transforms mean. */
module GraphProofs {
  import opened Wrappers
  import opened Bytes
  import opened Relations
  import opened GraphModel

  // ---- the component invariant ----------------------------------------------------------------------------------

  /** Nothing is canonical before establishment; afterwards every member but the anchor has a record to the anchor. */
  ghost predicate Component(g: Graph) {
    && g.table.Valid()
    && |g.samples| <= g.table.capacity
    && (!g.established ==> forall i :: !g.Member(i))
    && (g.established ==>
      && g.Member(g.anchor)
      && forall i :: g.Member(i) && i != g.anchor ==> g.table.Value(i, g.anchor) >= 0)
  }

  lemma WriteFrame(ops: AffineOps, t: RelationTable, a: nat, b: nat, value: I32, transform: Affine, c: nat, d: nat)
    requires t.Valid() && a != b && a < t.capacity && b < t.capacity
    ensures !SamePair(a, b, c, d) ==> t.Write(ops, a, b, value, transform).Record(c, d) == t.Record(c, d)
    ensures t.Write(ops, a, b, value, transform).Value(a, b) == value
    ensures t.Write(ops, a, b, value, transform).Value(b, a) == value
  {
    hide PairIndex, RowBase;
    var relation := PairRelation(value, if a > b then transform else ops.inverse(transform));
    SetFrame(t, a, b, relation, c, d);
    SetFrame(t, a, b, relation, a, b);
    SetFrame(t, a, b, relation, b, a);
  }

  /** `h` grew from `g`: same anchor, same samples up to added members, records changed only towards the anchor. */
  ghost predicate Grows(g: Graph, h: Graph) {
    && g.table.Valid() && h.table.Valid()
    && h.anchor == g.anchor && h.established == g.established
    && h.table.capacity == g.table.capacity
    && |h.samples| == |g.samples|
    && (forall i :: 0 <= i < |g.samples| ==>
      h.samples[i] == g.samples[i] || h.samples[i] == g.samples[i].(canonicalMember := true))
    && (forall a: nat, b: nat :: a != g.anchor && b != g.anchor ==> h.table.Record(a, b) == g.table.Record(a, b))
    && (forall a: nat :: g.Member(a) ==> h.table.Record(a, g.anchor) == g.table.Record(a, g.anchor))
  }

  /** Storing a non-negative anchor record for an outsider keeps the component and adds only that sample. */
  lemma StoreStep(ops: AffineOps, g: Graph, x: nat, value: I32, toAnchor: Affine)
    requires Component(g) && g.established && x < |g.samples| && !g.Member(x) && value >= 0
    ensures var h := StoreToAnchor(ops, g, x, value, toAnchor);
      && Component(h) && Grows(g, h)
      && (forall i :: h.Member(i) <==> g.Member(i) || i == x)
      && (forall a: nat :: a != x ==> h.table.Record(a, g.anchor) == g.table.Record(a, g.anchor))
  {
    hide PairIndex, RowBase, RelationTable.Set, RelationTable.Write;
    var h := StoreToAnchor(ops, g, x, value, toAnchor);
    forall a: nat, b: nat
      ensures !SamePair(x, g.anchor, a, b) ==> h.table.Record(a, b) == g.table.Record(a, b)
      ensures h.table.Value(x, g.anchor) == value
    {
      WriteFrame(ops, g.table, x, g.anchor, value, toAnchor, a, b);
    }
    forall i: nat | h.Member(i) && i != h.anchor
      ensures h.table.Value(i, h.anchor) >= 0
    {
      if i != x {
        assert g.Member(i) && h.table.Record(i, g.anchor) == g.table.Record(i, g.anchor);
      }
    }
  }

  lemma GrowsTransitive(f: Graph, g: Graph, h: Graph)
    requires Grows(f, g) && Grows(g, h)
    ensures Grows(f, h)
  {
    hide RelationTable.Record;
    forall a: nat | f.Member(a)
      ensures h.table.Record(a, f.anchor) == f.table.Record(a, f.anchor)
    {
      assert g.Member(a);
    }
  }

  // ---- promotion computes a least fixpoint ----------------------------------------------------------------------

  /** A successful previous sample outside the component that passes the hard gate of direct promotion. */
  predicate Seed(ops: AffineOps, g: Graph, current: nat, previous: seq<nat>, score: Score, p: nat)
    requires g.table.Valid()
  {
    p in previous && !g.Member(p) && Usable(ops, g.table, current, p, SCORE_WEAK, score)
  }

  /** An outsider with a stored edge to `t` whose score is strictly above the threshold. */
  predicate Edge(ops: AffineOps, g: Graph, current: nat, threshold: int, score: Score, x: nat, t: nat)
    requires g.table.Valid()
  {
    x < current && !g.Member(x) && Usable(ops, g.table, x, t, threshold + 1, score)
  }

  /** `s` holds every seed and every outsider with an edge into `s`. */
  ghost predicate Closed(ops: AffineOps, g: Graph, current: nat, previous: seq<nat>, threshold: int, score: Score, s: iset<nat>)
    requires g.table.Valid()
  {
    && (forall p: nat :: Seed(ops, g, current, previous, score, p) ==> p in s)
    && (forall x: nat, t: nat :: t in s && Edge(ops, g, current, threshold, score, x, t) ==> x in s)
  }

  ghost predicate Distinct(q: seq<nat>) {
    forall i, j :: 0 <= i < j < |q| ==> q[i] != q[j]
  }

  /** `g` is `base` with exactly the outsiders `q` promoted, each once; only their flags and anchor records differ. */
  ghost predicate Tracks(base: Graph, current: nat, g: Graph, q: seq<nat>) {
    && Component(base) && Component(g) && Grows(base, g) && Distinct(q)
    && (forall i: nat :: g.Member(i) <==> base.Member(i) || i in q)
    && (forall p <- q :: p < current && !base.Member(p))
    && (forall x: nat :: x !in q ==> g.table.Record(x, base.anchor) == base.table.Record(x, base.anchor))
  }

  lemma TracksPush(ops: AffineOps, base: Graph, current: nat, g: Graph, q: seq<nat>, x: nat, toAnchor: Affine)
    requires Tracks(base, current, g, q) && base.established && x < current < |base.samples| && !g.Member(x)
    ensures Tracks(base, current, StorePromoted(ops, g, x, toAnchor), q + [x])
  {
    hide StoreToAnchor, Component;
    StoreStep(ops, g, x, 0, toAnchor);
    GrowsTransitive(base, g, StorePromoted(ops, g, x, toAnchor));
    hide Grows;
  }

  /** Edges between samples other than the anchor read the same throughout one integration. */
  lemma UsableStable(ops: AffineOps, base: Graph, g: Graph, source: nat, target: nat, least: int, score: Score)
    requires Grows(base, g) && source != base.anchor && target != base.anchor
    ensures g.table.Read(ops, source, target) == base.table.Read(ops, source, target)
    ensures Usable(ops, g.table, source, target, least, score) == Usable(ops, base.table, source, target, least, score)
  {
    hide RelationTable.Record;
    assert g.table.Record(target, source) == base.table.Record(target, source);
  }

  lemma {:induction false} PromoteDirectTracks(
    ops: AffineOps, base: Graph, g: Graph, current: nat, toAnchor: Affine, previous: seq<nat>, at: nat, score: Score, q: seq<nat>)
    requires Tracks(base, current, g, q) && base.established && base.anchor < current < |base.samples|
    requires at <= |previous| && forall p <- previous :: p < current
    requires forall p <- q :: Seed(ops, base, current, previous, score, p)
    requires forall k :: 0 <= k < at && Seed(ops, base, current, previous, score, previous[k]) ==> previous[k] in q
    ensures var (h, r) := PromoteDirect(ops, g, current, toAnchor, previous, at, score, q);
      && Tracks(base, current, h, r)
      && forall p: nat :: p in r <==> Seed(ops, base, current, previous, score, p)
    decreases |previous| - at
  {
    if at < |previous| {
      var p := previous[at];
      var g1, q1 := g, q;
      assert p in previous;
      if !g.Member(p) {
        AnchorIsMember(base, g);
        UsableStable(ops, base, g, current, p, SCORE_WEAK, score);
        if Usable(ops, g.table, current, p, SCORE_WEAK, score) {
          var t := ops.compose(toAnchor, ops.inverse(g.table.Read(ops, current, p).value.1));
          TracksPush(ops, base, current, g, q, p, t);
          g1, q1 := StorePromoted(ops, g, p, t), q + [p];
        }
      }
      hide Usable, StorePromoted, Component, Grows, Distinct;
      PromoteDirectTracks(ops, base, g1, current, toAnchor, previous, at + 1, score, q1);
    }
  }

  lemma AnchorIsMember(base: Graph, g: Graph)
    requires Component(g) && Grows(base, g) && base.established
    ensures g.Member(base.anchor)
  {}

  /** Every outsider with an edge to `t` is in `q`. */
  ghost predicate Expanded(ops: AffineOps, base: Graph, current: nat, threshold: int, score: Score, q: seq<nat>, t: nat)
    requires base.table.Valid()
  {
    forall x: nat :: Edge(ops, base, current, threshold, score, x, t) ==> x in q
  }

  ghost function Elements(q: seq<nat>): iset<nat> {
    iset p: nat | p in q
  }

  ghost predicate Within(q: seq<nat>, s: iset<nat>) {
    forall p <- q :: p in s
  }

  ghost predicate EdgesWithin(ops: AffineOps, base: Graph, current: nat, threshold: int, score: Score, t: nat, s: iset<nat>)
    requires base.table.Valid()
  {
    forall x: nat :: Edge(ops, base, current, threshold, score, x, t) ==> x in s
  }

  /** The candidates below `candidate` were scanned for edges to `t`. */
  ghost predicate ScannedTo(ops: AffineOps, base: Graph, current: nat, threshold: int, score: Score, q: seq<nat>, t: nat,
                            candidate: nat)
    requires base.table.Valid()
  {
    forall x: nat :: x < candidate && Edge(ops, base, current, threshold, score, x, t) ==> x in q
  }

  lemma ScannedStep(ops: AffineOps, base: Graph, current: nat, threshold: int, score: Score, q: seq<nat>, q1: seq<nat>,
                    t: nat, candidate: nat)
    requires base.table.Valid() && q <= q1
    requires ScannedTo(ops, base, current, threshold, score, q, t, candidate)
    requires Edge(ops, base, current, threshold, score, candidate, t) ==> candidate in q1
    ensures ScannedTo(ops, base, current, threshold, score, q1, t, candidate + 1)
  {
    hide Edge;
    assert forall x <- q :: x in q1;
  }

  lemma {:induction false} ScanTracks(
    ops: AffineOps, base: Graph, g: Graph, current: nat, through: nat, throughToAnchor: Affine, candidate: nat,
    threshold: int, score: Score, q: seq<nat>, s: iset<nat>)
    requires Tracks(base, current, g, q) && base.established && base.anchor < current < |base.samples|
    requires candidate <= current && through in q
    requires Within(q, s) && EdgesWithin(ops, base, current, threshold, score, through, s)
    requires ScannedTo(ops, base, current, threshold, score, q, through, candidate)
    ensures var (h, r) := ScanCandidates(ops, g, current, through, throughToAnchor, candidate, threshold, score, q);
      && Tracks(base, current, h, r) && q <= r && Within(r, s)
      && Expanded(ops, base, current, threshold, score, r, through)
    decreases current - candidate
  {
    TracksValid(base, current, g, q);
    hide Within, Tracks, ScannedTo, EdgesWithin;
    if candidate < current {
      var g1, q1 := ScanTurn(ops, base, g, current, through, throughToAnchor, candidate, threshold, score, q, s);
      TracksValid(base, current, g1, q1);
      hide ScanCandidates, Expanded, StorePromoted, Usable, RelationTable.Read;
      ScanTracks(ops, base, g1, current, through, throughToAnchor, candidate + 1, threshold, score, q1, s);
    } else {
      ScannedAll(ops, base, current, threshold, score, q, through);
    }
  }

  lemma ScannedAll(ops: AffineOps, base: Graph, current: nat, threshold: int, score: Score, q: seq<nat>, t: nat)
    requires base.table.Valid() && ScannedTo(ops, base, current, threshold, score, q, t, current)
    ensures Expanded(ops, base, current, threshold, score, q, t)
  {}

  /** One candidate of the scan. */
  lemma ScanTurn(
    ops: AffineOps, base: Graph, g: Graph, current: nat, through: nat, throughToAnchor: Affine, candidate: nat,
    threshold: int, score: Score, q: seq<nat>, s: iset<nat>) returns (g1: Graph, q1: seq<nat>)
    requires Tracks(base, current, g, q) && base.established && base.anchor < current < |base.samples|
    requires candidate < current && through in q
    requires Within(q, s) && EdgesWithin(ops, base, current, threshold, score, through, s)
    requires ScannedTo(ops, base, current, threshold, score, q, through, candidate)
    ensures Tracks(base, current, g1, q1) && q <= q1 && through in q1 && Within(q1, s)
    ensures ScannedTo(ops, base, current, threshold, score, q1, through, candidate + 1)
    ensures ScanCandidates(ops, g, current, through, throughToAnchor, candidate, threshold, score, q)
         == ScanCandidates(ops, g1, current, through, throughToAnchor, candidate + 1, threshold, score, q1)
  {
    g1, q1 := g, q;
    if candidate != through && !g.Member(candidate) {
      AnchorIsMember(base, g);
      UsableStable(ops, base, g, candidate, through, threshold + 1, score);
      if Usable(ops, g.table, candidate, through, threshold + 1, score) {
        var t := ops.compose(throughToAnchor, g.table.Read(ops, candidate, through).value.1);
        TracksPush(ops, base, current, g, q, candidate, t);
        g1, q1 := StorePromoted(ops, g, candidate, t), q + [candidate];
        assert Edge(ops, base, current, threshold, score, candidate, through);
      }
    }
    ScannedStep(ops, base, current, threshold, score, q, q1, through, candidate);
  }

  lemma MemberHasAnchor(ops: AffineOps, g: Graph, sample: nat)
    requires Component(g) && g.established && g.Member(sample)
    ensures RequireAnchor(ops, g, sample).Ok?
  {
    if sample != g.anchor {
      assert g.table.Value(sample, g.anchor) >= 0;
    }
  }

  /** The queued samples before position `next` were expanded. */
  ghost predicate ExpandedTo(ops: AffineOps, base: Graph, current: nat, threshold: int, score: Score, q: seq<nat>, next: nat)
    requires base.table.Valid() && next <= |q|
  {
    forall k :: 0 <= k < next ==> Expanded(ops, base, current, threshold, score, q, q[k])
  }

  lemma ExpandedStep(ops: AffineOps, base: Graph, current: nat, threshold: int, score: Score, q: seq<nat>, q1: seq<nat>,
                     next: nat)
    requires base.table.Valid() && next < |q| && q <= q1
    requires ExpandedTo(ops, base, current, threshold, score, q, next)
    requires Expanded(ops, base, current, threshold, score, q1, q[next])
    ensures ExpandedTo(ops, base, current, threshold, score, q1, next + 1)
  {
    hide Edge;
    assert forall x <- q :: x in q1;
    forall k | 0 <= k < next + 1
      ensures Expanded(ops, base, current, threshold, score, q1, q1[k])
    {
      assert k < next ==> Expanded(ops, base, current, threshold, score, q, q[k]);
    }
  }

  lemma {:induction false} CloseTracks(
    ops: AffineOps, base: Graph, g: Graph, current: nat, previous: seq<nat>, q: seq<nat>, next: nat,
    threshold: int, score: Score, s: iset<nat>)
    requires Tracks(base, current, g, q) && base.established && base.anchor < current < |base.samples| && next <= |q|
    requires Closed(ops, base, current, previous, threshold, score, s) && Within(q, s)
    requires ExpandedTo(ops, base, current, threshold, score, q, next)
    ensures var (h, r) := Close(ops, g, current, q, next, threshold, score);
      && r.Ok? && Tracks(base, current, h, r.value) && Within(r.value, s) && Within(q, Elements(r.value))
      && ExpandedTo(ops, base, current, threshold, score, r.value, |r.value|)
    decreases |Outside(g)| + |q| - next
  {
    TracksValid(base, current, g, q);
    CloseDone(ops, g, current, q, threshold, score);
    if next < |q| {
      var g1, q1 := CloseTurn(ops, base, g, current, previous, q, next, threshold, score, s);
      TracksValid(base, current, g1, q1);
      CloseTracks(ops, base, g1, current, previous, q1, next + 1, threshold, score, s);
      WithinPrefix(q, q1, Elements(Close(ops, g1, current, q1, next + 1, threshold, score).1.value));
      hide *;
    }
  }

  lemma WithinPrefix(q: seq<nat>, q1: seq<nat>, s: iset<nat>)
    requires q <= q1 && Within(q1, s)
    ensures Within(q, s)
  {}

  lemma CloseDone(ops: AffineOps, g: Graph, current: nat, q: seq<nat>, threshold: int, score: Score)
    requires g.table.Valid() && current < |g.samples|
    ensures Close(ops, g, current, q, |q|, threshold, score) == (g, Ok(q))
  {}

  /** One turn of the worklist. */
  lemma CloseTurn(
    ops: AffineOps, base: Graph, g: Graph, current: nat, previous: seq<nat>, q: seq<nat>, next: nat,
    threshold: int, score: Score, s: iset<nat>) returns (g1: Graph, q1: seq<nat>)
    requires Tracks(base, current, g, q) && base.established && base.anchor < current < |base.samples| && next < |q|
    requires Closed(ops, base, current, previous, threshold, score, s) && Within(q, s)
    requires ExpandedTo(ops, base, current, threshold, score, q, next)
    ensures Tracks(base, current, g1, q1) && q <= q1 && Within(q1, s)
    ensures ExpandedTo(ops, base, current, threshold, score, q1, next + 1)
    ensures |Outside(g1)| + |q1| == |Outside(g)| + |q|
    ensures Close(ops, g, current, q, next, threshold, score) == Close(ops, g1, current, q1, next + 1, threshold, score)
  {
    TracksValid(base, current, g, q);
    var through := q[next];
    MemberHasAnchor(ops, g, through);
    var toAnchor := RequireAnchor(ops, g, through).value;
    assert EdgesWithin(ops, base, current, threshold, score, through, s);
    ScannedNone(ops, base, current, threshold, score, q, through);
    hide Usable, Edge, Component, Grows, Distinct, Outside, StorePromoted, SampleToAnchor, ScannedTo, EdgesWithin,
      Expanded, ExpandedTo, Closed, Within, Tracks, ScanCandidates;
    ScanTracks(ops, base, g, current, through, toAnchor, 0, threshold, score, q, s);
    var turned := ScanCandidates(ops, g, current, through, toAnchor, 0, threshold, score, q);
    g1, q1 := turned.0, turned.1;
    ExpandedStep(ops, base, current, threshold, score, q, q1, next);
    TracksValid(base, current, g1, q1);
  }

  lemma ScannedNone(ops: AffineOps, base: Graph, current: nat, threshold: int, score: Score, q: seq<nat>, t: nat)
    requires base.table.Valid()
    ensures ScannedTo(ops, base, current, threshold, score, q, t, 0)
  {}

  lemma SaturatedIsClosed(ops: AffineOps, base: Graph, current: nat, previous: seq<nat>, threshold: int, score: Score, q: seq<nat>)
    requires base.table.Valid() && ExpandedTo(ops, base, current, threshold, score, q, |q|)
    requires forall p: nat :: Seed(ops, base, current, previous, score, p) ==> p in q
    ensures Closed(ops, base, current, previous, threshold, score, Elements(q))
  {
    hide Edge, Seed;
    forall x: nat, t: nat | t in q && Edge(ops, base, current, threshold, score, x, t)
      ensures x in q
    {
      var k :| 0 <= k < |q| && q[k] == t;
      assert Expanded(ops, base, current, threshold, score, q, q[k]);
    }
  }

  predicate AnySample(p: nat) {
    true
  }

  lemma TracksValid(base: Graph, current: nat, g: Graph, q: seq<nat>)
    requires Tracks(base, current, g, q)
    ensures base.table.Valid() && g.table.Valid() && g.established == base.established && |g.samples| == |base.samples|
  {}

  /**
   One integration promotes exactly the least set that holds the seeds and is closed under usable edges, each sample
   once; nothing but the flags of these samples and their records to the anchor changes.
   */
  lemma PromotionIsLeastFixpoint(ops: AffineOps, g: Graph, current: nat, previous: seq<nat>, threshold: int, score: Score)
    requires Component(g) && g.established && g.Member(current) && g.anchor < current && current + 1 == |g.samples|
    requires forall p <- previous :: p < current
    ensures var (h, r) := Promote(ops, g, current, previous, threshold, score);
      && r.Ok? && Tracks(g, current, h, r.value)
      && Closed(ops, g, current, previous, threshold, score, Elements(r.value))
      && forall s: iset<nat> :: Closed(ops, g, current, previous, threshold, score, s) ==> forall p <- r.value :: p in s
  {
    TracksStart(g, current);
    TracksValid(g, current, g, []);
    hide Usable, Edge, Seed, Component, Grows, Outside, StorePromoted, SampleToAnchor, Distinct;
    MemberHasAnchor(ops, g, current);
    var toAnchor := RequireAnchor(ops, g, current).value;
    PromoteDirectTracks(ops, g, g, current, toAnchor, previous, 0, score, []);
    var (g1, q1) := PromoteDirect(ops, g, current, toAnchor, previous, 0, score, []);
    TracksValid(g, current, g1, q1);
    var (h, r) := Close(ops, g1, current, q1, 0, threshold, score);
    CloseTracks(ops, g, g1, current, previous, q1, 0, threshold, score, iset p: nat | AnySample(p));
    SaturatedIsClosed(ops, g, current, previous, threshold, score, r.value);
    forall s: iset<nat> | Closed(ops, g, current, previous, threshold, score, s)
      ensures forall p <- r.value :: p in s
    {
      CloseTracks(ops, g, g1, current, previous, q1, 0, threshold, score, s);
    }
  }

  lemma TracksStart(g: Graph, current: nat)
    requires Component(g)
    ensures Tracks(g, current, g, [])
  {}

  /** Only which samples succeeded matters to the promoted set, not the order they are visited in. */
  lemma PromotionIgnoresOrder(
    ops: AffineOps, g: Graph, current: nat, a: seq<nat>, b: seq<nat>, threshold: int, score: Score)
    requires Component(g) && g.established && g.Member(current) && g.anchor < current && current + 1 == |g.samples|
    requires (forall p <- a :: p < current) && (forall p :: p in a <==> p in b)
    ensures Promote(ops, g, current, a, threshold, score).1.Ok? && Promote(ops, g, current, b, threshold, score).1.Ok?
    ensures Elements(Promote(ops, g, current, a, threshold, score).1.value)
         == Elements(Promote(ops, g, current, b, threshold, score).1.value)
  {
    assert g.table.Valid();
    hide Promote, Usable, Edge, Component, Tracks;
    PromotionIsLeastFixpoint(ops, g, current, a, threshold, score);
    PromotionIsLeastFixpoint(ops, g, current, b, threshold, score);
    var qa := Promote(ops, g, current, a, threshold, score).1.value;
    var qb := Promote(ops, g, current, b, threshold, score).1.value;
    assert Closed(ops, g, current, b, threshold, score, Elements(qa)) by {
      forall p: nat | Seed(ops, g, current, b, score, p)
        ensures p in Elements(qa)
      {
        assert Seed(ops, g, current, a, score, p);
      }
    }
    assert Closed(ops, g, current, a, threshold, score, Elements(qb)) by {
      forall p: nat | Seed(ops, g, current, a, score, p)
        ensures p in Elements(qb)
      {
        assert Seed(ops, g, current, b, score, p);
      }
    }
  }

  // ---- one integration never fails and keeps the component ------------------------------------------------------

  /** The newest sample was just pushed: it lies outside the component, behind the anchor. */
  ghost predicate Ready(g: Graph, current: nat) {
    && Component(g)
    && current + 1 == |g.samples|
    && !g.Member(current)
    && (g.established ==> g.anchor < current)
  }

  lemma {:induction false} StrongestExists(ops: AffineOps, g: Graph, current: nat, previous: seq<nat>, membersOnly: bool)
    requires g.table.Valid() && forall p <- previous :: g.table.Record(current, p).Some?
    ensures Strongest(ops, g, current, previous, membersOnly).Some?
       <==> exists p :: p in previous && (membersOnly ==> g.Member(p))
  {
    hide RelationTable.Record;
    if previous != [] {
      var n := |previous| - 1;
      assert previous[n] in previous;
      StrongestExists(ops, g, current, previous[..n], membersOnly);
      RecordSymmetric(g.table, current, previous[n]);
    }
  }

  lemma RecordSymmetric(t: RelationTable, a: nat, b: nat)
    requires t.Valid()
    ensures t.Record(a, b) == t.Record(b, a)
  {}

  /** With a component, the newest sample joins exactly when a successful previous sample is a member. */
  lemma AttachStep(ops: AffineOps, g: Graph, current: nat, previous: seq<nat>)
    requires Ready(g, current) && g.established
    requires forall p <- previous :: p < current && g.table.Record(current, p).Some?
    ensures var r := Attach(ops, g, current, previous);
      && r.Ok? && Component(r.value) && Grows(g, r.value)
      && (r.value.Member(current) <==> exists p :: p in previous && g.Member(p))
      && (r.value != g ==> r.value.Member(current))
      && forall i: nat :: i != current ==> r.value.Member(i) == g.Member(i)
  {
    hide StoreToAnchor, Grows, RelationTable.Record;
    GrowsSelf(g);
    StrongestExists(ops, g, current, previous, true);
    StrongestIn(ops, g, current, previous, true);
    var strongest := Strongest(ops, g, current, previous, true);
    if strongest.Some? {
      var through := strongest.value;
      MemberHasAnchor(ops, g, through.index);
      var t := ops.compose(RequireAnchor(ops, g, through.index).value, through.transform);
      var existing := g.table.Value(current, g.anchor);
      StoreStep(ops, g, current, if existing < 0 then 0 else existing, t);
    }
  }

  lemma GrowsSelf(g: Graph)
    requires g.table.Valid()
    ensures Grows(g, g)
  {}

  /** Founding makes exactly the newest sample and its strongest partner members. */
  lemma EstablishStep(ops: AffineOps, g: Graph, current: nat, previous: seq<nat>, threshold: int, score: Score)
    requires Ready(g, current) && !g.established && forall p <- previous :: p < current
    ensures var h := Establish(ops, g, current, previous, threshold, score);
      && Component(h) && h.table.capacity == g.table.capacity
      && (!h.established ==> h == g)
      && (h.established ==>
        && h.anchor < current && h.anchor in previous
        && forall i: nat :: h.Member(i) <==> i == h.anchor || i == current)
  {
    hide PairIndex, RowBase, RelationTable.Set, RelationTable.Write;
    StrongestIn(ops, g, current, previous, false);
    var strongest := Strongest(ops, g, current, previous, false);
    if strongest.Some? {
      var link := strongest.value;
      assert link.index in previous;
      WriteFrame(ops, g.table, current, link.index, link.value, link.transform, 0, 0);
      var founded := Mark(Mark(g.(anchor := link.index, established := true), link.index), current);
      forall i: nat
        ensures founded.Member(i) <==> i == link.index || i == current
      {
        assert !g.Member(i);
      }
      var h := Establish(ops, g, current, previous, threshold, score);
      if link.value > 5 && score(current, link.index, link.transform) > threshold {
        assert h.samples == founded.samples && h.anchor == link.index;
        assert forall i: nat :: h.Member(i) == founded.Member(i);
        assert h.table.Value(current, link.index) == link.value;
      }
    }
  }

  lemma {:induction false} OthersExist(ops: AffineOps, g: Graph, current: nat, toAnchor: Affine, other: nat)
    requires Component(g) && g.established && other <= current < |g.samples|
    ensures CurrentToOthers(ops, g, current, toAnchor, other).Ok?
    decreases current - other
  {
    if other < current {
      OthersExist(ops, g, current, toAnchor, other + 1);
      if g.samples[other].canonicalMember {
        MemberHasAnchor(ops, g, other);
      }
    }
  }

  lemma NoveltyExists(ops: AffineOps, g: Graph, current: nat, metric: Metric)
    requires Component(g) && current < |g.samples|
    ensures Novelty(ops, g, current, metric).Ok?
  {
    hide SampleToAnchor;
    if g.established && g.Member(current) {
      MemberHasAnchor(ops, g, current);
      OthersExist(ops, g, current, RequireAnchor(ops, g, current).value, 0);
    }
  }

  /** The part of an integration before promotion: attachment or establishment. */
  function Based(ops: AffineOps, g: Graph, current: nat, previous: seq<nat>, threshold: int, score: Score): Graph
    requires g.table.Valid() && current < |g.samples| && forall p <- previous :: p < current
  {
    var attached := Attach(ops, g, current, previous);
    if attached.Ok? then Establish(ops, attached.value, current, previous, threshold, score) else g
  }

  lemma BasedStep(ops: AffineOps, g: Graph, current: nat, previous: seq<nat>, threshold: int, score: Score)
    requires Ready(g, current) && forall p <- previous :: p < current && g.table.Record(current, p).Some?
    ensures Attach(ops, g, current, previous).Ok?
    ensures var b := Based(ops, g, current, previous, threshold, score);
      && Component(b) && |b.samples| == |g.samples| && b.table.capacity == g.table.capacity
      && (b.established ==> b.anchor < current)
      && (g.established ==> b.established && b.anchor == g.anchor)
      && (!b.established ==> b == g)
      && forall i: nat :: g.Member(i) ==> b.Member(i)
  {
    hide Strongest, Component;
    if g.established {
      AttachStep(ops, g, current, previous);
    } else {
      EstablishStep(ops, g, current, previous, threshold, score);
    }
    assert g.table.Valid() by { ReadyValid(g, current); }
  }

  lemma ReadyValid(g: Graph, current: nat)
    requires Ready(g, current)
    ensures g.table.Valid()
  {}

  /** What an integration returns when no phase fails. */
  lemma IntegratePhases(
    ops: AffineOps, g: Graph, current: nat, previous: seq<nat>, threshold: int, score: Score, metric: Metric)
    requires g.table.Valid() && current + 1 == |g.samples| && forall p <- previous :: p < current
    requires CheckPrevious(g, current, previous).Pass? && Attach(ops, g, current, previous).Ok?
    ensures var b := Based(ops, g, current, previous, threshold, score);
      var (h, promoted) := Promote(ops, b, current, previous, threshold, score);
      var (h', r) := Integrate(ops, g, current, previous, threshold, score, metric);
      && h' == h
      && (promoted.Ok? && Novelty(ops, h, current, metric).Ok? ==> r == Ok(Integration(current,
        if h.established then Some(h.anchor) else None, h.Member(current), promoted.value,
        Novelty(ops, h, current, metric).value)))
  {
    hide Attach, Establish, Promote, Novelty;
  }

  /**
   Integrating a freshly pushed outsider with valid arguments cannot fail.  It keeps the component, never moves an
   established anchor, never drops a member, and promotes what the least fixpoint over the based graph says.
   */
  lemma IntegrationKeepsComponent(
    ops: AffineOps, g: Graph, current: nat, previous: seq<nat>, threshold: int, score: Score, metric: Metric)
    requires Ready(g, current) && forall p <- previous :: p < current && g.table.Record(current, p).Some?
    ensures var (h, r) := Integrate(ops, g, current, previous, threshold, score, metric);
      var b := Based(ops, g, current, previous, threshold, score);
      && r.Ok? && Component(h)
      && |h.samples| == |g.samples| && h.table.capacity == g.table.capacity
      && r.value.currentIndex == current && r.value.currentIsCanonical == h.Member(current)
      && r.value.canonicalAnchor == (if h.established then Some(h.anchor) else None)
      && (h.established ==> h.anchor < current)
      && (g.established ==> h.established && h.anchor == g.anchor)
      && (forall i: nat :: g.Member(i) ==> h.Member(i))
      && Tracks(b, current, h, r.value.promoted)
      && (b.Member(current) ==>
            && Closed(ops, b, current, previous, threshold, score, Elements(r.value.promoted))
            && forall s: iset<nat> :: Closed(ops, b, current, previous, threshold, score, s) ==> forall p <- r.value.promoted :: p in s)
      && (!b.Member(current) ==> r.value.promoted == [] && h == b)
  {
    assert g.table.Valid() by { ReadyValid(g, current); }
    CheckPasses(g, current, previous);
    BasedStep(ops, g, current, previous, threshold, score);
    IntegratePhases(ops, g, current, previous, threshold, score, metric);
    hide Strongest, Component, Attach, Establish, Closed, Novelty, Integrate, Based;
    var b := Based(ops, g, current, previous, threshold, score);
    assert !b.established ==> !b.Member(current) by { NoMembers(b); }
    TracksStart(b, current);
    if b.established && b.Member(current) {
      PromotionIsLeastFixpoint(ops, b, current, previous, threshold, score);
    }
    hide PromoteDirect, Close, SampleToAnchor;
    var h := Promote(ops, b, current, previous, threshold, score).0;
    assert Component(h);
    NoveltyExists(ops, h, current, metric);
  }

  lemma NoMembers(g: Graph)
    requires Component(g)
    ensures !g.established ==> forall i :: !g.Member(i)
  {}

  lemma {:induction false} CheckPasses(g: Graph, current: nat, previous: seq<nat>)
    requires g.table.Valid() && forall p <- previous :: p < current && g.table.Record(current, p).Some?
    ensures CheckPrevious(g, current, previous).Pass?
  {
    hide RelationTable.Record;
    if previous != [] {
      assert previous[0] in previous && forall p <- previous[1..] :: p in previous;
      CheckPasses(g, current, previous[1..]);
    }
  }
}
