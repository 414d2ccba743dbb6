/**
 In which order one integration promotes, and which transform each promoted sample gets: first the partners in the order
 of the list, then layer by layer what passes through an already promoted sample, each through the first one possible.
 */
module GraphOrder {
  import opened Wrappers
  import opened Bytes
  import opened Relations
  import opened GraphModel
  import opened GraphProofs
  import opened GraphRecords
  import opened GraphPromotion

  /** The transform from a sample to the anchor, as the table holds it. */
  function Toward(ops: AffineOps, t: RelationTable, p: nat, anchor: nat): Affine
    requires t.Valid()
  {
    var record := t.Record(p, anchor);
    if record.None? then IDENTITY
    else if p > anchor then record.value.higherToLower else ops.inverse(record.value.higherToLower)
  }

  /** The transform from `p` to `q`, as the table holds it. */
  function Relative(ops: AffineOps, t: RelationTable, p: nat, q: nat): Affine
    requires t.Valid()
  {
    var record := t.Record(p, q);
    if record.None? then IDENTITY
    else if p > q then record.value.higherToLower else ops.inverse(record.value.higherToLower)
  }

  /** The record to the anchor: value 0 and this transform, turned round when the anchor is the higher sample. */
  predicate HoldsAnchor(ops: AffineOps, t: RelationTable, p: nat, anchor: nat, transform: Affine)
    requires t.Valid()
  {
    t.Record(p, anchor) == Some(PairRelation(0, if p > anchor then transform else ops.inverse(transform)))
  }

  /**
   The transform of the `k`-th promoted sample: through the newest sample for the first `n`, and through the promoted
   sample it was reached from for the others.
   */
  function Derived(ops: AffineOps, base: Graph, t: RelationTable, current: nat, q: seq<nat>, via: seq<nat>, n: nat, k: nat): Affine
    requires base.table.Valid() && t.Valid() && k < |q| == |via| && (n <= k ==> via[k] < |q|)
  {
    if k < n then
      ops.compose(Toward(ops, t, current, base.anchor), ops.inverse(Relative(ops, base.table, current, q[k])))
    else
      ops.compose(Toward(ops, t, q[via[k]], base.anchor), Relative(ops, base.table, q[k], q[via[k]]))
  }

  /** Every promoted sample holds its derived transform. */
  ghost predicate Anchored(ops: AffineOps, base: Graph, t: RelationTable, current: nat, q: seq<nat>, via: seq<nat>, n: nat)
    requires base.table.Valid() && t.Valid()
  {
    && |via| == |q| && (forall k: nat :: n <= k < |q| ==> via[k] < k)
    && forall k: nat :: k < |q| ==> HoldsAnchor(ops, t, q[k], base.anchor, Derived(ops, base, t, current, q, via, n, k))
  }

  lemma StoredRecord(ops: AffineOps, g: Graph, x: nat, toAnchor: Affine, a: nat)
    requires g.table.Valid() && x < |g.samples| <= g.table.capacity && g.anchor < g.table.capacity && x != g.anchor
    ensures var t := StorePromoted(ops, g, x, toAnchor).table;
      && HoldsAnchor(ops, t, x, g.anchor, toAnchor)
      && (a != x ==> t.Record(a, g.anchor) == g.table.Record(a, g.anchor) && Toward(ops, t, a, g.anchor) == Toward(ops, g.table, a, g.anchor))
  {
    hide RelationTable.Record, RelationTable.Set;
    var relation := PairRelation(0, if x > g.anchor then toAnchor else ops.inverse(toAnchor));
    SetFrame(g.table, x, g.anchor, relation, x, g.anchor);
    SetFrame(g.table, x, g.anchor, relation, a, g.anchor);
  }

  /** Storing the derived transform of one more sample keeps those of the others. */
  lemma AnchoredPush(ops: AffineOps, base: Graph, g: Graph, current: nat, q: seq<nat>, via: seq<nat>, n: nat, x: nat, v: nat,
                     m: nat, toAnchor: Affine)
    requires base.table.Valid() && g.table.Valid() && Anchored(ops, base, g.table, current, q, via, n)
    requires g.anchor == base.anchor && x < |g.samples| <= g.table.capacity && g.anchor < g.table.capacity && x != g.anchor
    requires x !in q && x != current
    requires (m == n <= |q| && v < |q|) || (n == |q| && m == n + 1)
    requires toAnchor == Derived(ops, base, g.table, current, q + [x], via + [v], m, |q|)
    ensures StorePromoted(ops, g, x, toAnchor).table.Valid()
    ensures Anchored(ops, base, StorePromoted(ops, g, x, toAnchor).table, current, q + [x], via + [v], m)
  {
    hide RelationTable.Record, StorePromoted, HoldsAnchor;
    var t, all, vias := StorePromoted(ops, g, x, toAnchor).table, q + [x], via + [v];
    forall a: nat
      ensures HoldsAnchor(ops, t, x, g.anchor, toAnchor)
      ensures a != x ==> t.Record(a, g.anchor) == g.table.Record(a, g.anchor) && Toward(ops, t, a, g.anchor) == Toward(ops, g.table, a, g.anchor)
    {
      StoredRecord(ops, g, x, toAnchor, a);
    }
    hide Toward, Relative;
    forall k: nat | k < |all|
      ensures HoldsAnchor(ops, t, all[k], base.anchor, Derived(ops, base, t, current, all, vias, m, k))
    {
      if k < |q| {
        assert all[k] == q[k] && vias[k] == via[k] && q[k] in q;
        assert n <= k ==> all[via[k]] == q[via[k]] && q[via[k]] in q;
        assert HoldsAnchor(ops, g.table, q[k], base.anchor, Derived(ops, base, g.table, current, q, via, n, k));
        HoldsSame(ops, g.table, t, q[k], base.anchor, Derived(ops, base, g.table, current, q, via, n, k));
      }
    }
  }

  lemma HoldsSame(ops: AffineOps, t: RelationTable, u: RelationTable, p: nat, anchor: nat, transform: Affine)
    requires t.Valid() && u.Valid() && HoldsAnchor(ops, t, p, anchor, transform) && u.Record(p, anchor) == t.Record(p, anchor)
    ensures HoldsAnchor(ops, u, p, anchor, transform)
  {
    hide RelationTable.Record;
  }

  // ---- the partners ---------------------------------------------------------------------------------------------

  /** The promoted partners in the order of the list, each at its first position in it. */
  ghost predicate Listed(previous: seq<nat>, end: nat, q: seq<nat>, at: seq<nat>) {
    && end <= |previous| && |at| == |q|
    && (forall k: nat :: k < |q| ==> at[k] < end && previous[at[k]] == q[k] && forall i: nat :: i < at[k] ==> previous[i] != q[k])
    && forall j, k :: 0 <= j < k < |at| ==> at[j] < at[k]
  }

  lemma ListedNext(previous: seq<nat>, at: nat, q: seq<nat>, positions: seq<nat>)
    requires Listed(previous, at, q, positions) && at < |previous|
    ensures Listed(previous, at + 1, q, positions)
    ensures (forall i: nat :: i < at ==> previous[i] != previous[at]) ==>
      Listed(previous, at + 1, q + [previous[at]], positions + [at])
  {}

  lemma TowardIsAnchor(ops: AffineOps, g: Graph, x: nat)
    requires Component(g) && g.established && g.Member(x)
    ensures RequireAnchor(ops, g, x) == Ok(Toward(ops, g.table, x, g.anchor))
  {
    RecordSymmetric(g.table, x, g.anchor);
    MemberHasAnchor(ops, g, x);
    hide RelationTable.Record;
  }

  lemma RelativeIsRead(ops: AffineOps, t: RelationTable, p: nat, q: nat)
    requires t.Valid() && t.Read(ops, p, q).Some?
    ensures t.Read(ops, p, q).value.1 == Relative(ops, t, p, q)
  {
    RecordSymmetric(t, p, q);
    hide RelationTable.Record;
  }

  /** A member's transform to the anchor stays while others are promoted. */
  lemma TowardStays(ops: AffineOps, base: Graph, g: Graph, x: nat)
    requires Grows(base, g) && base.Member(x)
    ensures Toward(ops, g.table, x, base.anchor) == Toward(ops, base.table, x, base.anchor)
  {
    hide RelationTable.Record;
  }

  /** One partner of the direct promotion. */
  lemma DirectTurn(ops: AffineOps, base: Graph, g: Graph, current: nat, toAnchor: Affine, previous: seq<nat>, at: nat,
                   score: Score, q: seq<nat>, positions: seq<nat>, via: seq<nat>)
    returns (g1: Graph, q1: seq<nat>, positions1: seq<nat>, via1: seq<nat>)
    requires Tracks(base, current, g, q) && base.established && base.anchor < current < |base.samples| && base.Member(current)
    requires at < |previous| && forall p <- previous :: p < current
    requires forall k :: 0 <= k < at && Seed(ops, base, current, previous, score, previous[k]) ==> previous[k] in q
    requires Listed(previous, at, q, positions) && Anchored(ops, base, g.table, current, q, via, |q|)
    requires toAnchor == Toward(ops, base.table, current, base.anchor)
    ensures Tracks(base, current, g1, q1) && Listed(previous, at + 1, q1, positions1)
    ensures base.table.Valid() && g1.table.Valid() && Anchored(ops, base, g1.table, current, q1, via1, |q1|)
    ensures forall k :: 0 <= k < at + 1 && Seed(ops, base, current, previous, score, previous[k]) ==> previous[k] in q1
    ensures PromoteDirect(ops, g, current, toAnchor, previous, at, score, q)
         == PromoteDirect(ops, g1, current, toAnchor, previous, at + 1, score, q1)
  {
    TracksValid(base, current, g, q);
    var p := previous[at];
    g1, q1, positions1, via1 := g, q, positions, via;
    assert p in previous;
    ListedNext(previous, at, q, positions);
    if !g.Member(p) {
      AnchorIsMember(base, g);
      UsableStable(ops, base, g, current, p, SCORE_WEAK, score);
      if Usable(ops, g.table, current, p, SCORE_WEAK, score) {
        assert Seed(ops, base, current, previous, score, p);
        RelativeIsRead(ops, base.table, current, p);
        TowardStays(ops, base, g, current);
        var t := ops.compose(toAnchor, ops.inverse(g.table.Read(ops, current, p).value.1));
        TracksPush(ops, base, current, g, q, p, t);
        hide Usable, Component, Toward, Relative, RelationTable.Read, RelationTable.Record;
        TrackBounds(base, current, g, q);
        AnchoredPush(ops, base, g, current, q, via, |q|, p, 0, |q| + 1, t);
        g1, q1, positions1, via1 := StorePromoted(ops, g, p, t), q + [p], positions + [at], via + [0];
        hide StorePromoted, Grows, Anchored, Listed;
      }
    }
  }

  lemma TrackBounds(base: Graph, current: nat, g: Graph, q: seq<nat>)
    requires Tracks(base, current, g, q) && base.established
    ensures g.anchor == base.anchor && |g.samples| == |base.samples| <= g.table.capacity && g.anchor < g.table.capacity
  {}

  lemma {:induction false} DirectOrders(
    ops: AffineOps, base: Graph, g: Graph, current: nat, toAnchor: Affine, previous: seq<nat>, at: nat, score: Score,
    q: seq<nat>, positions: seq<nat>, via: seq<nat>) returns (positions1: seq<nat>, via1: seq<nat>)
    requires Tracks(base, current, g, q) && base.established && base.anchor < current < |base.samples| && base.Member(current)
    requires at <= |previous| && forall p <- previous :: p < current
    requires forall k :: 0 <= k < at && Seed(ops, base, current, previous, score, previous[k]) ==> previous[k] in q
    requires Listed(previous, at, q, positions) && Anchored(ops, base, g.table, current, q, via, |q|)
    requires toAnchor == Toward(ops, base.table, current, base.anchor)
    ensures var (h, r) := PromoteDirect(ops, g, current, toAnchor, previous, at, score, q);
      && base.table.Valid() && Tracks(base, current, h, r) && Listed(previous, |previous|, r, positions1)
      && Anchored(ops, base, h.table, current, r, via1, |r|)
    decreases |previous| - at
  {
    positions1, via1 := positions, via;
    if at < |previous| {
      var g1, q1, p1, v1 := DirectTurn(ops, base, g, current, toAnchor, previous, at, score, q, positions, via);
      hide Tracks, Listed, Anchored, Seed, Toward, StorePromoted, Usable, RelationTable.Read;
      positions1, via1 := DirectOrders(ops, base, g1, current, toAnchor, previous, at + 1, score, q1, p1, v1);
    }
  }

  // ---- the closure ----------------------------------------------------------------------------------------------

  /** `x` passes through the `v`-th promoted sample and through no earlier one. */
  ghost predicate FirstThrough(ops: AffineOps, t: RelationTable, threshold: int, score: Score, q: seq<nat>, x: nat, v: nat)
    requires t.Valid()
  {
    v < |q| && PassesThrough(ops, t, x, q[v], threshold, score)
    && forall j: nat :: j < v ==> !PassesThrough(ops, t, x, q[j], threshold, score)
  }

  /** Behind the first `n`, layer by layer: each through the first one possible, those through the same one ascending. */
  ghost predicate Layered(ops: AffineOps, t: RelationTable, threshold: int, score: Score, q: seq<nat>, via: seq<nat>, n: nat)
    requires t.Valid()
  {
    && |via| == |q| && n <= |q|
    && (forall k: nat :: n <= k < |q| ==> via[k] < k && FirstThrough(ops, t, threshold, score, q, q[k], via[k]))
    && forall j: nat, k: nat :: n <= j < k < |q| ==> via[j] < via[k] || (via[j] == via[k] && q[j] < q[k])
  }

  /** So far only through the samples before `next`, and through that one only candidates below `candidate`. */
  ghost predicate ReachedUpTo(q: seq<nat>, via: seq<nat>, n: nat, next: nat, candidate: nat)
    requires |via| == |q|
  {
    forall k: nat :: n <= k < |q| ==> via[k] < next || (via[k] == next && q[k] < candidate)
  }

  lemma LayeredPush(ops: AffineOps, t: RelationTable, threshold: int, score: Score, q: seq<nat>, via: seq<nat>, n: nat,
                    next: nat, c: nat)
    requires t.Valid() && Layered(ops, t, threshold, score, q, via, n) && ReachedUpTo(q, via, n, next, c)
    requires FirstThrough(ops, t, threshold, score, q, c, next)
    ensures Layered(ops, t, threshold, score, q + [c], via + [next], n)
    ensures ReachedUpTo(q + [c], via + [next], n, next, c + 1)
  {
    hide PassesThrough;
    var all, vias := q + [c], via + [next];
    forall k: nat | n <= k < |all|
      ensures vias[k] < k && FirstThrough(ops, t, threshold, score, all, all[k], vias[k])
    {
      if k < |q| {
        assert all[k] == q[k] && vias[k] == via[k] && FirstThrough(ops, t, threshold, score, q, q[k], via[k]);
      }
    }
  }

  /** An outsider that is not yet promoted passes through none of the samples already expanded. */
  lemma NotBefore(ops: AffineOps, base: Graph, current: nat, threshold: int, score: Score, q: seq<nat>, next: nat, c: nat)
    requires base.table.Valid() && next < |q| && ExpandedTo(ops, base, current, threshold, score, q, next)
    requires c < current && !base.Member(c) && c !in q && Edge(ops, base, current, threshold, score, c, q[next])
    ensures FirstThrough(ops, base.table, threshold, score, q, c, next)
  {
    hide Edge, PassesThrough;
    EdgeIsThrough(ops, base, current, threshold, score, c, q[next]);
    forall j: nat | j < next
      ensures !PassesThrough(ops, base.table, c, q[j], threshold, score)
    {
      assert Expanded(ops, base, current, threshold, score, q, q[j]);
      EdgeIsThrough(ops, base, current, threshold, score, c, q[j]);
    }
  }

  lemma ExpandedGrows(ops: AffineOps, base: Graph, current: nat, threshold: int, score: Score, q: seq<nat>, c: nat, next: nat)
    requires base.table.Valid() && next <= |q| && ExpandedTo(ops, base, current, threshold, score, q, next)
    ensures ExpandedTo(ops, base, current, threshold, score, q + [c], next)
  {
    hide Edge;
    forall k | 0 <= k < next
      ensures Expanded(ops, base, current, threshold, score, q + [c], (q + [c])[k])
    {
      assert Expanded(ops, base, current, threshold, score, q, q[k]);
    }
  }

  /** What holds while the `next`-th promoted sample is expanded. */
  ghost predicate Scanning(ops: AffineOps, base: Graph, g: Graph, current: nat, threshold: int, score: Score, q: seq<nat>,
                           via: seq<nat>, n: nat, next: nat, candidate: nat)
  {
    && Tracks(base, current, g, q) && base.established && base.anchor < current < |base.samples| && next < |q|
    && base.table.Valid() && g.table.Valid()
    && Layered(ops, base.table, threshold, score, q, via, n) && ReachedUpTo(q, via, n, next, candidate)
    && Anchored(ops, base, g.table, current, q, via, n)
    && ExpandedTo(ops, base, current, threshold, score, q, next)
  }

  /** One candidate. */
  lemma ScanOrderTurn(
    ops: AffineOps, base: Graph, g: Graph, current: nat, throughToAnchor: Affine, candidate: nat, threshold: int,
    score: Score, q: seq<nat>, via: seq<nat>, n: nat, next: nat) returns (g1: Graph, q1: seq<nat>, via1: seq<nat>)
    requires Scanning(ops, base, g, current, threshold, score, q, via, n, next, candidate) && candidate < current
    requires throughToAnchor == Toward(ops, g.table, q[next], base.anchor)
    ensures Scanning(ops, base, g1, current, threshold, score, q1, via1, n, next, candidate + 1) && q <= q1
    ensures throughToAnchor == Toward(ops, g1.table, q[next], base.anchor) && current < |g.samples| == |g1.samples|
    ensures ScanCandidates(ops, g, current, q[next], throughToAnchor, candidate, threshold, score, q)
         == ScanCandidates(ops, g1, current, q[next], throughToAnchor, candidate + 1, threshold, score, q1)
  {
    g1, q1, via1 := g, q, via;
    var through := q[next];
    assert through in q;
    if candidate != through && !g.Member(candidate) {
      AnchorIsMember(base, g);
      UsableStable(ops, base, g, candidate, through, threshold + 1, score);
      if Usable(ops, g.table, candidate, through, threshold + 1, score) {
        RelativeIsRead(ops, base.table, candidate, through);
        var t := ops.compose(throughToAnchor, g.table.Read(ops, candidate, through).value.1);
        assert Edge(ops, base, current, threshold, score, candidate, through);
        ScanPush(ops, base, g, current, candidate, threshold, score, q, via, n, next, t);
        g1, q1, via1 := StorePromoted(ops, g, candidate, t), q + [candidate], via + [next];
      }
    }
  }

  lemma ScanPush(
    ops: AffineOps, base: Graph, g: Graph, current: nat, c: nat, threshold: int, score: Score, q: seq<nat>, via: seq<nat>,
    n: nat, next: nat, t: Affine)
    requires Scanning(ops, base, g, current, threshold, score, q, via, n, next, c) && c < current && !g.Member(c)
    requires Edge(ops, base, current, threshold, score, c, q[next])
    requires t == ops.compose(Toward(ops, g.table, q[next], base.anchor), Relative(ops, base.table, c, q[next]))
    ensures Scanning(ops, base, StorePromoted(ops, g, c, t), current, threshold, score, q + [c], via + [next], n, next, c + 1)
    ensures Toward(ops, StorePromoted(ops, g, c, t).table, q[next], base.anchor) == Toward(ops, g.table, q[next], base.anchor)
  {
    hide Edge, Toward, Relative, RelationTable.Record;
    AnchorIsMember(base, g);
    TracksPush(ops, base, current, g, q, c, t);
    hide Component;
    TrackBounds(base, current, g, q);
    assert q[next] in q;
    NotBefore(ops, base, current, threshold, score, q, next, c);
    hide Grows, StorePromoted, ExpandedTo;
    LayeredPush(ops, base.table, threshold, score, q, via, n, next, c);
    ExpandedGrows(ops, base, current, threshold, score, q, c, next);
    AnchoredPush(ops, base, g, current, q, via, n, c, next, n, t);
    StoredRecord(ops, g, c, t, q[next]);
  }

  lemma {:induction false} ScanOrders(
    ops: AffineOps, base: Graph, g: Graph, current: nat, throughToAnchor: Affine, candidate: nat, threshold: int,
    score: Score, q: seq<nat>, via: seq<nat>, n: nat, next: nat) returns (via1: seq<nat>)
    requires Scanning(ops, base, g, current, threshold, score, q, via, n, next, candidate) && candidate <= current
    requires throughToAnchor == Toward(ops, g.table, q[next], base.anchor) && current < |g.samples|
    ensures var (h, r) := ScanCandidates(ops, g, current, q[next], throughToAnchor, candidate, threshold, score, q);
      Scanning(ops, base, h, current, threshold, score, r, via1, n, next, current) && q <= r
    decreases current - candidate
  {
    hide Scanning, Toward, StorePromoted, Usable, RelationTable.Read, Outside;
    via1 := via;
    ScanningNext(ops, base, g, current, threshold, score, q, via, n, next, candidate);
    if candidate < current {
      var g1, q1, v1 := ScanOrderTurn(ops, base, g, current, throughToAnchor, candidate, threshold, score, q, via, n, next);
      ScanningNext(ops, base, g1, current, threshold, score, q1, v1, n, next, candidate + 1);
      assert q1[next] == q[next];
      hide ScanCandidates;
      via1 := ScanOrders(ops, base, g1, current, throughToAnchor, candidate + 1, threshold, score, q1, v1, n, next);
    }
  }

  lemma ScanningNext(ops: AffineOps, base: Graph, g: Graph, current: nat, threshold: int, score: Score, q: seq<nat>,
                     via: seq<nat>, n: nat, next: nat, candidate: nat)
    requires Scanning(ops, base, g, current, threshold, score, q, via, n, next, candidate)
    ensures next < |q| && g.table.Valid() && base.table.Valid()
  {}

  /** What holds between two expansions. */
  ghost predicate Closing(ops: AffineOps, base: Graph, g: Graph, current: nat, threshold: int, score: Score, q: seq<nat>,
                          via: seq<nat>, n: nat, next: nat)
  {
    && Tracks(base, current, g, q) && base.established && base.anchor < current < |base.samples| && next <= |q|
    && base.table.Valid() && g.table.Valid()
    && Layered(ops, base.table, threshold, score, q, via, n) && ReachedUpTo(q, via, n, next, 0)
    && Anchored(ops, base, g.table, current, q, via, n)
    && ExpandedTo(ops, base, current, threshold, score, q, next)
  }

  lemma ClosingGraph(ops: AffineOps, base: Graph, g: Graph, current: nat, threshold: int, score: Score, q: seq<nat>,
                     via: seq<nat>, n: nat, next: nat)
    requires Closing(ops, base, g, current, threshold, score, q, via, n, next)
    ensures next <= |q| && g.table.Valid() && base.table.Valid() && current < |g.samples|
  {}

  /** Every candidate was looked at, so the next sample's turn begins. */
  lemma NextLayer(ops: AffineOps, base: Graph, g: Graph, current: nat, threshold: int, score: Score, q: seq<nat>,
                  via: seq<nat>, n: nat, next: nat)
    requires Scanning(ops, base, g, current, threshold, score, q, via, n, next, current)
    requires Expanded(ops, base, current, threshold, score, q, q[next])
    ensures Closing(ops, base, g, current, threshold, score, q, via, n, next + 1)
  {
    hide Edge, Anchored, Layered, Tracks, Expanded;
    ExpandedStep(ops, base, current, threshold, score, q, q, next);
  }

  lemma ExpansionStarts(ops: AffineOps, base: Graph, g: Graph, current: nat, threshold: int, score: Score, q: seq<nat>,
                        via: seq<nat>, n: nat, next: nat)
    requires Closing(ops, base, g, current, threshold, score, q, via, n, next) && next < |q|
    ensures Scanning(ops, base, g, current, threshold, score, q, via, n, next, 0) && Tracks(base, current, g, q)
    ensures base.established && base.anchor < current < |base.samples| == |g.samples| && g.table.Valid() && base.table.Valid()
    ensures g.anchor == base.anchor && RequireAnchor(ops, g, q[next]) == Ok(Toward(ops, g.table, q[next], base.anchor))
  {
    TracksValid(base, current, g, q);
    assert q[next] in q;
    TrackBounds(base, current, g, q);
    TowardIsAnchor(ops, g, q[next]);
  }

  lemma CloseOnce(ops: AffineOps, g: Graph, current: nat, q: seq<nat>, next: nat, threshold: int, score: Score)
    requires g.table.Valid() && current < |g.samples| && next < |q| && RequireAnchor(ops, g, q[next]).Ok?
    ensures var (g1, q1) := ScanCandidates(ops, g, current, q[next], RequireAnchor(ops, g, q[next]).value, 0, threshold, score, q);
      && g1.table.Valid() && |g1.samples| == |g.samples| && |q| <= |q1| && |Outside(g1)| + |q1| == |Outside(g)| + |q|
      && Close(ops, g, current, q, next, threshold, score) == Close(ops, g1, current, q1, next + 1, threshold, score)
  {
    hide Outside, RequireAnchor, ScanCandidates;
  }

  lemma ExpandsThrough(ops: AffineOps, base: Graph, g: Graph, current: nat, toAnchor: Affine, threshold: int, score: Score,
                       q: seq<nat>, next: nat)
    requires Tracks(base, current, g, q) && base.established && base.anchor < current < |base.samples| && next < |q|
    requires g.table.Valid() && base.table.Valid()
    ensures var (h, r) := ScanCandidates(ops, g, current, q[next], toAnchor, 0, threshold, score, q);
      Expanded(ops, base, current, threshold, score, r, q[next])
  {
    var s := iset p: nat | AnySample(p);
    assert EdgesWithin(ops, base, current, threshold, score, q[next], s) && Within(q, s);
    ScannedNone(ops, base, current, threshold, score, q, q[next]);
    hide Edge, EdgesWithin, Within, Tracks, ScanCandidates, Expanded, ScannedTo;
    ScanTracks(ops, base, g, current, q[next], toAnchor, 0, threshold, score, q, s);
  }

  /** One sample of the worklist. */
  lemma CloseOrderTurn(
    ops: AffineOps, base: Graph, g: Graph, current: nat, threshold: int, score: Score, q: seq<nat>, via: seq<nat>, n: nat,
    next: nat) returns (g1: Graph, q1: seq<nat>, via1: seq<nat>)
    requires Closing(ops, base, g, current, threshold, score, q, via, n, next) && next < |q|
    ensures Closing(ops, base, g1, current, threshold, score, q1, via1, n, next + 1) && q <= q1
    ensures g.table.Valid() && g1.table.Valid() && current < |g.samples| == |g1.samples| && next < |q1|
    ensures |Outside(g1)| + |q1| == |Outside(g)| + |q|
    ensures Close(ops, g, current, q, next, threshold, score) == Close(ops, g1, current, q1, next + 1, threshold, score)
  {
    hide Closing, Scanning, Tracks, ScanCandidates, RequireAnchor, Toward, Outside, Close, Expanded;
    ExpansionStarts(ops, base, g, current, threshold, score, q, via, n, next);
    var toAnchor := RequireAnchor(ops, g, q[next]).value;
    CloseOnce(ops, g, current, q, next, threshold, score);
    ExpandsThrough(ops, base, g, current, toAnchor, threshold, score, q, next);
    via1 := ScanOrders(ops, base, g, current, toAnchor, 0, threshold, score, q, via, n, next);
    var turned := ScanCandidates(ops, g, current, q[next], toAnchor, 0, threshold, score, q);
    g1, q1 := turned.0, turned.1;
    assert q1[next] == q[next];
    NextLayer(ops, base, g1, current, threshold, score, q1, via1, n, next);
  }

  lemma PrefixTransitive(a: seq<nat>, b: seq<nat>, c: seq<nat>)
    requires a <= b && b <= c
    ensures a <= c
  {}

  lemma {:induction false} CloseOrders(
    ops: AffineOps, base: Graph, g: Graph, current: nat, threshold: int, score: Score, q: seq<nat>, via: seq<nat>, n: nat,
    next: nat) returns (via1: seq<nat>)
    requires Closing(ops, base, g, current, threshold, score, q, via, n, next)
    requires g.table.Valid() && current < |g.samples|
    ensures var (h, r) := Close(ops, g, current, q, next, threshold, score);
      r.Ok? && q <= r.value && Closing(ops, base, h, current, threshold, score, r.value, via1, n, |r.value|)
    decreases |Outside(g)| + |q| - next
  {
    hide *;
    ClosingGraph(ops, base, g, current, threshold, score, q, via, n, next);
    CloseDone(ops, g, current, q, threshold, score);
    via1 := via;
    if next < |q| {
      var g1, q1, v1 := CloseOrderTurn(ops, base, g, current, threshold, score, q, via, n, next);
      via1 := CloseOrders(ops, base, g1, current, threshold, score, q1, v1, n, next + 1);
      PrefixTransitive(q, q1, Close(ops, g1, current, q1, next + 1, threshold, score).1.value);
    }
  }

  // ---- a whole promotion ----------------------------------------------------------------------------------------

  /**
   The promoted samples in order: the partners as listed, the others layer by layer, each with the transform derived
   through the sample it was reached from.
   */
  ghost predicate InOrder(ops: AffineOps, base: Graph, t: RelationTable, current: nat, previous: seq<nat>, threshold: int,
                          score: Score, promoted: seq<nat>, n: nat, at: seq<nat>, via: seq<nat>)
    requires base.table.Valid() && t.Valid()
  {
    && n <= |promoted| && Listed(previous, |previous|, promoted[..n], at)
    && Layered(ops, base.table, threshold, score, promoted, via, n)
    && Anchored(ops, base, t, current, promoted, via, n)
  }

  /** The order of one promotion, and the transforms it stores. */
  lemma PromotionOrder(ops: AffineOps, g: Graph, current: nat, previous: seq<nat>, threshold: int, score: Score)
    returns (n: nat, at: seq<nat>, via: seq<nat>)
    requires Component(g) && g.established && g.Member(current) && g.anchor < current && current + 1 == |g.samples|
    requires forall p <- previous :: p < current
    ensures var (h, r) := Promote(ops, g, current, previous, threshold, score);
      r.Ok? && InOrder(ops, g, h.table, current, previous, threshold, score, r.value, n, at, via)
  {
    TracksStart(g, current);
    TracksValid(g, current, g, []);
    TowardIsAnchor(ops, g, current);
    var toAnchor := RequireAnchor(ops, g, current).value;
    hide Component, Usable, Seed, Edge, Grows, StorePromoted, SampleToAnchor, Toward, Outside, PassesThrough;
    at, via := DirectOrders(ops, g, g, current, toAnchor, previous, 0, score, [], [], []);
    var (g1, q1) := PromoteDirect(ops, g, current, toAnchor, previous, 0, score, []);
    n := |q1|;
    assert Closing(ops, g, g1, current, threshold, score, q1, via, n, 0);
    hide Closing, Listed, Layered, Anchored, Tracks, PromoteDirect;
    TracksSize(g, current, g1, q1);
    via := CloseOrders(ops, g, g1, current, threshold, score, q1, via, n, 0);
    var (h, r) := Close(ops, g1, current, q1, 0, threshold, score);
    ClosingParts(ops, g, h, current, threshold, score, r.value, via, n);
    assert r.value[..n] == q1;
  }

  lemma TracksSize(base: Graph, current: nat, g: Graph, q: seq<nat>)
    requires Tracks(base, current, g, q)
    ensures g.table.Valid() && |g.samples| == |base.samples|
  {}

  lemma ClosingParts(ops: AffineOps, base: Graph, g: Graph, current: nat, threshold: int, score: Score, q: seq<nat>,
                     via: seq<nat>, n: nat)
    requires Closing(ops, base, g, current, threshold, score, q, via, n, |q|)
    ensures base.table.Valid() && g.table.Valid() && n <= |q| && Layered(ops, base.table, threshold, score, q, via, n)
    ensures Anchored(ops, base, g.table, current, q, via, n)
  {}

  // ---- a whole integration --------------------------------------------------------------------------------------

  /**
   The newest sample is attached through the last of its strongest member partners: its record to the anchor is composed
   of that partner's transform and the direct one, and keeps a non-negative value.
   */
  lemma AttachedThrough(ops: AffineOps, g: Graph, current: nat, previous: seq<nat>) returns (k: nat)
    requires Ready(g, current) && g.established
    requires (forall p <- previous :: p < current && g.table.Record(current, p).Some?) && exists p :: p in previous && g.Member(p)
    ensures g.table.Valid() && LastMaximum(ops, g, current, previous, true, k) && Attach(ops, g, current, previous).Ok?
    ensures var value := g.table.Value(current, g.anchor);
      Attach(ops, g, current, previous).value.table.Record(current, g.anchor)
        == Some(PairRelation(if value < 0 then 0 else value,
             ops.compose(Toward(ops, g.table, previous[k], g.anchor), Relative(ops, g.table, current, previous[k]))))
  {
    ReadyFacts(g, current);
    AttachStep(ops, g, current, previous);
    hide RelationTable.Record, Component, LastMaximum;
    k := StrongestIsLastMaximum(ops, g, current, previous, true);
    StrongestExists(ops, g, current, previous, true);
    StrongestIn(ops, g, current, previous, true);
    var through := Strongest(ops, g, current, previous, true).value;
    TowardIsAnchor(ops, g, through.index);
    RelativeIsRead(ops, g.table, current, through.index);
    hide Strongest, Toward, Relative, RequireAnchor, RelationTable.Read;
    var value := g.table.Value(current, g.anchor);
    var relation := PairRelation(if value < 0 then 0 else value,
      ops.compose(Toward(ops, g.table, through.index, g.anchor), through.transform));
    SetFrame(g.table, current, g.anchor, relation, current, g.anchor);
  }

  lemma ReadyFacts(g: Graph, current: nat)
    requires Ready(g, current)
    ensures Component(g) && g.table.Valid() && current < |g.samples| <= g.table.capacity && (g.established ==> g.anchor < current)
  {}

  lemma RelationAlike(ops: AffineOps, t: RelationTable, u: RelationTable, current: nat, anchor: nat, p: nat, q: nat,
                      threshold: int, score: Score)
    requires t.Valid() && u.Valid() && SameRecords(t, u, current, anchor) && p != anchor && q != anchor
    ensures Relative(ops, t, p, q) == Relative(ops, u, p, q)
    ensures PassesThrough(ops, t, p, q, threshold, score) == PassesThrough(ops, u, p, q, threshold, score)
  {
    hide RelationTable.Record;
  }

  /** The order only reads records that attaching or founding leaves alone. */
  lemma InOrderAlike(ops: AffineOps, a: Graph, b: Graph, t: RelationTable, current: nat, previous: seq<nat>, threshold: int,
                     score: Score, promoted: seq<nat>, n: nat, at: seq<nat>, via: seq<nat>)
    requires a.table.Valid() && b.table.Valid() && t.Valid() && a.anchor == b.anchor != current
    requires SameRecords(a.table, b.table, current, b.anchor) && forall p <- promoted :: p != b.anchor
    requires InOrder(ops, b, t, current, previous, threshold, score, promoted, n, at, via)
    ensures InOrder(ops, a, t, current, previous, threshold, score, promoted, n, at, via)
  {
    hide Listed, PassesThrough, Relative, Toward, HoldsAnchor, SameRecords;
    forall p: nat, q: nat | p != b.anchor && q != b.anchor
      ensures Relative(ops, a.table, p, q) == Relative(ops, b.table, p, q)
      ensures PassesThrough(ops, a.table, p, q, threshold, score) == PassesThrough(ops, b.table, p, q, threshold, score)
    {
      RelationAlike(ops, a.table, b.table, current, b.anchor, p, q, threshold, score);
    }
    assert forall k: nat :: k < |promoted| ==> promoted[k] in promoted;
    forall k: nat | n <= k < |promoted|
      ensures FirstThrough(ops, a.table, threshold, score, promoted, promoted[k], via[k])
    {
      assert FirstThrough(ops, b.table, threshold, score, promoted, promoted[k], via[k]);
    }
    forall k: nat | k < |promoted|
      ensures HoldsAnchor(ops, t, promoted[k], a.anchor, Derived(ops, a, t, current, promoted, via, n, k))
    {
      assert HoldsAnchor(ops, t, promoted[k], b.anchor, Derived(ops, b, t, current, promoted, via, n, k));
      assert n <= k ==> promoted[via[k]] in promoted;
      assert Derived(ops, a, t, current, promoted, via, n, k) == Derived(ops, b, t, current, promoted, via, n, k);
    }
  }

  /** The order in which one integration promotes and the transforms it stores, in the records it starts from. */
  lemma IntegrationOrder(
    ops: AffineOps, g: Graph, current: nat, previous: seq<nat>, threshold: int, score: Score, metric: Metric)
    returns (n: nat, at: seq<nat>, via: seq<nat>)
    requires Ready(g, current) && forall p <- previous :: p < current && g.table.Record(current, p).Some?
    ensures var (h, r) := Integrate(ops, g, current, previous, threshold, score, metric);
      && r.Ok? && g.table.Valid() && h.table.Valid()
      && (h.Member(current) ==>
            InOrder(ops, g.(anchor := h.anchor), h.table, current, previous, threshold, score, r.value.promoted, n, at, via))
  {
    ReadyFacts(g, current);
    CheckPasses(g, current, previous);
    BasedStep(ops, g, current, previous, threshold, score);
    BasedRecords(ops, g, current, previous, threshold, score);
    BasedMembers(ops, g, current, previous, threshold, score);
    IntegratePhases(ops, g, current, previous, threshold, score, metric);
    IntegrationKeepsComponent(ops, g, current, previous, threshold, score, metric);
    hide Integrate, Based, Closed, InOrder, Founding, SameRecords, Attach, Component, Promote, Novelty;
    n, at, via := 0, [], [];
    var b := Based(ops, g, current, previous, threshold, score);
    var (h, r) := Integrate(ops, g, current, previous, threshold, score, metric);
    if b.Member(current) {
      n, at, via := PromotionOrder(ops, b, current, previous, threshold, score);
      InOrderAlike(ops, g.(anchor := b.anchor), b, h.table, current, previous, threshold, score, r.value.promoted, n, at, via);
    }
  }
}
