/**
 The meaning of the stored transforms.  When composition and inversion are exact, and every direct registration agrees
 with one assignment of poses to samples, every record the graph ever stores and every transform it hands to the
 novelty metric agrees with the same poses.
 */
module GraphPoses {
  import opened Wrappers
  import opened Bytes
  import opened Relations
  import opened GraphModel
  import opened GraphProofs

  type Poses = nat -> Affine

  /** Composition and inversion without rounding: the transforms form a group. */
  ghost predicate Exact(ops: AffineOps) {
    && (forall a, b, c :: ops.compose(ops.compose(a, b), c) == ops.compose(a, ops.compose(b, c)))
    && (forall a :: ops.compose(IDENTITY, a) == a && ops.compose(a, IDENTITY) == a)
    && (forall a :: ops.compose(ops.inverse(a), a) == IDENTITY && ops.compose(a, ops.inverse(a)) == IDENTITY)
  }

  /** The transform from the frame of `source` to the frame of `target` that the poses prescribe. */
  function Between(ops: AffineOps, pose: Poses, source: nat, target: nat): Affine {
    ops.compose(ops.inverse(pose(target)), pose(source))
  }

  /** Every usable record stores the transform the poses prescribe, in the stored direction. */
  ghost predicate Posed(ops: AffineOps, pose: Poses, t: RelationTable)
    requires t.Valid()
  {
    forall a: nat, b: nat :: b < a && t.Value(a, b) >= 0 ==> t.Record(a, b).value.higherToLower == Between(ops, pose, a, b)
  }

  // ---- group facts ----------------------------------------------------------------------------------------------

  lemma Associate(ops: AffineOps, a: Affine, b: Affine, c: Affine)
    requires Exact(ops)
    ensures ops.compose(ops.compose(a, b), c) == ops.compose(a, ops.compose(b, c))
  {}

  lemma Units(ops: AffineOps, a: Affine)
    requires Exact(ops)
    ensures ops.compose(IDENTITY, a) == a && ops.compose(a, IDENTITY) == a
    ensures ops.compose(ops.inverse(a), a) == IDENTITY && ops.compose(a, ops.inverse(a)) == IDENTITY
  {}

  lemma InverseUnique(ops: AffineOps, a: Affine, b: Affine)
    requires Exact(ops) && ops.compose(a, b) == IDENTITY
    ensures ops.inverse(a) == b
  {
    hide Exact;
    Associate(ops, ops.inverse(a), a, b);
    Units(ops, a);
    Units(ops, b);
    Units(ops, ops.inverse(a));
  }

  lemma BetweenCompose(ops: AffineOps, pose: Poses, s: nat, t: nat, u: nat)
    requires Exact(ops)
    ensures ops.compose(Between(ops, pose, t, u), Between(ops, pose, s, t)) == Between(ops, pose, s, u)
  {
    hide Exact;
    var x, y, z := ops.inverse(pose(u)), pose(t), pose(s);
    Associate(ops, x, y, ops.compose(ops.inverse(y), z));
    Associate(ops, y, ops.inverse(y), z);
    Units(ops, y);
    Units(ops, z);
  }

  lemma BetweenSelf(ops: AffineOps, pose: Poses, s: nat)
    requires Exact(ops)
    ensures Between(ops, pose, s, s) == IDENTITY
  {}

  lemma BetweenInverse(ops: AffineOps, pose: Poses, s: nat, t: nat)
    requires Exact(ops)
    ensures ops.inverse(Between(ops, pose, s, t)) == Between(ops, pose, t, s)
  {
    hide Between;
    BetweenCompose(ops, pose, t, s, t);
    BetweenSelf(ops, pose, t);
    InverseUnique(ops, Between(ops, pose, s, t), Between(ops, pose, t, s));
  }

  /** Two's-complement wrap-around of a sum of two words. */
  function Wrap(x: int): I32
    requires -0x1_8000_0000 <= x < 0x1_8000_0000
  {
    if x >= 0x8000_0000 then x - U32_LIMIT else if x < -0x8000_0000 then x + U32_LIMIT else x
  }

  /** Wrap-around addition of one component, recentred so that `zero` is neutral. */
  function AddWords(a: I32, b: I32, zero: I32): I32
    requires 0 <= zero <= 0x100
  {
    Wrap(a + b - zero)
  }

  function Negate(a: I32, zero: I32): I32
    requires 0 <= zero <= 0x100
  {
    Wrap(2 * zero - a)
  }

  /** Transforms under wrap-around componentwise addition. */
  const ADDITION := AffineOps(
    (s: Affine, t: Affine) => Affine(AddWords(s.a, t.a, 0x100), AddWords(s.b, t.b, 0), AddWords(s.tx, t.tx, 0), AddWords(s.c, t.c, 0),
      AddWords(s.d, t.d, 0x100), AddWords(s.ty, t.ty, 0)),
    (s: Affine) => Affine(Negate(s.a, 0x100), Negate(s.b, 0), Negate(s.tx, 0), Negate(s.c, 0), Negate(s.d, 0x100),
      Negate(s.ty, 0)))

  lemma AddGroup(a: I32, b: I32, c: I32, zero: I32)
    requires 0 <= zero <= 0x100
    ensures AddWords(AddWords(a, b, zero), c, zero) == AddWords(a, AddWords(b, c, zero), zero)
    ensures AddWords(zero, a, zero) == a && AddWords(a, zero, zero) == a
    ensures AddWords(Negate(a, zero), a, zero) == zero && AddWords(a, Negate(a, zero), zero) == zero
  {}

  lemma AdditionGroup(a: Affine, b: Affine, c: Affine)
    ensures ADDITION.compose(ADDITION.compose(a, b), c) == ADDITION.compose(a, ADDITION.compose(b, c))
    ensures ADDITION.compose(IDENTITY, a) == a && ADDITION.compose(a, IDENTITY) == a
    ensures ADDITION.compose(ADDITION.inverse(a), a) == IDENTITY && ADDITION.compose(a, ADDITION.inverse(a)) == IDENTITY
  {
    hide AddWords, Negate;
    AddGroup(a.a, b.a, c.a, 0x100);
    AddGroup(a.b, b.b, c.b, 0);
    AddGroup(a.tx, b.tx, c.tx, 0);
    AddGroup(a.c, b.c, c.c, 0);
    AddGroup(a.d, b.d, c.d, 0x100);
    AddGroup(a.ty, b.ty, c.ty, 0);
  }

  /** Exact operations exist on the transform type, so the results below are not vacuous. */
  lemma ExactOpsExist()
    ensures exists ops :: Exact(ops)
  {
    hide AddWords, Negate;
    var ops := ADDITION;
    forall a: Affine, b: Affine, c: Affine
      ensures ops.compose(ops.compose(a, b), c) == ops.compose(a, ops.compose(b, c))
    {
      AdditionGroup(a, b, c);
    }
    forall a: Affine
      ensures ops.compose(IDENTITY, a) == a && ops.compose(a, IDENTITY) == a
      ensures ops.compose(ops.inverse(a), a) == IDENTITY && ops.compose(a, ops.inverse(a)) == IDENTITY
    {
      AdditionGroup(a, a, a);
    }
    assert Exact(ops);
  }

  // ---- reading and writing --------------------------------------------------------------------------------------

  lemma ReadPosed(ops: AffineOps, pose: Poses, t: RelationTable, source: nat, target: nat)
    requires Exact(ops) && t.Valid() && Posed(ops, pose, t)
    requires t.Read(ops, source, target).Some? && t.Read(ops, source, target).value.0 >= 0
    ensures t.Read(ops, source, target).value.1 == Between(ops, pose, source, target)
  {
    hide Exact, Between, RelationTable.Record;
    RecordSymmetric(t, source, target);
    if source < target {
      BetweenInverse(ops, pose, target, source);
    } else {
      SelfUnread(t, source);
    }
  }

  lemma SelfUnread(t: RelationTable, s: nat)
    requires t.Valid()
    ensures t.Record(s, s).None?
  {}

  lemma WritePosed(ops: AffineOps, pose: Poses, t: RelationTable, source: nat, target: nat, value: I32)
    requires Exact(ops) && t.Valid() && Posed(ops, pose, t)
    ensures Posed(ops, pose, t.Write(ops, source, target, value, Between(ops, pose, source, target)))
  {
    hide Exact, Between, PairIndex, RowBase, RelationTable.Set, RelationTable.Record;
    var h := t.Write(ops, source, target, value, Between(ops, pose, source, target));
    if source == target || source >= t.capacity || target >= t.capacity {
      assert h == t by { SetOutside(t, source, target); }
    } else {
      BetweenInverse(ops, pose, source, target);
      var relation := PairRelation(value, if source > target then Between(ops, pose, source, target)
        else Between(ops, pose, target, source));
      assert h == t.Set(source, target, relation);
      forall a: nat, b: nat | b < a && h.Value(a, b) >= 0
        ensures h.Record(a, b).value.higherToLower == Between(ops, pose, a, b)
      {
        SetFrame(t, source, target, relation, a, b);
      }
    }
  }

  lemma SetOutside(t: RelationTable, a: nat, b: nat)
    requires t.Valid() && (a == b || a >= t.capacity || b >= t.capacity)
    ensures forall relation :: t.Set(a, b, relation) == t
  {}

  lemma AnchorPosed(ops: AffineOps, pose: Poses, g: Graph, sample: nat)
    requires Exact(ops) && g.table.Valid() && Posed(ops, pose, g.table)
    requires RequireAnchor(ops, g, sample).Ok?
    ensures RequireAnchor(ops, g, sample).value == Between(ops, pose, sample, g.anchor)
  {
    hide Exact, Between, RelationTable.Read, Posed;
    if sample == g.anchor {
      BetweenSelf(ops, pose, sample);
    } else {
      ReadPosed(ops, pose, g.table, sample, g.anchor);
    }
  }

  lemma StorePosed(ops: AffineOps, pose: Poses, g: Graph, sample: nat, value: I32)
    requires Exact(ops) && g.table.Valid() && Posed(ops, pose, g.table) && sample < |g.samples|
    ensures Posed(ops, pose, StoreToAnchor(ops, g, sample, value, Between(ops, pose, sample, g.anchor)).table)
  {
    hide Exact, Between, Posed, RelationTable.Write;
    WritePosed(ops, pose, g.table, sample, g.anchor, value);
  }

  // ---- the phases of an integration -----------------------------------------------------------------------------

  lemma AttachPosed(ops: AffineOps, pose: Poses, g: Graph, current: nat, previous: seq<nat>)
    requires Exact(ops) && g.table.Valid() && Posed(ops, pose, g.table) && current < |g.samples|
    requires forall p <- previous :: g.table.Value(current, p) >= 0
    requires Attach(ops, g, current, previous).Ok?
    ensures Posed(ops, pose, Attach(ops, g, current, previous).value.table)
  {
    hide Exact, Between, Posed, StoreToAnchor, RequireAnchor, RelationTable.Record;
    StrongestIn(ops, g, current, previous, true);
    var strongest := Strongest(ops, g, current, previous, true);
    if g.established && strongest.Some? {
      var through := strongest.value.index;
      RecordSymmetric(g.table, current, through);
      ReadPosed(ops, pose, g.table, current, through);
      AnchorPosed(ops, pose, g, through);
      BetweenCompose(ops, pose, current, through, g.anchor);
      var existing := g.table.Value(current, g.anchor);
      StorePosed(ops, pose, g, current, if existing < 0 then 0 else existing);
    }
  }

  lemma EstablishPosed(ops: AffineOps, pose: Poses, g: Graph, current: nat, previous: seq<nat>, threshold: int, score: Score)
    requires Exact(ops) && g.table.Valid() && Posed(ops, pose, g.table)
    requires current < |g.samples| && forall p <- previous :: p < current
    ensures Posed(ops, pose, Establish(ops, g, current, previous, threshold, score).table)
  {
    hide Exact, Between, Posed, RelationTable.Write, RelationTable.Read;
    StrongestIn(ops, g, current, previous, false);
    var strongest := Strongest(ops, g, current, previous, false);
    if !g.established && strongest.Some? && strongest.value.value > 5 {
      ReadPosed(ops, pose, g.table, current, strongest.value.index);
      WritePosed(ops, pose, g.table, current, strongest.value.index, strongest.value.value);
    }
  }

  lemma {:induction false} PromoteDirectPosed(
    ops: AffineOps, pose: Poses, g: Graph, current: nat, previous: seq<nat>, at: nat, score: Score, q: seq<nat>)
    requires Exact(ops) && g.table.Valid() && Posed(ops, pose, g.table)
    requires current < |g.samples| && at <= |previous| && forall p <- previous :: p < current
    ensures var toAnchor := Between(ops, pose, current, g.anchor);
      Posed(ops, pose, PromoteDirect(ops, g, current, toAnchor, previous, at, score, q).0.table)
    decreases |previous| - at
  {
    hide Exact, Between, Posed, StoreToAnchor, RelationTable.Read;
    if at < |previous| {
      var p := previous[at];
      assert p in previous;
      var g1, q1 := g, q;
      if !g.Member(p) && Usable(ops, g.table, current, p, SCORE_WEAK, score) {
        ReadPosed(ops, pose, g.table, current, p);
        BetweenInverse(ops, pose, current, p);
        BetweenCompose(ops, pose, p, current, g.anchor);
        StorePosed(ops, pose, g, p, 0);
        g1, q1 := StorePromoted(ops, g, p, Between(ops, pose, p, g.anchor)), q + [p];
        StoreAnchor(ops, g, p, 0, Between(ops, pose, p, g.anchor));
      }
      PromoteDirectPosed(ops, pose, g1, current, previous, at + 1, score, q1);
    }
  }

  lemma StoreAnchor(ops: AffineOps, g: Graph, sample: nat, value: I32, toAnchor: Affine)
    requires g.table.Valid() && sample < |g.samples|
    ensures var h := StoreToAnchor(ops, g, sample, value, toAnchor);
      h.anchor == g.anchor && h.established == g.established && |h.samples| == |g.samples|
  {}

  lemma {:induction false} ScanPosed(
    ops: AffineOps, pose: Poses, g: Graph, current: nat, through: nat, candidate: nat, threshold: int, score: Score, q: seq<nat>)
    requires Exact(ops) && g.table.Valid() && Posed(ops, pose, g.table) && candidate <= current < |g.samples|
    ensures var toAnchor := Between(ops, pose, through, g.anchor);
      var h := ScanCandidates(ops, g, current, through, toAnchor, candidate, threshold, score, q).0;
      Posed(ops, pose, h.table) && h.anchor == g.anchor
    decreases current - candidate
  {
    hide Exact, Between, Posed, StoreToAnchor, RelationTable.Read;
    if candidate < current {
      var g1, q1 := g, q;
      if candidate != through && !g.Member(candidate) && Usable(ops, g.table, candidate, through, threshold + 1, score) {
        ReadPosed(ops, pose, g.table, candidate, through);
        BetweenCompose(ops, pose, candidate, through, g.anchor);
        StorePosed(ops, pose, g, candidate, 0);
        g1, q1 := StorePromoted(ops, g, candidate, Between(ops, pose, candidate, g.anchor)), q + [candidate];
        StoreAnchor(ops, g, candidate, 0, Between(ops, pose, candidate, g.anchor));
      }
      ScanPosed(ops, pose, g1, current, through, candidate + 1, threshold, score, q1);
    }
  }

  lemma {:induction false} ClosePosed(
    ops: AffineOps, pose: Poses, g: Graph, current: nat, q: seq<nat>, next: nat, threshold: int, score: Score)
    requires Exact(ops) && g.table.Valid() && Posed(ops, pose, g.table) && current < |g.samples| && next <= |q|
    ensures Posed(ops, pose, Close(ops, g, current, q, next, threshold, score).0.table)
    decreases |Outside(g)| + |q| - next
  {
    hide Exact, Between, Posed, Outside, ScanCandidates, RequireAnchor;
    if next < |q| && RequireAnchor(ops, g, q[next]).Ok? {
      var toAnchor := RequireAnchor(ops, g, q[next]).value;
      AnchorPosed(ops, pose, g, q[next]);
      ScanPosed(ops, pose, g, current, q[next], 0, threshold, score, q);
      var (g1, q1) := ScanCandidates(ops, g, current, q[next], toAnchor, 0, threshold, score, q);
      ClosePosed(ops, pose, g1, current, q1, next + 1, threshold, score);
    }
  }

  lemma PromotePosed(ops: AffineOps, pose: Poses, g: Graph, current: nat, previous: seq<nat>, threshold: int, score: Score)
    requires Exact(ops) && g.table.Valid() && Posed(ops, pose, g.table)
    requires current < |g.samples| && forall p <- previous :: p < current
    ensures Posed(ops, pose, Promote(ops, g, current, previous, threshold, score).0.table)
  {
    hide Exact, Between, Posed, PromoteDirect, Close, RequireAnchor;
    if g.established && g.Member(current) && RequireAnchor(ops, g, current).Ok? {
      var toAnchor := RequireAnchor(ops, g, current).value;
      AnchorPosed(ops, pose, g, current);
      PromoteDirectPosed(ops, pose, g, current, previous, 0, score, []);
      var (g1, q1) := PromoteDirect(ops, g, current, toAnchor, previous, 0, score, []);
      ClosePosed(ops, pose, g1, current, q1, 0, threshold, score);
    }
  }

  /** The transforms the poses prescribe from the newest sample to the members that count for novelty. */
  function ExpectedOthers(ops: AffineOps, pose: Poses, g: Graph, current: nat, other: nat): seq<Affine>
    requires other <= current < |g.samples|
    decreases current - other
  {
    if other == current then []
    else
      var rest := ExpectedOthers(ops, pose, g, current, other + 1);
      if !g.samples[other].canonicalMember || g.samples[other].status == 5 then rest
      else [Between(ops, pose, current, other)] + rest
  }

  lemma {:induction false} OthersPosed(ops: AffineOps, pose: Poses, g: Graph, current: nat, other: nat)
    requires Exact(ops) && Component(g) && g.established && Posed(ops, pose, g.table) && other <= current < |g.samples|
    ensures CurrentToOthers(ops, g, current, Between(ops, pose, current, g.anchor), other)
         == Ok(ExpectedOthers(ops, pose, g, current, other))
    decreases current - other
  {
    hide Exact, Between, Posed, RequireAnchor;
    if other < current {
      OthersPosed(ops, pose, g, current, other + 1);
      if g.samples[other].canonicalMember && g.samples[other].status != 5 && other != g.anchor {
        MemberHasAnchor(ops, g, other);
        AnchorPosed(ops, pose, g, other);
        BetweenInverse(ops, pose, other, g.anchor);
        BetweenCompose(ops, pose, current, g.anchor, other);
      }
    }
  }

  lemma NoveltyPosed(ops: AffineOps, pose: Poses, g: Graph, current: nat, metric: Metric)
    requires Exact(ops) && Component(g) && Posed(ops, pose, g.table) && current < |g.samples|
    ensures Novelty(ops, g, current, metric)
         == Ok(if g.Member(current) then metric(g.samples[current].packedValidity, ExpectedOthers(ops, pose, g, current, 0)) else 0)
  {
    NoMembers(g);
    ComponentValid(g);
    hide Exact, Between, Posed, Component, ExpectedOthers, CurrentToOthers, RequireAnchor;
    if g.Member(current) {
      MemberHasAnchor(ops, g, current);
      AnchorPosed(ops, pose, g, current);
      OthersPosed(ops, pose, g, current, 0);
    }
  }

  lemma ComponentValid(g: Graph)
    requires Component(g)
    ensures g.table.Valid()
  {}

  lemma BasedPosed(ops: AffineOps, pose: Poses, g: Graph, current: nat, previous: seq<nat>, threshold: int, score: Score)
    requires Exact(ops) && g.table.Valid() && Posed(ops, pose, g.table) && current < |g.samples|
    requires forall p <- previous :: p < current && g.table.Value(current, p) >= 0
    ensures Posed(ops, pose, Based(ops, g, current, previous, threshold, score).table)
  {
    hide Exact, Between, Posed, Attach, Establish, RelationTable.Value;
    if Attach(ops, g, current, previous).Ok? {
      AttachPosed(ops, pose, g, current, previous);
      EstablishPosed(ops, pose, Attach(ops, g, current, previous).value, current, previous, threshold, score);
    }
  }

  /** One integration keeps every stored record true to the poses and measures novelty with the prescribed transforms. */
  lemma IntegrationKeepsPoses(
    ops: AffineOps, pose: Poses, g: Graph, current: nat, previous: seq<nat>, threshold: int, score: Score, metric: Metric)
    requires Exact(ops) && Ready(g, current) && Posed(ops, pose, g.table)
    requires forall p <- previous :: p < current && g.table.Value(current, p) >= 0
    ensures var (h, r) := Integrate(ops, g, current, previous, threshold, score, metric);
      && r.Ok? && Component(h) && Posed(ops, pose, h.table)
      && r.value.novelCoverage == if h.Member(current)
           then metric(h.samples[current].packedValidity, ExpectedOthers(ops, pose, h, current, 0)) else 0
  {
    assert g.table.Valid() by { ReadyValid(g, current); }
    assert forall p <- previous :: g.table.Record(current, p).Some?;
    hide Exact, Between, Posed, Attach, Establish, Promote, Component, Novelty, Closed, Tracks, ExpectedOthers,
      RelationTable.Value, RelationTable.Record, Integrate, Based;
    IntegrationKeepsComponent(ops, g, current, previous, threshold, score, metric);
    CheckPasses(g, current, previous);
    BasedStep(ops, g, current, previous, threshold, score);
    BasedPosed(ops, pose, g, current, previous, threshold, score);
    PromotePosed(ops, pose, Based(ops, g, current, previous, threshold, score), current, previous, threshold, score);
    IntegratePhases(ops, g, current, previous, threshold, score, metric);
    NoveltyPosed(ops, pose, Integrate(ops, g, current, previous, threshold, score, metric).0, current, metric);
  }
}
