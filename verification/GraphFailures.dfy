/**
 When an integration fails, for graphs whose samples may have been pushed with their membership flag already set.  The
 component invariant is not assumed here, only that the anchor itself is a member.
 */
module GraphFailures {
  import opened Wrappers
  import opened Bytes
  import opened Relations
  import opened GraphModel
  import opened GraphProofs
  import opened GraphRecords

  /** What survives whatever flags the samples come with. */
  ghost predicate Rooted(g: Graph) {
    && g.table.Valid() && |g.samples| <= g.table.capacity
    && (g.established ==> g.Member(g.anchor))
  }

  predicate HasRecord(g: Graph, i: nat)
    requires g.table.Valid()
  {
    i == g.anchor || g.table.Value(i, g.anchor) >= 0
  }

  /** A counted member below `current` that has no usable record to `anchor`. */
  predicate Stray(g: Graph, anchor: nat, current: nat, i: nat)
    requires g.table.Valid()
  {
    i < current && g.Member(i) && g.samples[i].status != 5 && i != anchor && g.table.Value(i, anchor) < 0
  }

  /** For a member, the transform to the anchor exists exactly when its record does. */
  lemma AnchorExactly(ops: AffineOps, g: Graph, i: nat)
    requires g.table.Valid() && g.established && g.Member(i)
    ensures RequireAnchor(ops, g, i).Ok? <==> HasRecord(g, i)
    ensures RequireAnchor(ops, g, i).Err? ==> RequireAnchor(ops, g, i).error == MissingCanonicalTransform(i, g.anchor)
  {
    RecordSymmetric(g.table, i, g.anchor);
    hide RelationTable.Record;
  }

  // ---- promotion ------------------------------------------------------------------------------------------------

  /** The rows of samples that do not exist yet are the same. */
  ghost predicate SameAhead(g: Graph, h: Graph) {
    && g.table.Valid() && h.table.Valid() && h.table.capacity == g.table.capacity && |h.samples| == |g.samples|
    && forall a: nat, b: nat :: a >= |g.samples| ==> h.table.Record(a, b) == g.table.Record(a, b)
  }

  /** `h` grew from `g` by members that all have a record. */
  ghost predicate Extends(g: Graph, h: Graph) {
    && Grows(g, h) && SameAhead(g, h)
    && forall i: nat :: h.Member(i) && !g.Member(i) ==> h.table.Value(i, g.anchor) >= 0
  }

  lemma ExtendsTransitive(f: Graph, g: Graph, h: Graph)
    requires Extends(f, g) && Extends(g, h)
    ensures Extends(f, h)
  {
    GrowsTransitive(f, g, h);
    hide RelationTable.Record;
    forall i: nat | h.Member(i) && !f.Member(i)
      ensures h.table.Value(i, f.anchor) >= 0
    {
      if g.Member(i) {
        assert h.table.Record(i, g.anchor) == g.table.Record(i, g.anchor);
      }
    }
  }

  lemma ExtendsSelf(g: Graph)
    requires g.table.Valid()
    ensures Extends(g, g)
  {}

  /** Members with a record keep it while the graph grows. */
  lemma ExtendsKeepsRecord(g: Graph, h: Graph, i: nat)
    requires Extends(g, h) && g.Member(i)
    ensures h.Member(i) && HasRecord(h, i) == HasRecord(g, i)
  {
    hide RelationTable.Record;
    assert h.samples[i] == g.samples[i];
  }

  lemma StoreExtends(ops: AffineOps, g: Graph, x: nat, value: I32, toAnchor: Affine)
    requires Rooted(g) && g.established && x < |g.samples| && !g.Member(x) && value >= 0
    ensures var h := StoreToAnchor(ops, g, x, value, toAnchor);
      Rooted(h) && Extends(g, h) && h.Member(x) && HasRecord(h, x) && forall i: nat :: h.Member(i) <==> g.Member(i) || i == x
  {
    hide PairIndex, RowBase, RelationTable.Set, RelationTable.Write;
    var h := StoreToAnchor(ops, g, x, value, toAnchor);
    forall a: nat, b: nat
      ensures !SamePair(x, g.anchor, a, b) ==> h.table.Record(a, b) == g.table.Record(a, b)
      ensures h.table.Value(x, g.anchor) == value
    {
      WriteFrame(ops, g.table, x, g.anchor, value, toAnchor, a, b);
    }
  }

  /** Every listed sample is a member with a record. */
  ghost predicate Recorded(g: Graph, q: seq<nat>)
    requires g.table.Valid()
  {
    forall p <- q :: g.Member(p) && HasRecord(g, p)
  }

  lemma RecordedPush(g: Graph, h: Graph, q: seq<nat>, x: nat)
    requires Extends(g, h) && Recorded(g, q) && h.Member(x) && HasRecord(h, x)
    ensures Recorded(h, q) && Recorded(h, q + [x])
  {
    hide HasRecord;
    forall p | p in q + [x]
      ensures h.Member(p) && HasRecord(h, p)
    {
      if p in q {
        ExtendsKeepsRecord(g, h, p);
      }
    }
  }

  lemma {:induction false} DirectExtends(
    ops: AffineOps, g: Graph, current: nat, toAnchor: Affine, previous: seq<nat>, at: nat, score: Score, q: seq<nat>)
    requires Rooted(g) && g.established && current < |g.samples| && Recorded(g, q)
    requires at <= |previous| && forall p <- previous :: p < current
    ensures var (h, r) := PromoteDirect(ops, g, current, toAnchor, previous, at, score, q);
      Rooted(h) && Extends(g, h) && Recorded(h, r)
    decreases |previous| - at
  {
    hide Usable, StoreToAnchor, Extends, HasRecord, Rooted, Recorded;
    RootedValid(g);
    if at == |previous| {
      ExtendsSelf(g);
    } else {
      var p := previous[at];
      assert p in previous;
      if g.Member(p) || !Usable(ops, g.table, current, p, SCORE_WEAK, score) {
        DirectExtends(ops, g, current, toAnchor, previous, at + 1, score, q);
      } else {
        UsableReads(ops, g.table, current, p, SCORE_WEAK, score);
        var t := ops.compose(toAnchor, ops.inverse(g.table.Read(ops, current, p).value.1));
        StoreExtends(ops, g, p, 0, t);
        var g1 := StorePromoted(ops, g, p, t);
        RecordedPush(g, g1, q, p);
        ExtendsSame(g, g1);
        DirectExtends(ops, g1, current, toAnchor, previous, at + 1, score, q + [p]);
        ExtendsTransitive(g, g1, PromoteDirect(ops, g1, current, toAnchor, previous, at + 1, score, q + [p]).0);
      }
    }
  }

  lemma RootedValid(g: Graph)
    requires Rooted(g)
    ensures g.table.Valid()
  {}

  lemma ExtendsSame(g: Graph, h: Graph)
    requires Extends(g, h)
    ensures h.established == g.established && |h.samples| == |g.samples| && h.anchor == g.anchor && SameAhead(g, h)
  {}

  lemma {:induction false} ScanExtends(
    ops: AffineOps, g: Graph, current: nat, through: nat, throughToAnchor: Affine, candidate: nat, threshold: int,
    score: Score, q: seq<nat>)
    requires Rooted(g) && g.established && candidate <= current < |g.samples| && Recorded(g, q)
    ensures var (h, r) := ScanCandidates(ops, g, current, through, throughToAnchor, candidate, threshold, score, q);
      Rooted(h) && Extends(g, h) && Recorded(h, r)
    decreases current - candidate
  {
    hide Usable, StoreToAnchor, Extends, HasRecord, Rooted, Recorded, Outside;
    RootedValid(g);
    if candidate == current {
      ExtendsSelf(g);
    } else if candidate == through || g.Member(candidate)
      || !Usable(ops, g.table, candidate, through, threshold + 1, score) {
      ScanExtends(ops, g, current, through, throughToAnchor, candidate + 1, threshold, score, q);
    } else {
      UsableReads(ops, g.table, candidate, through, threshold + 1, score);
      var t := ops.compose(throughToAnchor, g.table.Read(ops, candidate, through).value.1);
      StoreExtends(ops, g, candidate, 0, t);
      var g1 := StorePromoted(ops, g, candidate, t);
      RecordedPush(g, g1, q, candidate);
      ExtendsSame(g, g1);
      ScanExtends(ops, g1, current, through, throughToAnchor, candidate + 1, threshold, score, q + [candidate]);
      ExtendsTransitive(g, g1,
        ScanCandidates(ops, g1, current, through, throughToAnchor, candidate + 1, threshold, score, q + [candidate]).0);
    }
  }

  lemma {:induction false} CloseExtends(
    ops: AffineOps, g: Graph, current: nat, q: seq<nat>, next: nat, threshold: int, score: Score)
    requires Rooted(g) && g.established && current < |g.samples| && next <= |q| && Recorded(g, q)
    ensures var (h, r) := Close(ops, g, current, q, next, threshold, score);
      r.Ok? && Rooted(h) && Extends(g, h)
    decreases |Outside(g)| + |q| - next
  {
    hide Extends, HasRecord, Rooted, Outside, RequireAnchor;
    RootedValid(g);
    if next == |q| {
      ExtendsSelf(g);
    } else {
      assert q[next] in q;
      AnchorExactly(ops, g, q[next]);
      var toAnchor := RequireAnchor(ops, g, q[next]).value;
      ScanExtends(ops, g, current, q[next], toAnchor, 0, threshold, score, q);
      var (g1, q1) := ScanCandidates(ops, g, current, q[next], toAnchor, 0, threshold, score, q);
      ExtendsSame(g, g1);
      CloseExtends(ops, g1, current, q1, next + 1, threshold, score);
      ExtendsTransitive(g, g1, Close(ops, g1, current, q1, next + 1, threshold, score).0);
    }
  }

  /** Promotion fails exactly when the newest sample claims membership and has no record to the anchor. */
  lemma PromotionFailsExactly(ops: AffineOps, g: Graph, current: nat, previous: seq<nat>, threshold: int, score: Score)
    requires Rooted(g) && current < |g.samples| && forall p <- previous :: p < current
    ensures var (h, r) := Promote(ops, g, current, previous, threshold, score);
      && (r.Err? <==> g.established && g.Member(current) && !HasRecord(g, current))
      && (r.Err? ==> r.error == MissingCanonicalTransform(current, g.anchor))
      && Rooted(h) && Extends(g, h)
  {
    hide Extends, HasRecord, Outside, RequireAnchor, PromoteDirect, Close, Rooted;
    RootedValid(g);
    ExtendsSelf(g);
    if g.established && g.Member(current) {
      AnchorExactly(ops, g, current);
      if HasRecord(g, current) {
        var toAnchor := RequireAnchor(ops, g, current).value;
        assert Recorded(g, []);
        DirectExtends(ops, g, current, toAnchor, previous, 0, score, []);
        var (g1, q1) := PromoteDirect(ops, g, current, toAnchor, previous, 0, score, []);
        ExtendsSame(g, g1);
        CloseExtends(ops, g1, current, q1, 0, threshold, score);
        ExtendsTransitive(g, g1, Close(ops, g1, current, q1, 0, threshold, score).0);
      }
    }
  }

  // ---- novelty --------------------------------------------------------------------------------------------------

  /** Some counted member from `other` on has no usable record to the anchor. */
  ghost predicate StrayFrom(g: Graph, current: nat, other: nat)
    requires g.table.Valid()
  {
    exists i: nat :: other <= i && Stray(g, g.anchor, current, i)
  }

  lemma StrayStep(g: Graph, current: nat, other: nat)
    requires g.table.Valid() && other < current
    ensures StrayFrom(g, current, other) <==> Stray(g, g.anchor, current, other) || StrayFrom(g, current, other + 1)
  {
    hide Stray;
    if i: nat :| other <= i && Stray(g, g.anchor, current, i) && i != other {
      assert other + 1 <= i;
    }
  }

  /** The novelty loop fails exactly when it meets a stray, and reports one. */
  lemma {:induction false} OthersFailExactly(ops: AffineOps, g: Graph, current: nat, toAnchor: Affine, other: nat)
    requires g.table.Valid() && g.established && other <= current < |g.samples|
    ensures var r := CurrentToOthers(ops, g, current, toAnchor, other);
      && (r.Err? <==> StrayFrom(g, current, other))
      && (r.Err? ==> exists i: nat :: Stray(g, g.anchor, current, i) && r.error == MissingCanonicalTransform(i, g.anchor))
    decreases current - other
  {
    hide RelationTable.Value, RequireAnchor, StrayFrom;
    if other < current {
      OthersFailExactly(ops, g, current, toAnchor, other + 1);
      StrayStep(g, current, other);
      if g.samples[other].canonicalMember {
        AnchorExactly(ops, g, other);
      }
    } else {
      NoStrayFrom(g, current);
    }
  }

  lemma NoStrayFrom(g: Graph, current: nat)
    requires g.table.Valid()
    ensures !StrayFrom(g, current, current)
  {}

  /** Promotion neither adds nor removes strays. */
  lemma ExtendsKeepsStrays(g: Graph, h: Graph, current: nat, i: nat)
    requires Extends(g, h)
    ensures Stray(h, g.anchor, current, i) == Stray(g, g.anchor, current, i)
  {
    hide RelationTable.Record;
    if i < |g.samples| {
      assert h.samples[i] == g.samples[i] || h.samples[i] == g.samples[i].(canonicalMember := true);
      if g.Member(i) {
        assert h.table.Record(i, g.anchor) == g.table.Record(i, g.anchor);
      }
    }
  }

  // ---- one integration ------------------------------------------------------------------------------------------

  /** Promotion and novelty of a based graph: what can still fail, by the based graph alone. */
  lemma TailFailsExactly(
    ops: AffineOps, b: Graph, current: nat, previous: seq<nat>, threshold: int, score: Score, metric: Metric)
    requires Rooted(b) && current < |b.samples| && forall p <- previous :: p < current
    ensures var (h, promoted) := Promote(ops, b, current, previous, threshold, score);
      var novelty := Novelty(ops, h, current, metric);
      && Rooted(h) && SameAhead(b, h)
      && (promoted.Err? || novelty.Err? <==>
            b.established && b.Member(current) && (!HasRecord(b, current) || exists i: nat :: Stray(b, b.anchor, current, i)))
      && (promoted.Err? <==> b.established && b.Member(current) && !HasRecord(b, current))
      && (promoted.Err? ==> promoted.error == MissingCanonicalTransform(current, b.anchor))
      && (novelty.Err? && promoted.Ok? ==>
            exists i: nat :: Stray(b, b.anchor, current, i) && novelty.error == MissingCanonicalTransform(i, b.anchor))
  {
    hide Promote, Extends, HasRecord, RequireAnchor, CurrentToOthers, Stray;
    PromotionFailsExactly(ops, b, current, previous, threshold, score);
    RootedValid(b);
    var (h, promoted) := Promote(ops, b, current, previous, threshold, score);
    ExtendsSame(b, h);
    if b.established && b.Member(current) && promoted.Ok? {
      ExtendsKeepsRecord(b, h, current);
      AnchorExactly(ops, h, current);
      OthersFailExactly(ops, h, current, RequireAnchor(ops, h, current).value, 0);
      forall i: nat
        ensures Stray(h, b.anchor, current, i) == Stray(b, b.anchor, current, i)
      {
        ExtendsKeepsStrays(b, h, current, i);
      }
    } else if promoted.Ok? {
      PromoteIdle(ops, b, current, previous, threshold, score);
    }
  }

  lemma PromoteIdle(ops: AffineOps, g: Graph, current: nat, previous: seq<nat>, threshold: int, score: Score)
    requires g.table.Valid() && current < |g.samples| && forall p <- previous :: p < current
    ensures !g.established || !g.Member(current) ==> Promote(ops, g, current, previous, threshold, score) == (g, Ok([]))
  {}

  /** Whether the strongest partner founds a component. */
  predicate Founds(ops: AffineOps, g: Graph, current: nat, previous: seq<nat>, threshold: int, score: Score)
    requires g.table.Valid()
  {
    var s := Strongest(ops, g, current, previous, false);
    s.Some? && s.value.value > 5 && score(current, s.value.index, s.value.transform) > threshold
  }

  /**
   The condition of failure, on the graph as it is before the integration.  With a component: the newest sample is
   attached through a member without a record; or it is or becomes a member, and it has no record itself or some counted
   member has none.  Without one: the component founded now has a counted member without a record to its anchor.
   */
  ghost predicate Fails(ops: AffineOps, g: Graph, current: nat, previous: seq<nat>, threshold: int, score: Score)
    requires g.table.Valid()
  {
    if g.established then
      var s := Strongest(ops, g, current, previous, true);
      if s.Some? then !HasRecord(g, s.value.index) || exists i: nat :: Stray(g, g.anchor, current, i)
      else g.Member(current) && (!HasRecord(g, current) || exists i: nat :: Stray(g, g.anchor, current, i))
    else
      Founds(ops, g, current, previous, threshold, score)
      && var anchor := Strongest(ops, g, current, previous, false).value.index;
         exists i: nat :: Stray(g, anchor, current, i)
  }

  /** Attachment through a recorded member gives the newest sample its record and leaves the strays as they are. */
  lemma AttachedStrays(ops: AffineOps, g: Graph, current: nat, toAnchor: Affine)
    requires Rooted(g) && g.established && current < |g.samples| && g.anchor < current
    ensures var b := StoreCurrent(ops, g, current, toAnchor);
      && Rooted(b) && SameAhead(g, b) && b.established && b.anchor == g.anchor
      && b.Member(current) && HasRecord(b, current)
      && forall i: nat :: Stray(b, g.anchor, current, i) == Stray(g, g.anchor, current, i)
  {
    hide PairIndex, RowBase, RelationTable.Set, RelationTable.Write;
    var existing := g.table.Value(current, g.anchor);
    var value := if existing < 0 then 0 else existing;
    var b := StoreToAnchor(ops, g, current, value, toAnchor);
    forall a: nat, d: nat
      ensures !SamePair(current, g.anchor, a, d) ==> b.table.Record(a, d) == g.table.Record(a, d)
      ensures b.table.Value(current, g.anchor) == value
    {
      WriteFrame(ops, g.table, current, g.anchor, value, toAnchor, a, d);
    }
  }

  lemma FoundedStrays(ops: AffineOps, g: Graph, current: nat, previous: seq<nat>, threshold: int, score: Score)
    requires Rooted(g) && !g.established && current < |g.samples| && forall p <- previous :: p < current
    requires Founds(ops, g, current, previous, threshold, score)
    ensures var b, anchor := Establish(ops, g, current, previous, threshold, score),
                             Strongest(ops, g, current, previous, false).value.index;
      && Rooted(b) && SameAhead(g, b) && b.established && b.anchor == anchor
      && b.Member(current) && HasRecord(b, current)
      && forall i: nat :: Stray(b, anchor, current, i) == Stray(g, anchor, current, i)
  {
    hide PairIndex, RowBase, RelationTable.Set, RelationTable.Write, Strongest;
    StrongestIn(ops, g, current, previous, false);
    var link := Strongest(ops, g, current, previous, false).value;
    var b := Establish(ops, g, current, previous, threshold, score);
    forall a: nat, d: nat
      ensures !SamePair(current, link.index, a, d) ==> b.table.Record(a, d) == g.table.Record(a, d)
      ensures b.table.Value(current, link.index) == link.value
    {
      WriteFrame(ops, g.table, current, link.index, link.value, link.transform, a, d);
    }
  }

  /** Attachment fails exactly when the strongest member has no record to the anchor. */
  lemma AttachFailsExactly(ops: AffineOps, g: Graph, current: nat, previous: seq<nat>)
    requires Rooted(g) && g.established && current < |g.samples| && g.anchor < current
    requires forall p <- previous :: p < current
    ensures var s, r := Strongest(ops, g, current, previous, true), Attach(ops, g, current, previous);
      && (s.None? ==> r == Ok(g))
      && (s.Some? ==>
            && s.value.index < current
            && (r.Ok? <==> HasRecord(g, s.value.index))
            && (r.Err? ==> r.error == MissingCanonicalTransform(s.value.index, g.anchor))
            && (r.Ok? ==> exists t: Affine :: r.value == StoreCurrent(ops, g, current, t)))
  {
    hide Strongest, HasRecord, RequireAnchor, StoreCurrent;
    StrongestIn(ops, g, current, previous, true);
    var s := Strongest(ops, g, current, previous, true);
    if s.Some? {
      assert s.value.index in previous;
      AnchorExactly(ops, g, s.value.index);
    }
  }

  /** The phases of an integration with valid arguments, one after the other. */
  lemma Phases(ops: AffineOps, g: Graph, current: nat, previous: seq<nat>, threshold: int, score: Score, metric: Metric)
    requires g.table.Valid() && current + 1 == |g.samples|
    requires forall p <- previous :: p < current && g.table.Record(current, p).Some?
    ensures var (h, r) := Integrate(ops, g, current, previous, threshold, score, metric);
      var attached := Attach(ops, g, current, previous);
      if attached.Err? then (h, r) == (g, Err(attached.error))
      else
        var b := Establish(ops, attached.value, current, previous, threshold, score);
        var (h', promoted) := Promote(ops, b, current, previous, threshold, score);
        var novelty := Novelty(ops, h', current, metric);
        && h == h'
        && (promoted.Err? ==> r == Err(promoted.error))
        && (promoted.Ok? && novelty.Err? ==> r == Err(novelty.error))
        && (promoted.Ok? && novelty.Ok? ==> r.Ok?)
  {
    CheckPasses(g, current, previous);
    hide Attach, Establish, Promote, Novelty;
  }

  lemma EstablishIdle(ops: AffineOps, g: Graph, current: nat, previous: seq<nat>, threshold: int, score: Score)
    requires g.table.Valid() && current < |g.samples| && forall p <- previous :: p < current
    ensures g.established ==> Establish(ops, g, current, previous, threshold, score) == g
    ensures !g.established && !Founds(ops, g, current, previous, threshold, score) ==>
      Establish(ops, g, current, previous, threshold, score) == g
  {}

  /** With a component, an integration with valid arguments fails exactly under the stated condition. */
  lemma EstablishedFailsExactly(
    ops: AffineOps, g: Graph, current: nat, previous: seq<nat>, threshold: int, score: Score, metric: Metric)
    requires Rooted(g) && g.established && g.anchor < current && current + 1 == |g.samples|
    requires forall p <- previous :: p < current && g.table.Record(current, p).Some?
    ensures var (h, r) := Integrate(ops, g, current, previous, threshold, score, metric);
      && Rooted(h) && SameAhead(g, h)
      && (r.Err? <==> Fails(ops, g, current, previous, threshold, score))
      && (r.Err? ==> r.error.MissingCanonicalTransform? && r.error.anchor == g.anchor)
      && (Strongest(ops, g, current, previous, true).None? && g.Member(current) && !HasRecord(g, current) ==>
            r == Err(MissingCanonicalTransform(current, g.anchor)))
  {
    hide Strongest, HasRecord, RequireAnchor, StoreCurrent, Integrate, Attach, Establish, Promote, Novelty, Stray, Rooted;
    RootedValid(g);
    Phases(ops, g, current, previous, threshold, score, metric);
    AttachFailsExactly(ops, g, current, previous);
    var s, attached := Strongest(ops, g, current, previous, true), Attach(ops, g, current, previous);
    if attached.Ok? {
      var b := attached.value;
      if s.Some? {
        var t: Affine :| b == StoreCurrent(ops, g, current, t);
        AttachedStrays(ops, g, current, t);
      }
      EstablishIdle(ops, b, current, previous, threshold, score);
      TailFailsExactly(ops, b, current, previous, threshold, score, metric);
    }
  }

  /** Without one it fails exactly when it founds one that leaves a counted member without a record, and names one. */
  lemma UnestablishedFailsExactly(
    ops: AffineOps, g: Graph, current: nat, previous: seq<nat>, threshold: int, score: Score, metric: Metric)
    requires Rooted(g) && !g.established && current + 1 == |g.samples|
    requires forall p <- previous :: p < current && g.table.Record(current, p).Some?
    ensures var (h, r) := Integrate(ops, g, current, previous, threshold, score, metric);
      && Rooted(h) && SameAhead(g, h) && (r.Err? <==> Fails(ops, g, current, previous, threshold, score))
      && (r.Err? ==>
            var anchor := Strongest(ops, g, current, previous, false).value.index;
            exists i: nat :: Stray(g, anchor, current, i) && r.error == MissingCanonicalTransform(i, anchor))
  {
    hide Strongest, HasRecord, RequireAnchor, Integrate, Establish, Promote, Novelty, Stray, Rooted;
    RootedValid(g);
    Phases(ops, g, current, previous, threshold, score, metric);
    assert Attach(ops, g, current, previous) == Ok(g);
    var b := Establish(ops, g, current, previous, threshold, score);
    TailAfter(ops, g, current, previous, threshold, score);
    TailFailsExactly(ops, b, current, previous, threshold, score, metric);
  }

  lemma TailAfter(ops: AffineOps, g: Graph, current: nat, previous: seq<nat>, threshold: int, score: Score)
    requires Rooted(g) && !g.established && current + 1 == |g.samples| && forall p <- previous :: p < current
    ensures var b := Establish(ops, g, current, previous, threshold, score);
      && Rooted(b) && SameAhead(g, b)
      && (b.established <==> Founds(ops, g, current, previous, threshold, score))
      && (b.established ==>
            var anchor := Strongest(ops, g, current, previous, false).value.index;
            && b.anchor == anchor && b.Member(current) && HasRecord(b, current)
            && forall i: nat :: Stray(b, anchor, current, i) == Stray(g, anchor, current, i))
  {
    hide Strongest, HasRecord, Establish, Founds, Stray;
    EstablishIdle(ops, g, current, previous, threshold, score);
    if Founds(ops, g, current, previous, threshold, score) {
      FoundedStrays(ops, g, current, previous, threshold, score);
    }
  }

  /**
   Whatever flags the samples were pushed with, an integration with valid arguments fails if and only if the stated
   condition holds of the graph before it, and the only failure is a missing transform to the anchor.
   */
  lemma IntegrationFailsExactly(
    ops: AffineOps, g: Graph, current: nat, previous: seq<nat>, threshold: int, score: Score, metric: Metric)
    requires Rooted(g) && (g.established ==> g.anchor < current) && current + 1 == |g.samples|
    requires forall p <- previous :: p < current && g.table.Record(current, p).Some?
    ensures var (h, r) := Integrate(ops, g, current, previous, threshold, score, metric);
      && Rooted(h) && SameAhead(g, h) && (r.Err? <==> Fails(ops, g, current, previous, threshold, score))
      && (r.Err? ==> r.error.MissingCanonicalTransform?)
  {
    hide Rooted, Integrate, Fails, Strongest;
    if g.established {
      EstablishedFailsExactly(ops, g, current, previous, threshold, score, metric);
    } else {
      UnestablishedFailsExactly(ops, g, current, previous, threshold, score, metric);
    }
  }

  /** Every sample but the newest is as a consistent template leaves it. */
  ghost predicate Intact(g: Graph, current: nat)
    requires g.table.Valid()
  {
    && (g.established ==> forall i: nat :: i < current && g.Member(i) ==> HasRecord(g, i))
    && (!g.established ==> forall i: nat :: i < current ==> !g.Member(i))
  }

  /** Then only a newest sample that claims membership of a component none of its partners belongs to can fail. */
  lemma IntactFailsExactly(
    ops: AffineOps, g: Graph, current: nat, previous: seq<nat>, threshold: int, score: Score, metric: Metric)
    requires Rooted(g) && (g.established ==> g.anchor < current) && current + 1 == |g.samples|
    requires Intact(g, current) && forall p <- previous :: p < current && g.table.Record(current, p).Some?
    ensures var r := Integrate(ops, g, current, previous, threshold, score, metric).1;
      && (r.Err? <==> g.established && g.Member(current) && !HasRecord(g, current) && forall p <- previous :: !g.Member(p))
      && (r.Err? ==> r.error == MissingCanonicalTransform(current, g.anchor))
  {
    hide Integrate, RelationTable.Record, Strongest;
    IntegrationFailsExactly(ops, g, current, previous, threshold, score, metric);
    StrongestExists(ops, g, current, previous, true);
    if g.established {
      StrongestIn(ops, g, current, previous, true);
      EstablishedFailsExactly(ops, g, current, previous, threshold, score, metric);
    }
  }

  // ---- a newest sample that claims membership -------------------------------------------------------------------

  lemma {:induction false} StrongestUnmarked(ops: AffineOps, g: Graph, current: nat, previous: seq<nat>, membersOnly: bool)
    requires g.table.Valid() && current < |g.samples| && forall p <- previous :: p < current
    ensures Strongest(ops, Mark(g, current), current, previous, membersOnly) == Strongest(ops, g, current, previous, membersOnly)
  {
    hide RelationTable.Read;
    if previous != [] {
      var front, last := previous[..|previous| - 1], previous[|previous| - 1];
      assert last in previous && forall p <- front :: p in previous;
      StrongestUnmarked(ops, g, current, front, membersOnly);
    }
  }

  /** The part before promotion does not see the claim when it makes the sample a member anyway. */
  lemma MarkedBase(ops: AffineOps, g: Graph, current: nat, previous: seq<nat>, threshold: int, score: Score)
    requires Ready(g, current) && forall p <- previous :: p < current && g.table.Record(current, p).Some?
    requires g.table.Valid() && Based(ops, g, current, previous, threshold, score).Member(current)
    ensures Attach(ops, g, current, previous).Ok? && Attach(ops, Mark(g, current), current, previous).Ok?
    ensures Based(ops, Mark(g, current), current, previous, threshold, score) == Based(ops, g, current, previous, threshold, score)
  {
    hide Strongest, RelationTable.Record, RelationTable.Write;
    var marked := Mark(g, current);
    StrongestUnmarked(ops, g, current, previous, true);
    StrongestUnmarked(ops, g, current, previous, false);
    StrongestIn(ops, g, current, previous, true);
    StrongestIn(ops, g, current, previous, false);
    BasedStep(ops, g, current, previous, threshold, score);
    MarkTwice(g, current);
    if g.established {
      var s := Strongest(ops, g, current, previous, true);
      if s.Some? {
        assert s.value.index in previous;
        assert RequireAnchor(ops, marked, s.value.index) == RequireAnchor(ops, g, s.value.index);
      }
    } else {
      var s := Strongest(ops, g, current, previous, false);
      if s.Some? {
        assert s.value.index in previous;
        MarkSwaps(g.(anchor := s.value.index, established := true), s.value.index, current);
      }
    }
  }

  lemma MarkTwice(g: Graph, current: nat)
    requires current < |g.samples|
    ensures Mark(Mark(g, current), current) == Mark(g, current)
  {}

  lemma MarkSwaps(g: Graph, a: nat, b: nat)
    requires a < |g.samples| && b < |g.samples|
    ensures Mark(Mark(Mark(g, b), a), b) == Mark(Mark(g, a), b)
  {}

  /** So the whole integration is the one of the same graph without the claim. */
  lemma MarkedIntegration(
    ops: AffineOps, g: Graph, current: nat, previous: seq<nat>, threshold: int, score: Score, metric: Metric)
    requires Ready(g, current) && forall p <- previous :: p < current && g.table.Record(current, p).Some?
    requires g.table.Valid() && Based(ops, g, current, previous, threshold, score).Member(current)
    ensures Integrate(ops, Mark(g, current), current, previous, threshold, score, metric)
         == Integrate(ops, g, current, previous, threshold, score, metric)
  {
    MarkedBase(ops, g, current, previous, threshold, score);
    CheckPasses(g, current, previous);
    CheckPasses(Mark(g, current), current, previous);
    hide Attach, Establish, Promote, Novelty, Ready;
  }
}
