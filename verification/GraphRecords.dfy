/** Which partner is chosen, when a component is founded, and what values the rewritten anchor records carry. */
module GraphRecords {
  import opened Wrappers
  import opened Bytes
  import opened Relations
  import opened GraphModel
  import opened GraphProofs

  // ---- the chosen partner ---------------------------------------------------------------------------------------

  /** A partner with a record to the newest sample, and a member when only members are considered. */
  predicate Eligible(ops: AffineOps, g: Graph, current: nat, p: nat, membersOnly: bool)
    requires g.table.Valid()
  {
    (membersOnly ==> g.Member(p)) && g.table.Read(ops, current, p).Some?
  }

  function PartnerValue(ops: AffineOps, g: Graph, current: nat, p: nat): int
    requires g.table.Valid()
  {
    var read := g.table.Read(ops, current, p);
    if read.Some? then read.value.0 else -1
  }

  /** Position `k` holds the strongest eligible partner, and no later one is as strong. */
  ghost predicate LastMaximum(ops: AffineOps, g: Graph, current: nat, previous: seq<nat>, membersOnly: bool, k: nat)
    requires g.table.Valid()
  {
    && k < |previous| && Eligible(ops, g, current, previous[k], membersOnly)
    && forall j: nat :: j < |previous| && Eligible(ops, g, current, previous[j], membersOnly) ==>
      && PartnerValue(ops, g, current, previous[j]) <= PartnerValue(ops, g, current, previous[k])
      && (j > k ==> PartnerValue(ops, g, current, previous[j]) < PartnerValue(ops, g, current, previous[k]))
  }

  /** The strongest relation is a maximum over the eligible partners, and the last one among equals. */
  lemma {:induction false} StrongestIsLastMaximum(
    ops: AffineOps, g: Graph, current: nat, previous: seq<nat>, membersOnly: bool) returns (k: nat)
    requires g.table.Valid()
    ensures var r := Strongest(ops, g, current, previous, membersOnly);
      && (r.None? <==> forall p <- previous :: !Eligible(ops, g, current, p, membersOnly))
      && (r.Some? ==>
            && LastMaximum(ops, g, current, previous, membersOnly, k)
            && r.value.index == previous[k] && r.value.value == PartnerValue(ops, g, current, previous[k]))
  {
    hide RelationTable.Read, LastMaximum;
    k := 0;
    if previous != [] {
      var n := |previous| - 1;
      var front, last := previous[..n], previous[n];
      k := StrongestIsLastMaximum(ops, g, current, front, membersOnly);
      assert previous == front + [last];
      var best := Strongest(ops, g, current, front, membersOnly);
      if best.Some? && (!Eligible(ops, g, current, last, membersOnly) || PartnerValue(ops, g, current, last) < best.value.value) {
        KeepsMaximum(ops, g, current, front, last, membersOnly, k);
      } else if Eligible(ops, g, current, last, membersOnly) {
        if best.Some? {
          MaximumBounds(ops, g, current, front, membersOnly, k);
        }
        NewMaximum(ops, g, current, front, last, membersOnly);
        k := n;
      }
    }
  }

  lemma MaximumBounds(ops: AffineOps, g: Graph, current: nat, previous: seq<nat>, membersOnly: bool, k: nat)
    requires g.table.Valid() && LastMaximum(ops, g, current, previous, membersOnly, k)
    ensures k < |previous|
    ensures forall p <- previous :: Eligible(ops, g, current, p, membersOnly) ==>
      PartnerValue(ops, g, current, p) <= PartnerValue(ops, g, current, previous[k])
  {
    hide Eligible, PartnerValue;
  }

  lemma KeepsMaximum(ops: AffineOps, g: Graph, current: nat, front: seq<nat>, last: nat, membersOnly: bool, k: nat)
    requires g.table.Valid() && LastMaximum(ops, g, current, front, membersOnly, k)
    requires Eligible(ops, g, current, last, membersOnly) ==>
      PartnerValue(ops, g, current, last) < PartnerValue(ops, g, current, front[k])
    ensures k < |front| && LastMaximum(ops, g, current, front + [last], membersOnly, k)
  {
    hide Eligible, PartnerValue;
  }

  lemma NewMaximum(ops: AffineOps, g: Graph, current: nat, front: seq<nat>, last: nat, membersOnly: bool)
    requires g.table.Valid() && Eligible(ops, g, current, last, membersOnly)
    requires forall p <- front :: Eligible(ops, g, current, p, membersOnly) ==>
      PartnerValue(ops, g, current, p) <= PartnerValue(ops, g, current, last)
    ensures LastMaximum(ops, g, current, front + [last], membersOnly, |front|)
  {
    hide Eligible, PartnerValue;
    var s := front + [last];
    forall j: nat | j < |s| && Eligible(ops, g, current, s[j], membersOnly)
      ensures PartnerValue(ops, g, current, s[j]) <= PartnerValue(ops, g, current, last)
    {
      assert j < |front| ==> s[j] in front;
    }
  }

  // ---- founding -------------------------------------------------------------------------------------------------

  /** The strongest partner is related by more than 5 and scores above the threshold. */
  ghost predicate Founding(ops: AffineOps, g: Graph, current: nat, previous: seq<nat>, threshold: int, score: Score, k: nat)
    requires g.table.Valid()
  {
    && LastMaximum(ops, g, current, previous, false, k)
    && PartnerValue(ops, g, current, previous[k]) > 5
    && score(current, previous[k], g.table.Read(ops, current, previous[k]).value.1) > threshold
  }

  lemma LastMaximumUnique(ops: AffineOps, g: Graph, current: nat, previous: seq<nat>, membersOnly: bool, j: nat, k: nat)
    requires g.table.Valid()
    requires LastMaximum(ops, g, current, previous, membersOnly, j) && LastMaximum(ops, g, current, previous, membersOnly, k)
    ensures j == k
  {
    hide Eligible, PartnerValue;
  }

  /** A component is founded exactly on a founding partner, which becomes the anchor; its record keeps its direct value. */
  lemma FoundedExactly(ops: AffineOps, g: Graph, current: nat, previous: seq<nat>, threshold: int, score: Score)
    requires Ready(g, current) && !g.established && forall p <- previous :: p < current
    ensures var h := Establish(ops, g, current, previous, threshold, score);
      && (h.established <==> exists k: nat :: Founding(ops, g, current, previous, threshold, score, k))
      && forall k: nat :: Founding(ops, g, current, previous, threshold, score, k) ==>
        h.anchor == previous[k] && h.table.Value(current, h.anchor) == PartnerValue(ops, g, current, previous[k])
  {
    hide RelationTable.Write, PairIndex, RowBase, Eligible;
    StrongestIn(ops, g, current, previous, false);
    var best := StrongestIsLastMaximum(ops, g, current, previous, false);
    var strongest := Strongest(ops, g, current, previous, false);
    forall k: nat | Founding(ops, g, current, previous, threshold, score, k)
      ensures strongest.Some? && k == best
    {
      assert previous[k] in previous;
      LastMaximumUnique(ops, g, current, previous, false, k, best);
    }
    if strongest.Some? {
      var link := strongest.value;
      assert link.index in previous;
      WriteFrame(ops, g.table, current, link.index, link.value, link.transform, 0, 0);
      if link.value > 5 && score(current, link.index, link.transform) > threshold {
        assert Founding(ops, g, current, previous, threshold, score, best);
      }
    }
  }

  // ---- values of rewritten records ------------------------------------------------------------------------------

  /** An attached sample keeps a non-negative direct value to the anchor; an absent one becomes 0. */
  lemma AttachedValue(ops: AffineOps, g: Graph, current: nat, previous: seq<nat>)
    requires Ready(g, current) && g.established
    requires forall p <- previous :: p < current && g.table.Record(current, p).Some?
    ensures var r := Attach(ops, g, current, previous);
      r.Ok? && (r.value.Member(current) ==>
        r.value.table.Value(current, g.anchor) == if g.table.Value(current, g.anchor) < 0 then 0 else g.table.Value(current, g.anchor))
  {
    AttachStep(ops, g, current, previous);
    hide RelationTable.Write, PairIndex, RowBase, RelationTable.Record, Strongest;
    var strongest := Strongest(ops, g, current, previous, true);
    if strongest.Some? && RequireAnchor(ops, g, strongest.value.index).Ok? {
      var t := ops.compose(RequireAnchor(ops, g, strongest.value.index).value, strongest.value.transform);
      var existing := g.table.Value(current, g.anchor);
      WriteFrame(ops, g.table, current, g.anchor, if existing < 0 then 0 else existing, t, 0, 0);
    }
  }

  /** Every promoted sample has value 0 to the anchor. */
  ghost predicate Zeroed(g: Graph, promoted: seq<nat>) {
    && g.table.Valid() && |g.samples| <= g.table.capacity && g.established && g.Member(g.anchor)
    && forall p <- promoted :: p != g.anchor && g.table.Value(p, g.anchor) == 0
  }

  lemma ZeroPush(ops: AffineOps, g: Graph, promoted: seq<nat>, x: nat, toAnchor: Affine)
    requires Zeroed(g, promoted) && x < |g.samples| && !g.Member(x)
    ensures Zeroed(StorePromoted(ops, g, x, toAnchor), promoted + [x])
    ensures StorePromoted(ops, g, x, toAnchor).anchor == g.anchor
  {
    hide RelationTable.Write, PairIndex, RowBase, RelationTable.Set;
    var h := StorePromoted(ops, g, x, toAnchor);
    forall p | p in promoted + [x] ensures p != h.anchor && h.table.Value(p, h.anchor) == 0 {
      WriteFrame(ops, g.table, x, g.anchor, 0, toAnchor, p, g.anchor);
    }
  }

  lemma {:induction false} PromoteDirectZeroes(
    ops: AffineOps, g: Graph, current: nat, toAnchor: Affine, previous: seq<nat>, at: nat, score: Score, q: seq<nat>)
    requires Zeroed(g, q) && current < |g.samples| && at <= |previous| && forall p <- previous :: p < current
    ensures var (h, r) := PromoteDirect(ops, g, current, toAnchor, previous, at, score, q);
      Zeroed(h, r) && h.anchor == g.anchor
    decreases |previous| - at
  {
    hide Usable, StorePromoted, Zeroed, RelationTable.Read;
    ZeroedValid(g, q);
    if at < |previous| {
      var p := previous[at];
      assert p in previous;
      var g1, q1 := g, q;
      if !g.Member(p) && Usable(ops, g.table, current, p, SCORE_WEAK, score) {
        UsableReads(ops, g.table, current, p, SCORE_WEAK, score);
        var t := ops.compose(toAnchor, ops.inverse(g.table.Read(ops, current, p).value.1));
        ZeroPush(ops, g, q, p, t);
        StoredSize(ops, g, p, t);
        g1, q1 := StorePromoted(ops, g, p, t), q + [p];
      }
      PromoteDirectZeroes(ops, g1, current, toAnchor, previous, at + 1, score, q1);
    }
  }

  lemma ZeroedValid(g: Graph, q: seq<nat>)
    requires Zeroed(g, q)
    ensures g.table.Valid() && g.established
  {}

  lemma UsableReads(ops: AffineOps, t: RelationTable, source: nat, target: nat, least: int, score: Score)
    requires t.Valid() && Usable(ops, t, source, target, least, score)
    ensures t.Read(ops, source, target).Some?
  {}

  lemma StoredSize(ops: AffineOps, g: Graph, x: nat, toAnchor: Affine)
    requires g.table.Valid() && x < |g.samples|
    ensures |StorePromoted(ops, g, x, toAnchor).samples| == |g.samples|
  {}

  lemma {:induction false} ScanZeroes(
    ops: AffineOps, g: Graph, current: nat, through: nat, throughToAnchor: Affine, candidate: nat, threshold: int,
    score: Score, q: seq<nat>)
    requires Zeroed(g, q) && candidate <= current < |g.samples|
    requires g.table.Valid()
    ensures var (h, r) := ScanCandidates(ops, g, current, through, throughToAnchor, candidate, threshold, score, q);
      Zeroed(h, r) && h.anchor == g.anchor
    decreases current - candidate
  {
    hide Usable, StorePromoted, Zeroed, Outside, RelationTable.Read;
    if candidate < current {
      var g1, q1 := g, q;
      if candidate != through && !g.Member(candidate) && Usable(ops, g.table, candidate, through, threshold + 1, score) {
        UsableReads(ops, g.table, candidate, through, threshold + 1, score);
        var t := ops.compose(throughToAnchor, g.table.Read(ops, candidate, through).value.1);
        ZeroPush(ops, g, q, candidate, t);
        StoredSize(ops, g, candidate, t);
        g1, q1 := StorePromoted(ops, g, candidate, t), q + [candidate];
        ZeroedValid(g1, q1);
      }
      ScanZeroes(ops, g1, current, through, throughToAnchor, candidate + 1, threshold, score, q1);
    }
  }

  lemma {:induction false} CloseZeroes(
    ops: AffineOps, g: Graph, current: nat, q: seq<nat>, next: nat, threshold: int, score: Score)
    requires Zeroed(g, q) && current < |g.samples| && next <= |q| && g.table.Valid()
    ensures var (h, r) := Close(ops, g, current, q, next, threshold, score);
      r.Ok? ==> Zeroed(h, r.value) && h.anchor == g.anchor
    decreases |Outside(g)| + |q| - next
  {
    hide Usable, StorePromoted, Zeroed, Outside, RequireAnchor, ScanCandidates;
    if next < |q| {
      var toAnchor := RequireAnchor(ops, g, q[next]);
      if toAnchor.Ok? {
        ScanZeroes(ops, g, current, q[next], toAnchor.value, 0, threshold, score, q);
        var (g1, q1) := ScanCandidates(ops, g, current, q[next], toAnchor.value, 0, threshold, score, q);
        CloseZeroes(ops, g1, current, q1, next + 1, threshold, score);
      }
    }
  }

  /** Promotion writes value 0 to the anchor for every sample it promotes, whatever relation led to it. */
  lemma PromotedRecordsAreZero(ops: AffineOps, g: Graph, current: nat, previous: seq<nat>, threshold: int, score: Score)
    requires Component(g) && g.established && g.Member(current) && g.anchor < current && current + 1 == |g.samples|
    requires forall p <- previous :: p < current
    ensures var (h, r) := Promote(ops, g, current, previous, threshold, score);
      r.Ok? && h.anchor == g.anchor && forall p <- r.value :: h.table.Value(p, h.anchor) == 0
  {
    PromotionIsLeastFixpoint(ops, g, current, previous, threshold, score);
    assert Zeroed(g, []);
    hide Zeroed, PromoteDirect, Close, Tracks, Closed, Component;
    MemberHasAnchor(ops, g, current);
    var toAnchor := RequireAnchor(ops, g, current).value;
    PromoteDirectZeroes(ops, g, current, toAnchor, previous, 0, score, []);
    var (g1, q1) := PromoteDirect(ops, g, current, toAnchor, previous, 0, score, []);
    CloseZeroes(ops, g1, current, q1, 0, threshold, score);
    var (h, r) := Promote(ops, g, current, previous, threshold, score);
    ZeroedValues(h, r.value);
  }

  lemma ZeroedValues(g: Graph, q: seq<nat>)
    requires Zeroed(g, q)
    ensures forall p <- q :: g.table.Value(p, g.anchor) == 0
  {}
}
