/**
 The canonical enrollment graph as a value: attachment of the newest sample, establishment of the component, direct
 promotion, worklist closure and the novelty transforms, in the order one integration performs them.
 */
module GraphModel {
  import opened Wrappers
  import opened Bytes
  import opened Relations

  /** Hard score gate for promoting a successful sample directly through the newest one. */
  const SCORE_WEAK := 209

  datatype Sample = Sample(
    canonicalMember: bool,
    status: I32,
    primaryMap: Bitmap,
    secondaryMap: Option<Bitmap>,
    packedValidity: Bitmap)

  datatype Graph = Graph(samples: seq<Sample>, table: RelationTable, anchor: nat, established: bool) {
    predicate Member(i: nat) {
      i < |samples| && samples[i].canonicalMember
    }
  }

  type Score = (nat, nat, Affine) -> int
  type Metric = (Bitmap, seq<Affine>) -> I32

  datatype GraphError =
    | CurrentIsNotNewest(current: nat, sampleCount: nat)
    | PreviousIndexOutOfRange(index: nat, newest: nat)
    | MissingDirectRelation(from: nat, previous: nat)
    | MissingCanonicalTransform(sample: nat, anchor: nat)

  datatype Integration = Integration(
    currentIndex: nat,
    canonicalAnchor: Option<nat>,
    currentIsCanonical: bool,
    promoted: seq<nat>,
    novelCoverage: I32)

  // ---- reading and writing anchor records -----------------------------------------------------------------------

  function SampleToAnchor(ops: AffineOps, g: Graph, sample: nat): Option<Affine>
    requires g.table.Valid()
  {
    if !g.established || sample >= |g.samples| then None
    else if sample == g.anchor then Some(IDENTITY)
    else if !g.samples[sample].canonicalMember then None
    else
      var read := g.table.Read(ops, sample, g.anchor);
      if read.Some? && read.value.0 >= 0 then Some(read.value.1) else None
  }

  function RequireAnchor(ops: AffineOps, g: Graph, sample: nat): Result<Affine, GraphError>
    requires g.table.Valid()
  {
    var t := SampleToAnchor(ops, g, sample);
    if t.Some? then Ok(t.value) else Err(MissingCanonicalTransform(sample, g.anchor))
  }

  function Mark(g: Graph, sample: nat): Graph
    requires sample < |g.samples|
  {
    g.(samples := g.samples[sample := g.samples[sample].(canonicalMember := true)])
  }

  /** Stores `sample -> anchor` with the given value; the anchor itself has no record. */
  function StoreToAnchor(ops: AffineOps, g: Graph, sample: nat, value: I32, toAnchor: Affine): (r: Graph)
    requires g.table.Valid() && sample < |g.samples|
    ensures r.table.Valid()
  {
    var marked := Mark(g, sample);
    if sample == g.anchor then marked
    else marked.(table := g.table.Write(ops, sample, g.anchor, value, toAnchor))
  }

  /** Attaching the newest sample keeps an existing direct value and initialises an absent one to 0. */
  function StoreCurrent(ops: AffineOps, g: Graph, sample: nat, toAnchor: Affine): (r: Graph)
    requires g.table.Valid() && sample < |g.samples|
    ensures r.table.Valid()
  {
    var existing := g.table.Value(sample, g.anchor);
    StoreToAnchor(ops, g, sample, if existing < 0 then 0 else existing, toAnchor)
  }

  /** Promotion always writes the value 0. */
  function StorePromoted(ops: AffineOps, g: Graph, sample: nat, toAnchor: Affine): (r: Graph)
    requires g.table.Valid() && sample < |g.samples|
    ensures r.table.Valid()
  {
    StoreToAnchor(ops, g, sample, 0, toAnchor)
  }

  // ---- attachment and establishment -----------------------------------------------------------------------------

  datatype Link = Link(index: nat, value: I32, transform: Affine)

  /** The strongest relation of the newest sample among `previous`; the last one wins a tie. */
  function Strongest(ops: AffineOps, g: Graph, current: nat, previous: seq<nat>, membersOnly: bool): (r: Option<Link>)
    requires g.table.Valid()
  {
    if previous == [] then None
    else
      var n := |previous| - 1;
      var best, read := Strongest(ops, g, current, previous[..n], membersOnly), g.table.Read(ops, current, previous[n]);
      if (membersOnly && !g.Member(previous[n])) || read.None? then best
      else if best.Some? && read.value.0 < best.value.value then best
      else Some(Link(previous[n], read.value.0, read.value.1))
  }

  function Attach(ops: AffineOps, g: Graph, current: nat, previous: seq<nat>): (r: Result<Graph, GraphError>)
    requires g.table.Valid() && current < |g.samples|
    ensures r.Ok? ==> r.value.table.Valid() && |r.value.samples| == |g.samples|
  {
    if !g.established then Ok(g)
    else
      var strongest := Strongest(ops, g, current, previous, true);
      if strongest.None? then Ok(g)
      else
        var through := strongest.value;
        var throughToAnchor :- RequireAnchor(ops, g, through.index);
        Ok(StoreCurrent(ops, g, current, ops.compose(throughToAnchor, through.transform)))
  }

  /** Founds the component on the strongest direct relation when it is above 5 and scores above the threshold. */
  function Establish(ops: AffineOps, g: Graph, current: nat, previous: seq<nat>, threshold: int, score: Score): (r: Graph)
    requires g.table.Valid() && current < |g.samples| && forall p <- previous :: p < current
    ensures r.table.Valid() && |r.samples| == |g.samples|
  {
    if g.established then g
    else
      var strongest := Strongest(ops, g, current, previous, false);
      if strongest.None? then g
      else
        var link := strongest.value;
        if link.value > 5 && score(current, link.index, link.transform) > threshold then
          StrongestIn(ops, g, current, previous, false);
          Mark(Mark(g.(anchor := link.index, established := true), link.index), current)
            .(table := g.table.Write(ops, current, link.index, link.value, link.transform))
        else g
  }

  /** What `Strongest` selects: a maximum of the readable relations, the last one among equals. */
  lemma {:induction false} StrongestIn(ops: AffineOps, g: Graph, current: nat, previous: seq<nat>, membersOnly: bool)
    requires g.table.Valid()
    ensures var r := Strongest(ops, g, current, previous, membersOnly);
      r.Some? ==>
        && r.value.index in previous
        && (membersOnly ==> g.Member(r.value.index))
        && g.table.Read(ops, current, r.value.index) == Some((r.value.value, r.value.transform))
  {
    if previous != [] {
      StrongestIn(ops, g, current, previous[..|previous| - 1], membersOnly);
    }
  }

  // ---- promotion ------------------------------------------------------------------------------------------------

  /** Whether `source -> target` has a usable relation whose score reaches `least`. */
  predicate Usable(ops: AffineOps, t: RelationTable, source: nat, target: nat, least: int, score: Score)
    requires t.Valid()
  {
    var read := t.Read(ops, source, target);
    read.Some? && read.value.0 >= 0 && score(source, target, read.value.1) >= least
  }

  /** Promotes the successful previous samples from position `at` on that lie outside the component. */
  function PromoteDirect(ops: AffineOps, g: Graph, current: nat, toAnchor: Affine, previous: seq<nat>, at: nat, score: Score,
                         promoted: seq<nat>): (r: (Graph, seq<nat>))
    requires g.table.Valid() && current < |g.samples| && at <= |previous| && forall p <- previous :: p < current
    ensures r.0.table.Valid() && |r.0.samples| == |g.samples|
    decreases |previous| - at
  {
    hide RowBase, PairIndex;
    if at == |previous| then (g, promoted)
    else
      var p := previous[at];
      assert p in previous;
      if g.Member(p) || !Usable(ops, g.table, current, p, SCORE_WEAK, score) then
        PromoteDirect(ops, g, current, toAnchor, previous, at + 1, score, promoted)
      else
        var previousToCurrent := ops.inverse(g.table.Read(ops, current, p).value.1);
        PromoteDirect(ops, StorePromoted(ops, g, p, ops.compose(toAnchor, previousToCurrent)), current, toAnchor,
          previous, at + 1, score, promoted + [p])
  }

  /** The samples below `bound` outside the component. */
  ghost function Outside(g: Graph): set<nat> {
    set i: nat | i < |g.samples| && !g.samples[i].canonicalMember
  }

  /** Promotes through `through` every candidate from `candidate` on with a usable edge to it. */
  function ScanCandidates(ops: AffineOps, g: Graph, current: nat, through: nat, throughToAnchor: Affine, candidate: nat,
                          threshold: int, score: Score, queue: seq<nat>): (r: (Graph, seq<nat>))
    requires g.table.Valid() && candidate <= current < |g.samples|
    ensures r.0.table.Valid() && |r.0.samples| == |g.samples|
    ensures |Outside(r.0)| + |r.1| == |Outside(g)| + |queue| && |r.1| >= |queue|
    decreases current - candidate
  {
    if candidate == current then (g, queue)
    else if candidate == through || g.Member(candidate)
         || !Usable(ops, g.table, candidate, through, threshold + 1, score) then
      ScanCandidates(ops, g, current, through, throughToAnchor, candidate + 1, threshold, score, queue)
    else
      var toAnchor := ops.compose(throughToAnchor, g.table.Read(ops, candidate, through).value.1);
      var stored := StorePromoted(ops, g, candidate, toAnchor);
      assert Outside(stored) == Outside(g) - {candidate};
      ScanCandidates(ops, stored, current, through, throughToAnchor, candidate + 1, threshold, score, queue + [candidate])
  }

  /** The worklist: every queued sample from position `next` on is expanded once. */
  function Close(ops: AffineOps, g: Graph, current: nat, queue: seq<nat>, next: nat, threshold: int, score: Score)
    : (r: (Graph, Result<seq<nat>, GraphError>))
    requires g.table.Valid() && current < |g.samples| && next <= |queue|
    ensures r.0.table.Valid() && |r.0.samples| == |g.samples|
    decreases |Outside(g)| + |queue| - next
  {
    if next == |queue| then (g, Ok(queue))
    else
      var through := queue[next];
      var toAnchor := RequireAnchor(ops, g, through);
      if toAnchor.Err? then (g, Err(toAnchor.error))
      else
        var scanned := ScanCandidates(ops, g, current, through, toAnchor.value, 0, threshold, score, queue);
        Close(ops, scanned.0, current, scanned.1, next + 1, threshold, score)
  }

  function Promote(ops: AffineOps, g: Graph, current: nat, previous: seq<nat>, threshold: int, score: Score)
    : (r: (Graph, Result<seq<nat>, GraphError>))
    requires g.table.Valid() && current < |g.samples| && forall p <- previous :: p < current
    ensures r.0.table.Valid() && |r.0.samples| == |g.samples|
  {
    if !g.established || !g.Member(current) then (g, Ok([]))
    else
      var toAnchor := RequireAnchor(ops, g, current);
      if toAnchor.Err? then (g, Err(toAnchor.error))
      else
        var direct := PromoteDirect(ops, g, current, toAnchor.value, previous, 0, score, []);
        Close(ops, direct.0, current, direct.1, 0, threshold, score)
  }

  // ---- novelty --------------------------------------------------------------------------------------------------

  /** The transforms from the newest sample to every other member from `other` on, derived through the anchor. */
  function CurrentToOthers(ops: AffineOps, g: Graph, current: nat, toAnchor: Affine, other: nat)
    : Result<seq<Affine>, GraphError>
    requires g.table.Valid() && other <= current < |g.samples|
    decreases current - other
  {
    if other == current then Ok([])
    else if !g.samples[other].canonicalMember || g.samples[other].status == 5 then
      CurrentToOthers(ops, g, current, toAnchor, other + 1)
    else
      var transform :- if other == g.anchor then Ok(toAnchor)
        else (var otherToAnchor :- RequireAnchor(ops, g, other); Ok(ops.compose(ops.inverse(otherToAnchor), toAnchor)));
      var rest :- CurrentToOthers(ops, g, current, toAnchor, other + 1);
      Ok([transform] + rest)
  }

  function Novelty(ops: AffineOps, g: Graph, current: nat, metric: Metric): Result<I32, GraphError>
    requires g.table.Valid() && current < |g.samples|
  {
    if !g.established || !g.Member(current) then Ok(0)
    else
      var toAnchor :- RequireAnchor(ops, g, current);
      var others :- CurrentToOthers(ops, g, current, toAnchor, 0);
      Ok(metric(g.samples[current].packedValidity, others))
  }

  // ---- one integration ------------------------------------------------------------------------------------------

  /** The argument checks, in order; each previous index is checked for range and then for its record. */
  function CheckPrevious(g: Graph, current: nat, previous: seq<nat>): (r: Outcome<GraphError>)
    requires g.table.Valid()
    ensures r.Pass? ==> forall p <- previous :: p < current && g.table.Record(current, p).Some?
  {
    if previous == [] then Pass
    else if previous[0] >= current then Fail(PreviousIndexOutOfRange(previous[0], current))
    else if g.table.Record(current, previous[0]).None? then Fail(MissingDirectRelation(current, previous[0]))
    else CheckPrevious(g, current, previous[1..])
  }

  function Integrate(ops: AffineOps, g: Graph, current: nat, previous: seq<nat>, threshold: int, score: Score,
                     metric: Metric): (r: (Graph, Result<Integration, GraphError>))
    requires g.table.Valid()
    ensures r.0.table.Valid() && |r.0.samples| == |g.samples|
  {
    if current + 1 != |g.samples| then (g, Err(CurrentIsNotNewest(current, |g.samples|)))
    else
      var check := CheckPrevious(g, current, previous);
      if check.Fail? then (g, Err(check.failure))
      else
        var attached := Attach(ops, g, current, previous);
        if attached.Err? then (g, Err(attached.error))
        else
          var based := Establish(ops, attached.value, current, previous, threshold, score);
          var (g', promoted) := Promote(ops, based, current, previous, threshold, score);
          if promoted.Err? then (g', Err(promoted.error))
          else
            var novelty := Novelty(ops, g', current, metric);
            if novelty.Err? then (g', Err(novelty.error))
            else (g', Ok(Integration(current, if g'.established then Some(g'.anchor) else None, g'.Member(current),
                promoted.value, novelty.value)))
  }
}
