/** The mutable enrollment graph; every method is proved to compute the graph model. */
module EnrollmentGraph {
  import opened Wrappers
  import opened Bytes
  import opened Relations
  import opened GraphModel

  class Enrollment {
    var samples: seq<Sample>
    var relations: RelationTable
    var canonicalAnchor: nat
    var canonicalEstablished: bool

    constructor (sampleCapacity: nat)
      ensures Valid() && State() == Graph([], EmptyTable(sampleCapacity), 0, false)
    {
      samples := [];
      relations := EmptyTable(sampleCapacity);
      canonicalAnchor := 0;
      canonicalEstablished := false;
    }

    ghost predicate Valid()
      reads this
    {
      relations.Valid()
    }

    function State(): Graph
      reads this
    {
      Graph(samples, relations, canonicalAnchor, canonicalEstablished)
    }

    method PushSample(sample: Sample) returns (index: nat)
      requires Valid()
      modifies this
      ensures Valid() && index == |old(samples)|
      ensures State() == old(State()).(samples := old(samples) + [sample])
    {
      index := |samples|;
      samples := samples + [sample];
    }

    /** Stores a `source -> target` transform; reports whether the pair exists in the table. */
    method SetRelation(ops: AffineOps, source: nat, target: nat, value: I32, transform: Affine) returns (stored: bool)
      requires Valid()
      modifies this
      ensures Valid() && State() == old(State()).(table := old(relations).Write(ops, source, target, value, transform))
      ensures stored <==> relations.Record(source, target).Some?
    {
      if source == target {
        return false;
      }
      var canonical := if source > target then transform else ops.inverse(transform);
      stored := source < relations.capacity && target < relations.capacity;
      relations := relations.Set(source, target, PairRelation(value, canonical));
    }

    method StoreAnchorRecord(ops: AffineOps, sample: nat, value: I32, toAnchor: Affine)
      requires Valid() && sample < |samples|
      modifies this
      ensures Valid() && State() == StoreToAnchor(ops, old(State()), sample, value, toAnchor)
    {
      samples := samples[sample := samples[sample].(canonicalMember := true)];
      if sample != canonicalAnchor {
        var _ := SetRelation(ops, sample, canonicalAnchor, value, toAnchor);
      }
    }

    method StoreCurrentToAnchor(ops: AffineOps, sample: nat, toAnchor: Affine)
      requires Valid() && sample < |samples|
      modifies this
      ensures Valid() && State() == StoreCurrent(ops, old(State()), sample, toAnchor)
    {
      var existing := relations.Value(sample, canonicalAnchor);
      StoreAnchorRecord(ops, sample, if existing < 0 then 0 else existing, toAnchor);
    }

    /** Attaches or founds; the graph part of an integration before promotion. */
    method AttachOrFound(ops: AffineOps, current: nat, previous: seq<nat>, threshold: int, score: Score)
      returns (r: Outcome<GraphError>)
      requires Valid() && current < |samples| && forall p <- previous :: p < current
      modifies this
      ensures Valid() && |samples| == |old(samples)|
      ensures match Attach(ops, old(State()), current, previous)
              case Ok(attached) => r == Pass && State() == Establish(ops, attached, current, previous, threshold, score)
              case Err(e) => r == Fail(e) && State() == old(State())
    {
      hide RowBase, PairIndex;
      if canonicalEstablished {
        var strongest := Strongest(ops, State(), current, previous, true);
        if strongest.Some? {
          var throughToAnchor := RequireAnchor(ops, State(), strongest.value.index);
          if throughToAnchor.Err? {
            return Fail(throughToAnchor.error);
          }
          StoreCurrentToAnchor(ops, current, ops.compose(throughToAnchor.value, strongest.value.transform));
        }
      }
      if !canonicalEstablished && previous != [] {
        var strongest := Strongest(ops, State(), current, previous, false);
        if strongest.Some? {
          StrongestIn(ops, State(), current, previous, false);
          var link := strongest.value;
          if link.value > 5 && score(current, link.index, link.transform) > threshold {
            canonicalAnchor := link.index;
            canonicalEstablished := true;
            samples := samples[link.index := samples[link.index].(canonicalMember := true)];
            samples := samples[current := samples[current].(canonicalMember := true)];
            var _ := SetRelation(ops, current, link.index, link.value, link.transform);
          }
        }
      }
      r := Pass;
    }

    method PromoteSuccessful(ops: AffineOps, current: nat, toAnchor: Affine, previous: seq<nat>, score: Score)
      returns (promoted: seq<nat>)
      requires Valid() && current < |samples| && forall p <- previous :: p < current
      modifies this
      ensures Valid() && |samples| == |old(samples)|
      ensures (State(), promoted) == PromoteDirect(ops, old(State()), current, toAnchor, previous, 0, score, [])
    {
      hide RowBase, PairIndex, StoreToAnchor;
      promoted := [];
      for at := 0 to |previous|
        invariant Valid() && |samples| == |old(samples)|
        invariant PromoteDirect(ops, old(State()), current, toAnchor, previous, 0, score, [])
               == PromoteDirect(ops, State(), current, toAnchor, previous, at, score, promoted)
      {
        var p := previous[at];
        assert p in previous;
        if samples[p].canonicalMember {
          continue;
        }
        var read := relations.Read(ops, current, p);
        if read.None? || read.value.0 < 0 || score(current, p, read.value.1) < SCORE_WEAK {
          continue;
        }
        var previousToAnchor := ops.compose(toAnchor, ops.inverse(read.value.1));
        StoreAnchorRecord(ops, p, 0, previousToAnchor);
        promoted := promoted + [p];
      }
    }

    /** The worklist closure over stored edges. */
    method CloseOverEdges(ops: AffineOps, current: nat, seeds: seq<nat>, threshold: int, score: Score)
      returns (r: Result<seq<nat>, GraphError>)
      requires Valid() && current < |samples|
      modifies this
      ensures Valid() && |samples| == |old(samples)|
      ensures (State(), r) == Close(ops, old(State()), current, seeds, 0, threshold, score)
    {
      hide RowBase, PairIndex, StoreToAnchor, Outside;
      var queue, next := seeds, 0;
      while next < |queue|
        invariant Valid() && |samples| == |old(samples)| && next <= |queue|
        invariant Close(ops, old(State()), current, seeds, 0, threshold, score)
               == Close(ops, State(), current, queue, next, threshold, score)
        decreases |Outside(State())| + |queue| - next
      {
        var through := queue[next];
        var toAnchor := RequireAnchor(ops, State(), through);
        if toAnchor.Err? {
          return Err(toAnchor.error);
        }
        queue := ScanEdges(ops, current, through, toAnchor.value, threshold, score, queue);
        next := next + 1;
      }
      r := Ok(queue);
    }

    method ScanEdges(ops: AffineOps, current: nat, through: nat, toAnchor: Affine, threshold: int, score: Score, seeds: seq<nat>)
      returns (queue: seq<nat>)
      requires Valid() && current < |samples|
      modifies this
      ensures Valid() && |samples| == |old(samples)|
      ensures (State(), queue) == ScanCandidates(ops, old(State()), current, through, toAnchor, 0, threshold, score, seeds)
    {
      hide RowBase, PairIndex, StoreToAnchor;
      queue := seeds;
      for candidate := 0 to current
        invariant Valid() && |samples| == |old(samples)|
        invariant ScanCandidates(ops, old(State()), current, through, toAnchor, 0, threshold, score, seeds)
               == ScanCandidates(ops, State(), current, through, toAnchor, candidate, threshold, score, queue)
      {
        if candidate == through || samples[candidate].canonicalMember {
          continue;
        }
        var read := relations.Read(ops, candidate, through);
        if read.None? || read.value.0 < 0 || score(candidate, through, read.value.1) <= threshold {
          continue;
        }
        StoreAnchorRecord(ops, candidate, 0, ops.compose(toAnchor, read.value.1));
        queue := queue + [candidate];
      }
    }

    method NovelTransforms(ops: AffineOps, current: nat, toAnchor: Affine) returns (r: Result<seq<Affine>, GraphError>)
      requires Valid() && current < |samples|
      ensures r == CurrentToOthers(ops, State(), current, toAnchor, 0)
    {
      hide SampleToAnchor;
      var transforms: seq<Affine> := [];
      ghost var all := CurrentToOthers(ops, State(), current, toAnchor, 0);
      assert all.Ok? ==> [] + all.value == all.value;
      for other := 0 to current
        invariant all == Joined(transforms, CurrentToOthers(ops, State(), current, toAnchor, other))
      {
        if !samples[other].canonicalMember || samples[other].status == 5 {
          continue;
        }
        var transform := toAnchor;
        if other != canonicalAnchor {
          var otherToAnchor :- RequireAnchor(ops, State(), other);
          transform := ops.compose(ops.inverse(otherToAnchor), toAnchor);
        }
        JoinedTwice(transforms, transform, CurrentToOthers(ops, State(), current, toAnchor, other + 1));
        transforms := transforms + [transform];
      }
      assert transforms + [] == transforms;
      r := Ok(transforms);
    }

    /** Integrates the newest sample, whose direct relations are already stored. */
    method IntegrateNewest(ops: AffineOps, current: nat, previous: seq<nat>, threshold: int, score: Score, metric: Metric)
      returns (r: Result<Integration, GraphError>)
      requires Valid()
      modifies this
      ensures Valid() && |samples| == |old(samples)|
      ensures (State(), r) == Integrate(ops, old(State()), current, previous, threshold, score, metric)
    {
      hide RowBase, PairIndex, PromoteDirect, Close, CurrentToOthers, Strongest, StoreToAnchor, Establish;
      var sampleCount := |samples|;
      if current + 1 != sampleCount {
        return Err(CurrentIsNotNewest(current, sampleCount));
      }
      var check := CheckArguments(current, previous);
      if check.Fail? {
        return Err(check.failure);
      }
      var based := AttachOrFound(ops, current, previous, threshold, score);
      if based.Fail? {
        return Err(based.failure);
      }
      var promoted: seq<nat> := [];
      if canonicalEstablished && samples[current].canonicalMember {
        var toAnchor :- RequireAnchor(ops, State(), current);
        promoted := PromoteSuccessful(ops, current, toAnchor, previous, score);
        promoted :- CloseOverEdges(ops, current, promoted, threshold, score);
      }
      var novelty: I32 := 0;
      if canonicalEstablished && samples[current].canonicalMember {
        var toAnchor :- RequireAnchor(ops, State(), current);
        var transforms :- NovelTransforms(ops, current, toAnchor);
        novelty := metric(samples[current].packedValidity, transforms);
      }
      r := Ok(Integration(current, if canonicalEstablished then Some(canonicalAnchor) else None,
        samples[current].canonicalMember, promoted, novelty));
    }

    method CheckArguments(current: nat, previous: seq<nat>) returns (r: Outcome<GraphError>)
      requires Valid()
      ensures r == CheckPrevious(State(), current, previous)
    {
      hide RowBase, PairIndex;
      assert previous[0..] == previous;
      for i := 0 to |previous|
        invariant CheckPrevious(State(), current, previous) == CheckPrevious(State(), current, previous[i..])
      {
        assert previous[i..][1..] == previous[i + 1..];
        if previous[i] >= current {
          return Fail(PreviousIndexOutOfRange(previous[i], current));
        }
        if relations.Record(current, previous[i]).None? {
          return Fail(MissingDirectRelation(current, previous[i]));
        }
      }
      r := Pass;
    }
  }

  /** The remaining transforms behind those already derived. */
  ghost function Joined(front: seq<Affine>, rest: Result<seq<Affine>, GraphError>): Result<seq<Affine>, GraphError> {
    if rest.Ok? then Ok(front + rest.value) else rest
  }

  lemma JoinedTwice(front: seq<Affine>, next: Affine, rest: Result<seq<Affine>, GraphError>)
    ensures rest.Ok? ==> Joined(front, Ok([next] + rest.value)) == Joined(front + [next], rest)
  {
    if rest.Ok? {
      assert front + ([next] + rest.value) == (front + [next]) + rest.value;
    }
  }
}
