/**
 The order in which a group is expanded, said without the stack: of the samples found and not yet expanded the one found
 last comes next, the smallest of those found together, and every sample belongs to the first expanded one it is strongly
 related to.  This fixes the parent links, and with them the records that are persisted.
 */
module ForestOrder {
  import opened Wrappers
  import opened Bytes
  import opened Relations
  import opened ForestModel
  import opened ForestProofs

  /** `x` was found by the `v`-th expanded sample, the first one with a relation above 2 to it. */
  ghost predicate FoundBy(t: RelationTable, f: Forest, order: seq<nat>, x: nat, v: nat)
    requires t.Valid() && f.Shaped(|f.group|)
  {
    && v < |order| && x < |f.group| && f.parent[x] == order[v] && t.Value(order[v], x) > 2
    && forall i: nat :: i < v ==> t.Value(order[i], x) <= 2
  }

  /** `x`, found by the `v`-th, is expanded before `y`, found by the `w`-th, when both wait. */
  predicate Precedes(x: nat, v: nat, y: nat, w: nat) {
    w < v || (w == v && x < y)
  }

  ghost predicate AllFound(t: RelationTable, f: Forest, order: seq<nat>, xs: seq<nat>, vs: seq<nat>, first: nat)
    requires t.Valid() && f.Shaped(|f.group|) && |xs| == |vs|
  {
    forall k: nat :: first <= k < |xs| ==> FoundBy(t, f, order, xs[k], vs[k])
  }

  ghost predicate Distinct(xs: seq<nat>) {
    forall j, k :: 0 <= j < k < |xs| ==> xs[j] != xs[k]
  }

  /** A sample that waited when another was expanded comes behind it. */
  ghost predicate LastFoundFirst(order: seq<nat>, via: seq<nat>)
    requires |order| == |via|
  {
    forall k: nat, l: nat :: 0 < k < l < |order| && via[l] < k ==> Precedes(order[k], via[k], order[l], via[l])
  }

  /** The strongly attached samples of the group of `root` in the order of their expansion, and which one found each. */
  ghost predicate Expansion(t: RelationTable, f: Forest, root: nat, order: seq<nat>, via: seq<nat>)
    requires t.Valid() && f.Shaped(|f.group|)
  {
    && |order| == |via| && order != [] && order[0] == root && Distinct(order)
    && (forall k: nat :: 0 < k < |order| ==> via[k] < k)
    && AllFound(t, f, order, order, via, 1) && LastFoundFirst(order, via)
  }

  /** The waiting samples: the next one on top, each behind the expanded ones it had to wait for. */
  ghost predicate Stacked(order: seq<nat>, via: seq<nat>, waiting: seq<nat>, waitingVia: seq<nat>)
    requires |order| == |via| && |waiting| == |waitingVia|
  {
    && (forall j, k :: 0 <= j < k < |waiting| ==> Precedes(waiting[k], waitingVia[k], waiting[j], waitingVia[j]))
    && (forall k: nat, j: nat :: 0 < k < |order| && j < |waiting| && waitingVia[j] < k ==>
          Precedes(order[k], via[k], waiting[j], waitingVia[j]))
  }

  /** The state between two turns of the stack: some expanded, the others found and waiting, the last one next. */
  ghost predicate Expanding(t: RelationTable, f: Forest, root: nat, order: seq<nat>, via: seq<nat>, waiting: seq<nat>,
                            waitingVia: seq<nat>)
    requires t.Valid() && f.Shaped(|f.group|)
  {
    && Expansion(t, f, root, order, via)
    && |waiting| == |waitingVia| && AllFound(t, f, order, waiting, waitingVia, 0)
    && Stacked(order, via, waiting, waitingVia)
    && (forall x :: x in waiting ==> x !in order)
  }

  /** The expanded and waiting samples are the group, and the expanded ones have found all they are strongly related to. */
  ghost predicate Gathered(t: RelationTable, f: Forest, root: nat, order: seq<nat>, waiting: seq<nat>)
    requires t.Valid() && f.Shaped(|f.group|)
  {
    && (forall x: nat :: x < |f.group| && f.group[x] == root <==> x in order || x in waiting)
    && (forall i: nat, y: nat :: i < |order| && y < |f.group| && t.Value(order[i], y) > 2 ==> f.group[y] != -1)
  }

  // ---- one scan -------------------------------------------------------------------------------------------------

  /** A free candidate that the scan of `current` finds. */
  ghost predicate Finds(t: RelationTable, f: Forest, current: nat, c: nat)
    requires t.Valid() && f.Shaped(|f.group|)
  {
    c < |f.group| && c != current && f.group[c] == -1 && t.Value(current, c) > 2
  }

  ghost predicate Descending(s: seq<nat>) {
    forall j, k :: 0 <= j < k < |s| ==> s[j] > s[k]
  }

  /** `g` is `f` with exactly the samples `found` attached to `current`. */
  ghost predicate Attached(f: Forest, g: Forest, root: nat, current: nat, found: seq<nat>) {
    && f.Shaped(|f.group|) && g.Shaped(|f.group|)
    && forall x: nat :: x < |f.group| ==>
      if x in found then g.group[x] == root && g.parent[x] == current
      else g.group[x] == f.group[x] && g.parent[x] == f.parent[x]
  }

  /** The scan attaches the free candidates below `left` that it finds and pushes them from the largest to the smallest. */
  lemma {:induction false} ScanFinds(t: RelationTable, f: Forest, root: nat, current: nat, left: nat, stack: seq<nat>)
    returns (found: seq<nat>)
    requires t.Valid() && f.Shaped(|f.group|) && left <= |f.group| && current < |f.group|
    requires forall x <- stack :: x < |f.group|
    ensures var (g, s) := StrongScan(t, f, root, current, left, stack);
      s == stack + found && Attached(f, g, root, current, found)
    ensures Descending(found) && forall c: nat :: c in found <==> c < left && Finds(t, f, current, c)
    decreases left
  {
    hide RelationTable.Value, Unassigned;
    found := [];
    if left > 0 {
      var c: nat := left - 1;
      if Finds(t, f, current, c) {
        var g := Assign(f, c, root, current);
        var rest := ScanFinds(t, g, root, current, c, stack + [c]);
        found := [c] + rest;
        assert stack + [c] + rest == stack + found;
        FoundOne(t, f, root, current, c, rest);
      } else {
        found := ScanFinds(t, f, root, current, c, stack);
      }
    } else {
      assert stack + [] == stack;
    }
  }

  lemma FoundOne(t: RelationTable, f: Forest, root: nat, current: nat, c: nat, rest: seq<nat>)
    requires t.Valid() && f.Shaped(|f.group|) && Finds(t, f, current, c) && Descending(rest)
    requires forall x: nat :: x in rest <==> x < c && Finds(t, Assign(f, c, root, current), current, x)
    ensures Descending([c] + rest)
    ensures forall x: nat :: x in [c] + rest <==> x < c + 1 && Finds(t, f, current, x)
  {
    hide RelationTable.Value;
    forall k | 0 <= k < |rest|
      ensures rest[k] < c
    {
      assert rest[k] in rest;
    }
  }

  // ---- one turn of the stack ------------------------------------------------------------------------------------

  /** `g` is `f` with some of the free samples added to the group of `root`. */
  ghost predicate Added(f: Forest, g: Forest, root: nat) {
    && f.Shaped(|f.group|) && g.Shaped(|f.group|)
    && forall x: nat :: x < |f.group| ==>
      || (g.group[x] == f.group[x] && g.parent[x] == f.parent[x])
      || (f.group[x] == -1 && g.group[x] == root)
  }

  lemma FoundByKept(t: RelationTable, f: Forest, g: Forest, order: seq<nat>, longer: seq<nat>, x: nat, v: nat)
    requires t.Valid() && f.Shaped(|f.group|) && g.Shaped(|f.group|) && FoundBy(t, f, order, x, v)
    requires order <= longer && g.parent[x] == f.parent[x]
    ensures FoundBy(t, g, longer, x, v)
  {
    hide RelationTable.Value;
  }

  /** What the scan of `current`, expanded behind `order`, finds is found by it first. */
  lemma FoundByCurrent(t: RelationTable, f: Forest, g: Forest, root: nat, order: seq<nat>, waiting: seq<nat>,
                       current: nat, found: seq<nat>, x: nat)
    requires t.Valid() && Attached(f, g, root, current, found) && Gathered(t, f, root, order, waiting)
    requires x in found && Finds(t, f, current, x)
    ensures FoundBy(t, g, order + [current], x, |order|)
  {
    hide RelationTable.Value;
  }

  lemma WaitingIsDistinct(t: RelationTable, f: Forest, order: seq<nat>, x: nat, v: nat, w: nat)
    requires t.Valid() && f.Shaped(|f.group|) && FoundBy(t, f, order, x, v) && FoundBy(t, f, order, x, w)
    ensures !Precedes(x, v, x, w)
  {
    hide RelationTable.Value;
  }

  lemma TurnSorts(order: seq<nat>, via: seq<nat>, waiting: seq<nat>, waitingVia: seq<nat>, current: nat, v: nat,
                  found: seq<nat>, foundVia: seq<nat>)
    requires |order| == |via| && |waiting| == |waitingVia| && |found| == |foundVia| && v < |order|
    requires forall w <- waitingVia :: w < |order|
    requires LastFoundFirst(order, via) && Stacked(order, via, waiting + [current], waitingVia + [v])
    requires Descending(found) && forall w <- foundVia :: w == |order|
    ensures LastFoundFirst(order + [current], via + [v])
    ensures Stacked(order + [current], via + [v], waiting + found, waitingVia + foundVia)
  {
    var n := |waiting|;
    var before, beforeVia := waiting + [current], waitingVia + [v];
    forall j: nat | j < n
      ensures Precedes(current, v, waiting[j], waitingVia[j])
    {
      assert before[j] == waiting[j] && before[n] == current && beforeVia[j] == waitingVia[j];
    }
    forall k: nat, j: nat | 0 < k < |order| && j < n && waitingVia[j] < k
      ensures Precedes(order[k], via[k], waiting[j], waitingVia[j])
    {
      assert before[j] == waiting[j] && beforeVia[j] == waitingVia[j];
    }
    forall k: nat | 0 < k < |order| && v < k
      ensures Precedes(order[k], via[k], current, v)
    {
      assert before[n] == current && beforeVia[n] == v;
    }
    var all, allVia := waiting + found, waitingVia + foundVia;
    assert forall w <- foundVia :: w == |order|;
    forall j: nat | j < |all|
      ensures if j < n then all[j] == waiting[j] && allVia[j] == waitingVia[j] && allVia[j] < |order|
        else all[j] == found[j - n] && allVia[j] == |order|
    {
      if j < n { assert waitingVia[j] in waitingVia; } else { assert foundVia[j - n] in foundVia; }
    }
    forall j, k | 0 <= j < k < |all|
      ensures Precedes(all[k], allVia[k], all[j], allVia[j])
    {
      if k < n {
        assert before[j] == waiting[j] && before[k] == waiting[k];
        assert beforeVia[j] == waitingVia[j] && beforeVia[k] == waitingVia[k];
      }
    }
  }

  lemma TurnFinds(t: RelationTable, f: Forest, g: Forest, root: nat, order: seq<nat>, xs: seq<nat>, vs: seq<nat>,
                  current: nat, found: seq<nat>, first: nat)
    requires t.Valid() && Attached(f, g, root, current, found) && |xs| == |vs| && AllFound(t, f, order, xs, vs, first)
    requires forall x <- xs :: x !in found
    ensures AllFound(t, g, order + [current], xs, vs, first)
  {
    hide FoundBy;
    forall k: nat | first <= k < |xs|
      ensures FoundBy(t, g, order + [current], xs[k], vs[k])
    {
      assert xs[k] in xs;
      AttachedKeeps(t, f, g, root, order, current, found, xs[k], vs[k]);
    }
  }

  lemma AttachedKeeps(t: RelationTable, f: Forest, g: Forest, root: nat, order: seq<nat>, current: nat, found: seq<nat>,
                      x: nat, v: nat)
    requires t.Valid() && Attached(f, g, root, current, found) && FoundBy(t, f, order, x, v) && x !in found
    ensures FoundBy(t, g, order + [current], x, v)
  {
    hide RelationTable.Value;
    FoundByKept(t, f, g, order, order + [current], x, v);
  }

  lemma TurnGathers(t: RelationTable, f: Forest, g: Forest, root: nat, order: seq<nat>, waiting: seq<nat>, current: nat,
                    found: seq<nat>)
    requires t.Valid() && Attached(f, g, root, current, found) && Gathered(t, f, root, order, waiting + [current])
    requires forall x: nat :: x in found <==> x < |f.group| && Finds(t, f, current, x)
    ensures Gathered(t, g, root, order + [current], waiting + found)
    ensures forall x <- order + waiting + [current] :: x !in found
  {
    hide RelationTable.Value;
    var longer := order + [current];
    assert current in waiting + [current];
    forall x | x in order + waiting + [current]
      ensures x !in found
    {
      assert x in order || x in waiting + [current];
    }
    forall i: nat, y: nat | i < |longer| && y < |f.group| && t.Value(longer[i], y) > 2
      ensures g.group[y] != -1
    {
      if i == |order| && f.group[y] == -1 {
        assert y in found;
      }
    }
    forall x: nat
      ensures x < |f.group| && g.group[x] == root <==> x in longer || x in waiting + found
    {
      assert x in waiting + [current] <==> x in waiting || x == current;
    }
  }

  lemma ViaBound(t: RelationTable, f: Forest, order: seq<nat>, xs: seq<nat>, vs: seq<nat>)
    requires t.Valid() && f.Shaped(|f.group|) && |xs| == |vs| && AllFound(t, f, order, xs, vs, 0)
    ensures (forall v <- vs :: v < |order|) && forall x <- xs :: x < |f.group|
  {
    hide RelationTable.Value;
    forall k: nat | k < |xs|
      ensures vs[k] < |order| && xs[k] < |f.group|
    {
      assert FoundBy(t, f, order, xs[k], vs[k]);
    }
  }

  lemma AllFoundJoins(t: RelationTable, f: Forest, order: seq<nat>, xs: seq<nat>, vs: seq<nat>, ys: seq<nat>,
                      ws: seq<nat>, first: nat)
    requires t.Valid() && f.Shaped(|f.group|) && |xs| == |vs| && |ys| == |ws|
    requires AllFound(t, f, order, xs, vs, first) && AllFound(t, f, order, ys, ws, 0)
    ensures AllFound(t, f, order, xs + ys, vs + ws, first)
  {
    hide FoundBy;
  }

  lemma AllFoundSplits(t: RelationTable, f: Forest, order: seq<nat>, xs: seq<nat>, vs: seq<nat>, x: nat, v: nat)
    requires t.Valid() && f.Shaped(|f.group|) && |xs| == |vs| && AllFound(t, f, order, xs + [x], vs + [v], 0)
    ensures AllFound(t, f, order, xs, vs, 0) && AllFound(t, f, order, [x], [v], 0)
  {
    hide FoundBy;
    var n := |xs|;
    forall k: nat | k < n
      ensures FoundBy(t, f, order, xs[k], vs[k])
    {
      assert (xs + [x])[k] == xs[k] && (vs + [v])[k] == vs[k];
    }
    assert (xs + [x])[n] == x && (vs + [v])[n] == v;
  }

  /** The sample taken from the top of the stack does not wait a second time. */
  lemma TopIsDistinct(t: RelationTable, f: Forest, order: seq<nat>, via: seq<nat>, waiting: seq<nat>,
                      waitingVia: seq<nat>, current: nat, v: nat)
    requires t.Valid() && f.Shaped(|f.group|) && |waiting| == |waitingVia| && |order| == |via|
    requires AllFound(t, f, order, waiting + [current], waitingVia + [v], 0)
    requires Stacked(order, via, waiting + [current], waitingVia + [v])
    ensures current !in waiting
  {
    hide RelationTable.Value, FoundBy, Precedes;
    var n := |waiting|;
    var before, beforeVia := waiting + [current], waitingVia + [v];
    assert before[n] == current && beforeVia[n] == v;
    forall j: nat | j < n
      ensures waiting[j] != current
    {
      assert before[j] == waiting[j] && beforeVia[j] == waitingVia[j];
      assert FoundBy(t, f, order, before[j], beforeVia[j]) && FoundBy(t, f, order, before[n], beforeVia[n]);
      if waiting[j] == current {
        assert Precedes(before[n], beforeVia[n], before[j], beforeVia[j]);
        WaitingIsDistinct(t, f, order, current, v, waitingVia[j]);
      }
    }
  }

  /** The last waiting sample is expanded: it goes behind the expanded ones, and what it finds on top of the others. */
  lemma Turn(t: RelationTable, f: Forest, g: Forest, root: nat, order: seq<nat>, via: seq<nat>, waiting: seq<nat>,
             waitingVia: seq<nat>, current: nat, v: nat, found: seq<nat>, foundVia: seq<nat>)
    requires t.Valid() && f.Shaped(|f.group|) && |waiting| == |waitingVia|
    requires Expanding(t, f, root, order, via, waiting + [current], waitingVia + [v])
    requires Gathered(t, f, root, order, waiting + [current])
    requires Attached(f, g, root, current, found) && Descending(found) && |found| == |foundVia|
    requires forall x: nat :: x in found <==> x < |f.group| && Finds(t, f, current, x)
    requires forall w <- foundVia :: w == |order|
    ensures Expanding(t, g, root, order + [current], via + [v], waiting + found, waitingVia + foundVia)
    ensures Gathered(t, g, root, order + [current], waiting + found)
  {
    hide RelationTable.Value, FoundBy, Precedes, Gathered, LastFoundFirst, Stacked, AllFound, Finds, Attached;
    var before, beforeVia := waiting + [current], waitingVia + [v];
    assert current in before && forall x <- waiting :: x in before;
    AttachedShape(f, g, root, current, found);
    ViaBound(t, f, order, before, beforeVia);
    AllFoundSplits(t, f, order, waiting, waitingVia, current, v);
    ViaBound(t, f, order, waiting, waitingVia);
    ViaBound(t, f, order, [current], [v]);
    assert v in [v];
    TopIsDistinct(t, f, order, via, waiting, waitingVia, current, v);
    TurnSorts(order, via, waiting, waitingVia, current, v, found, foundVia);
    TurnGathers(t, f, g, root, order, waiting, current, found);
    AllFoundJoins(t, f, order, order, via, [current], [v], 1);
    TurnFinds(t, f, g, root, order, order + [current], via + [v], current, found, 1);
    TurnFinds(t, f, g, root, order, waiting, waitingVia, current, found, 0);
    FoundIsFound(t, f, g, root, order, before, current, found, foundVia);
    AllFoundJoins(t, g, order + [current], waiting, waitingVia, found, foundVia, 0);
    forall x | x in waiting + found
      ensures x !in order + [current]
    {
      assert x in waiting || x in found;
    }
  }

  lemma FoundIsFound(t: RelationTable, f: Forest, g: Forest, root: nat, order: seq<nat>, waiting: seq<nat>, current: nat,
                     found: seq<nat>, foundVia: seq<nat>)
    requires t.Valid() && Attached(f, g, root, current, found) && Gathered(t, f, root, order, waiting)
    requires |found| == |foundVia| && forall w <- foundVia :: w == |order|
    requires forall x: nat :: x in found <==> x < |f.group| && Finds(t, f, current, x)
    ensures AllFound(t, g, order + [current], found, foundVia, 0)
  {
    hide FoundBy, Finds, Attached, Gathered, RelationTable.Value;
    assert g.Shaped(|f.group|) by { AttachedShape(f, g, root, current, found); }
    forall k: nat | k < |found|
      ensures FoundBy(t, g, order + [current], found[k], foundVia[k])
    {
      assert found[k] in found && foundVia[k] in foundVia;
      FoundByCurrent(t, f, g, root, order, waiting, current, found, found[k]);
    }
  }

  lemma AttachedShape(f: Forest, g: Forest, root: nat, current: nat, found: seq<nat>)
    requires Attached(f, g, root, current, found)
    ensures f.Shaped(|f.group|) && g.Shaped(|f.group|)
  {}

  // ---- a whole group --------------------------------------------------------------------------------------------

  lemma AttachedAdds(f: Forest, g: Forest, root: nat, current: nat, found: seq<nat>)
    requires Attached(f, g, root, current, found) && forall x <- found :: x < |f.group| && f.group[x] == -1
    ensures Added(f, g, root)
  {}

  lemma AddedTransitive(f: Forest, g: Forest, h: Forest, root: nat)
    requires Added(f, g, root) && Added(g, h, root)
    ensures Added(f, h, root)
  {}

  /** Expanding the waiting samples from the top of the stack expands the whole group in order. */
  lemma {:induction false} GrowExpands(t: RelationTable, f: Forest, root: nat, order: seq<nat>, via: seq<nat>,
                                       waiting: seq<nat>, waitingVia: seq<nat>)
    returns (whole: seq<nat>, wholeVia: seq<nat>)
    requires t.Valid() && f.Shaped(|f.group|) && forall x <- waiting :: x < |f.group|
    requires Expanding(t, f, root, order, via, waiting, waitingVia) && Gathered(t, f, root, order, waiting)
    ensures var g := Grow(t, f, root, waiting);
      Added(f, g, root) && Expansion(t, g, root, whole, wholeVia) && Gathered(t, g, root, whole, [])
    decreases |Unassigned(f)| + |waiting|
  {
    hide RelationTable.Value, Unassigned, Gathered, Expansion, Finds, Stacked, AllFound, StrongScan;
    if waiting == [] {
      whole, wholeVia := order, via;
    } else {
      var top: nat := |waiting| - 1;
      var current, rest, v, restVia := waiting[top], waiting[..top], waitingVia[top], waitingVia[..top];
      assert waiting == rest + [current] && waitingVia == restVia + [v] && forall x <- rest :: x in waiting;
      assert current in waiting;
      var found := ScanFinds(t, f, root, current, |f.group|, rest);
      var (g, s) := StrongScan(t, f, root, current, |f.group|, rest);
      var foundVia := seq(|found|, _ => |order|);
      Turn(t, f, g, root, order, via, rest, restVia, current, v, found, foundVia);
      FoundFree(t, f, current, found);
      AttachedAdds(f, g, root, current, found);
      whole, wholeVia := GrowExpands(t, g, root, order + [current], via + [v], s, restVia + foundVia);
      AddedTransitive(f, g, Grow(t, g, root, s), root);
    }
  }

  lemma FoundFree(t: RelationTable, f: Forest, current: nat, found: seq<nat>)
    requires t.Valid() && f.Shaped(|f.group|) && forall x <- found :: Finds(t, f, current, x)
    ensures forall x <- found :: x < |f.group| && f.group[x] == -1
  {
    hide RelationTable.Value;
  }

  /** The group of a fresh root: the root itself is expanded first. */
  lemma GroupExpands(t: RelationTable, f: Forest, root: nat) returns (order: seq<nat>, via: seq<nat>)
    requires t.Valid() && f.Shaped(|f.group|) && root < |f.group| && f.group[root] == -1
    requires forall x: nat :: x < |f.group| ==> f.group[x] != root
    ensures var g := Grow(t, Assign(f, root, root, -1), root, [root]);
      Added(Assign(f, root, root, -1), g, root) && Expansion(t, g, root, order, via) && Gathered(t, g, root, order, [])
  {
    hide RelationTable.Value, Unassigned, Finds, StrongScan;
    var a := Assign(f, root, root, -1);
    var found := ScanFinds(t, a, root, root, |a.group|, []);
    var (g, s) := StrongScan(t, a, root, root, |a.group|, []);
    assert s == found;
    var foundVia := seq(|found|, _ => 0);
    FirstTurn(t, f, a, g, root, found, foundVia);
    FoundFree(t, a, root, found);
    AttachedAdds(a, g, root, root, found);
    assert [root][..0] == [];
    hide Grow, Attached;
    GrowOnce(t, a, root, g, s);
    order, via := GrowExpands(t, g, root, [root], [0], found, foundVia);
    AddedTransitive(a, g, Grow(t, g, root, s), root);
  }

  lemma GrowOnce(t: RelationTable, f: Forest, root: nat, g: Forest, s: seq<nat>)
    requires t.Valid() && f.Shaped(|f.group|) && root < |f.group|
    requires (g, s) == StrongScan(t, f, root, root, |f.group|, [])
    ensures Grow(t, f, root, [root]) == Grow(t, g, root, s)
  {
    hide RelationTable.Value, StrongScan;
    assert [root][..0] == [];
  }

  lemma FirstTurn(t: RelationTable, f: Forest, a: Forest, g: Forest, root: nat, found: seq<nat>, foundVia: seq<nat>)
    requires t.Valid() && f.Shaped(|f.group|) && root < |f.group| && a == Assign(f, root, root, -1)
    requires forall x: nat :: x < |f.group| ==> f.group[x] != root
    requires Attached(a, g, root, root, found) && Descending(found) && |found| == |foundVia|
    requires forall x: nat :: x in found <==> x < |a.group| && Finds(t, a, root, x)
    requires forall w <- foundVia :: w == 0
    ensures Expanding(t, g, root, [root], [0], found, foundVia) && Gathered(t, g, root, [root], found)
  {
    hide RelationTable.Value;
    forall k: nat | k < |found|
      ensures FoundBy(t, g, [root], found[k], foundVia[k]) && foundVia[k] == 0 && found[k] != root
    {
      assert found[k] in found && foundVia[k] in foundVia;
    }
  }

  // ---- the weak fallback ----------------------------------------------------------------------------------------

  ghost predicate Apart(t: RelationTable, order: seq<nat>, x: nat)
    requires t.Valid()
  {
    forall i: nat :: i < |order| ==> t.Value(order[i], x) <= 2
  }

  /** The group of `root`: the expanded samples, and under the root itself some that none of them is strongly related to. */
  ghost predicate SettledBy(t: RelationTable, f: Forest, root: nat, order: seq<nat>, via: seq<nat>)
    requires t.Valid() && f.Shaped(|f.group|)
  {
    && Expansion(t, f, root, order, via)
    && (forall x <- order :: x < |f.group| && f.group[x] == root)
    && (forall x: nat :: x < |f.group| && f.group[x] == root && x !in order ==> f.parent[x] == root && Apart(t, order, x))
  }

  ghost predicate Reaching(t: RelationTable, f: Forest, order: seq<nat>)
    requires t.Valid() && f.Shaped(|f.group|)
  {
    forall y: nat :: y < |f.group| && f.group[y] == -1 ==> Apart(t, order, y)
  }

  lemma ExpansionKept(t: RelationTable, f: Forest, g: Forest, root: nat, order: seq<nat>, via: seq<nat>)
    requires t.Valid() && f.Shaped(|f.group|) && g.Shaped(|f.group|) && Expansion(t, f, root, order, via)
    requires forall x <- order :: x < |f.group| && g.parent[x] == f.parent[x]
    ensures Expansion(t, g, root, order, via)
  {
    hide RelationTable.Value, FoundBy;
    forall k: nat | 1 <= k < |order|
      ensures FoundBy(t, g, order, order[k], via[k])
    {
      FoundByKept(t, f, g, order, order, order[k], via[k]);
    }
  }

  lemma GatheredSettles(t: RelationTable, f: Forest, root: nat, order: seq<nat>, via: seq<nat>)
    requires t.Valid() && f.Shaped(|f.group|)
    requires Expansion(t, f, root, order, via) && Gathered(t, f, root, order, [])
    ensures SettledBy(t, f, root, order, via) && Reaching(t, f, order)
    ensures root < |f.group| && f.group[root] == root
  {
    hide RelationTable.Value;
    assert order[0] in order;
    forall x <- order
      ensures x < |f.group| && f.group[x] == root
    {
      assert x in order || x in [];
    }
  }

  lemma {:induction false} WeakScanSettles(
    t: RelationTable, f: Forest, root: nat, candidate: nat, order: seq<nat>, via: seq<nat>)
    requires t.Valid() && f.Shaped(|f.group|) && candidate <= |f.group|
    requires SettledBy(t, f, root, order, via) && Reaching(t, f, order)
    ensures var g := WeakScan(t, f, root, candidate);
      Added(f, g, root) && SettledBy(t, g, root, order, via)
    decreases |f.group| - candidate
  {
    hide RelationTable.Value, Expansion, Apart;
    if candidate < |f.group| {
      if candidate == root || f.group[candidate] != -1 || t.Value(root, candidate) < 0 {
        WeakScanSettles(t, f, root, candidate + 1, order, via);
      } else {
        var g := Assign(f, candidate, root, root);
        ExpansionKept(t, f, g, root, order, via);
        WeakScanSettles(t, g, root, candidate + 1, order, via);
        AddedTransitive(f, g, WeakScan(t, g, root, candidate + 1), root);
      }
    }
  }

  // ---- the whole forest -----------------------------------------------------------------------------------------

  ghost predicate Settled(t: RelationTable, f: Forest, root: nat)
    requires t.Valid() && f.Shaped(|f.group|)
  {
    exists order, via :: SettledBy(t, f, root, order, via)
  }

  /** The groups founded before `root` are settled, and no sample before it belongs to a later one. */
  ghost predicate SettledTo(t: RelationTable, f: Forest, root: nat)
    requires t.Valid() && f.Shaped(|f.group|) && root <= |f.group|
  {
    && (forall r: nat :: r < root && f.group[r] == r ==> Settled(t, f, r))
    && (forall x: nat :: x < root ==> f.group[x] <= x)
  }

  lemma SettledKept(t: RelationTable, f: Forest, g: Forest, r: nat, root: nat)
    requires t.Valid() && Added(f, g, root) && r != root && Settled(t, f, r)
    ensures Settled(t, g, r)
  {
    hide RelationTable.Value, Expansion, Apart;
    var order, via :| SettledBy(t, f, r, order, via);
    ExpansionKept(t, f, g, r, order, via);
    assert SettledBy(t, g, r, order, via);
  }

  lemma FoundSettles(t: RelationTable, f: Forest, root: nat)
    requires t.Valid() && f.Shaped(|f.group|) && root < |f.group| && f.group[root] == -1
    requires forall x: nat :: x < |f.group| ==> f.group[x] < root
    ensures Added(f, Found(t, f, root), root) && Settled(t, Found(t, f, root), root)
  {
    hide RelationTable.Value, Grow, WeakScan, SettledBy, Expansion, Gathered, Reaching;
    var a := Assign(f, root, root, -1);
    var order, via := GroupExpands(t, f, root);
    var g := Grow(t, a, root, [root]);
    GatheredSettles(t, g, root, order, via);
    WeakScanSettles(t, g, root, 0, order, via);
    AddedTransitive(f, a, g, root);
    AddedTransitive(f, g, WeakScan(t, g, root, 0), root);
  }

  lemma SettledStep(t: RelationTable, f: Forest, root: nat)
    requires t.Valid() && Between(t, f, root) && SettledTo(t, f, root) && root < |f.group|
    ensures f.group[root] != -1 ==> SettledTo(t, f, root + 1)
    ensures f.group[root] == -1 ==> Found(t, f, root).Shaped(|f.group|) && SettledTo(t, Found(t, f, root), root + 1)
  {
    hide RelationTable.Value, Found, Settled, Sound, Scanned, Weak, Collected;
    if f.group[root] == -1 {
      FoundSettles(t, f, root);
      FoundKeeps(t, f, root);
      var g := Found(t, f, root);
      forall r: nat | r < root + 1 && g.group[r] == r
        ensures Settled(t, g, r)
      {
        if r < root {
          SettledKept(t, f, g, r, root);
        }
      }
    }
  }

  lemma {:induction false} BuildSettles(t: RelationTable, f: Forest, root: nat)
    requires t.Valid() && Between(t, f, root) && SettledTo(t, f, root)
    ensures SettledTo(t, BuildFrom(t, f, root), |f.group|)
    decreases |f.group| - root
  {
    hide RelationTable.Value, Found, Sound, Scanned, Collected, Covered, SettledTo;
    if root < |f.group| {
      SettledStep(t, f, root);
      if f.group[root] == -1 {
        FoundKeeps(t, f, root);
        BuildSettles(t, Found(t, f, root), root + 1);
      } else {
        NotFounded(t, f, root);
        BuildSettles(t, f, root + 1);
      }
    }
  }
}
