/**
 What the serialization forest guarantees for every relation table: parent links are acyclic and climb to the group
 root, the emitted records are exactly the parent links in ascending table order, and only weak attachment cuts a
 strong relation.
 */
module ForestProofs {
  import opened Wrappers
  import opened Bytes
  import opened Relations
  import opened ForestModel

  // ---- the invariant --------------------------------------------------------------------------------------------

  /** What holds of one sample: unassigned, a root of its own group, or a child inside its parent's group. */
  ghost predicate Slot(t: RelationTable, f: Forest, x: nat)
    requires t.Valid() && f.Shaped(|f.group|) && x < |f.group|
  {
    var n := |f.group|;
    var g, p := f.group[x], f.parent[x];
    if g == -1 then p == -1
    else
      && 0 <= g < n && f.group[g] == g
      && if p == -1 then g == x
         else
           && g != x && 0 <= p < n && f.group[p] == g && t.Value(p, x) >= 0
           && (t.Value(p, x) <= 2 ==> p == g)
  }

  /** Parents rank strictly below their children, and ranks stay below the number of assigned samples. */
  ghost predicate Ranked(f: Forest, rank: seq<nat>)
    requires f.Shaped(|f.group|)
  {
    var n := |f.group|;
    && |rank| == n
    && forall x: nat :: x < n && f.group[x] != -1 ==>
      && rank[x] + |Unassigned(f)| < n
      && (0 <= f.parent[x] < n ==> rank[f.parent[x]] < rank[x])
  }

  ghost predicate Sound(t: RelationTable, f: Forest)
    requires t.Valid()
  {
    && f.Shaped(|f.group|)
    && (forall x: nat :: x < |f.group| ==> Slot(t, f, x))
    && exists rank :: Ranked(f, rank)
  }

  /** Attached to the group root through a relation too weak to be followed. */
  ghost predicate Weak(t: RelationTable, f: Forest, x: nat)
    requires t.Valid() && f.Shaped(|f.group|) && x < |f.group|
  {
    0 <= f.parent[x] < |f.group| && t.Value(f.parent[x], x) <= 2
  }

  /** Every sample from `from` on with a relation to `x` of at least `least` is assigned, to a group no later than that of `x`. */
  ghost predicate Scanned(t: RelationTable, f: Forest, x: nat, from: nat, to: nat, least: int)
    requires t.Valid() && f.Shaped(|f.group|) && x < |f.group| && to <= |f.group|
  {
    forall y: nat :: from <= y < to && t.Value(x, y) >= least ==> f.group[y] != -1 && f.group[y] <= f.group[x]
  }

  /** Samples not pending and not weakly attached have been scanned; roots up to `root` are the only ones. */
  ghost predicate Covered(t: RelationTable, f: Forest, pending: seq<nat>, root: int)
    requires t.Valid() && f.Shaped(|f.group|)
  {
    forall x: nat :: x < |f.group| && f.group[x] != -1 ==>
      && f.group[x] <= root
      && (x in pending || Weak(t, f, x) || Scanned(t, f, x, 0, |f.group|, 3))
  }

  /** Roots before `root` have collected every sample they have a relation to. */
  ghost predicate Collected(t: RelationTable, f: Forest, root: nat)
    requires t.Valid() && f.Shaped(|f.group|)
  {
    forall r: nat :: r < root && r < |f.group| && f.group[r] == r ==> Scanned(t, f, r, 0, |f.group|, 0)
  }

  ghost predicate Extends(f: Forest, g: Forest) {
    && f.Shaped(|f.group|) && g.Shaped(|f.group|)
    && forall x: nat :: x < |f.group| && f.group[x] != -1 ==> g.group[x] == f.group[x] && g.parent[x] == f.parent[x]
  }

  lemma ExtendsTransitive(f: Forest, g: Forest, h: Forest)
    requires Extends(f, g) && Extends(g, h)
    ensures Extends(f, h)
  {}

  lemma ExtendedScan(t: RelationTable, f: Forest, g: Forest, x: nat, from: nat, to: nat, least: int)
    requires t.Valid() && Extends(f, g) && x < |f.group| && to <= |f.group| && f.group[x] != -1
    requires Scanned(t, f, x, from, to, least)
    ensures Scanned(t, g, x, from, to, least)
  {
    hide RelationTable.Value;
  }

  lemma ExtendedCover(t: RelationTable, f: Forest, g: Forest, pending: seq<nat>, root: int, x: nat)
    requires t.Valid() && Extends(f, g) && Covered(t, f, pending, root) && x < |f.group| && f.group[x] != -1
    ensures g.group[x] <= root && (x in pending || Weak(t, g, x) || Scanned(t, g, x, 0, |g.group|, 3))
  {
    hide RelationTable.Value;
    if Scanned(t, f, x, 0, |f.group|, 3) {
      ExtendedScan(t, f, g, x, 0, |f.group|, 3);
    }
  }

  lemma ExtendedCollection(t: RelationTable, f: Forest, g: Forest, root: nat)
    requires t.Valid() && Extends(f, g) && Collected(t, f, root)
    requires forall r: nat :: r < root && r < |f.group| ==> f.group[r] != -1
    ensures Collected(t, g, root)
  {
    hide RelationTable.Value;
    forall r: nat | r < root && r < |g.group| && g.group[r] == r ensures Scanned(t, g, r, 0, |g.group|, 0) {
      ExtendedScan(t, f, g, r, 0, |f.group|, 0);
    }
  }

  // ---- one assignment -------------------------------------------------------------------------------------------

  lemma {:induction false} Below(s: set<nat>, n: nat)
    requires forall x <- s :: x < n
    ensures |s| <= n
  {
    if n > 0 {
      var last: nat := n - 1;
      Below(s - {last}, last);
    } else {
      assert s == {};
    }
  }

  /** A sample that is still free may become a root, or the child of an assigned sample. */
  ghost predicate Attachable(t: RelationTable, f: Forest, x: nat, root: nat, p: int)
    requires t.Valid() && f.Shaped(|f.group|)
  {
    var n := |f.group|;
    && x < n && f.group[x] == -1 && root < n
    && if p == -1 then root == x
       else
         && 0 <= p < n && f.group[p] == root && f.group[root] == root
         && t.Value(p, x) >= 0 && (t.Value(p, x) <= 2 ==> p == root)
  }

  lemma AssignSound(t: RelationTable, f: Forest, x: nat, root: nat, p: int)
    requires t.Valid() && Sound(t, f) && Attachable(t, f, x, root, p)
    ensures Sound(t, Assign(f, x, root, p)) && Extends(f, Assign(f, x, root, p))
  {
    hide RelationTable.Value, Unassigned;
    var n := |f.group|;
    var g := Assign(f, x, root, p);
    forall y: nat | y < n ensures Slot(t, g, y) {
      assert Slot(t, f, y);
    }
    var rank :| Ranked(f, rank);
    AssignOne(f, x, root, p);
    FewUnassigned(f);
    assert Ranked(g, rank[x := if p == -1 then 0 else rank[p] + 1]) by {
      forall y: nat | y < n && g.group[y] != -1 && 0 <= g.parent[y] < n ensures g.parent[y] != x {
        assert Slot(t, f, y);
      }
    }
  }

  lemma FewUnassigned(f: Forest)
    ensures |Unassigned(f)| <= |f.group|
  {
    Below(Unassigned(f), |f.group|);
  }

  // ---- growing one group ----------------------------------------------------------------------------------------

  ghost predicate AllIn(f: Forest, stack: seq<nat>, root: nat) {
    forall x <- stack :: x < |f.group| && f.group[x] == root
  }

  ghost predicate Growing(t: RelationTable, f: Forest, pending: seq<nat>, root: nat)
    requires t.Valid()
  {
    && f.Shaped(|f.group|) && Sound(t, f) && root < |f.group| && f.group[root] == root
    && AllIn(f, pending, root) && Covered(t, f, pending, root)
  }

  lemma GrowingStep(t: RelationTable, f: Forest, pending: seq<nat>, root: nat, c: nat, p: nat, next: seq<nat>)
    requires t.Valid() && Growing(t, f, pending, root) && Attachable(t, f, c, root, p)
    requires next == pending || next == pending + [c]
    requires next == pending ==> t.Value(p, c) <= 2
    ensures Growing(t, Assign(f, c, root, p), next, root)
    ensures Extends(f, Assign(f, c, root, p))
  {
    hide RelationTable.Value, Sound, Scanned;
    var g := Assign(f, c, root, p);
    AssignSound(t, f, c, root, p);
    forall x: nat | x < |g.group| && g.group[x] != -1
      ensures g.group[x] <= root && (x in next || Weak(t, g, x) || Scanned(t, g, x, 0, |g.group|, 3))
    {
      if x != c {
        ExtendedCover(t, f, g, pending, root, x);
      }
    }
  }

  /** Moving the sample on top of the stack behind the ones pushed by its scan leaves the same samples pending. */
  lemma PendingMoves(t: RelationTable, f: Forest, a: seq<nat>, b: seq<nat>, root: nat)
    requires t.Valid() && Growing(t, f, a, root) && forall x :: x in a <==> x in b
    ensures Growing(t, f, b, root)
  {
    hide RelationTable.Value, Sound, Scanned;
  }

  lemma {:induction false} StrongScanGrows(
    t: RelationTable, f: Forest, root: nat, current: nat, left: nat, stack: seq<nat>)
    requires t.Valid() && left <= |f.group| && current < |f.group|
    requires Growing(t, f, [current] + stack, root) && forall x <- stack :: x < |f.group|
    requires Scanned(t, f, current, left, |f.group|, 3)
    ensures var r := StrongScan(t, f, root, current, left, stack);
      Growing(t, r.0, [current] + r.1, root) && Scanned(t, r.0, current, 0, |f.group|, 3) && Extends(f, r.0)
    decreases left
  {
    hide RelationTable.Value, Sound, Covered;
    assert current in [current] + stack;
    if left > 0 {
      var c: nat := left - 1;
      if c == current || f.group[c] != -1 || t.Value(current, c) <= 2 {
        assert Scanned(t, f, current, c, |f.group|, 3) by {
          GroupsBounded(t, f, [current] + stack, root, c);
        }
        StrongScanGrows(t, f, root, current, c, stack);
      } else {
        var g := Assign(f, c, root, current);
        GrowingStep(t, f, [current] + stack, root, c, current, [current] + stack + [c]);
        assert [current] + stack + [c] == [current] + (stack + [c]);
        ExtendedScan(t, f, g, current, left, |f.group|, 3);
        StrongScanGrows(t, g, root, current, c, stack + [c]);
        ExtendsTransitive(f, g, StrongScan(t, g, root, current, c, stack + [c]).0);
      }
    }
  }

  lemma GroupsBounded(t: RelationTable, f: Forest, pending: seq<nat>, root: nat, x: nat)
    requires t.Valid() && Growing(t, f, pending, root) && x < |f.group|
    ensures f.group[x] <= root
  {
    hide RelationTable.Value, Sound, Scanned;
  }

  lemma {:induction false} GrowCovers(t: RelationTable, f: Forest, root: nat, stack: seq<nat>)
    requires t.Valid() && Growing(t, f, stack, root) && forall x <- stack :: x < |f.group|
    ensures Growing(t, Grow(t, f, root, stack), [], root) && Extends(f, Grow(t, f, root, stack))
    decreases |Unassigned(f)| + |stack|
  {
    hide RelationTable.Value, Sound, Unassigned, Covered, StrongScan;
    if stack != [] {
      var top: nat := |stack| - 1;
      var current := stack[top];
      assert stack == stack[..top] + [current];
      assert AllIn(f, stack, root) && current in stack && forall x <- stack[..top] :: x in stack;
      PendingMoves(t, f, stack, [current] + stack[..top], root);
      StrongScanGrows(t, f, root, current, |f.group|, stack[..top]);
      var (g, s) := StrongScan(t, f, root, current, |f.group|, stack[..top]);
      Popped(t, g, s, current, root);
      GrowCovers(t, g, root, s);
      ExtendsTransitive(f, g, Grow(t, g, root, s));
    }
  }

  lemma Popped(t: RelationTable, f: Forest, stack: seq<nat>, current: nat, root: nat)
    requires t.Valid() && current < |f.group| && Growing(t, f, [current] + stack, root)
    requires Scanned(t, f, current, 0, |f.group|, 3)
    ensures Growing(t, f, stack, root)
  {
    hide RelationTable.Value, Sound, Scanned;
    assert forall x <- stack :: x in [current] + stack;
  }

  lemma {:induction false} WeakScanCollects(t: RelationTable, f: Forest, root: nat, candidate: nat)
    requires t.Valid() && Growing(t, f, [], root) && candidate <= |f.group|
    requires Scanned(t, f, root, 0, candidate, 0) && Scanned(t, f, root, 0, |f.group|, 3)
    ensures var g := WeakScan(t, f, root, candidate);
      Growing(t, g, [], root) && Scanned(t, g, root, 0, |g.group|, 0) && Extends(f, g)
    decreases |f.group| - candidate
  {
    hide RelationTable.Value, Sound, Covered;
    if candidate < |f.group| {
      if candidate == root || f.group[candidate] != -1 || t.Value(root, candidate) < 0 {
        assert Scanned(t, f, root, 0, candidate + 1, 0) by { GroupsBounded(t, f, [], root, candidate); }
        WeakScanCollects(t, f, root, candidate + 1);
      } else {
        var g := Assign(f, candidate, root, root);
        GrowingStep(t, f, [], root, candidate, root, []);
        ExtendedScan(t, f, g, root, 0, candidate, 0);
        ExtendedScan(t, f, g, root, 0, |f.group|, 3);
        WeakScanCollects(t, g, root, candidate + 1);
        ExtendsTransitive(f, g, WeakScan(t, g, root, candidate + 1));
      }
    }
  }

  // ---- the whole forest -----------------------------------------------------------------------------------------

  /** The state between two roots: everything before `root` is assigned, to groups founded before it. */
  ghost predicate Between(t: RelationTable, f: Forest, root: nat)
    requires t.Valid()
  {
    && f.Shaped(|f.group|) && Sound(t, f) && Covered(t, f, [], root - 1) && Collected(t, f, root)
    && root <= |f.group| && forall x: nat :: x < root ==> f.group[x] != -1
  }

  lemma FoundKeeps(t: RelationTable, f: Forest, root: nat)
    requires t.Valid() && Between(t, f, root) && root < |f.group| && f.group[root] == -1
    ensures Between(t, Found(t, f, root), root + 1) && |Found(t, f, root).group| == |f.group|
  {
    hide RelationTable.Value, Sound, Scanned, Collected, Grow, WeakScan;
    var g := Assign(f, root, root, -1);
    AssignSound(t, f, root, root, -1);
    assert Covered(t, g, [root], root) by {
      forall x: nat | x < |g.group| && g.group[x] != -1
        ensures g.group[x] <= root && (x in [root] || Weak(t, g, x) || Scanned(t, g, x, 0, |g.group|, 3))
      {
        if x != root { ExtendedCover(t, f, g, [], root - 1, x); }
      }
    }
    GrowCovers(t, g, root, [root]);
    var h := Grow(t, g, root, [root]);
    RootScanned(t, h, root);
    WeakScanCollects(t, h, root, 0);
    var r := WeakScan(t, h, root, 0);
    ExtendsTransitive(f, g, h);
    ExtendsTransitive(f, h, r);
    ExtendedCollection(t, f, r, root);
    RootCollected(t, r, root);
  }

  /** A root is never weakly attached, so once nothing is pending it has been scanned. */
  lemma RootScanned(t: RelationTable, f: Forest, root: nat)
    requires t.Valid() && Growing(t, f, [], root)
    ensures Scanned(t, f, root, 0, |f.group|, 3) && Scanned(t, f, root, 0, 0, 0)
  {
    hide RelationTable.Value;
    assert Slot(t, f, root);
  }

  lemma RootCollected(t: RelationTable, f: Forest, root: nat)
    requires t.Valid() && f.Shaped(|f.group|) && Collected(t, f, root)
    requires root < |f.group| && Scanned(t, f, root, 0, |f.group|, 0)
    ensures Collected(t, f, root + 1)
  {
    hide RelationTable.Value, Scanned;
  }

  lemma {:induction false} BuildKeeps(t: RelationTable, f: Forest, root: nat)
    requires t.Valid() && Between(t, f, root)
    ensures Between(t, BuildFrom(t, f, root), |f.group|) && |BuildFrom(t, f, root).group| == |f.group|
    decreases |f.group| - root
  {
    hide RelationTable.Value, Found, Sound, Scanned;
    if root < |f.group| {
      if f.group[root] == -1 {
        FoundKeeps(t, f, root);
        BuildKeeps(t, Found(t, f, root), root + 1);
      } else {
        NotFounded(t, f, root);
        BuildKeeps(t, f, root + 1);
      }
    }
  }

  lemma NotFounded(t: RelationTable, f: Forest, root: nat)
    requires t.Valid() && Between(t, f, root) && root < |f.group| && f.group[root] != -1
    ensures Between(t, f, root + 1)
  {
    hide RelationTable.Value, Sound, Scanned;
    assert f.group[root] <= root - 1;
  }

  /** Before the first root no sample is assigned. */
  lemma StartIsBetween(t: RelationTable, f: Forest)
    requires t.Valid() && f.Shaped(|f.group|) && forall x: nat :: x < |f.group| ==> f.group[x] == f.parent[x] == -1
    ensures Between(t, f, 0)
  {
    hide RelationTable.Value;
    FewUnassigned(f);
    assert Ranked(f, seq(|f.group|, _ => 0));
  }

  lemma BuildBetween(t: RelationTable, count: nat)
    requires t.Valid()
    ensures Between(t, Build(t, count), count)
  {
    hide RelationTable.Value, BuildFrom;
    var f := Forest(seq(count, _ => -1), seq(count, _ => -1));
    StartIsBetween(t, f);
    BuildKeeps(t, f, 0);
  }

  // ---- what the forest means ------------------------------------------------------------------------------------

  /** The ancestor reached after at most `steps` parent links. */
  ghost function Climb(f: Forest, x: nat, steps: nat): int
    requires f.Shaped(|f.group|) && x < |f.group|
    decreases steps
  {
    if steps == 0 || !(0 <= f.parent[x] < |f.group|) then x else Climb(f, f.parent[x], steps - 1)
  }

  lemma {:induction false} ClimbEnds(t: RelationTable, f: Forest, rank: seq<nat>, x: nat, steps: nat)
    requires t.Valid() && Sound(t, f) && Ranked(f, rank) && x < |f.group| && f.group[x] != -1 && rank[x] <= steps
    ensures Climb(f, x, steps) == f.group[x]
    decreases steps
  {
    hide RelationTable.Value;
    assert Slot(t, f, x);
    if f.parent[x] != -1 {
      ClimbEnds(t, f, rank, f.parent[x], steps - 1);
    }
  }

  /** Every sample is assigned, its parent links end at its group root within `count` steps, and a root leads its own group. */
  lemma EverySampleReachesItsRoot(t: RelationTable, count: nat, x: nat)
    requires t.Valid() && x < count
    ensures var f := Build(t, count);
      && 0 <= f.group[x] < count && f.group[f.group[x]] == f.group[x]
      && Climb(f, x, count) == f.group[x]
      && (f.parent[x] == -1 <==> f.group[x] == x)
  {
    hide RelationTable.Value, Build, Unassigned;
    BuildBetween(t, count);
    var f := Build(t, count);
    var rank :| Ranked(f, rank);
    assert Slot(t, f, x);
    ClimbEnds(t, f, rank, x, count);
  }

  /** Whether the sample was attached by the weak fallback: straight to its root, through a relation of at most 2. */
  ghost predicate WeaklyAttached(t: RelationTable, f: Forest, x: nat)
    requires t.Valid() && f.Shaped(|f.group|) && x < |f.group|
  {
    && 0 <= f.parent[x] < |f.group| && f.parent[x] == f.group[x]
    && 0 <= t.Value(f.parent[x], x) <= 2
  }

  lemma ValueSymmetric(t: RelationTable, a: nat, b: nat)
    requires t.Valid()
    ensures t.Value(a, b) == t.Value(b, a)
  {}

  /** A strong relation is cut only next to a weakly attached sample, and it is the one in the earlier group. */
  lemma OnlyWeakAttachmentCutsStrongRelations(t: RelationTable, count: nat, x: nat, y: nat)
    requires t.Valid() && x < count && y < count && t.Value(x, y) > 2
    requires Build(t, count).group[x] < Build(t, count).group[y]
    ensures WeaklyAttached(t, Build(t, count), x)
  {
    hide RelationTable.Value, Build;
    BuildBetween(t, count);
    var f := Build(t, count);
    assert Slot(t, f, x);
    assert !Scanned(t, f, x, 0, count, 3);
  }

  /** No two roots have a non-negative relation to each other. */
  lemma RootsAreUnrelated(t: RelationTable, count: nat, a: nat, b: nat)
    requires t.Valid() && a < count && b < count && a != b
    requires Build(t, count).group[a] == a && Build(t, count).group[b] == b
    ensures t.Value(a, b) < 0
  {
    hide RelationTable.Value, Build;
    BuildBetween(t, count);
    var f := Build(t, count);
    var first, last := if a < b then a else b, if a < b then b else a;
    assert Scanned(t, f, first, 0, count, 0);
    ValueSymmetric(t, a, b);
  }
}
