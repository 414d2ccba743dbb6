/**
 The serialization forest described without its construction.  The roots are the samples no earlier group has taken; a
 group is the samples reached from its root over relations above 2, in the order of their expansion, and the samples
 without such a relation that are related to the root at all.  Exactly one forest fits, and it is the one built.
 */
module ForestUnique {
  import opened Wrappers
  import opened Bytes
  import opened Relations
  import opened ForestModel
  import opened ForestProofs
  import opened ForestOrder

  /** The group of `root`: the samples expanded from it in order, and its weakly attached samples. */
  ghost predicate GroupOf(t: RelationTable, f: Forest, root: nat, order: seq<nat>, via: seq<nat>)
    requires t.Valid() && f.Shaped(|f.group|)
  {
    && Expansion(t, f, root, order, via)
    && (forall x <- order :: x < |f.group| && f.group[x] == root)
    && (forall x: nat :: x < |f.group| && f.group[x] == root && x !in order ==>
          f.parent[x] == root && t.Value(root, x) >= 0 && Apart(t, order, x))
    && (forall i: nat, y: nat :: i < |order| && y < |f.group| && t.Value(order[i], y) > 2 ==> f.group[y] <= root)
    && (forall y: nat :: y < |f.group| && t.Value(root, y) >= 0 ==> f.group[y] <= root)
  }

  ghost predicate Grouped(t: RelationTable, f: Forest, root: nat)
    requires t.Valid() && f.Shaped(|f.group|)
  {
    exists order, via :: GroupOf(t, f, root, order, via)
  }

  /** Every sample belongs to the group of a root no later than itself, and every root leads its group. */
  ghost predicate GrownInOrder(t: RelationTable, f: Forest)
    requires t.Valid() && f.Shaped(|f.group|)
  {
    && (forall x: nat :: x < |f.group| ==> 0 <= f.group[x] <= x && f.group[f.group[x]] == f.group[x])
    && (forall r: nat :: r < |f.group| && f.group[r] == r ==> f.parent[r] == -1 && Grouped(t, f, r))
  }

  // ---- the built forest is grown in order -----------------------------------------------------------------------

  /** An expanded sample is not attached weakly. */
  lemma ExpandedIsStrong(t: RelationTable, f: Forest, root: nat, order: seq<nat>, via: seq<nat>, k: nat)
    requires t.Valid() && f.Shaped(|f.group|) && Expansion(t, f, root, order, via) && k < |order|
    requires order[k] < |f.group| && root < |f.group| && f.parent[root] == -1
    ensures !Weak(t, f, order[k])
  {
    hide RelationTable.Value;
    if k > 0 {
      assert FoundBy(t, f, order, order[k], via[k]);
    }
  }

  lemma BuiltGroup(t: RelationTable, f: Forest, root: nat, order: seq<nat>, via: seq<nat>)
    requires t.Valid() && Between(t, f, |f.group|) && root < |f.group| && f.group[root] == root
    requires SettledBy(t, f, root, order, via)
    ensures f.parent[root] == -1 && GroupOf(t, f, root, order, via)
  {
    hide RelationTable.Value, Expansion, Apart, Sound, Weak;
    assert forall x: nat :: x < |f.group| ==> Slot(t, f, x) by { SoundSlots(t, f); }
    assert Slot(t, f, root);
    forall i: nat, y: nat | i < |order| && y < |f.group| && t.Value(order[i], y) > 2
      ensures f.group[y] <= root
    {
      assert order[i] in order;
      ExpandedIsStrong(t, f, root, order, via, i);
      assert Scanned(t, f, order[i], 0, |f.group|, 3);
    }
    assert Scanned(t, f, root, 0, |f.group|, 0);
    forall x: nat | x < |f.group| && f.group[x] == root && x !in order
      ensures t.Value(root, x) >= 0
    {
      assert Slot(t, f, x);
    }
  }

  lemma SoundSlots(t: RelationTable, f: Forest)
    requires t.Valid() && Sound(t, f)
    ensures forall x: nat :: x < |f.group| ==> Slot(t, f, x)
  {
    hide Slot;
  }

  lemma BuildIsGrownInOrder(t: RelationTable, count: nat)
    requires t.Valid()
    ensures GrownInOrder(t, Build(t, count))
  {
    hide RelationTable.Value, BuildFrom, SettledBy, GroupOf, Sound, Scanned, Collected, Weak;
    var start := Forest(seq(count, _ => -1), seq(count, _ => -1));
    StartIsBetween(t, start);
    BuildKeeps(t, start, 0);
    BuildSettles(t, start, 0);
    var f := Build(t, count);
    SoundSlots(t, f);
    forall x: nat | x < count
      ensures 0 <= f.group[x] <= x && f.group[f.group[x]] == f.group[x]
    {
      assert Slot(t, f, x);
    }
    forall r: nat | r < count && f.group[r] == r
      ensures f.parent[r] == -1 && Grouped(t, f, r)
    {
      assert Settled(t, f, r);
      var order, via :| SettledBy(t, f, r, order, via);
      BuiltGroup(t, f, r, order, via);
    }
  }

  // ---- and no other is ------------------------------------------------------------------------------------------

  /** The two forests agree on the groups founded before `root`. */
  ghost predicate Agree(f: Forest, h: Forest, root: nat) {
    && f.Shaped(|f.group|) && h.Shaped(|f.group|)
    && forall x: nat :: x < |f.group| ==>
      && (f.group[x] < root <==> h.group[x] < root)
      && (f.group[x] < root ==> f.group[x] == h.group[x] && f.parent[x] == h.parent[x])
  }

  /** What one forest expands after a common prefix, the other expands too, found by the same sample and no sooner. */
  lemma Behind(t: RelationTable, f: Forest, h: Forest, root: nat, a: seq<nat>, aVia: seq<nat>, b: seq<nat>,
               bVia: seq<nat>, k: nat) returns (l: nat)
    requires t.Valid() && Agree(f, h, root) && GroupOf(t, f, root, a, aVia) && GroupOf(t, h, root, b, bVia)
    requires 0 < k < |a| && k <= |b| && a[..k] == b[..k]
    ensures k <= l < |b| && b[l] == a[k] && bVia[l] == aVia[k]
    ensures k < l ==> Precedes(b[k], bVia[k], a[k], aVia[k])
  {
    hide RelationTable.Value, Precedes;
    var y, v := a[k], aVia[k];
    assert FoundBy(t, f, a, y, v) && y in a;
    assert forall i: nat :: i < k ==> b[i] == a[..k][i];
    assert t.Value(b[v], y) > 2;
    assert h.group[y] == root;
    assert y in b;
    l :| 0 <= l < |b| && b[l] == y;
    assert l >= k;
    assert FoundBy(t, h, b, b[l], bVia[l]);
    assert forall i: nat :: i < v ==> t.Value(a[i], y) <= 2;
  }

  lemma SameNext(t: RelationTable, f: Forest, h: Forest, root: nat, a: seq<nat>, aVia: seq<nat>, b: seq<nat>,
                 bVia: seq<nat>, k: nat)
    requires t.Valid() && Agree(f, h, root) && GroupOf(t, f, root, a, aVia) && GroupOf(t, h, root, b, bVia)
    requires 0 < k < |a| && k <= |b| && a[..k] == b[..k]
    ensures k < |b| && |aVia| == |a| && |bVia| == |b| && a[k] == b[k] && aVia[k] == bVia[k]
  {
    GroupStarts(t, f, root, a, aVia);
    GroupStarts(t, h, root, b, bVia);
    AgreeFlips(f, h, root);
    hide RelationTable.Value, Agree, GroupOf;
    var l := Behind(t, f, h, root, a, aVia, b, bVia, k);
    var m := Behind(t, h, f, root, b, bVia, a, aVia, k);
  }

  lemma PrefixGrows(a: seq<nat>, b: seq<nat>, first: nat, j: nat)
    requires first <= j < |a| && j < |b| && a[first..j] == b[first..j] && a[j] == b[j]
    ensures a[first..j + 1] == b[first..j + 1]
  {
    assert a[first..j + 1] == a[first..j] + [a[j]] && b[first..j + 1] == b[first..j] + [b[j]];
  }

  lemma {:induction false} SamePrefix(t: RelationTable, f: Forest, h: Forest, root: nat, a: seq<nat>, aVia: seq<nat>,
                                      b: seq<nat>, bVia: seq<nat>, k: nat)
    requires t.Valid() && Agree(f, h, root) && GroupOf(t, f, root, a, aVia) && GroupOf(t, h, root, b, bVia)
    requires 0 < k <= |a|
    ensures k <= |b| && a[..k] == b[..k] && |aVia| == |a| && |bVia| == |b| && aVia[1..k] == bVia[1..k]
    decreases k
  {
    GroupStarts(t, f, root, a, aVia);
    GroupStarts(t, h, root, b, bVia);
    hide RelationTable.Value, Agree, Expansion, Apart, GroupOf;
    if k > 1 {
      var j: nat := k - 1;
      SamePrefix(t, f, h, root, a, aVia, b, bVia, j);
      SameNext(t, f, h, root, a, aVia, b, bVia, j);
      PrefixGrows(a, b, 0, j);
      PrefixGrows(aVia, bVia, 1, j);
    }
  }

  lemma GroupStarts(t: RelationTable, f: Forest, root: nat, a: seq<nat>, aVia: seq<nat>)
    requires t.Valid() && f.Shaped(|f.group|) && GroupOf(t, f, root, a, aVia)
    ensures |a| == |aVia| > 0 && a[0] == root
  {
    hide RelationTable.Value, FoundBy;
  }

  lemma AgreeFlips(f: Forest, h: Forest, root: nat)
    requires Agree(f, h, root)
    ensures Agree(h, f, root)
  {}

  /** A member of the group in one forest is a member in the other, under the same parent. */
  lemma SameMember(t: RelationTable, f: Forest, h: Forest, root: nat, order: seq<nat>, via: seq<nat>, hVia: seq<nat>, x: nat)
    requires t.Valid() && Agree(f, h, root) && GroupOf(t, f, root, order, via) && GroupOf(t, h, root, order, hVia)
    requires root < |f.group| && f.parent[root] == h.parent[root]
    requires (forall i :: 0 < i < |order| ==> via[i] == hVia[i]) && x < |f.group| && f.group[x] == root
    ensures h.group[x] == root && h.parent[x] == f.parent[x]
  {
    hide RelationTable.Value;
    if x in order {
      var k :| 0 <= k < |order| && order[k] == x;
      if k > 0 {
        assert FoundBy(t, f, order, order[k], via[k]) && FoundBy(t, h, order, order[k], hVia[k]);
      }
    }
  }

  /** The next root is the same in both forests, and so is its group. */
  lemma AgreeStep(t: RelationTable, f: Forest, h: Forest, root: nat)
    requires t.Valid() && Agree(f, h, root) && GrownInOrder(t, f) && GrownInOrder(t, h) && root < |f.group|
    ensures Agree(f, h, root + 1)
  {
    hide RelationTable.Value, GroupOf;
    AgreeFlips(f, h, root);
    if f.group[root] == root {
      assert h.group[root] == root;
      assert Grouped(t, f, root) && Grouped(t, h, root);
      var a, aVia :| GroupOf(t, f, root, a, aVia);
      var b, bVia :| GroupOf(t, h, root, b, bVia);
      SameOrder(t, f, h, root, a, aVia, b, bVia);
      forall x: nat | x < |f.group|
        ensures f.group[x] == root ==> h.group[x] == root && h.parent[x] == f.parent[x]
        ensures h.group[x] == root ==> f.group[x] == root
      {
        if f.group[x] == root {
          SameMember(t, f, h, root, a, aVia, bVia, x);
        }
        if h.group[x] == root {
          SameMember(t, h, f, root, a, bVia, aVia, x);
        }
      }
    } else {
      assert h.group[root] != root;
      forall x: nat | x < |f.group|
        ensures f.group[x] != root && h.group[x] != root
      {
        assert f.group[f.group[x]] == f.group[x] && h.group[h.group[x]] == h.group[x];
      }
    }
  }

  lemma SameOrder(t: RelationTable, f: Forest, h: Forest, root: nat, a: seq<nat>, aVia: seq<nat>, b: seq<nat>,
                  bVia: seq<nat>)
    requires t.Valid() && Agree(f, h, root) && GroupOf(t, f, root, a, aVia) && GroupOf(t, h, root, b, bVia)
    ensures a == b && |aVia| == |bVia| == |a| && forall i :: 0 < i < |a| ==> aVia[i] == bVia[i]
  {
    GroupStarts(t, f, root, a, aVia);
    GroupStarts(t, h, root, b, bVia);
    hide RelationTable.Value, GroupOf, Agree;
    AgreeFlips(f, h, root);
    SamePrefix(t, f, h, root, a, aVia, b, bVia, |a|);
    SamePrefix(t, h, f, root, b, bVia, a, aVia, |b|);
    assert a[..|a|] == a && b[..|b|] == b;
    forall i | 0 < i < |a|
      ensures aVia[i] == bVia[i]
    {
      assert aVia[1..|a|][i - 1] == bVia[1..|a|][i - 1];
    }
  }

  lemma {:induction false} AgreeUpTo(t: RelationTable, f: Forest, h: Forest, root: nat)
    requires t.Valid() && f.Shaped(|f.group|) && h.Shaped(|f.group|) && root <= |f.group|
    requires GrownInOrder(t, f) && GrownInOrder(t, h)
    ensures Agree(f, h, root)
  {
    hide RelationTable.Value, Grouped;
    if root > 0 {
      AgreeUpTo(t, f, h, root - 1);
      AgreeStep(t, f, h, root - 1);
    }
  }

  /** Being grown in order determines the forest: it holds of the built one and of no other. */
  lemma BuildExactly(t: RelationTable, count: nat, f: Forest)
    requires t.Valid() && f.Shaped(count)
    ensures GrownInOrder(t, f) <==> f == Build(t, count)
  {
    hide RelationTable.Value, Grouped, Build;
    BuildIsGrownInOrder(t, count);
    if GrownInOrder(t, f) {
      var h := Build(t, count);
      AgreeUpTo(t, f, h, count);
      assert f.group == h.group && f.parent == h.parent;
    }
  }
}
