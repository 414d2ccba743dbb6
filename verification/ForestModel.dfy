/**
 The serialization forest: strong relations are followed depth first from ascending roots, weak ones attach directly to
 the root, and the relations that become parent links are the ones persisted.
 */
module ForestModel {
  import opened Wrappers
  import opened Bytes
  import opened Relations

  /** Group root and parent of every sample; -1 stands for none. */
  datatype Forest = Forest(group: seq<int>, parent: seq<int>) {
    ghost predicate Shaped(count: nat) {
      |group| == |parent| == count
    }
  }

  datatype Selected = Selected(high: nat, low: nat, index: nat, record: PairRelation)

  ghost function Unassigned(f: Forest): set<nat> {
    set x: nat | x < |f.group| && f.group[x] == -1
  }

  function Assign(f: Forest, x: nat, root: nat, parent: int): Forest
    requires f.Shaped(|f.group|) && x < |f.group|
  {
    Forest(f.group[x := root], f.parent[x := parent])
  }

  lemma AssignOne(f: Forest, x: nat, root: nat, parent: int)
    requires f.Shaped(|f.group|) && x < |f.group| && f.group[x] == -1
    ensures |Unassigned(Assign(f, x, root, parent))| == |Unassigned(f)| - 1
  {
    assert Unassigned(Assign(f, x, root, parent)) == Unassigned(f) - {x};
  }

  /** Scans the candidates below `left`, from the top down, for strong relations to `current`. */
  function StrongScan(t: RelationTable, f: Forest, root: nat, current: nat, left: nat, stack: seq<nat>)
    : (r: (Forest, seq<nat>))
    requires t.Valid() && f.Shaped(|f.group|) && left <= |f.group| && current < |f.group|
    requires forall x <- stack :: x < |f.group|
    ensures r.0.Shaped(|f.group|) && forall x <- r.1 :: x < |f.group|
    ensures |Unassigned(r.0)| + |r.1| == |Unassigned(f)| + |stack|
    decreases left
  {
    hide RowBase, PairIndex, Unassigned;
    if left == 0 then (f, stack)
    else
      var c := left - 1;
      if c == current || f.group[c] != -1 || t.Value(current, c) <= 2 then StrongScan(t, f, root, current, c, stack)
      else
        AssignOne(f, c, root, current);
        StrongScan(t, Assign(f, c, root, current), root, current, c, stack + [c])
  }

  /** Depth-first growth of the group of `root`; the last pushed sample is expanded first. */
  function Grow(t: RelationTable, f: Forest, root: nat, stack: seq<nat>): (r: Forest)
    requires t.Valid() && f.Shaped(|f.group|) && forall x <- stack :: x < |f.group|
    ensures r.Shaped(|f.group|)
    decreases |Unassigned(f)| + |stack|
  {
    if stack == [] then f
    else
      var top := |stack| - 1;
      assert stack[top] in stack && forall x <- stack[..top] :: x in stack;
      var (g, s) := StrongScan(t, f, root, stack[top], |f.group|, stack[..top]);
      Grow(t, g, root, s)
  }

  /** Attaches the candidates from `candidate` on that have a non-negative relation to the root. */
  function WeakScan(t: RelationTable, f: Forest, root: nat, candidate: nat): (r: Forest)
    requires t.Valid() && f.Shaped(|f.group|) && candidate <= |f.group|
    ensures r.Shaped(|f.group|)
    decreases |f.group| - candidate
  {
    if candidate == |f.group| then f
    else if candidate == root || f.group[candidate] != -1 || t.Value(root, candidate) < 0 then
      WeakScan(t, f, root, candidate + 1)
    else WeakScan(t, Assign(f, candidate, root, root), root, candidate + 1)
  }

  /** The group founded by an unassigned sample. */
  function Found(t: RelationTable, f: Forest, root: nat): (r: Forest)
    requires t.Valid() && f.Shaped(|f.group|) && root < |f.group|
    ensures r.Shaped(|f.group|)
  {
    WeakScan(t, Grow(t, Assign(f, root, root, -1), root, [root]), root, 0)
  }

  function BuildFrom(t: RelationTable, f: Forest, root: nat): (r: Forest)
    requires t.Valid() && f.Shaped(|f.group|) && root <= |f.group|
    ensures r.Shaped(|f.group|)
    decreases |f.group| - root
  {
    hide Found;
    if root == |f.group| then f
    else BuildFrom(t, if f.group[root] != -1 then f else Found(t, f, root), root + 1)
  }

  function Build(t: RelationTable, count: nat): (r: Forest)
    requires t.Valid()
    ensures r.Shaped(count)
  {
    BuildFrom(t, Forest(seq(count, _ => -1), seq(count, _ => -1)), 0)
  }

  /** Whether one of the two samples is the parent of the other. */
  predicate Linked(f: Forest, high: nat, low: nat)
    requires f.Shaped(|f.group|) && high < |f.group| && low < |f.group|
  {
    f.parent[high] == low || f.parent[low] == high
  }

  /** The check the encoder applies to a pair before emitting its record. */
  predicate Emitted(t: RelationTable, f: Forest, high: nat, low: nat)
    requires t.Valid() && f.Shaped(|f.group|) && high < |f.group| && low < |f.group|
  {
    && Linked(f, high, low)
    && !(f.group[high] == high && f.group[low] == low)
    && t.Record(high, low).Some? && t.Record(high, low).value.value >= 0
  }

  /** The emitted records of the pairs from (`high`, `low`) on, row by row. */
  function SelectFrom(t: RelationTable, f: Forest, high: nat, low: nat): seq<Selected>
    requires t.Valid() && f.Shaped(|f.group|) && low <= high
    decreases |f.group| - high, high - low
  {
    if high >= |f.group| then []
    else if low == high then SelectFrom(t, f, high + 1, 0)
    else if Emitted(t, f, high, low) then
      [Selected(high, low, RowBase(high) + low, t.Record(high, low).value)] + SelectFrom(t, f, high, low + 1)
    else SelectFrom(t, f, high, low + 1)
  }

  function Select(t: RelationTable, count: nat): seq<Selected>
    requires t.Valid()
  {
    SelectFrom(t, Build(t, count), 1, 0)
  }
}
