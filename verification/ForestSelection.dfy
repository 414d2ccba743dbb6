/** The emitted relation records are exactly the parent links of the forest, and the loops that compute them. */
module ForestSelection {
  import opened Wrappers
  import opened Arithmetic
  import opened Bytes
  import opened Relations
  import opened ForestModel
  import opened ForestProofs

  /** A parent link is never a pair of roots and never lacks a usable record: both checks of the encoder are dead. */
  lemma EmittedIsLinked(t: RelationTable, f: Forest, high: nat, low: nat)
    requires t.Valid() && Sound(t, f) && (forall x: nat :: x < |f.group| ==> f.group[x] != -1) && low < high < |f.group|
    ensures Emitted(t, f, high, low) <==> Linked(f, high, low)
  {
    assert Slot(t, f, high) && Slot(t, f, low);
    if Linked(f, high, low) {
      ValueSymmetric(t, high, low);
    }
  }

  /** A selected entry as the decoder expects it. */
  ghost predicate Entry(t: RelationTable, f: Forest, s: Selected)
    requires t.Valid() && f.Shaped(|f.group|)
  {
    && s.low < s.high < |f.group| && Linked(f, s.high, s.low)
    && s.index == PairIndex(s.high, s.low)
    && t.Record(s.high, s.low) == Some(s.record) && s.record.value >= 0
  }

  ghost predicate Ascending(s: seq<Selected>) {
    forall i, j :: 0 <= i < j < |s| ==> s[i].index < s[j].index
  }

  ghost predicate Lists(s: seq<Selected>, high: nat, low: nat) {
    exists i :: 0 <= i < |s| && s[i].high == high && s[i].low == low
  }

  ghost predicate Assigned(f: Forest) {
    f.Shaped(|f.group|) && forall x: nat :: x < |f.group| ==> f.group[x] != -1
  }

  /** The rest of the list from (`high`, `low`) on. */
  ghost predicate Selects(t: RelationTable, f: Forest, s: seq<Selected>, high: nat, low: nat)
    requires t.Valid() && f.Shaped(|f.group|)
  {
    && (forall e <- s :: Entry(t, f, e) && e.index >= RowBase(high) + low)
    && Ascending(s)
    && (forall h: nat, l: nat :: l < h < |f.group| && (h > high || (h == high && l >= low)) && Linked(f, h, l) ==>
          Lists(s, h, l))
  }

  lemma {:induction false} SelectFromSelects(t: RelationTable, f: Forest, high: nat, low: nat)
    requires t.Valid() && Sound(t, f) && Assigned(f) && low <= high
    ensures Selects(t, f, SelectFrom(t, f, high, low), high, low)
    decreases |f.group| - high, high - low
  {
    hide RowBase, PairIndex, Sound, Linked, RelationTable.Record, Emitted;
    if high < |f.group| {
      if low == high {
        SelectFromSelects(t, f, high + 1, 0);
        RowBaseStep(high);
      } else {
        SelectFromSelects(t, f, high, low + 1);
        EmittedIsLinked(t, f, high, low);
        var rest := SelectFrom(t, f, high, low + 1);
        if Emitted(t, f, high, low) {
          EmittedEntry(t, f, high, low);
          var e := Selected(high, low, RowBase(high) + low, t.Record(high, low).value);
          Prepends(t, f, e, rest, high, low);
        }
      }
    }
  }

  lemma EmittedEntry(t: RelationTable, f: Forest, high: nat, low: nat)
    requires t.Valid() && f.Shaped(|f.group|) && low < high < |f.group| && Emitted(t, f, high, low)
    ensures t.Record(high, low).Some?
    ensures Entry(t, f, Selected(high, low, RowBase(high) + low, t.Record(high, low).value))
  {}

  lemma Prepends(t: RelationTable, f: Forest, e: Selected, rest: seq<Selected>, high: nat, low: nat)
    requires t.Valid() && f.Shaped(|f.group|) && low < high < |f.group|
    requires Entry(t, f, e) && e.high == high && e.low == low && e.index == RowBase(high) + low
    requires Selects(t, f, rest, high, low + 1)
    ensures Selects(t, f, [e] + rest, high, low)
  {
    hide RowBase, PairIndex, Linked, RelationTable.Record, Entry;
    var s := [e] + rest;
    assert forall i :: 0 < i < |s| ==> s[i] == rest[i - 1] && s[i] in rest;
    forall h: nat, l: nat | l < h < |f.group| && (h > high || (h == high && l >= low)) && Linked(f, h, l)
      ensures Lists(s, h, l)
    {
      if h == high && l == low {
        assert s[0].high == h && s[0].low == l;
      } else {
        assert Lists(rest, h, l);
        var i :| 0 <= i < |rest| && rest[i].high == h && rest[i].low == l;
        assert s[i + 1] == rest[i];
      }
    }
  }

  /**
   The selected records are exactly the parent links, each with its own triangular index, in strictly ascending order
   and with non-negative values.
   */
  lemma SelectionIsTheParentLinks(t: RelationTable, count: nat)
    requires t.Valid()
    ensures var f, s := Build(t, count), Select(t, count);
      && (forall e <- s :: Entry(t, f, e))
      && Ascending(s)
      && (forall high: nat, low: nat :: low < high < count && Linked(f, high, low) ==> Lists(s, high, low))
      && (forall high: nat, low: nat :: low < high < count ==> (Lists(s, high, low) <==> f.parent[high] == low || f.parent[low] == high))
      && (forall i: nat :: i < |s| ==> RecordOf(t, s[i]))
  {
    hide Build, SelectFrom, Entry, Linked, RelationTable.Record;
    BuildBetween(t, count);
    SelectFromSelects(t, Build(t, count), 1, 0);
    assert RowBase(1) == 0;
    var f, s := Build(t, count), Select(t, count);
    forall high: nat, low: nat | low < high < count
      ensures Linked(f, high, low) <==> f.parent[high] == low || f.parent[low] == high
      ensures Lists(s, high, low) ==> Linked(f, high, low)
    {
      LinkedIs(f, high, low);
      if Lists(s, high, low) {
        var i :| 0 <= i < |s| && s[i].high == high && s[i].low == low;
        assert s[i] in s;
        EntryIs(t, f, s[i]);
      }
    }
    forall i: nat | i < |s|
      ensures RecordOf(t, s[i])
    {
      assert s[i] in s;
      EntryIs(t, f, s[i]);
    }
  }

  /** The record of the pair, with its triangular index. */
  ghost predicate RecordOf(t: RelationTable, s: Selected)
    requires t.Valid()
  {
    s.low < s.high && s.index == s.high * (s.high - 1) / 2 + s.low && t.Record(s.high, s.low) == Some(s.record)
  }

  lemma LinkedIs(f: Forest, high: nat, low: nat)
    requires f.Shaped(|f.group|) && high < |f.group| && low < |f.group|
    ensures Linked(f, high, low) <==> f.parent[high] == low || f.parent[low] == high
  {}

  lemma EntryIs(t: RelationTable, f: Forest, s: Selected)
    requires t.Valid() && f.Shaped(|f.group|) && Entry(t, f, s)
    ensures RecordOf(t, s) && s.high < |f.group| && Linked(f, s.high, s.low)
  {}

  // ---- how many records -----------------------------------------------------------------------------------------

  ghost function Roots(f: Forest): set<nat> {
    set x: nat | x < |f.group| && f.group[x] == x
  }

  ghost function Children(f: Forest): set<nat> {
    set x: nat | x < |f.group| && f.group[x] != x
  }

  function Child(f: Forest, s: Selected): nat
    requires f.Shaped(|f.group|) && s.high < |f.group|
  {
    if f.parent[s.high] == s.low then s.high else s.low
  }

  function Kids(f: Forest, s: seq<Selected>): (kids: seq<nat>)
    requires f.Shaped(|f.group|) && forall e <- s :: e.high < |f.group|
    ensures |kids| == |s|
  {
    seq(|s|, i requires 0 <= i < |s| => Child(f, s[i]))
  }

  ghost function Elements(s: seq<nat>): set<nat> {
    set x | x in s
  }

  lemma {:induction false} DistinctCount(s: seq<nat>)
    requires forall i, j :: 0 <= i < j < |s| ==> s[i] != s[j]
    ensures |Elements(s)| == |s|
  {
    if s == [] {
      assert Elements(s) == {};
    } else {
      DistinctCount(s[1..]);
      assert Elements(s) == {s[0]} + Elements(s[1..]);
      assert s[0] !in s[1..];
    }
  }

  lemma RootsAndChildren(f: Forest)
    ensures |Roots(f)| + |Children(f)| == |f.group|
  {
    var all := seq(|f.group|, i => i);
    DistinctCount(all);
    forall x | x in Roots(f) + Children(f) ensures x in all { assert all[x] == x; }
    assert Elements(all) == Roots(f) + Children(f);
    assert Roots(f) !! Children(f);
  }

  /** The end of an entry that is not the parent's is the child it stands for. */
  lemma ChildOf(t: RelationTable, f: Forest, e: Selected)
    requires t.Valid() && Sound(t, f) && Entry(t, f, e)
    ensures Child(f, e) in Children(f) && 0 <= f.parent[Child(f, e)] < |f.group|
    ensures e.high == Max(Child(f, e), f.parent[Child(f, e)]) && e.low == Min(Child(f, e), f.parent[Child(f, e)])
  {
    assert Slot(t, f, e.high) && Slot(t, f, e.low);
  }

  lemma KidsDistinct(t: RelationTable, f: Forest, s: seq<Selected>)
    requires t.Valid() && f.Shaped(|f.group|) && Sound(t, f) && Ascending(s)
    requires forall e <- s :: e.high < |f.group| && Entry(t, f, e)
    ensures var kids := Kids(f, s); forall i, j :: 0 <= i < j < |s| ==> kids[i] != kids[j]
  {
    hide Sound, Linked, RelationTable.Record, PairIndex, Child;
    forall i, j | 0 <= i < j < |s| ensures Kids(f, s)[i] != Kids(f, s)[j] {
      ChildOf(t, f, s[i]);
      ChildOf(t, f, s[j]);
    }
  }

  lemma KidsAreChildren(t: RelationTable, f: Forest, s: seq<Selected>)
    requires t.Valid() && f.Shaped(|f.group|) && Sound(t, f) && Assigned(f)
    requires forall e <- s :: e.high < |f.group| && Entry(t, f, e)
    requires forall high: nat, low: nat :: low < high < |f.group| && Linked(f, high, low) ==> Lists(s, high, low)
    ensures Elements(Kids(f, s)) == Children(f)
  {
    hide RelationTable.Value, RelationTable.Record, PairIndex;
    var kids := Kids(f, s);
    forall x | x in kids ensures x in Children(f) {
      var i :| 0 <= i < |kids| && kids[i] == x;
      ChildOf(t, f, s[i]);
    }
    forall x | x in Children(f) ensures x in kids {
      assert Slot(t, f, x);
      var p: nat := f.parent[x];
      assert Slot(t, f, p);
      var rank :| Ranked(f, rank);
      var high: nat, low: nat := Max(x, p), Min(x, p);
      assert Linked(f, high, low) && Lists(s, high, low);
      var i :| 0 <= i < |s| && s[i].high == high && s[i].low == low;
      assert kids[i] == x;
    }
  }

  /** One record per sample that is not a root. */
  lemma OneRecordPerChild(t: RelationTable, count: nat)
    requires t.Valid()
    ensures |Select(t, count)| + |Roots(Build(t, count))| == count
  {
    hide Build, Select, Entry, Linked, RelationTable.Record, Sound, Kids, Roots, Children;
    var f, s := Build(t, count), Select(t, count);
    BuildBetween(t, count);
    SelectionIsTheParentLinks(t, count);
    EntriesInRange(t, f, s);
    KidsDistinct(t, f, s);
    KidsAreChildren(t, f, s);
    DistinctCount(Kids(f, s));
    RootsAndChildren(f);
  }

  lemma EntriesInRange(t: RelationTable, f: Forest, s: seq<Selected>)
    requires t.Valid() && f.Shaped(|f.group|) && forall e <- s :: Entry(t, f, e)
    ensures forall e <- s :: e.high < |f.group|
  {}

  // ---- the loops ------------------------------------------------------------------------------------------------

  function View(group: seq<int>, parent: seq<int>): Forest {
    Forest(group, parent)
  }

  method SelectPersistentRelations(t: RelationTable, count: nat) returns (selected: seq<Selected>)
    requires t.Valid()
    ensures selected == Select(t, count)
  {
    hide StrongScan, Grow, WeakScan, Emitted, RelationTable.Value, RelationTable.Record, RowBase;
    var group := new int[count](_ => -1);
    var parent := new int[count](_ => -1);
    assert View(group[..], parent[..]) == Forest(seq(count, _ => -1), seq(count, _ => -1));
    for root := 0 to count
      invariant BuildFrom(t, View(group[..], parent[..]), root) == Build(t, count)
    {
      if group[root] != -1 {
        continue;
      }
      ghost var before := View(group[..], parent[..]);
      group[root], parent[root] := root, -1;
      assert View(group[..], parent[..]) == Assign(before, root, root, -1);
      GrowGroup(t, root, group, parent);
      AttachWeak(t, root, group, parent);
      assert View(group[..], parent[..]) == Found(t, before, root);
    }
    selected := Emit(t, group, parent);
  }

  method GrowGroup(t: RelationTable, root: nat, group: array<int>, parent: array<int>)
    requires t.Valid() && group.Length == parent.Length && group != parent && root < group.Length
    modifies group, parent
    ensures View(group[..], parent[..]) == Grow(t, View(old(group[..]), old(parent[..])), root, [root])
  {
    hide StrongScan, RelationTable.Value, RelationTable.Record, Unassigned;
    var count := group.Length;
    var stack: seq<nat> := [root];
    while stack != []
      invariant forall x <- stack :: x < count
      invariant Grow(t, View(group[..], parent[..]), root, stack)
        == Grow(t, View(old(group[..]), old(parent[..])), root, [root])
      decreases |Unassigned(View(group[..], parent[..]))| + |stack|
    {
      var current := stack[|stack| - 1];
      assert current in stack;
      ghost var f, rest := View(group[..], parent[..]), stack[..|stack| - 1];
      assert forall x <- rest :: x in stack;
      stack := stack[..|stack| - 1];
      ghost var scanned := StrongScan(t, f, root, current, count, rest);
      stack := ScanStrong(t, root, current, stack, group, parent);
      assert (View(group[..], parent[..]), stack) == scanned;
    }
  }

  method ScanStrong(t: RelationTable, root: nat, current: nat, pending: seq<nat>, group: array<int>, parent: array<int>)
    returns (stack: seq<nat>)
    requires t.Valid() && group.Length == parent.Length && group != parent && current < group.Length
    requires forall x <- pending :: x < group.Length
    modifies group, parent
    ensures (View(group[..], parent[..]), stack)
      == StrongScan(t, View(old(group[..]), old(parent[..])), root, current, group.Length, pending)
  {
    hide RelationTable.Record, RelationTable.Value, Unassigned;
    stack := pending;
    var left: nat := group.Length;
    while left > 0
      invariant left <= group.Length && forall x <- stack :: x < group.Length
      invariant StrongScan(t, View(group[..], parent[..]), root, current, left, stack)
        == StrongScan(t, View(old(group[..]), old(parent[..])), root, current, group.Length, pending)
    {
      ghost var f := View(group[..], parent[..]);
      left := left - 1;
      if left == current || group[left] != -1 {
        continue;
      }
      ValueOfRecord(t, current, left);
      var record := t.Record(current, left);
      if record.None? {
        continue;
      }
      if record.value.value > 2 {
        group[left], parent[left] := root, current;
        stack := stack + [left];
        assert View(group[..], parent[..]) == Assign(f, left, root, current);
      }
    }
  }

  lemma ValueOfRecord(t: RelationTable, a: nat, b: nat)
    requires t.Valid()
    ensures t.Value(a, b) == if t.Record(a, b).Some? then t.Record(a, b).value.value else -1
  {}

  method AttachWeak(t: RelationTable, root: nat, group: array<int>, parent: array<int>)
    requires t.Valid() && group.Length == parent.Length && group != parent && root < group.Length
    modifies group, parent
    ensures View(group[..], parent[..]) == WeakScan(t, View(old(group[..]), old(parent[..])), root, 0)
  {
    hide RelationTable.Record, RelationTable.Value;
    for candidate := 0 to group.Length
      invariant WeakScan(t, View(group[..], parent[..]), root, candidate)
        == WeakScan(t, View(old(group[..]), old(parent[..])), root, 0)
    {
      ghost var f := View(group[..], parent[..]);
      if candidate == root || group[candidate] != -1 {
        continue;
      }
      ValueOfRecord(t, root, candidate);
      var record := t.Record(root, candidate);
      if record.None? {
        continue;
      }
      if record.value.value >= 0 {
        group[candidate], parent[candidate] := root, root;
        assert View(group[..], parent[..]) == Assign(f, candidate, root, root);
      }
    }
  }

  method Emit(t: RelationTable, group: array<int>, parent: array<int>) returns (selected: seq<Selected>)
    requires t.Valid() && group.Length == parent.Length
    ensures selected == SelectFrom(t, View(group[..], parent[..]), 1, 0)
  {
    hide RelationTable.Record, RowBase;
    ghost var f := View(group[..], parent[..]);
    var count := group.Length;
    selected := [];
    var high: nat := 1;
    while high < count
      invariant selected + SelectFrom(t, f, high, 0) == SelectFrom(t, f, 1, 0)
    {
      var low: nat := 0;
      while low < high
        invariant low <= high
        invariant selected + SelectFrom(t, f, high, low) == SelectFrom(t, f, 1, 0)
      {
        var connected := parent[high] == low || parent[low] == high;
        var bothRoots := group[high] == high && group[low] == low;
        var record := t.Record(high, low);
        if connected && !bothRoots && record.Some? && record.value.value >= 0 {
          var entry := Selected(high, low, RowBase(high) + low, record.value);
          assert SelectFrom(t, f, high, low) == [entry] + SelectFrom(t, f, high, low + 1);
          assert selected + ([entry] + SelectFrom(t, f, high, low + 1))
              == (selected + [entry]) + SelectFrom(t, f, high, low + 1);
          selected := selected + [entry];
        }
        low := low + 1;
      }
      high := high + 1;
    }
    assert selected + [] == selected;
  }
}
