/** The in-place partition that puts points of polarity class 0 in front of those of class 1. */
module FeaturePartition {
  import opened Bytes

  /** The class the partition looks at: the low two bits of the polarity. */
  function Class<T>(polarity: T -> U16, p: T): nat {
    polarity(p) % 4
  }

  /** The polarity producer is binary. */
  predicate Binary<T>(polarity: T -> U16, points: seq<T>) {
    forall i :: 0 <= i < |points| ==> Class(polarity, points[i]) <= 1
  }

  /** At most one point is of a class above 1. */
  predicate AtMostOneOther<T>(polarity: T -> U16, points: seq<T>) {
    forall i, j :: 0 <= i < j < |points| ==> Class(polarity, points[i]) <= 1 || Class(polarity, points[j]) <= 1
  }

  /** How many of the points are of class 0. */
  function ZeroCount<T>(polarity: T -> U16, points: seq<T>): (n: nat)
    ensures n <= |points|
    decreases |points|
  {
    if points == [] then 0
    else ZeroCount(polarity, points[..|points| - 1]) + if Class(polarity, points[|points| - 1]) == 0 then 1 else 0
  }

  /** All of class 0 before `boundary`, all of class 1 from there on. */
  predicate Split<T>(polarity: T -> U16, points: seq<T>, boundary: nat) {
    && boundary <= |points|
    && (forall i :: 0 <= i < boundary ==> Class(polarity, points[i]) == 0)
    && (forall i :: boundary <= i < |points| ==> Class(polarity, points[i]) == 1)
  }

  /** All of class 0 before `boundary`, none from there on. */
  predicate Divided<T>(polarity: T -> U16, points: seq<T>, boundary: nat) {
    && boundary <= |points|
    && (forall i :: 0 <= i < boundary ==> Class(polarity, points[i]) == 0)
    && (forall i :: boundary <= i < |points| ==> Class(polarity, points[i]) != 0)
  }

  /** A dividing point is the number of points of class 0. */
  lemma {:induction false} DividedCounts<T>(polarity: T -> U16, points: seq<T>, boundary: nat)
    requires Divided(polarity, points, boundary)
    ensures boundary == ZeroCount(polarity, points)
    decreases |points|
  {
    if points != [] {
      var front := points[..|points| - 1];
      DividedCounts(polarity, front, if boundary == |points| then boundary - 1 else boundary);
    }
  }

  /** Being binary depends only on which points there are, and turns a division into a split. */
  lemma BinarySplit<T>(polarity: T -> U16, points: seq<T>, original: seq<T>, boundary: nat)
    requires Divided(polarity, points, boundary) && Permutes(points, original) && Binary(polarity, original)
    ensures Split(polarity, points, boundary)
  {
    hide Class;
    forall i | 0 <= i < |points|
      ensures Class(polarity, points[i]) <= 1
    {
      assert points[i] in multiset(points) && points[i] in multiset(original);
    }
  }

  lemma {:induction false} ZeroCountOfParts<T>(polarity: T -> U16, a: seq<T>, b: seq<T>)
    ensures ZeroCount(polarity, a + b) == ZeroCount(polarity, a) + ZeroCount(polarity, b)
    decreases |b|
  {
    if b == [] {
      assert a + b == a;
    } else {
      var front := b[..|b| - 1];
      assert (a + b)[..|a + b| - 1] == a + front;
      ZeroCountOfParts(polarity, a, front);
    }
  }

  /** The sequence without its element `i`. */
  function Without<T>(s: seq<T>, i: nat): seq<T>
    requires i < |s|
  {
    s[..i] + s[i + 1..]
  }

  lemma RemoveCounts<T>(polarity: T -> U16, a: seq<T>, one: seq<T>, b: seq<T>)
    requires |one| == 1
    ensures ZeroCount(polarity, a + (one + b)) == ZeroCount(polarity, a + b) + if Class(polarity, one[0]) == 0 then 1 else 0
  {
    hide Class, ZeroCount;
    ZeroCountOfParts(polarity, a, one + b);
    ZeroCountOfParts(polarity, one, b);
    ZeroCountOfParts(polarity, a, b);
    ZeroCountOfOne(polarity, one);
  }

  lemma SplitAt<T>(s: seq<T>, i: nat)
    requires i < |s|
    ensures s == s[..i] + ([s[i]] + s[i + 1..])
  {}

  lemma WithoutCounts<T>(polarity: T -> U16, s: seq<T>, i: nat)
    requires i < |s|
    ensures ZeroCount(polarity, s) == ZeroCount(polarity, Without(s, i)) + if Class(polarity, s[i]) == 0 then 1 else 0
  {
    hide Class, ZeroCount;
    SplitAt(s, i);
    RemoveCounts(polarity, s[..i], [s[i]], s[i + 1..]);
  }

  lemma ZeroCountOfOne<T>(polarity: T -> U16, one: seq<T>)
    requires |one| == 1
    ensures ZeroCount(polarity, one) == if Class(polarity, one[0]) == 0 then 1 else 0
  {}

  lemma CancelOne<T>(a: multiset<T>, b: multiset<T>, x: T)
    requires a + multiset{x} == b + multiset{x}
    ensures a == b
  {
    assert a == a + multiset{x} - multiset{x};
  }

  lemma WithoutMultiset<T>(s: seq<T>, i: nat)
    requires i < |s|
    ensures multiset(s) == multiset(Without(s, i)) + multiset{s[i]}
  {
    assert s == s[..i] + [s[i]] + s[i + 1..];
  }

  /** Counting depends only on which points there are. */
  lemma {:induction false} ZeroCountOfPermutation<T>(polarity: T -> U16, a: seq<T>, b: seq<T>)
    requires multiset(a) == multiset(b)
    ensures ZeroCount(polarity, a) == ZeroCount(polarity, b)
    decreases |a|
  {
    hide ZeroCount, Without;
    if a == [] {
      assert |multiset(b)| == 0;
    } else {
      assert a[0] in multiset(b);
      var i :| 0 <= i < |b| && b[i] == a[0];
      WithoutMultiset(a, 0);
      WithoutMultiset(b, i);
      WithoutCounts(polarity, a, 0);
      WithoutCounts(polarity, b, i);
      CancelOne(multiset(Without(a, 0)), multiset(Without(b, i)), a[0]);
      assert |multiset(a)| == |multiset(Without(a, 0))| + 1;
      ZeroCountOfPermutation(polarity, Without(a, 0), Without(b, i));
    }
  }

  /** The state between the two cursors: class 0 in front of them, class 1 behind them. */
  ghost predicate Arranged<T>(polarity: T -> U16, points: seq<T>, front: nat, back: nat) {
    && front <= back < |points| && AtMostOneOther(polarity, points)
    && (forall i :: 0 <= i < front ==> Class(polarity, points[i]) == 0)
    && (forall i :: back < i < |points| ==> Class(polarity, points[i]) == 1)
  }

  ghost predicate Permutes<T>(a: seq<T>, b: seq<T>) {
    multiset(a) == multiset(b)
  }

  lemma ArrangedStep<T>(polarity: T -> U16, points: seq<T>, front: nat, back: nat)
    requires Arranged(polarity, points, front, back) && front < back
    ensures Class(polarity, points[front]) == 0 ==> Arranged(polarity, points, front + 1, back)
    ensures Class(polarity, points[back]) == 1 ==> Arranged(polarity, points, front, back - 1)
  {}

  lemma SwapArranged<T>(polarity: T -> U16, a: seq<T>, b: seq<T>, i: nat, j: nat)
    requires Arranged(polarity, a, i, j) && i < j && b == a[i := a[j]][j := a[i]]
    ensures Arranged(polarity, b, i, j) && Permutes(a, b)
  {
    hide Class;
    forall k, l | 0 <= k < l < |b|
      ensures Class(polarity, b[k]) <= 1 || Class(polarity, b[l]) <= 1
    {
      var k', l' := Swapped(i, j, k), Swapped(i, j, l);
      assert b[k] == a[k'] && b[l] == a[l'] && k' != l';
    }
  }

  /** Where the element that a swap of `i` and `j` brings to `k` comes from. */
  function Swapped(i: nat, j: nat, k: nat): nat {
    if k == i then j else if k == j then i else k
  }

  lemma Finish<T>(polarity: T -> U16, points: seq<T>, original: seq<T>, at: nat)
    requires Arranged(polarity, points, at, at) && Permutes(points, original)
    ensures var boundary := if Class(polarity, points[at]) == 0 then at + 1 else at;
      Divided(polarity, points, boundary) && boundary == ZeroCount(polarity, original)
  {
    DividedCounts(polarity, points, if Class(polarity, points[at]) == 0 then at + 1 else at);
    ZeroCountOfPermutation(polarity, points, original);
  }

  /**
   Two cursors close in on each other, swapping a pair that is the wrong way round and scanning again.  The loop ends
   when at most one point is of a class above 1, and by `EndsExactly` only then.
   */
  method PartitionBy<T>(points: array<T>, polarity: T -> U16) returns (boundary: nat)
    requires AtMostOneOther(polarity, points[..])
    modifies points
    ensures Permutes(points[..], old(points[..]))
    ensures Divided(polarity, points[..], boundary)
    ensures Binary(polarity, old(points[..])) ==> Split(polarity, points[..], boundary)
    ensures boundary == ZeroCount(polarity, old(points[..]))
  {
    if points.Length == 0 {
      return 0;
    }
    var front: nat, back: nat := 0, points.Length - 1;
    assert Arranged(polarity, points[..], front, back);
    hide Arranged, Permutes, Split, Divided, ZeroCount, Class, Binary, AtMostOneOther;
    boundary := 0;
    while true
      invariant front <= back < points.Length
      invariant Arranged(polarity, points[..], front, back) && Permutes(points[..], old(points[..]))
      decreases back - front, if Class(polarity, points[front]) == 0 || Class(polarity, points[back]) == 1 then 0 else 1
    {
      front := AdvanceFront(points, polarity, front, back);
      back := RetreatBack(points, polarity, front, back);
      OneOther(polarity, points[..], front, back);
      if front < back {
        ghost var before := points[..];
        points[front], points[back] := points[back], points[front];
        SwapArranged(polarity, before, points[..], front, back);
        PermutesTransitive(points[..], before, old(points[..]));
        continue;
      }
      Finish(polarity, points[..], old(points[..]), front);
      if Binary(polarity, old(points[..])) {
        BinarySplit(polarity, points[..], old(points[..]), if Class(polarity, points[front]) == 0 then front + 1 else front);
      }
      if Class(polarity, points[front]) == 0 {
        front := front + 1;
      }
      return front;
    }
  }

  /** Moves the front cursor over points of class 0. */
  method AdvanceFront<T>(points: array<T>, polarity: T -> U16, from: nat, back: nat) returns (front: nat)
    requires Arranged(polarity, points[..], from, back)
    ensures from <= front <= back && Arranged(polarity, points[..], front, back)
    ensures front == ScanFront(polarity, points[..], from, back) && (front == back || Class(polarity, points[front]) != 0)
  {
    hide Class, AtMostOneOther;
    front := from;
    while front < back && Class(polarity, points[front]) == 0
      invariant from <= front <= back && Arranged(polarity, points[..], front, back)
      invariant ScanFront(polarity, points[..], front, back) == ScanFront(polarity, points[..], from, back)
    {
      ArrangedStep(polarity, points[..], front, back);
      front := front + 1;
    }
  }

  /** Moves the back cursor over points of class 1. */
  method RetreatBack<T>(points: array<T>, polarity: T -> U16, front: nat, from: nat) returns (back: nat)
    requires Arranged(polarity, points[..], front, from)
    ensures front <= back <= from && Arranged(polarity, points[..], front, back)
    ensures back == ScanBack(polarity, points[..], front, from) && (front == back || Class(polarity, points[back]) != 1)
  {
    hide Class, AtMostOneOther;
    back := from;
    while front < back && Class(polarity, points[back]) == 1
      invariant front <= back <= from < points.Length && Arranged(polarity, points[..], front, back)
      invariant ScanBack(polarity, points[..], front, back) == ScanBack(polarity, points[..], front, from)
    {
      ArrangedStep(polarity, points[..], front, back);
      back := back - 1;
    }
  }

  lemma OneOther<T>(polarity: T -> U16, points: seq<T>, front: nat, back: nat)
    requires Arranged(polarity, points, front, back)
    ensures front < back ==> Class(polarity, points[front]) <= 1 || Class(polarity, points[back]) <= 1
  {}

  lemma PermutesTransitive<T>(a: seq<T>, b: seq<T>, c: seq<T>)
    requires Permutes(b, a) && Permutes(b, c)
    ensures Permutes(a, c)
  {}

  // ---- when the loop ends ---------------------------------------------------------------------------------------

  function ScanFront<T>(polarity: T -> U16, points: seq<T>, front: nat, back: nat): (f: nat)
    requires front <= back < |points|
    ensures front <= f <= back && (f < back ==> Class(polarity, points[f]) != 0)
    ensures forall i :: front <= i < f ==> Class(polarity, points[i]) == 0
    decreases back - front
  {
    if front < back && Class(polarity, points[front]) == 0 then ScanFront(polarity, points, front + 1, back) else front
  }

  function ScanBack<T>(polarity: T -> U16, points: seq<T>, front: nat, back: nat): (b: nat)
    requires front <= back < |points|
    ensures front <= b <= back && (front < b ==> Class(polarity, points[b]) != 1)
    ensures forall i :: b < i <= back ==> Class(polarity, points[i]) == 1
    decreases back - front
  {
    if front < back && Class(polarity, points[back]) == 1 then ScanBack(polarity, points, front, back - 1) else back
  }

  /** The state after one turn of the outer loop, and whether that was the last one. */
  datatype Turned<T> = Turned(points: seq<T>, front: nat, back: nat, done: bool)

  function Turn<T>(polarity: T -> U16, points: seq<T>, front: nat, back: nat): (t: Turned<T>)
    requires front <= back < |points|
    ensures front <= t.front <= t.back <= back && |t.points| == |points|
  {
    var f := ScanFront(polarity, points, front, back);
    var b := ScanBack(polarity, points, f, back);
    if f < b then Turned(points[f := points[b]][b := points[f]], f, b, false) else Turned(points, f, b, true)
  }

  /** The loop ends within that many turns. */
  predicate Ends<T>(polarity: T -> U16, points: seq<T>, front: nat, back: nat, turns: nat)
    requires front <= back < |points|
    decreases turns
  {
    turns > 0
    && var t := Turn(polarity, points, front, back);
       t.done || Ends(polarity, t.points, t.front, t.back, turns - 1)
  }

  /** Two points of classes above 1 between the cursors. */
  ghost predicate TwoOthers<T>(polarity: T -> U16, points: seq<T>, front: nat, back: nat) {
    exists i: nat, j: nat :: OthersAt(polarity, points, front, back, i, j)
  }

  predicate OthersAt<T>(polarity: T -> U16, points: seq<T>, front: nat, back: nat, i: nat, j: nat) {
    front <= i < j <= back < |points| && Class(polarity, points[i]) > 1 && Class(polarity, points[j]) > 1
  }

  /** They stop both scans, are never passed, and the loop goes on. */
  lemma TurnKeepsOthers<T>(polarity: T -> U16, points: seq<T>, front: nat, back: nat)
    requires front <= back < |points| && TwoOthers(polarity, points, front, back)
    ensures var t := Turn(polarity, points, front, back);
      !t.done && TwoOthers(polarity, t.points, t.front, t.back)
  {
    hide Class;
    var i: nat, j: nat :| OthersAt(polarity, points, front, back, i, j);
    var t := Turn(polarity, points, front, back);
    assert t.front <= i && j <= t.back;
    var i', j' := Swapped(t.front, t.back, i), Swapped(t.front, t.back, j);
    assert t.points[i'] == points[i] && t.points[j'] == points[j] && i' != j';
    if i' < j' {
      assert OthersAt(polarity, t.points, t.front, t.back, i', j');
    } else {
      assert OthersAt(polarity, t.points, t.front, t.back, j', i');
    }
  }

  lemma {:induction false} OthersNeverEnd<T>(polarity: T -> U16, points: seq<T>, front: nat, back: nat, turns: nat)
    requires front <= back < |points| && TwoOthers(polarity, points, front, back)
    ensures !Ends(polarity, points, front, back, turns)
    decreases turns
  {
    hide TwoOthers, Turn;
    if turns > 0 {
      TurnKeepsOthers(polarity, points, front, back);
      var t := Turn(polarity, points, front, back);
      OthersNeverEnd(polarity, t.points, t.front, t.back, turns - 1);
    }
  }

  /** Whether the next turn moves a cursor. */
  predicate Moves<T>(polarity: T -> U16, points: seq<T>, front: nat, back: nat)
    requires front <= back < |points|
  {
    Class(polarity, points[front]) == 0 || Class(polarity, points[back]) == 1
  }

  /** A turn that is not the last leaves a state whose next turn moves a cursor, and moved one itself if it could. */
  lemma TurnProgresses<T>(polarity: T -> U16, points: seq<T>, front: nat, back: nat)
    requires front <= back < |points| && AtMostOneOther(polarity, points)
    ensures var t := Turn(polarity, points, front, back);
      !t.done ==>
        && AtMostOneOther(polarity, t.points) && Moves(polarity, t.points, t.front, t.back)
        && (Moves(polarity, points, front, back) ==> t.back - t.front < back - front)
  {
    hide Class;
    var t := Turn(polarity, points, front, back);
    if !t.done {
      forall k, l | 0 <= k < l < |points|
        ensures Class(polarity, t.points[k]) <= 1 || Class(polarity, t.points[l]) <= 1
      {
        var k', l' := Swapped(t.front, t.back, k), Swapped(t.front, t.back, l);
        assert t.points[k] == points[k'] && t.points[l] == points[l'] && k' != l';
      }
      assert Class(polarity, points[t.front]) <= 1 || Class(polarity, points[t.back]) <= 1;
      SmallClasses(polarity, points[t.front]);
      SmallClasses(polarity, points[t.back]);
    }
  }

  lemma SmallClasses<T>(polarity: T -> U16, p: T)
    ensures Class(polarity, p) <= 1 ==> Class(polarity, p) == 0 || Class(polarity, p) == 1
  {}

  lemma {:induction false} LoopEnds<T>(polarity: T -> U16, points: seq<T>, front: nat, back: nat) returns (turns: nat)
    requires front <= back < |points| && AtMostOneOther(polarity, points)
    ensures Ends(polarity, points, front, back, turns)
    decreases back - front, if Moves(polarity, points, front, back) then 0 else 1
  {
    hide Turn, AtMostOneOther, Moves;
    TurnProgresses(polarity, points, front, back);
    var t := Turn(polarity, points, front, back);
    if t.done {
      turns := 1;
    } else {
      var later := LoopEnds(polarity, t.points, t.front, t.back);
      turns := later + 1;
    }
  }

  /** The whole loop ends within that many turns. */
  predicate LoopEndsIn<T>(polarity: T -> U16, points: seq<T>, turns: nat)
    requires points != []
  {
    Ends(polarity, points, 0, |points| - 1, turns)
  }

  /** The loop ends if and only if at most one point is of a class above 1. */
  lemma EndsExactly<T>(polarity: T -> U16, points: seq<T>)
    requires points != []
    ensures (exists turns: nat :: LoopEndsIn(polarity, points, turns)) <==> AtMostOneOther(polarity, points)
  {
    hide Class, Ends;
    if AtMostOneOther(polarity, points) {
      var turns := LoopEnds(polarity, points, 0, |points| - 1);
      assert LoopEndsIn(polarity, points, turns);
    } else {
      var i: nat, j: nat :| i < j < |points| && Class(polarity, points[i]) > 1 && Class(polarity, points[j]) > 1;
      assert OthersAt(polarity, points, 0, |points| - 1, i, j);
      forall turns: nat
        ensures !LoopEndsIn(polarity, points, turns)
      {
        OthersNeverEnd(polarity, points, 0, |points| - 1, turns);
      }
    }
  }
}
