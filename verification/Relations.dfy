/**
 The triangular table of pair relations and its directional access.  One record is kept per unordered pair of
 samples; it stores the transform from the higher to the lower sample index.
 */
module Relations {
  import opened Wrappers
  import opened Bytes

  /** A Q8 affine map `[a, b, tx, c, d, ty]`. */
  datatype Affine = Affine(a: I32, b: I32, tx: I32, c: I32, d: I32, ty: I32)

  const IDENTITY := Affine(0x100, 0, 0, 0, 0x100, 0)

  /** The two fixed-point operations on transforms; their rounding is a parameter of the model. */
  datatype AffineOps = AffineOps(compose: (Affine, Affine) -> Affine, inverse: Affine -> Affine)

  datatype PairRelation = PairRelation(value: I32, higherToLower: Affine)

  const ABSENT := PairRelation(-1, IDENTITY)

  /** The number of pairs below row `high`, i.e. the index of the first record of that row. */
  function RowBase(high: nat): nat {
    high * (high - 1) / 2
  }

  lemma RowBaseStep(high: nat)
    ensures RowBase(high + 1) == RowBase(high) + high
  {
    assert (high + 1) * high == high * (high - 1) + 2 * high;
  }

  lemma {:induction false} RowBaseMonotone(lo: nat, hi: nat)
    requires lo <= hi
    ensures RowBase(lo) <= RowBase(hi)
    decreases hi - lo
  {
    if lo < hi {
      RowBaseStep(lo);
      RowBaseMonotone(lo + 1, hi);
    }
  }

  /** The triangular index of an unordered pair. */
  function PairIndex(a: nat, b: nat): (index: nat)
    requires a != b
  {
    if a > b then RowBase(a) + b else RowBase(b) + a
  }

  lemma RowsAreDisjoint(h1: nat, l1: nat, h2: nat, l2: nat)
    requires l1 < h1 && l2 < h2
    requires RowBase(h1) + l1 == RowBase(h2) + l2
    ensures h1 == h2 && l1 == l2
  {
    RowBaseStep(h1);
    RowBaseStep(h2);
    if h1 < h2 {
      RowBaseMonotone(h1 + 1, h2);
    } else if h2 < h1 {
      RowBaseMonotone(h2 + 1, h1);
    }
  }

  /** Different pairs never share a record. */
  lemma PairIndexInjective(a: nat, b: nat, c: nat, d: nat)
    requires a != b && c != d
    ensures PairIndex(a, b) == PairIndex(c, d) <==> (a == c && b == d) || (a == d && b == c)
  {
    if PairIndex(a, b) == PairIndex(c, d) {
      RowsAreDisjoint(if a > b then a else b, if a > b then b else a, if c > d then c else d, if c > d then d else c);
    }
  }

  lemma PairIndexBound(a: nat, b: nat, count: nat)
    requires a != b && a < count && b < count
    ensures PairIndex(a, b) < RowBase(count)
  {
    var high := if a > b then a else b;
    RowBaseStep(high);
    RowBaseMonotone(high + 1, count);
  }

  /** A table for `capacity` samples holds one record for every pair. */
  datatype RelationTable = RelationTable(capacity: nat, records: seq<PairRelation>) {

    ghost predicate Valid() {
      |records| == RowBase(capacity)
    }

    /** The record of a pair, or nothing when the pair does not exist in the table. */
    function Record(a: nat, b: nat): Option<PairRelation>
      requires Valid()
    {
      if a == b || a >= capacity || b >= capacity then None
      else
        PairIndexBound(a, b, capacity);
        Some(records[PairIndex(a, b)])
    }

    /** Overwrites the record of a pair; a pair outside the table leaves it unchanged. */
    function Set(a: nat, b: nat, relation: PairRelation): (t: RelationTable)
      requires Valid()
      ensures t.Valid() && t.capacity == capacity
    {
      if a == b || a >= capacity || b >= capacity then this
      else
        PairIndexBound(a, b, capacity);
        this.(records := records[PairIndex(a, b) := relation])
    }

    /** The relation value of a pair; an absent pair reads as -1. */
    function Value(a: nat, b: nat): int
      requires Valid()
    {
      var record := Record(a, b);
      if record.Some? then record.value.value else -1
    }

    /** Reads the transform `source -> target`, inverting it when the pair is stored the other way round. */
    function Read(ops: AffineOps, source: nat, target: nat): Option<(I32, Affine)>
      requires Valid()
    {
      var record := Record(target, source);
      if record.None? then None
      else
        var stored := record.value.higherToLower;
        Some((record.value.value, if source > target then stored else ops.inverse(stored)))
    }

    /** Writes a `source -> target` transform in the direction the table stores. */
    function Write(ops: AffineOps, source: nat, target: nat, value: I32, transform: Affine): (t: RelationTable)
      requires Valid()
      ensures t.Valid() && t.capacity == capacity
    {
      Set(source, target, PairRelation(value, if source > target then transform else ops.inverse(transform)))
    }
  }

  function EmptyTable(capacity: nat): (t: RelationTable)
    ensures t.Valid()
  {
    RelationTable(capacity, seq(RowBase(capacity), _ => ABSENT))
  }

  predicate SamePair(a: nat, b: nat, c: nat, d: nat) {
    (a == c && b == d) || (a == d && b == c)
  }

  /** A write is seen by reads of the same pair, in either order, and by no others. */
  lemma SetFrame(t: RelationTable, a: nat, b: nat, relation: PairRelation, c: nat, d: nat)
    requires t.Valid() && a != b && a < t.capacity && b < t.capacity
    ensures t.Set(a, b, relation).Record(c, d) == if SamePair(a, b, c, d) then Some(relation) else t.Record(c, d)
  {
    PairIndexBound(a, b, t.capacity);
    if c != d && c < t.capacity && d < t.capacity {
      PairIndexBound(c, d, t.capacity);
      PairIndexInjective(a, b, c, d);
    }
  }

  /** The record at triangular position `index`, scanning rows from `high`. */
  function FindRow(index: nat, high: nat, count: nat): (r: Option<(nat, nat)>)
    requires RowBase(high) <= index
    ensures r.Some? ==> r.value.1 < r.value.0 < count && PairIndex(r.value.0, r.value.1) == index
    decreases count - high
  {
    if high >= count then None
    else if index < RowBase(high + 1) then
      RowBaseStep(high);
      Some((high, index - RowBase(high)))
    else FindRow(index, high + 1, count)
  }

  /** The pair stored at a triangular index of a table for `count` samples. */
  function RelationIndices(index: nat, count: nat): Option<(nat, nat)> {
    FindRow(index, 1, count)
  }

  lemma {:induction false} FindRowFinds(index: nat, high: nat, count: nat, h: nat, l: nat)
    requires RowBase(high) <= index && l < h < count && index == RowBase(h) + l && high <= h
    ensures FindRow(index, high, count) == Some((h, l))
    decreases h - high
  {
    RowBaseStep(h);
    if high < h {
      RowBaseMonotone(high + 1, h);
      FindRowFinds(index, high + 1, count, h, l);
    }
  }

  /** Decoding a triangular index inverts computing it, and succeeds exactly below the table size. */
  lemma RelationIndicesInvert(index: nat, count: nat)
    ensures RelationIndices(index, count).Some? <==> index < RowBase(count)
    ensures forall h: nat, l: nat :: l < h < count && PairIndex(h, l) == index ==> RelationIndices(index, count) == Some((h, l))
  {
    forall h: nat, l: nat | l < h < count && PairIndex(h, l) == index
      ensures RelationIndices(index, count) == Some((h, l))
    {
      FindRowFinds(index, 1, count, h, l);
    }
    if index < RowBase(count) {
      var h := RowOf(index, count);
      assert PairIndex(h, index - RowBase(h)) == index;
    }
    if RelationIndices(index, count).Some? {
      var (h, l) := RelationIndices(index, count).value;
      PairIndexBound(h, l, count);
    }
  }

  lemma {:induction false} RowOf(index: nat, count: nat) returns (h: nat)
    requires index < RowBase(count)
    ensures RowBase(h) <= index < RowBase(h) + h && h < count
  {
    var below: nat := count - 1;
    RowBaseStep(below);
    if RowBase(below) <= index {
      h := below;
    } else {
      h := RowOf(index, below);
    }
  }

  /** The table cursor kept for `sampleCount` retained samples: one sentinel plus every pair. */
  function RelationTableCursor(sampleCount: nat): nat {
    if sampleCount == 0 then 0 else 1 + sampleCount * (sampleCount - 1) / 2
  }

  /** The pairs of the first `count` samples. */
  ghost function Pairs(count: nat): set<(nat, nat)> {
    set high: nat, low: nat | low < high < count :: (high, low)
  }

  ghost function Row(high: nat, end: nat): set<(nat, nat)> {
    set low: nat | low < end :: (high, low)
  }

  lemma {:induction false} RowSize(high: nat, end: nat)
    ensures |Row(high, end)| == end
  {
    if end > 0 {
      RowSize(high, end - 1);
      assert Row(high, end) == Row(high, end - 1) + {(high, end - 1)};
    } else {
      assert Row(high, end) == {};
    }
  }

  /** There are as many records as pairs. */
  lemma {:induction false} RecordsArePairs(count: nat)
    ensures |Pairs(count)| == RowBase(count)
  {
    if count > 0 {
      var last: nat := count - 1;
      RecordsArePairs(last);
      RowSize(last, last);
      RowBaseStep(last);
      assert Pairs(count) == Pairs(last) + Row(last, last);
    } else {
      assert Pairs(0) == {};
    }
  }

  /** The records start at 0 with the pair (1, 0) and run through the lower samples of each row, row by row, without gaps. */
  lemma PairsInOrder(a: nat, b: nat)
    requires b < a
    ensures PairIndex(1, 0) == 0 && PairIndex(b, a) == PairIndex(a, b)
    ensures b + 1 < a ==> PairIndex(a, b + 1) == PairIndex(a, b) + 1
    ensures b + 1 == a ==> PairIndex(a + 1, 0) == PairIndex(a, b) + 1
  {
    RowBaseStep(a);
  }

  /** The cursor is 0 for no samples and otherwise one more than the number of pairs: 0, 1, 2, 4, 7, 11, 16, ... */
  lemma CursorCounts(count: nat)
    ensures RelationTableCursor(0) == 0 && RelationTableCursor(1) == 1
    ensures count > 0 ==> RelationTableCursor(count) == 1 + |Pairs(count)|
    ensures count > 0 ==> RelationTableCursor(count + 1) == RelationTableCursor(count) + count
  {
    RecordsArePairs(count);
    RowBaseStep(count);
  }
}
