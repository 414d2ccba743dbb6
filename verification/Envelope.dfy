/** The local bounds envelope of the preprocessing stage and the normalisation that divides by its width. */
module Envelope {
  import opened Arithmetic
  import opened Bytes

  const WIDTH := 80
  const HEIGHT := 64
  const PIXELS := 5120
  const RADIUS := 5
  const LOW_RANGE := 50

  function At(x: nat, y: nat): nat {
    WIDTH * y + x
  }

  /** Image coordinates of a pixel index. */
  lemma Coordinates(x: nat, y: nat)
    requires x < WIDTH && y < HEIGHT
    ensures At(x, y) < PIXELS && At(x, y) % WIDTH == x && At(x, y) / WIDTH == y
  {}

  predicate Image(s: seq<U16>) {
    |s| == PIXELS
  }

  // ---- extrema along one line -----------------------------------------------------------------------------------

  /** The window of radius 5 around a position of a line, clamped to the line. */
  function Low(c: nat): nat {
    if c < RADIUS then 0 else c - RADIUS
  }

  function High(c: nat, length: nat): nat
    requires length > 0
  {
    if c + RADIUS < length then c + RADIUS else length - 1
  }

  /** The pixel at distance `k` along a line through (`x`, `y`): a row when `along`, a column otherwise. */
  function OnLine(s: seq<U16>, along: bool, x: nat, y: nat, k: nat): U16
    requires Image(s) && x < WIDTH && y < HEIGHT && k < if along then WIDTH else HEIGHT
  {
    s[if along then At(k, y) else At(x, k)]
  }

  /** The minimum and maximum of the line's pixels from `from` up to `end`, starting from the neutral pair. */
  function LineExtrema(s: seq<U16>, along: bool, x: nat, y: nat, from: nat, end: nat): (r: (U16, U16))
    requires Image(s) && x < WIDTH && y < HEIGHT && from <= end <= if along then WIDTH else HEIGHT
    ensures forall k {:trigger OnLine(s, along, x, y, k)} :: from <= k < end ==> r.0 <= OnLine(s, along, x, y, k) <= r.1
    decreases end - from
  {
    if from == end then (0xffff, 0)
    else
      var front := LineExtrema(s, along, x, y, from, end - 1);
      var value := OnLine(s, along, x, y, end - 1);
      (Min(front.0, value), Max(front.1, value))
  }

  function Extrema(s: seq<U16>, along: bool, x: nat, y: nat): (U16, U16)
    requires Image(s) && x < WIDTH && y < HEIGHT
  {
    if along then LineExtrema(s, true, x, y, Low(x), High(x, WIDTH) + 1)
    else LineExtrema(s, false, x, y, Low(y), High(y, HEIGHT) + 1)
  }

  function ExtremaAt(s: seq<U16>, along: bool, i: nat): (U16, U16)
    requires Image(s) && i < PIXELS
  {
    Extrema(s, along, i % WIDTH, i / WIDTH)
  }

  // ---- the cross-shaped bounds and their refinement -------------------------------------------------------------

  function CrossUpper(s: seq<U16>, x: nat, y: nat): U16
    requires Image(s) && x < WIDTH && y < HEIGHT
  {
    Max(Extrema(s, true, x, y).1, Extrema(s, false, x, y).1)
  }

  function CrossLower(s: seq<U16>, x: nat, y: nat): U16
    requires Image(s) && x < WIDTH && y < HEIGHT
  {
    Min(Extrema(s, true, x, y).0, Extrema(s, false, x, y).0)
  }

  /** A pixel diagonal to (`x`, `y`), or that pixel itself where the image ends. */
  function Diagonal(b: seq<U16>, x: nat, y: nat, dx: int, dy: int): U16
    requires Image(b) && x < WIDTH && y < HEIGHT && -1 <= dx <= 1 && -1 <= dy <= 1
  {
    if 0 <= x + dx < WIDTH && 0 <= y + dy < HEIGHT then b[At(x + dx, y + dy)] else b[At(x, y)]
  }

  function RefinedUpper(b: seq<U16>, x: nat, y: nat): U16
    requires Image(b) && x < WIDTH && y < HEIGHT
  {
    Min(Min(Min(Min(b[At(x, y)], Diagonal(b, x, y, -1, -1)), Diagonal(b, x, y, 1, -1)), Diagonal(b, x, y, -1, 1)),
      Diagonal(b, x, y, 1, 1))
  }

  function RefinedLower(b: seq<U16>, x: nat, y: nat): U16
    requires Image(b) && x < WIDTH && y < HEIGHT
  {
    Max(Max(Max(Max(b[At(x, y)], Diagonal(b, x, y, -1, -1)), Diagonal(b, x, y, 1, -1)), Diagonal(b, x, y, -1, 1)),
      Diagonal(b, x, y, 1, 1))
  }

  /** The bounds of one pixel, computed from the smoothed image. */
  ghost predicate BoundsOf(s: seq<U16>, preUpper: seq<U16>, preLower: seq<U16>, upper: seq<U16>, lower: seq<U16>) {
    && Image(s) && Image(preUpper) && Image(preLower) && Image(upper) && Image(lower)
    && (forall x: nat, y: nat {:trigger At(x, y)} :: x < WIDTH && y < HEIGHT ==>
          && At(x, y) < PIXELS
          && preUpper[At(x, y)] == CrossUpper(s, x, y) && preLower[At(x, y)] == CrossLower(s, x, y)
          && upper[At(x, y)] == RefinedUpper(preUpper, x, y) && lower[At(x, y)] == RefinedLower(preLower, x, y))
  }

  /** Any cross lower bound is below any cross upper bound at most two columns and two rows away: the crosses meet. */
  lemma CrossesMeet(s: seq<U16>, x1: nat, y1: nat, x2: nat, y2: nat)
    requires Image(s) && x1 < WIDTH && x2 < WIDTH && y1 < HEIGHT && y2 < HEIGHT
    requires -RADIUS <= x1 - x2 <= RADIUS && -RADIUS <= y1 - y2 <= RADIUS
    ensures CrossLower(s, x1, y1) <= CrossUpper(s, x2, y2)
  {
    assert OnLine(s, false, x1, y1, y2) == OnLine(s, true, x2, y2, x1);
  }

  /** A refined lower bound is the cross lower bound of some pixel next to (`x`, `y`) or itself. */
  lemma LowerWitness(s: seq<U16>, preLower: seq<U16>, x: nat, y: nat) returns (px: nat, py: nat)
    requires Image(s) && Image(preLower) && x < WIDTH && y < HEIGHT
    requires forall x: nat, y: nat {:trigger At(x, y)} :: x < WIDTH && y < HEIGHT ==>
      At(x, y) < PIXELS && preLower[At(x, y)] == CrossLower(s, x, y)
    ensures px < WIDTH && py < HEIGHT && -1 <= px - x <= 1 && -1 <= py - y <= 1
    ensures RefinedLower(preLower, x, y) == CrossLower(s, px, py)
  {
    hide CrossLower;
    var value := RefinedLower(preLower, x, y);
    px, py := x, y;
    if value != preLower[At(x, y)] {
      var dx := if value == Diagonal(preLower, x, y, -1, -1) || value == Diagonal(preLower, x, y, -1, 1) then -1 else 1;
      var dy := if value == Diagonal(preLower, x, y, dx, -1) then -1 else 1;
      px, py := x + dx, y + dy;
    }
  }

  lemma UpperWitness(s: seq<U16>, preUpper: seq<U16>, x: nat, y: nat) returns (px: nat, py: nat)
    requires Image(s) && Image(preUpper) && x < WIDTH && y < HEIGHT
    requires forall x: nat, y: nat {:trigger At(x, y)} :: x < WIDTH && y < HEIGHT ==>
      At(x, y) < PIXELS && preUpper[At(x, y)] == CrossUpper(s, x, y)
    ensures px < WIDTH && py < HEIGHT && -1 <= px - x <= 1 && -1 <= py - y <= 1
    ensures RefinedUpper(preUpper, x, y) == CrossUpper(s, px, py)
  {
    hide CrossUpper, RefinedUpper;
    px, py := UpperReached(preUpper, x, y);
    assert preUpper[At(px, py)] == CrossUpper(s, px, py);
  }

  /** The envelope is never inverted, at any pixel of any image, borders included. */
  lemma NeverInverted(s: seq<U16>, preUpper: seq<U16>, preLower: seq<U16>, upper: seq<U16>, lower: seq<U16>, x: nat, y: nat)
    requires BoundsOf(s, preUpper, preLower, upper, lower) && x < WIDTH && y < HEIGHT
    ensures At(x, y) < PIXELS && lower[At(x, y)] <= upper[At(x, y)]
  {
    hide CrossLower, CrossUpper, RefinedLower, RefinedUpper;
    var lx, ly := LowerWitness(s, preLower, x, y);
    var ux, uy := UpperWitness(s, preUpper, x, y);
    CrossesMeet(s, lx, ly, ux, uy);
  }

  /** A pixel diagonally next to another one. */
  predicate Neighbour(x: nat, y: nat, nx: nat, ny: nat) {
    nx < WIDTH && ny < HEIGHT && (nx == x + 1 || nx == x - 1) && (ny == y + 1 || ny == y - 1)
  }

  /** A cross contains its own pixel. */
  lemma CrossHoldsPixel(s: seq<U16>, x: nat, y: nat)
    requires Image(s) && x < WIDTH && y < HEIGHT
    ensures At(x, y) < PIXELS && CrossUpper(s, x, y) >= s[At(x, y)]
  {
    Coordinates(x, y);
    assert OnLine(s, true, x, y, x) == s[At(x, y)];
  }

  /**
   The upper bound drops below the pixel itself if and only if the cross around some diagonal neighbour holds nothing as
   bright as the pixel.
   */
  lemma UpperDropsExactly(
    s: seq<U16>, preUpper: seq<U16>, preLower: seq<U16>, upper: seq<U16>, lower: seq<U16>, x: nat, y: nat)
    requires BoundsOf(s, preUpper, preLower, upper, lower) && x < WIDTH && y < HEIGHT
    ensures At(x, y) < PIXELS
    ensures upper[At(x, y)] < s[At(x, y)] <==>
      exists nx: nat, ny: nat :: Neighbour(x, y, nx, ny) && CrossUpper(s, nx, ny) < s[At(x, y)]
  {
    hide CrossUpper, CrossLower, RefinedLower, RefinedUpper;
    CrossHoldsPixel(s, x, y);
    var pixel := s[At(x, y)];
    if nx: nat, ny: nat :| Neighbour(x, y, nx, ny) && CrossUpper(s, nx, ny) < pixel {
      assert preUpper[At(nx, ny)] == CrossUpper(s, nx, ny);
      UpperAtMost(preUpper, x, y, nx, ny);
    }
    if upper[At(x, y)] < pixel {
      var nx, ny := UpperReached(preUpper, x, y);
      assert preUpper[At(nx, ny)] == CrossUpper(s, nx, ny) && preUpper[At(x, y)] == CrossUpper(s, x, y);
    }
  }

  lemma UpperAtMost(b: seq<U16>, x: nat, y: nat, nx: nat, ny: nat)
    requires Image(b) && x < WIDTH && y < HEIGHT && Neighbour(x, y, nx, ny)
    ensures At(nx, ny) < PIXELS && RefinedUpper(b, x, y) <= b[At(nx, ny)]
  {
    Coordinates(nx, ny);
    assert Diagonal(b, x, y, nx - x, ny - y) == b[At(nx, ny)];
  }

  /** The refined bound is the bound of the pixel itself or of a diagonal neighbour. */
  lemma UpperReached(b: seq<U16>, x: nat, y: nat) returns (nx: nat, ny: nat)
    requires Image(b) && x < WIDTH && y < HEIGHT
    ensures At(nx, ny) < PIXELS && RefinedUpper(b, x, y) == b[At(nx, ny)]
    ensures Neighbour(x, y, nx, ny) || (nx == x && ny == y)
  {
    Coordinates(x, y);
    var value := RefinedUpper(b, x, y);
    nx, ny := x, y;
    if value != b[At(x, y)] {
      var dx := if value == Diagonal(b, x, y, -1, -1) || value == Diagonal(b, x, y, -1, 1) then -1 else 1;
      var dy := if value == Diagonal(b, x, y, dx, -1) then -1 else 1;
      nx, ny := x + dx, y + dy;
      Coordinates(nx, ny);
    }
  }

  /** One bright pixel in a corner of a dark image. */
  function LonePixel(): (s: seq<U16>)
    ensures Image(s)
  {
    seq(PIXELS, i => if i == 0 then 1 else 0)
  }

  /** Its upper bound is 0, below the pixel. */
  lemma LonePixelDrops(preUpper: seq<U16>, preLower: seq<U16>, upper: seq<U16>, lower: seq<U16>)
    requires BoundsOf(LonePixel(), preUpper, preLower, upper, lower)
    ensures upper[0] < LonePixel()[0]
  {
    LoneCross();
    LoneCorner();
    hide CrossUpper, CrossLower, RefinedLower, RefinedUpper, LonePixel;
    UpperDropsExactly(LonePixel(), preUpper, preLower, upper, lower, 0, 0);
  }

  lemma LoneCorner()
    ensures Neighbour(0, 0, 1, 1) && At(0, 0) == 0 && LonePixel()[0] == 1
  {}

  lemma LoneCross()
    ensures CrossUpper(LonePixel(), 1, 1) == 0
  {
    hide CrossUpper;
    EmptyCross(LonePixel(), 1, 1);
  }

  /** A cross whose two windows are dark. */
  lemma EmptyCross(s: seq<U16>, x: nat, y: nat)
    requires Image(s) && x < WIDTH && y < HEIGHT
    requires forall k {:trigger OnLine(s, true, x, y, k)} :: Low(x) <= k <= High(x, WIDTH) ==> OnLine(s, true, x, y, k) == 0
    requires forall k {:trigger OnLine(s, false, x, y, k)} :: Low(y) <= k <= High(y, HEIGHT) ==> OnLine(s, false, x, y, k) == 0
    ensures CrossUpper(s, x, y) == 0
  {
    hide OnLine;
    FlatLine(s, true, x, y, Low(x), High(x, WIDTH) + 1);
    FlatLine(s, false, x, y, Low(y), High(y, HEIGHT) + 1);
  }

  lemma {:induction false} FlatLine(s: seq<U16>, along: bool, x: nat, y: nat, from: nat, end: nat)
    requires Image(s) && x < WIDTH && y < HEIGHT && from <= end <= if along then WIDTH else HEIGHT
    requires forall k {:trigger OnLine(s, along, x, y, k)} :: from <= k < end ==> OnLine(s, along, x, y, k) == 0
    ensures LineExtrema(s, along, x, y, from, end).1 == 0
    decreases end - from
  {
    if from < end {
      assert OnLine(s, along, x, y, end - 1) == 0;
      FlatLine(s, along, x, y, from, end - 1);
    }
  }

  // ---- what the bounds are --------------------------------------------------------------------------------------

  /** The pixels of the row and the column through (`x`, `y`) at most five away. */
  predicate InCross(x: nat, y: nat, a: nat, b: nat) {
    a < 80 && b < 64 && ((b == y && -5 <= a - x <= 5) || (a == x && -5 <= b - y <= 5))
  }

  ghost predicate IsCrossMaximum(s: seq<U16>, x: nat, y: nat, v: U16)
    requires Image(s)
  {
    && (forall a: nat, b: nat :: InCross(x, y, a, b) ==> s[80 * b + a] <= v)
    && exists a: nat, b: nat :: InCross(x, y, a, b) && s[80 * b + a] == v
  }

  ghost predicate IsCrossMinimum(s: seq<U16>, x: nat, y: nat, v: U16)
    requires Image(s)
  {
    && (forall a: nat, b: nat :: InCross(x, y, a, b) ==> v <= s[80 * b + a])
    && exists a: nat, b: nat :: InCross(x, y, a, b) && s[80 * b + a] == v
  }

  /** The pixel itself or one diagonally next to it. */
  predicate Near(x: nat, y: nat, a: nat, b: nat) {
    a < 80 && b < 64 && ((a == x && b == y) || ((a == x - 1 || a == x + 1) && (b == y - 1 || b == y + 1)))
  }

  /** The upper bound: the least of the cross maxima of the pixel and its diagonal neighbours. */
  ghost predicate IsUpperBound(s: seq<U16>, x: nat, y: nat, u: U16)
    requires Image(s)
  {
    && (forall a: nat, b: nat, v: U16 :: Near(x, y, a, b) && IsCrossMaximum(s, a, b, v) ==> u <= v)
    && exists a: nat, b: nat :: Near(x, y, a, b) && IsCrossMaximum(s, a, b, u)
  }

  /** The lower bound: the greatest of their cross minima. */
  ghost predicate IsLowerBound(s: seq<U16>, x: nat, y: nat, l: U16)
    requires Image(s)
  {
    && (forall a: nat, b: nat, v: U16 :: Near(x, y, a, b) && IsCrossMinimum(s, a, b, v) ==> v <= l)
    && exists a: nat, b: nat :: Near(x, y, a, b) && IsCrossMinimum(s, a, b, l)
  }

  /** The bounds of every pixel. */
  ghost predicate Enveloped(s: seq<U16>, upper: seq<U16>, lower: seq<U16>) {
    && Image(s) && Image(upper) && Image(lower)
    && forall x: nat, y: nat {:trigger At(x, y)} :: x < 80 && y < 64 ==>
      && At(x, y) == 80 * y + x
      && IsUpperBound(s, x, y, upper[80 * y + x]) && IsLowerBound(s, x, y, lower[80 * y + x])
  }

  lemma {:induction false} LineAttained(s: seq<U16>, along: bool, x: nat, y: nat, from: nat, end: nat)
    returns (k: nat, l: nat)
    requires Image(s) && x < WIDTH && y < HEIGHT && from < end <= if along then WIDTH else HEIGHT
    ensures from <= k < end && OnLine(s, along, x, y, k) == LineExtrema(s, along, x, y, from, end).0
    ensures from <= l < end && OnLine(s, along, x, y, l) == LineExtrema(s, along, x, y, from, end).1
    decreases end - from
  {
    hide OnLine;
    k, l := end - 1, end - 1;
    var value := OnLine(s, along, x, y, end - 1);
    if from < end - 1 {
      var front := LineExtrema(s, along, x, y, from, end - 1);
      var k1, l1 := LineAttained(s, along, x, y, from, end - 1);
      if front.0 <= value { k := k1; }
      if front.1 >= value { l := l1; }
    }
  }

  lemma CrossPixels(s: seq<U16>, x: nat, y: nat, a: nat, b: nat)
    requires Image(s) && x < WIDTH && y < HEIGHT && InCross(x, y, a, b)
    ensures 80 * b + a < PIXELS && CrossLower(s, x, y) <= s[80 * b + a] <= CrossUpper(s, x, y)
  {
    Coordinates(a, b);
    if b == y {
      assert OnLine(s, true, x, y, a) == s[At(a, b)];
    } else {
      assert OnLine(s, false, x, y, b) == s[At(a, b)];
    }
  }

  /** The cross bounds are the extrema of the cross. */
  lemma CrossIsExtreme(s: seq<U16>, x: nat, y: nat)
    requires Image(s) && x < WIDTH && y < HEIGHT
    ensures IsCrossMaximum(s, x, y, CrossUpper(s, x, y)) && IsCrossMinimum(s, x, y, CrossLower(s, x, y))
  {
    hide LineExtrema;
    forall a: nat, b: nat | InCross(x, y, a, b)
      ensures CrossLower(s, x, y) <= s[80 * b + a] <= CrossUpper(s, x, y)
    {
      CrossPixels(s, x, y, a, b);
    }
    var rowLow, rowHigh := LineAttained(s, true, x, y, Low(x), High(x, WIDTH) + 1);
    var columnLow, columnHigh := LineAttained(s, false, x, y, Low(y), High(y, HEIGHT) + 1);
    assert InCross(x, y, rowLow, y) && InCross(x, y, rowHigh, y) && InCross(x, y, x, columnLow) && InCross(x, y, x, columnHigh);
    assert OnLine(s, true, x, y, rowLow) == s[80 * y + rowLow] && OnLine(s, true, x, y, rowHigh) == s[80 * y + rowHigh];
    assert OnLine(s, false, x, y, columnLow) == s[80 * columnLow + x] && OnLine(s, false, x, y, columnHigh) == s[80 * columnHigh + x];
  }

  lemma CrossExtremeUnique(s: seq<U16>, x: nat, y: nat, v: U16)
    requires Image(s) && x < WIDTH && y < HEIGHT
    ensures IsCrossMaximum(s, x, y, v) ==> v == CrossUpper(s, x, y)
    ensures IsCrossMinimum(s, x, y, v) ==> v == CrossLower(s, x, y)
  {
    hide CrossUpper, CrossLower;
    CrossIsExtreme(s, x, y);
  }

  lemma LowerAtLeast(b: seq<U16>, x: nat, y: nat, nx: nat, ny: nat)
    requires Image(b) && x < WIDTH && y < HEIGHT && Near(x, y, nx, ny)
    ensures At(nx, ny) < PIXELS && RefinedLower(b, x, y) >= b[At(nx, ny)]
  {
    Coordinates(nx, ny);
    if nx != x {
      assert Diagonal(b, x, y, nx - x, ny - y) == b[At(nx, ny)];
    }
  }

  lemma LowerReached(b: seq<U16>, x: nat, y: nat) returns (nx: nat, ny: nat)
    requires Image(b) && x < WIDTH && y < HEIGHT
    ensures At(nx, ny) < PIXELS && RefinedLower(b, x, y) == b[At(nx, ny)] && Near(x, y, nx, ny)
  {
    Coordinates(x, y);
    var value := RefinedLower(b, x, y);
    nx, ny := x, y;
    if value != b[At(x, y)] {
      var dx := if value == Diagonal(b, x, y, -1, -1) || value == Diagonal(b, x, y, -1, 1) then -1 else 1;
      var dy := if value == Diagonal(b, x, y, dx, -1) then -1 else 1;
      nx, ny := x + dx, y + dy;
      Coordinates(nx, ny);
    }
  }

  lemma UpperIsBound(s: seq<U16>, b: seq<U16>, x: nat, y: nat)
    requires Image(s) && Image(b) && x < WIDTH && y < HEIGHT
    requires forall x: nat, y: nat {:trigger At(x, y)} :: x < WIDTH && y < HEIGHT ==>
      At(x, y) < PIXELS && b[At(x, y)] == CrossUpper(s, x, y)
    ensures IsUpperBound(s, x, y, RefinedUpper(b, x, y))
  {
    hide CrossUpper, RefinedUpper, IsCrossMaximum;
    forall a: nat, c: nat, v: U16 | Near(x, y, a, c) && IsCrossMaximum(s, a, c, v)
      ensures RefinedUpper(b, x, y) <= v
    {
      CrossExtremeUnique(s, a, c, v);
      assert b[At(a, c)] == CrossUpper(s, a, c);
      if a == x { UpperBelowSelf(b, x, y); } else { UpperAtMost(b, x, y, a, c); }
    }
    var nx, ny := UpperReached(b, x, y);
    assert b[At(nx, ny)] == CrossUpper(s, nx, ny);
    CrossIsExtreme(s, nx, ny);
    assert Near(x, y, nx, ny);
  }

  lemma UpperBelowSelf(b: seq<U16>, x: nat, y: nat)
    requires Image(b) && x < WIDTH && y < HEIGHT
    ensures At(x, y) < PIXELS && RefinedUpper(b, x, y) <= b[At(x, y)]
  {
    Coordinates(x, y);
  }

  lemma LowerIsBound(s: seq<U16>, b: seq<U16>, x: nat, y: nat)
    requires Image(s) && Image(b) && x < WIDTH && y < HEIGHT
    requires forall x: nat, y: nat {:trigger At(x, y)} :: x < WIDTH && y < HEIGHT ==>
      At(x, y) < PIXELS && b[At(x, y)] == CrossLower(s, x, y)
    ensures IsLowerBound(s, x, y, RefinedLower(b, x, y))
  {
    hide CrossLower, RefinedLower, IsCrossMinimum;
    forall a: nat, c: nat, v: U16 | Near(x, y, a, c) && IsCrossMinimum(s, a, c, v)
      ensures v <= RefinedLower(b, x, y)
    {
      CrossExtremeUnique(s, a, c, v);
      assert b[At(a, c)] == CrossLower(s, a, c);
      LowerAtLeast(b, x, y, a, c);
    }
    var nx, ny := LowerReached(b, x, y);
    assert b[At(nx, ny)] == CrossLower(s, nx, ny);
    CrossIsExtreme(s, nx, ny);
  }

  /** The computed bounds are the bounds. */
  lemma BoundsEnvelop(s: seq<U16>, preUpper: seq<U16>, preLower: seq<U16>, upper: seq<U16>, lower: seq<U16>)
    requires BoundsOf(s, preUpper, preLower, upper, lower)
    ensures Enveloped(s, upper, lower)
  {
    hide CrossUpper, CrossLower, RefinedUpper, RefinedLower, IsUpperBound, IsLowerBound;
    forall x: nat, y: nat | x < 80 && y < 64
      ensures At(x, y) == 80 * y + x
      ensures IsUpperBound(s, x, y, upper[80 * y + x]) && IsLowerBound(s, x, y, lower[80 * y + x])
    {
      assert upper[At(x, y)] == RefinedUpper(preUpper, x, y) && lower[At(x, y)] == RefinedLower(preLower, x, y);
      UpperIsBound(s, preUpper, x, y);
      LowerIsBound(s, preLower, x, y);
    }
  }

  // ---- normalisation --------------------------------------------------------------------------------------------

  /** Division that truncates towards zero. */
  function Quotient(n: int, d: int): int
    requires d > 0
  {
    if n < 0 then -(-n / d) else n / d
  }

  /** The normalised value of a foreground pixel. */
  function Normalised(pixel: U16, lower: U16, upper: U16): Byte
    requires lower <= upper
  {
    var q := if upper == lower then 255 else Quotient((pixel - lower) * 255, upper - lower);
    if q < 0 then 255 else 255 - (if q > 255 then 255 else q)
  }

  /** Pixels at or below the lower bound come out white, those at or above the upper bound black. */
  lemma NormalisedEnds(pixel: U16, lower: U16, upper: U16)
    requires lower < upper
    ensures pixel <= lower ==> Normalised(pixel, lower, upper) == 255
    ensures pixel >= upper ==> Normalised(pixel, lower, upper) == 0
  {
    hide Quotient;
    QuotientSign((pixel - lower) * 255, upper - lower);
    if pixel >= upper {
      QuotientLarge((pixel - lower) * 255, upper - lower);
    }
  }

  lemma QuotientSign(n: int, d: int)
    requires d > 0
    ensures n <= 0 ==> Quotient(n, d) <= 0
  {
    if n <= 0 {
      DivideAtLeast(-n, d, 0);
    }
  }

  lemma QuotientLarge(n: int, d: int)
    requires d > 0 && n >= 255 * d
    ensures Quotient(n, d) >= 255
  {
    DivideAtLeast(n, d, 255);
  }

  /** Brighter pixels never come out brighter: the normalisation is antitone in the pixel. */
  lemma NormalisedAntitone(a: U16, b: U16, lower: U16, upper: U16)
    requires lower <= upper && a <= b
    ensures Normalised(a, lower, upper) >= Normalised(b, lower, upper)
  {
    if lower < upper {
      if a <= lower {
        NormalisedEnds(a, lower, upper);
      } else {
        DivideMonotone((a - lower) * 255, (b - lower) * 255, upper - lower);
      }
    }
  }

  /**
   The output value `r` of a foreground pixel: 255 at or below the lower bound, 0 at or above the upper one and where the
   bounds are equal, and in between `255 - r` is 255 times the pixel's position between the bounds, rounded down.
   */
  predicate IsNormalised(pixel: U16, lower: U16, upper: U16, r: Byte) {
    if lower == upper || pixel >= upper then r == 0
    else if pixel <= lower then r == 255
    else (255 - r) * (upper - lower) <= 255 * (pixel - lower) < (256 - r) * (upper - lower)
  }

  /** The computed value is the one between the bounds, and no other is. */
  lemma NormalisedExactly(pixel: U16, lower: U16, upper: U16, r: Byte)
    requires lower <= upper
    ensures IsNormalised(pixel, lower, upper, r) <==> r == Normalised(pixel, lower, upper)
  {
    if lower < upper {
      NormalisedEnds(pixel, lower, upper);
      if lower < pixel < upper {
        QuotientExactly((pixel - lower) * 255, upper - lower, 255 - r);
        QuotientBelow((pixel - lower) * 255, upper - lower, 255);
      }
    }
  }

  // ---- the loops ------------------------------------------------------------------------------------------------

  method HorizontalExtrema(source: seq<U16>) returns (minimum: array<U16>, maximum: array<U16>)
    requires Image(source)
    ensures minimum.Length == maximum.Length == PIXELS && fresh(minimum) && fresh(maximum)
    ensures forall i: nat :: i < PIXELS ==> (minimum[i], maximum[i]) == ExtremaAt(source, true, i)
  {
    minimum, maximum := new U16[PIXELS](_ => 0), new U16[PIXELS](_ => 0);
    for y := 0 to HEIGHT
      invariant forall i: nat :: i < At(0, y) ==> (minimum[i], maximum[i]) == ExtremaAt(source, true, i)
    {
      for x := 0 to WIDTH
        invariant forall i: nat :: i < At(x, y) ==> (minimum[i], maximum[i]) == ExtremaAt(source, true, i)
      {
        hide LineExtrema;
        var lo, hi := ScanLine(source, true, x, y, Low(x), High(x, WIDTH));
        Coordinates(x, y);
        minimum[At(x, y)], maximum[At(x, y)] := lo, hi;
      }
    }
  }

  method VerticalExtrema(source: seq<U16>) returns (minimum: array<U16>, maximum: array<U16>)
    requires Image(source)
    ensures minimum.Length == maximum.Length == PIXELS && fresh(minimum) && fresh(maximum)
    ensures forall i: nat :: i < PIXELS ==> (minimum[i], maximum[i]) == ExtremaAt(source, false, i)
  {
    minimum, maximum := new U16[PIXELS](_ => 0), new U16[PIXELS](_ => 0);
    for y := 0 to HEIGHT
      invariant forall i: nat :: i < At(0, y) ==> (minimum[i], maximum[i]) == ExtremaAt(source, false, i)
    {
      for x := 0 to WIDTH
        invariant forall i: nat :: i < At(x, y) ==> (minimum[i], maximum[i]) == ExtremaAt(source, false, i)
      {
        hide LineExtrema;
        var lo, hi := ScanLine(source, false, x, y, Low(y), High(y, HEIGHT));
        Coordinates(x, y);
        minimum[At(x, y)], maximum[At(x, y)] := lo, hi;
      }
    }
  }

  /** The innermost loop of both scans, from `first` to `last` inclusive. */
  method ScanLine(source: seq<U16>, along: bool, x: nat, y: nat, first: nat, last: nat) returns (lo: U16, hi: U16)
    requires Image(source) && x < WIDTH && y < HEIGHT && first <= last < if along then WIDTH else HEIGHT
    ensures (lo, hi) == LineExtrema(source, along, x, y, first, last + 1)
  {
    lo, hi := 0xffff, 0;
    for k := first to last + 1
      invariant (lo, hi) == LineExtrema(source, along, x, y, first, k)
    {
      var value := OnLine(source, along, x, y, k);
      lo, hi := Min(lo, value), Max(hi, value);
    }
  }

  /** The first `end` pixels of both bounds are refined. */
  ghost predicate Refined(preUpper: seq<U16>, preLower: seq<U16>, upper: seq<U16>, lower: seq<U16>, end: nat)
    requires Image(preUpper) && Image(preLower)
  {
    && Image(upper) && Image(lower) && end <= PIXELS
    && forall i: nat :: i < end ==>
      upper[i] == RefinedUpper(preUpper, i % WIDTH, i / WIDTH) && lower[i] == RefinedLower(preLower, i % WIDTH, i / WIDTH)
  }

  /** Writes the next pixel of both bounds. */
  method Put(
    ghost preUpper: seq<U16>, ghost preLower: seq<U16>, upper: array<U16>, lower: array<U16>, ghost x: nat, ghost y: nat,
    i: nat, u: U16, l: U16)
    requires Image(preUpper) && Image(preLower) && upper != lower && x < WIDTH && y < HEIGHT && i == At(x, y)
    requires Refined(preUpper, preLower, upper[..], lower[..], i)
    requires u == RefinedUpper(preUpper, x, y) && l == RefinedLower(preLower, x, y)
    modifies upper, lower
    ensures Refined(preUpper, preLower, upper[..], lower[..], i + 1)
  {
    hide RefinedUpper, RefinedLower;
    Coordinates(x, y);
    upper[i], lower[i] := u, l;
  }

  /** Refinement by rows: the top row, the middle rows with their two edges, and the bottom row. */
  method RefineDiagonalBounds(preUpper: seq<U16>, preLower: seq<U16>) returns (upper: array<U16>, lower: array<U16>)
    requires Image(preUpper) && Image(preLower)
    ensures Refined(preUpper, preLower, upper[..], lower[..], PIXELS)
  {
    upper, lower := new U16[PIXELS](_ => 0), new U16[PIXELS](_ => 0);
    RefineTopRow(preUpper, preLower, upper, lower);
    for y := 1 to HEIGHT - 1
      invariant Refined(preUpper, preLower, upper[..], lower[..], At(0, y))
    {
      RefineMiddleRow(preUpper, preLower, upper, lower, y);
    }
    RefineBottomRow(preUpper, preLower, upper, lower);
  }

  method RefineTopRow(preUpper: seq<U16>, preLower: seq<U16>, upper: array<U16>, lower: array<U16>)
    requires Image(preUpper) && Image(preLower) && upper != lower && upper.Length == lower.Length == PIXELS
    modifies upper, lower
    ensures Refined(preUpper, preLower, upper[..], lower[..], At(0, 1))
  {
    var w := WIDTH;
    Put(preUpper, preLower, upper, lower, 0, 0, 0,
      Min(preUpper[0], preUpper[w + 1]), Max(preLower[0], preLower[w + 1]));
    for x := 1 to w - 1
      invariant Refined(preUpper, preLower, upper[..], lower[..], x)
    {
      Put(preUpper, preLower, upper, lower, x, 0, x,
        Min(Min(preUpper[x], preUpper[w + x - 1]), preUpper[w + x + 1]),
        Max(Max(preLower[x], preLower[w + x - 1]), preLower[w + x + 1]));
    }
    Put(preUpper, preLower, upper, lower, w - 1, 0, w - 1,
      Min(preUpper[w - 1], preUpper[w + w - 2]), Max(preLower[w - 1], preLower[w + w - 2]));
  }

  method RefineMiddleRow(preUpper: seq<U16>, preLower: seq<U16>, upper: array<U16>, lower: array<U16>, y: nat)
    requires Image(preUpper) && Image(preLower) && upper != lower && 0 < y < HEIGHT - 1
    requires Refined(preUpper, preLower, upper[..], lower[..], At(0, y))
    modifies upper, lower
    ensures Refined(preUpper, preLower, upper[..], lower[..], At(0, y + 1))
  {
    hide Refined;
    var w, row, prev, next := WIDTH, WIDTH * y, WIDTH * (y - 1), WIDTH * (y + 1);
    Put(preUpper, preLower, upper, lower, 0, y, row,
      Min(Min(preUpper[row], preUpper[prev + 1]), preUpper[next + 1]),
      Max(Max(preLower[row], preLower[prev + 1]), preLower[next + 1]));
    for x := 1 to w - 1
      invariant Refined(preUpper, preLower, upper[..], lower[..], row + x)
    {
      Put(preUpper, preLower, upper, lower, x, y, row + x,
        Min(Min(Min(Min(preUpper[row + x], preUpper[prev + x - 1]), preUpper[prev + x + 1]),
          preUpper[next + x - 1]), preUpper[next + x + 1]),
        Max(Max(Max(Max(preLower[row + x], preLower[prev + x - 1]), preLower[prev + x + 1]),
          preLower[next + x - 1]), preLower[next + x + 1]));
    }
    Put(preUpper, preLower, upper, lower, w - 1, y, row + w - 1,
      Min(Min(preUpper[row + w - 1], preUpper[prev + w - 2]), preUpper[next + w - 2]),
      Max(Max(preLower[row + w - 1], preLower[prev + w - 2]), preLower[next + w - 2]));
  }

  method RefineBottomRow(preUpper: seq<U16>, preLower: seq<U16>, upper: array<U16>, lower: array<U16>)
    requires Image(preUpper) && Image(preLower) && upper != lower
    requires Refined(preUpper, preLower, upper[..], lower[..], At(0, HEIGHT - 1))
    modifies upper, lower
    ensures Refined(preUpper, preLower, upper[..], lower[..], PIXELS)
  {
    hide Refined;
    var w, y := WIDTH, HEIGHT - 1;
    var row, prev := w * y, w * (y - 1);
    Put(preUpper, preLower, upper, lower, 0, y, row,
      Min(preUpper[row], preUpper[prev + 1]), Max(preLower[row], preLower[prev + 1]));
    for x := 1 to w - 1
      invariant Refined(preUpper, preLower, upper[..], lower[..], row + x)
    {
      Put(preUpper, preLower, upper, lower, x, y, row + x,
        Min(Min(preUpper[row + x], preUpper[prev + x - 1]), preUpper[prev + x + 1]),
        Max(Max(preLower[row + x], preLower[prev + x - 1]), preLower[prev + x + 1]));
    }
    Put(preUpper, preLower, upper, lower, w - 1, y, row + w - 1,
      Min(preUpper[row + w - 1], preUpper[prev + w - 2]), Max(preLower[row + w - 1], preLower[prev + w - 2]));
  }

  /** The output of one pixel: white outside the mask, normalised between its bounds inside. */
  predicate OutputOf(pixel: U16, masked: Byte, lower: U16, upper: U16, r: Byte) {
    if masked == 0 then r == 255 else IsNormalised(pixel, lower, upper, r)
  }

  /** Normalisation of the whole image; the saturating subtraction of the source never saturates here. */
  method NormaliseImage(processed: seq<U16>, mask: seq<Byte>, upper: seq<U16>, lower: seq<U16>)
    returns (output: array<Byte>, lowRange: nat)
    requires Image(processed) && |mask| == PIXELS && Image(upper) && Image(lower)
    requires forall i: nat :: i < PIXELS ==> lower[i] <= upper[i]
    ensures output.Length == PIXELS
    ensures forall i: nat :: i < PIXELS ==> OutputOf(processed[i], mask[i], lower[i], upper[i], output[i])
    ensures lowRange == |NarrowPixels(mask, upper, lower, PIXELS)|
  {
    hide Normalised, IsNormalised;
    output, lowRange := new Byte[PIXELS](_ => 255), 0;
    assert NarrowPixels(mask, upper, lower, 0) == {};
    for i := 0 to PIXELS
      invariant forall k: nat :: k < i ==> OutputOf(processed[k], mask[k], lower[k], upper[k], output[k])
      invariant forall k: nat :: i <= k < PIXELS ==> output[k] == 255
      invariant lowRange == |NarrowPixels(mask, upper, lower, i)|
    {
      NextNarrow(mask, upper, lower, i);
      if mask[i] == 0 {
        continue;
      }
      if upper[i] - lower[i] < LOW_RANGE {
        lowRange := lowRange + 1;
      }
      output[i] := Normalised(processed[i], lower[i], upper[i]);
      NormalisedExactly(processed[i], lower[i], upper[i], output[i]);
    }
  }

  /** A foreground pixel whose bounds lie less than 50 apart. */
  predicate Narrow(masked: int, upper: int, lower: int) {
    masked != 0 && upper - lower < 50
  }

  /** The foreground pixels before `end` whose bounds lie less than 50 apart. */
  ghost function NarrowPixels(mask: seq<Byte>, upper: seq<U16>, lower: seq<U16>, end: nat): set<nat>
    requires end <= |mask| == |upper| == |lower|
  {
    set i: nat | i < end && Narrow(mask[i], upper[i], lower[i])
  }

  lemma NextNarrow(mask: seq<Byte>, upper: seq<U16>, lower: seq<U16>, i: nat)
    requires i < |mask| == |upper| == |lower|
    ensures |NarrowPixels(mask, upper, lower, i + 1)| == |NarrowPixels(mask, upper, lower, i)|
      + if Narrow(mask[i], upper[i], lower[i]) then 1 else 0
  {
    var narrow := Narrow(mask[i], upper[i], lower[i]);
    assert NarrowPixels(mask, upper, lower, i + 1) == NarrowPixels(mask, upper, lower, i) + if narrow then {i} else {};
  }

  /** From the smoothed image to the output: the bounds, their refinement, and the normalisation between them. */
  method FinalStage(smoothed: seq<U16>, mask: seq<Byte>) returns (output: array<Byte>, lowRange: nat)
    requires Image(smoothed) && |mask| == PIXELS
    ensures output.Length == PIXELS
    ensures exists preUpper, preLower, upper, lower ::
      && BoundsOf(smoothed, preUpper, preLower, upper, lower) && Enveloped(smoothed, upper, lower)
      && (forall i: nat :: i < PIXELS ==> lower[i] <= upper[i])
      && (forall i: nat :: i < PIXELS ==> OutputOf(smoothed[i], mask[i], lower[i], upper[i], output[i]))
      && lowRange == |NarrowPixels(mask, upper, lower, PIXELS)|
  {
    hide Refined, CrossUpper, CrossLower, BoundsOf, LineExtrema, Enveloped, OutputOf;
    var horizontalMin, horizontalMax := HorizontalExtrema(smoothed);
    var verticalMin, verticalMax := VerticalExtrema(smoothed);
    var preUpper, preLower := MergeExtrema(smoothed, horizontalMin[..], horizontalMax[..], verticalMin[..], verticalMax[..]);
    var upper, lower := RefineDiagonalBounds(preUpper, preLower);
    BoundsFromIndices(smoothed, preUpper, preLower, upper[..], lower[..]);
    BoundsEnvelop(smoothed, preUpper, preLower, upper[..], lower[..]);
    EnvelopedImages(smoothed, upper[..], lower[..]);
    output, lowRange := NormaliseImage(smoothed, mask, upper[..], lower[..]);
  }

  lemma EnvelopedImages(s: seq<U16>, upper: seq<U16>, lower: seq<U16>)
    requires Enveloped(s, upper, lower)
    ensures Image(s) && Image(upper) && Image(lower)
  {}

  method MergeExtrema(ghost s: seq<U16>, horizontalMin: seq<U16>, horizontalMax: seq<U16>, verticalMin: seq<U16>,
    verticalMax: seq<U16>) returns (upper: seq<U16>, lower: seq<U16>)
    requires Image(s) && Image(horizontalMin) && Image(horizontalMax) && Image(verticalMin) && Image(verticalMax)
    requires forall i: nat :: i < PIXELS ==> (horizontalMin[i], horizontalMax[i]) == ExtremaAt(s, true, i)
    requires forall i: nat :: i < PIXELS ==> (verticalMin[i], verticalMax[i]) == ExtremaAt(s, false, i)
    ensures Image(upper) && Image(lower)
    ensures forall k: nat :: k < PIXELS ==>
      upper[k] == CrossUpper(s, k % WIDTH, k / WIDTH) && lower[k] == CrossLower(s, k % WIDTH, k / WIDTH)
  {
    hide Extrema;
    var preUpper, preLower := new U16[PIXELS](_ => 0), new U16[PIXELS](_ => 0);
    for i := 0 to PIXELS
      invariant forall k: nat :: k < i ==>
        preUpper[k] == CrossUpper(s, k % WIDTH, k / WIDTH) && preLower[k] == CrossLower(s, k % WIDTH, k / WIDTH)
    {
      assert (horizontalMin[i], horizontalMax[i]) == ExtremaAt(s, true, i) && (verticalMin[i], verticalMax[i]) == ExtremaAt(s, false, i);
      preUpper[i] := Max(horizontalMax[i], verticalMax[i]);
      preLower[i] := Min(horizontalMin[i], verticalMin[i]);
    }
    return preUpper[..], preLower[..];
  }

  lemma BoundsFromIndices(s: seq<U16>, preUpper: seq<U16>, preLower: seq<U16>, upper: seq<U16>, lower: seq<U16>)
    requires Image(s) && Image(preUpper) && Image(preLower) && Image(upper) && Image(lower)
    requires forall k: nat :: k < PIXELS ==>
      preUpper[k] == CrossUpper(s, k % WIDTH, k / WIDTH) && preLower[k] == CrossLower(s, k % WIDTH, k / WIDTH)
    requires Refined(preUpper, preLower, upper, lower, PIXELS)
    ensures BoundsOf(s, preUpper, preLower, upper, lower)
    ensures forall i: nat :: i < PIXELS ==> lower[i] <= upper[i]
  {
    hide CrossUpper, CrossLower, RefinedUpper, RefinedLower;
    forall x: nat, y: nat | x < WIDTH && y < HEIGHT
      ensures At(x, y) < PIXELS
      ensures preUpper[At(x, y)] == CrossUpper(s, x, y) && preLower[At(x, y)] == CrossLower(s, x, y)
      ensures upper[At(x, y)] == RefinedUpper(preUpper, x, y) && lower[At(x, y)] == RefinedLower(preLower, x, y)
    {
      Coordinates(x, y);
    }
    forall i: nat | i < PIXELS ensures lower[i] <= upper[i] {
      NeverInverted(s, preUpper, preLower, upper, lower, i % WIDTH, i / WIDTH);
      assert At(i % WIDTH, i / WIDTH) == i;
    }
  }
}
