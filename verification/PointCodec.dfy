/**
 Persisting one feature point: coordinates and orientation are packed into one overlapping 32-bit word, which loses
 nothing of a point rounded before publication except the orientation 0x8000.
 */
module PointCodec {
  import opened Bytes
  import opened EnrollmentModel
  import opened TemplateFormat

  /** Pi in the Q12 orientation format. */
  const PI_Q12: bv16 := 0x3244

  datatype Geometry = Geometry(x: bv16, y: bv16, orientation: bv16)

  // ---- rounding before publication ------------------------------------------------------------------------------

  function RoundCoordinate(value: bv16): bv16 {
    (value + 8) & 0xfff0
  }

  predicate Negative(value: bv16) {
    value & 0x8000 != 0
  }

  /** Sign extension of a 16-bit word. */
  function Extend(value: bv16): bv32 {
    if Negative(value) then (value as bv32) | 0xffff_0000 else value as bv32
  }

  /** The low 16 bits of a word. */
  function Low(value: bv32): bv16 {
    (value & 0xffff) as bv16
  }

  function RoundOrientation(value: bv16): bv16 {
    if Negative(value) then 0 - Low((0 - Extend(value) + 0x80) & 0xffff_ff00) else (value + 0x80) & 0xff00
  }

  // ---- packing --------------------------------------------------------------------------------------------------

  function OrientationByte(orientation: bv16): bv32 {
    if Negative(orientation) then (((0 - Extend(orientation)) >> 8) - 0x80) & 0xff
    else ((orientation as bv32) >> 8) & 0xff
  }

  /** The packed word: the low nibble of x overlaps the high one of y, the low nibble of y the orientation. */
  function Pack(g: Geometry): bv32 {
    ((g.y as bv32) << 4) | ((g.x as bv32) << 16) | OrientationByte(g.orientation)
  }

  function UnpackOrientation(word: bv32): bv16 {
    var shifted := Low(word << 8);
    var raw := if word & 0x80 != 0 then Low(0 - (Extend(shifted) - 0x8000)) else shifted;
    if Negative(raw) then raw + PI_Q12 else raw
  }

  /** The geometry a loaded point gets from its packed word. */
  function Unpack(word: bv32): Geometry {
    Geometry(Low(word >> 16) & 0xfff0, Low((word & 0x000f_ff00) >> 4), UnpackOrientation(word))
  }

  /** The upper half of the word is x with the top nibble of y, the next byte the middle of y, the low byte the orientation. */
  lemma PackedFields(g: Geometry)
    ensures Pack(g) >> 16 == (g.x as bv32) | ((g.y as bv32) >> 12)
    ensures (Pack(g) >> 8) & 0xff == ((g.y as bv32) >> 4) & 0xff
    ensures Pack(g) & 0xff == OrientationByte(g.orientation) | (((g.y as bv32) & 0xf) << 4)
  {
    OrientationByteFits(g.orientation);
    hide OrientationByte;
  }

  /** The orientation byte: the upper byte of a positive one, and that of the magnitude of a negative one, 0x80 further. */
  lemma OrientationByteIs(o: bv16)
    ensures o < 0x8000 ==> OrientationByte(o) == (o as bv32) >> 8
    ensures o >= 0x8000 ==> OrientationByte(o) == (((0x1_0000 - (o as bv32)) >> 8) + 0x80) & 0xff
  {}

  /** A coordinate is rounded to a multiple of 16 at most 8 above or 7 below it. */
  lemma CoordinateRoundsToNearest(x: bv16)
    ensures RoundCoordinate(x) & 0xf == 0 && RoundCoordinate(x) - x + 7 <= 15
  {}

  /** An orientation is rounded to a multiple of 256 at most 0x80 away, half steps away from zero. */
  lemma OrientationRoundsToNearest(o: bv16)
    ensures RoundOrientation(o) & 0xff == 0
    ensures o < 0x8000 ==> RoundOrientation(o) - o + 0x7f <= 0xff
    ensures o >= 0x8000 ==> o - RoundOrientation(o) + 0x7f <= 0xff
  {
    if o < 0x8000 {
      PositiveRounds(o);
    } else {
      NegativeRounds(o);
    }
  }

  lemma PositiveRounds(o: bv16)
    requires o < 0x8000
    ensures RoundOrientation(o) & 0xff == 0 && RoundOrientation(o) - o + 0x7f <= 0xff
  {}

  lemma NegativeRounds(o: bv16)
    requires o >= 0x8000
    ensures RoundOrientation(o) & 0xff == 0 && o - RoundOrientation(o) + 0x7f <= 0xff
  {}

  // ---- what survives --------------------------------------------------------------------------------------------

  /** The orientation is read from the low byte alone. */
  lemma LowByteDecides(word: bv32)
    ensures UnpackOrientation(word) == UnpackOrientation(word & 0xff)
  {
    assert (word << 8) & 0xffff == ((word & 0xff) << 8) & 0xffff;
    assert word & 0x80 == (word & 0xff) & 0x80;
  }

  lemma LowByte(y: bv32, x: bv32, o: bv32)
    requires o <= 0xff
    ensures ((y << 4) | (x << 16) | o) & 0xff == o | ((y & 0xf) << 4)
  {}

  lemma OrientationByteFits(o: bv16)
    ensures OrientationByte(o) <= 0xff
  {}

  lemma UnpackX(g: Geometry)
    ensures Unpack(Pack(g)).x == g.x & 0xfff0
  {
    OrientationByteFits(g.orientation);
    hide OrientationByte, UnpackOrientation;
  }

  lemma UnpackY(g: Geometry)
    ensures Unpack(Pack(g)).y == (g.y & 0xfff0) | ((g.x & 0xf) << 12)
  {
    OrientationByteFits(g.orientation);
    hide OrientationByte, UnpackOrientation;
  }

  lemma UnpackByte(g: Geometry)
    ensures Unpack(Pack(g)).orientation
      == UnpackOrientation(OrientationByte(g.orientation) | ((g.y as bv32 & 0xf) << 4))
  {
    hide UnpackOrientation, OrientationByte, Low;
    OrientationByteFits(g.orientation);
    LowByteDecides(Pack(g));
    LowByte(g.y as bv32, g.x as bv32, OrientationByte(g.orientation));
  }

  /** For every 16-bit x, y and orientation: what the overlapping fields give back. */
  lemma UnpackOverlap(g: Geometry)
    ensures Unpack(Pack(g)) == Geometry(g.x & 0xfff0, (g.y & 0xfff0) | ((g.x & 0xf) << 12),
      UnpackOrientation(OrientationByte(g.orientation) | ((g.y as bv32 & 0xf) << 4)))
  {
    hide Unpack, Pack, UnpackOrientation, OrientationByte;
    UnpackX(g);
    UnpackY(g);
    UnpackByte(g);
  }

  /** Coordinates survive exactly when their low nibbles do not disturb the neighbouring field. */
  lemma CoordinatesExact(g: Geometry)
    ensures Unpack(Pack(g)).x == g.x <==> g.x & 0xf == 0
    ensures Unpack(Pack(g)).y == g.y <==> g.y & 0xf == 0 && ((g.x & 0xf) << 12) & !g.y == 0
  {
    hide Unpack, Pack;
    UnpackX(g);
    UnpackY(g);
  }

  /** The orientation a loaded point should have: a negative one is normalised by adding pi. */
  function Normalised(orientation: bv16): bv16 {
    if Negative(orientation) then orientation + PI_Q12 else orientation
  }

  lemma RoundedOrientation(o: bv16)
    requires o & 0xff == 0
    ensures UnpackOrientation(OrientationByte(o)) == if o == 0x8000 then 0 else Normalised(o)
  {}

  lemma RoundingClears(x: bv16, o: bv16)
    ensures RoundCoordinate(x) & 0xf == 0 && RoundOrientation(o) & 0xff == 0
    ensures RoundOrientation(o) == 0x8000 <==> 0x7f80 <= o <= 0x8080
  {}

  function Rounded(g: Geometry): Geometry {
    Geometry(RoundCoordinate(g.x), RoundCoordinate(g.y), RoundOrientation(g.orientation))
  }

  /**
   A published point survives persistence with exact coordinates, and with its normalised orientation exactly when the
   unrounded orientation lies outside [0x7f80, 0x8080]; inside that interval it loads as 0.
   */
  lemma RoundedPointsSurvive(g: Geometry)
    ensures var p, u := Rounded(g), Unpack(Pack(Rounded(g)));
      && u.x == p.x && u.y == p.y
      && (u.orientation == Normalised(p.orientation) <==> !(0x7f80 <= g.orientation <= 0x8080))
      && (0x7f80 <= g.orientation <= 0x8080 ==> u.orientation == 0)
  {
    hide RoundCoordinate, RoundOrientation, Pack, Unpack, OrientationByte, UnpackOrientation;
    var p := Rounded(g);
    RoundingClears(g.x, g.orientation);
    RoundingClears(g.y, g.orientation);
    UnpackOverlap(p);
    ClearedCoordinates(p.x, p.y, OrientationByte(p.orientation));
    RoundedOrientation(p.orientation);
    NormalisedNonzero();
  }

  lemma ClearedCoordinates(x: bv16, y: bv16, o: bv32)
    requires x & 0xf == 0 && y & 0xf == 0
    ensures x & 0xfff0 == x && (y & 0xfff0) | ((x & 0xf) << 12) == y && o | ((y as bv32 & 0xf) << 4) == o
  {}

  lemma NormalisedNonzero()
    ensures Normalised(0x8000) != 0
  {}

  // ---- the persisted point --------------------------------------------------------------------------------------

  function GeometryOf(p: FeaturePoint): Geometry {
    Geometry(p.x, p.y, p.orientation)
  }

  /** What one feature point looks like in the persisted template. */
  function ProjectPoint(p: FeaturePoint): PersistedPoint {
    PersistedPoint(Pack(GeometryOf(p)) as int, p.descriptor, p.medianHash128, p.hadamardHash32, p.medianHash32)
  }

  /** The geometry the matcher sees for a persisted point. */
  function MatcherGeometry(p: PersistedPoint): Geometry {
    Unpack(p.geometryWord as bv32)
  }

  lemma WordSurvives(w: bv32)
    ensures (w as int) as bv32 == w
  {}
}
