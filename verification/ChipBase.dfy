/** The base table of the chip configuration, and what generation makes of it for every accepted calibration. */
module ChipBase {
  import opened Wrappers
  import opened Bytes
  import opened ChipConfig

  /** A quadword as its four words, the least significant first. */
  datatype Quad = Quad(w0: U16, w1: U16, w2: U16, w3: U16) {
    function Word(j: nat): U16 {
      if j == 0 then w0 else if j == 1 then w1 else if j == 2 then w2 else w3
    }

    /** Byte `k`, the least significant first. */
    function Octet(k: nat): Byte {
      if k % 2 == 0 then Word(k / 2) % 0x100 else Word(k / 2) / 0x100
    }

    function Total(): nat {
      w0 + w1 + w2 + w3
    }
  }

  function FirstQwords(i: nat): Quad {
    match i
    case 0 => Quad(0x11b0, 0x7160, 0x9d2c, 0xc92c)
    case 1 => Quad(0xe51c, 0xfd18, 0xfd00, 0xfd00)
    case 2 => Quad(0xba03, 0x0100, 0xca80, 0x0400)
    case 3 => Quad(0x8400, 0x1500, 0x86b3, 0x0000)
    case 4 => Quad(0x88c4, 0x0000, 0x8aba, 0x0000)
    case 5 => Quad(0x8cb2, 0x0000, 0x8eaa, 0x0000)
    case 6 => Quad(0x90c1, 0xbb00, 0x92bb, 0xb100)
    case _ => Quad(0x94b1, 0x0000, 0x96a8, 0x0000)
  }

  function SecondQwords(i: nat): Quad {
    match i
    case 0 => Quad(0x98b6, 0x0000, 0x9a00, 0x0000)
    case 1 => Quad(0xd200, 0x0000, 0xd400, 0x0000)
    case 2 => Quad(0xd600, 0x0000, 0xd800, 0x0000)
    case 3 => Quad(0x5000, 0x0100, 0xd005, 0x0000)
    case 4 => Quad(0x7000, 0x0000, 0x7200, 0x7800)
    case 5 => Quad(0x7456, 0x3400, 0x2012, 0x1000)
    case 6 => Quad(0x2a40, 0x0201, 0x2204, 0x0100)
    case _ => Quad(0x2420, 0x3200, 0x8000, 0x0100)
  }

  function ThirdQwords(i: nat): Quad {
    match i
    case 0 => Quad(0x5c00, 0x8000, 0x5600, 0x2400)
    case 1 => Quad(0x5820, 0x0300, 0x3202, 0x0c00)
    case 2 => Quad(0x6602, 0x0300, 0x7c00, 0x0000)
    case 3 => Quad(0x8258, 0x8000, 0x2a15, 0x8201)
    case 4 => Quad(0x2203, 0x0100, 0x2420, 0x1400)
    case 5 => Quad(0x8000, 0x0100, 0x5c00, 0x0000)
    case 6 => Quad(0x5601, 0x0400, 0x5820, 0x0300)
    case _ => Quad(0x3202, 0x0c00, 0x6602, 0x0300)
  }

  function FourthQwords(i: nat): Quad {
    match i
    case 0 => Quad(0x7c00, 0x0000, 0x8258, 0x8000)
    case 1 => Quad(0x2a15, 0x0801, 0x5c00, 0x8000)
    case 2 => Quad(0x5400, 0x1000, 0x6201, 0x0400)
    case 3 => Quad(0x6403, 0x1900, 0x6600, 0x0300)
    case 4 => Quad(0x7c00, 0x0100, 0x2a58, 0x0801)
    case 5 => Quad(0x5c00, 0x0000, 0x5201, 0x0800)
    case 6 => Quad(0x5400, 0x0000, 0x6601, 0x0300)
    case _ => Quad(0x7c00, 0x0100, 0x0058, 0xffbc)
  }

  /** The 32 quadwords of the table. */
  function Qword(i: nat): Quad {
    if i < 8 then FirstQwords(i) else if i < 16 then SecondQwords(i - 8) else if i < 24 then ThirdQwords(i - 16)
    else FourthQwords(i - 24)
  }

  function BaseByte(i: nat): Byte {
    Qword(i / 8).Octet(i % 8)
  }

  function Base(): (c: seq<Byte>)
    ensures Config(c)
  {
    seq(CONFIG_SIZE, i requires 0 <= i < CONFIG_SIZE => BaseByte(i))
  }

  /** The table as the loop over its quadwords writes it. */
  method BuildBase() returns (config: array<Byte>)
    ensures fresh(config) && config[..] == Base()
  {
    config := new Byte[CONFIG_SIZE](_ => 0);
    for index := 0 to 32
      invariant config[..8 * index] == Base()[..8 * index]
    {
      hide Base, Qword;
      var bytes := seq(8, k requires 0 <= k < 8 => Qword(index).Octet(k));
      CopyInto(config, 8 * index, bytes);
      assert config[..8 * (index + 1)] == Base()[..8 * index] + bytes;
      RowOfBase(index, bytes);
    }
  }

  lemma RowOfBase(index: nat, bytes: seq<Byte>)
    requires index < 32 && |bytes| == 8 && forall k :: 0 <= k < 8 ==> bytes[k] == Qword(index).Octet(k)
    ensures Base()[..8 * (index + 1)] == Base()[..8 * index] + bytes
  {
    hide Qword, Quad.Octet;
    forall k: nat | k < 8
      ensures BaseByte(8 * index + k) == bytes[k]
    {
      assert (8 * index + k) / 8 == index && (8 * index + k) % 8 == k;
    }
    assert Base()[8 * index..8 * (index + 1)] == bytes;
  }

  lemma BaseWord(at: nat)
    requires at + 2 <= CONFIG_SIZE
    ensures WordAt(Base(), at) == (BaseByte(at) as int) + 0x100 * (BaseByte(at + 1) as int)
  {
    hide BaseByte;
    assert Base()[at..at + 2] == [BaseByte(at), BaseByte(at + 1)];
    TwoBytes(Base()[at..at + 2]);
  }

  // ---- the checksum of the table --------------------------------------------------------------------------------

  /** The wrapping sum of the first `count` rows. */
  function RowSum(count: nat): U16 {
    if count == 0 then 0 else (RowSum(count - 1) + Qword(count - 1).Total()) % 0x1_0000
  }

  lemma WordOfRow(k: nat, j: nat)
    requires k < 32 && j < 4
    ensures WordAt(Base(), 2 * (4 * k + j)) == Qword(k).Word(j)
  {
    hide Qword, Quad.Word;
    BaseWord(2 * (4 * k + j));
    assert (8 * k + 2 * j) / 8 == k && (8 * k + 2 * j) % 8 == 2 * j;
    assert (8 * k + 2 * j + 1) / 8 == k && (8 * k + 2 * j + 1) % 8 == 2 * j + 1;
  }

  lemma SumStep(count: nat)
    requires count < 128
    ensures SumWords(Base(), count + 1) == (SumWords(Base(), count) + WordAt(Base(), 2 * count)) % 0x1_0000
  {
    hide WordAt;
  }

  lemma {:induction false} SumOfRows(count: nat)
    requires count <= 32
    ensures SumWords(Base(), 4 * count) == RowSum(count)
  {
    hide Qword, SumWords, WordAt, Base, Quad.Total;
    if count == 0 {
      NoWords();
    } else {
      var k, row := count - 1, Qword(count - 1);
      SumOfRows(k);
      WordOfRow(k, 0);
      WordOfRow(k, 1);
      WordOfRow(k, 2);
      WordOfRow(k, 3);
      SumStep(4 * k);
      SumStep(4 * k + 1);
      SumStep(4 * k + 2);
      SumStep(4 * k + 3);
      WrapFour(RowSum(k), SumWords(Base(), 4 * k + 1), SumWords(Base(), 4 * k + 2), SumWords(Base(), 4 * k + 3),
        SumWords(Base(), 4 * count), row);
    }
  }

  lemma NoWords()
    ensures SumWords(Base(), 0) == 0
  {}

  /** Four wrapping additions are one. */
  lemma WrapFour(s0: nat, s1: nat, s2: nat, s3: nat, s4: nat, row: Quad)
    requires s1 == (s0 + row.w0) % 0x1_0000 && s2 == (s1 + row.w1) % 0x1_0000 && s3 == (s2 + row.w2) % 0x1_0000
    requires s4 == (s3 + row.w3) % 0x1_0000
    ensures s4 == (s0 + row.Total()) % 0x1_0000
  {
    WrapTwo(s0, row.w0, row.w1);
    WrapTwo(s0, row.w0 + row.w1, row.w2);
    WrapTwo(s0, row.w0 + row.w1 + row.w2, row.w3);
  }

  lemma WrapTwo(s: nat, a: nat, b: nat)
    ensures ((s + a) % 0x1_0000 + b) % 0x1_0000 == (s + (a + b)) % 0x1_0000
  {}

  lemma NoRows()
    ensures RowSum(0) == 0
  {}

  lemma AddRow(k: nat, total: nat)
    requires k < 32 && Qword(k).Total() == total
    ensures RowSum(k + 1) == (RowSum(k) + total) % 0x1_0000
  {
    hide Qword;
  }

  lemma RowsTo4()
    ensures RowSum(4) == 28370
  {
    hide RowSum;
    NoRows();
    AddRow(0, 125288);
    AddRow(1, 252980);
    AddRow(2, 100739);
    AddRow(3, 73651);
  }

  lemma RowsTo8()
    requires RowSum(4) == 28370
    ensures RowSum(8) == 22657
  {
    hide RowSum;
    AddRow(4, 70526);
    AddRow(5, 72540);
    AddRow(6, 167804);
    AddRow(7, 76633);
  }

  lemma RowsTo12()
    requires RowSum(8) == 22657
    ensures RowSum(12) == 60
  {
    hide RowSum;
    AddRow(8, 78518);
    AddRow(9, 108032);
    AddRow(10, 110080);
    AddRow(11, 73989);
  }

  lemma RowsTo16()
    requires RowSum(12) == 60
    ensures RowSum(16) == 22793
  {
    hide RowSum;
    AddRow(12, 88576);
    AddRow(13, 55400);
    AddRow(14, 20293);
    AddRow(15, 55072);
  }

  lemma RowsTo20()
    requires RowSum(16) == 22793
    ensures RowSum(20) == 56219
  {
    hide RowSum;
    AddRow(16, 87552);
    AddRow(17, 39202);
    AddRow(18, 58626);
    AddRow(19, 110190);
  }

  lemma RowsTo24()
    requires RowSum(20) == 56219
    ensures RowSum(24) == 28643
  {
    hide RowSum;
    AddRow(20, 23331);
    AddRow(21, 56576);
    AddRow(22, 46369);
    AddRow(23, 42756);
  }

  lemma RowsTo28()
    requires RowSum(24) == 28643
    ensures RowSum(28) == 44117
  {
    hide RowSum;
    AddRow(24, 97880);
    AddRow(25, 69142);
    AddRow(26, 51713);
    AddRow(27, 58883);
  }

  lemma RowsTo31()
    requires RowSum(28) == 44117
    ensures RowSum(31) == 52912
  {
    hide RowSum;
    AddRow(28, 44889);
    AddRow(29, 46593);
    AddRow(30, 48385);
  }

  /** The checksum covers all words but the last one, which is its own. */
  lemma LastWords()
    ensures SumWords(Base(), 127) == (RowSum(31) + Qword(31).w0 + Qword(31).w1 + Qword(31).w2) % 0x1_0000
  {
    hide SumWords, WordAt, RowSum, Qword, Base;
    SumOfRows(31);
    SumStep(124);
    SumStep(125);
    SumStep(126);
    WordOfRow(31, 0);
    WordOfRow(31, 1);
    WordOfRow(31, 2);
    var row := Qword(31);
    WrapTwo(RowSum(31), row.w0, row.w1);
    WrapTwo(RowSum(31), row.w0 + row.w1, row.w2);
  }

  /** The table has the checksum the generator insists on. */
  lemma BaseChecksum()
    ensures Checksum(Base()) == EXPECTED_BASE_CHECKSUM
  {
    hide SumWords, RowSum, Base;
    RowsTo4();
    RowsTo8();
    RowsTo12();
    RowsTo16();
    RowsTo20();
    RowsTo24();
    RowsTo28();
    RowsTo31();
    LastWords();
  }

  // ---- the records of the table ---------------------------------------------------------------------------------

  lemma Sections()
    ensures Section(Base(), 5, 6) == (157, 201) && Section(Base(), 9, 10) == (229, 253) && Apart(Base())
  {
    assert BaseByte(5) == 157 && BaseByte(6) == 44 && BaseByte(9) == 229 && BaseByte(10) == 24;
  }

  lemma SkipRecord(offset: nat, end: nat, key: U16)
    requires offset + 4 <= end <= CONFIG_SIZE && BaseByte(offset) != key % 0x100
    ensures FindRecord(Base(), offset, end, key) == FindRecord(Base(), offset + 4, end, key)
  {
    hide BaseByte;
    BaseWord(offset);
  }

  lemma TakeRecord(offset: nat, end: nat, key: U16)
    requires offset + 4 <= end <= CONFIG_SIZE && (BaseByte(offset) as int) + 0x100 * (BaseByte(offset + 1) as int) == key
    ensures FindRecord(Base(), offset, end, key) == Some(offset)
  {
    hide BaseByte;
    BaseWord(offset);
  }

  lemma FindsTcode()
    ensures FindRecord(Base(), 229, 253, IMAGE_TCODE_KEY) == Some(233)
  {
    hide FindRecord, WordAt;
    SkipRecord(229, 253, IMAGE_TCODE_KEY);
    TakeRecord(233, 253, IMAGE_TCODE_KEY);
  }

  lemma FindsDelta()
    ensures FindRecord(Base(), 157, 201, FDT_DELTA_KEY) == Some(197)
  {
    hide FindRecord, WordAt;
    SkipRecord(157, 201, FDT_DELTA_KEY);
    SkipRecord(161, 201, FDT_DELTA_KEY);
    SkipRecord(165, 201, FDT_DELTA_KEY);
    SkipRecord(169, 201, FDT_DELTA_KEY);
    SkipRecord(173, 201, FDT_DELTA_KEY);
    SkipRecord(177, 201, FDT_DELTA_KEY);
    SkipRecord(181, 201, FDT_DELTA_KEY);
    SkipRecord(185, 201, FDT_DELTA_KEY);
    SkipRecord(189, 201, FDT_DELTA_KEY);
    SkipRecord(193, 201, FDT_DELTA_KEY);
    TakeRecord(197, 201, FDT_DELTA_KEY);
  }

  lemma FindsOffset()
    ensures FindRecord(Base(), 157, 201, FDT_OFFSET_KEY) == Some(177)
  {
    hide FindRecord, WordAt;
    SkipRecord(157, 201, FDT_OFFSET_KEY);
    SkipRecord(161, 201, FDT_OFFSET_KEY);
    SkipRecord(165, 201, FDT_OFFSET_KEY);
    SkipRecord(169, 201, FDT_OFFSET_KEY);
    SkipRecord(173, 201, FDT_OFFSET_KEY);
    TakeRecord(177, 201, FDT_OFFSET_KEY);
  }

  /** For every accepted OTP a configuration is generated, sums to the target and holds all three calibration values. */
  lemma EveryOtpIsConfigured(source: Byte, redundant: Byte, encoded: Byte)
    requires DecodeCalibration(source, redundant, encoded).Ok?
    ensures Apart(Base())
    ensures var calibration := DecodeCalibration(source, redundant, encoded).value;
      && calibration.diff <= 113 && calibration.fdtOffset <= 3
      && var r := Generate(Base(), calibration);
         r.Ok? && Config(r.value) && WordSum(r.value) == SUM_TARGET && Holds(Base(), r.value, calibration)
  {
    CalibrationRanges(source, redundant, encoded);
    Sections();
    BaseChecksum();
    FindsTcode();
    FindsDelta();
    FindsOffset();
    hide Base, FindRecord, Checksum, Generate, Holds, DecodeCalibration, WordSum, SumWords;
    var calibration := DecodeCalibration(source, redundant, encoded).value;
    GenerateSucceeds(Base(), calibration);
    GeneratedSums(Base(), calibration);
    GeneratedHolds(Base(), calibration);
  }

  /**
   A generated configuration, byte by byte: `tcode` at 235, `diff` at 200 above a byte 0x80, a non-zero offset plus eight
   at 179, the checksum in the last two bytes, and the base table everywhere else.
   */
  ghost predicate ConfiguredBytes(d: seq<Byte>, calibration: Calibration) {
    && |d| == 256
    && (d[235] as int) + 0x100 * d[236] as int == calibration.tcode
    && d[199] == 0x80 && d[200] == calibration.diff
    && d[179] == (if calibration.fdtOffset == 0 then BaseByte(179) else calibration.fdtOffset + 8)
    && forall i: nat :: i < 254 && i !in {179, 199, 200, 235, 236} ==> d[i] == BaseByte(i)
  }

  lemma FirstReplacement(calibration: Calibration)
    ensures var c0 := Resealed(Base());
      && FindRecord(c0, 229, 253, IMAGE_TCODE_KEY) == Some(233)
      && (forall i: nat :: i < 254 ==> c0[i] == BaseByte(i))
      && var d := Replace(c0, 229, 253, IMAGE_TCODE_KEY, calibration.tcode).1;
      && OnlyValue(c0, d, 233) && WordAt(d, 235) == calibration.tcode
  {
    hide FindRecord, FindValue, Checksum, Resealed, Replace, WordAt, BaseByte;
    Sections();
    FindsTcode();
    SameSections(Base());
    FindSame(Base(), Resealed(Base()), 229, 253, IMAGE_TCODE_KEY);
    ReplaceAndRead(Resealed(Base()), 229, 253, IMAGE_TCODE_KEY, calibration.tcode, 233);
  }

  lemma ReplaceAndRead(c: seq<Byte>, start: nat, end: nat, key: U16, value: U16, at: nat)
    requires Config(c) && end <= CHECKSUM_AT && FindRecord(c, start, end, key) == Some(at)
    ensures var d := Replace(c, start, end, key, value).1;
      OnlyValue(c, d, at) && WordAt(d, at + 2) == value
  {
    hide FindRecord, Replace, WordAt;
    ReplaceInside(c, start, end, key, value);
  }

  /** The tcode record lies in another section, so the touch-detection records are still found where the table has them. */
  lemma SecondReplacement(c0: seq<Byte>, c1: seq<Byte>, value: U16)
    requires c0 == Resealed(Base()) && OnlyValue(c0, c1, 233)
    ensures FindRecord(c1, 157, 201, FDT_DELTA_KEY) == Some(197)
    ensures var d := Replace(c1, 157, 201, FDT_DELTA_KEY, value).1;
      OnlyValue(c1, d, 197) && WordAt(d, 199) == value && FindRecord(d, 157, 201, FDT_OFFSET_KEY) == Some(177)
  {
    hide FindRecord, FindValue, Checksum, Resealed, Replace, WordAt, BaseByte;
    Sections();
    FindsDelta();
    FindsOffset();
    SameSections(Base());
    FindSame(Base(), c0, 157, 201, FDT_DELTA_KEY);
    FindSame(Base(), c0, 157, 201, FDT_OFFSET_KEY);
    FindSame(c0, c1, 157, 201, FDT_DELTA_KEY);
    FindSame(c0, c1, 157, 201, FDT_OFFSET_KEY);
    ReplaceAndRead(c1, 157, 201, FDT_DELTA_KEY, value, 197);
    FindOther(c1, Replace(c1, 157, 201, FDT_DELTA_KEY, value).1, 157, 201, FDT_OFFSET_KEY, FDT_DELTA_KEY, 197);
  }

  lemma WordIsBytes(c: seq<Byte>, at: nat)
    requires at + 2 <= |c|
    ensures WordAt(c, at) == (c[at] as int) + 0x100 * c[at + 1] as int
  {
    TwoBytes(c[at..at + 2]);
  }

  /** The three replacements, in order. */
  lemma ThreeReplacements(calibration: Calibration)
    requires calibration.diff <= 113 && calibration.fdtOffset <= 3
    ensures var c1 := Replace(Resealed(Base()), 229, 253, IMAGE_TCODE_KEY, calibration.tcode).1;
      var c2 := Replace(c1, 157, 201, FDT_DELTA_KEY, calibration.diff * 256 + 0x80).1;
      var c3 := ReplaceOffset(c2, 157, 201, calibration.fdtOffset);
      c3.Ok? && ConfiguredBytes(c3.value, calibration)
  {
    hide FindRecord, FindValue, Checksum, Resealed, Replace, WordAt, BaseByte;
    FirstReplacement(calibration);
    var c0 := Resealed(Base());
    var c1 := Replace(c0, 229, 253, IMAGE_TCODE_KEY, calibration.tcode).1;
    var delta := calibration.diff * 256 + 0x80;
    SecondReplacement(c0, c1, delta);
    var c2 := Replace(c1, 157, 201, FDT_DELTA_KEY, delta).1;
    WordIsBytes(c1, 235);
    WordIsBytes(c2, 199);
    WordIsBytes(c2, 179);
    if calibration.fdtOffset != 0 {
      var value := WordAt(c2, 179) / 0x100 * 0x100 + calibration.fdtOffset + 8;
      ReplaceAndRead(c2, 157, 201, FDT_OFFSET_KEY, value, 177);
      WordIsBytes(Replace(c2, 157, 201, FDT_OFFSET_KEY, value).1, 179);
    }
  }

  lemma GenerateReplaces(base: seq<Byte>, calibration: Calibration)
    requires Config(base) && calibration.diff <= 113 && calibration.fdtOffset <= 3
    requires Section(base, 5, 6) == (157, 201) && Section(base, 9, 10) == (229, 253) && Generate(base, calibration).Ok?
    ensures var c1 := Replace(Resealed(base), 229, 253, IMAGE_TCODE_KEY, calibration.tcode).1;
      var c2 := Replace(c1, 157, 201, FDT_DELTA_KEY, calibration.diff * 256 + 0x80).1;
      Ok(Generate(base, calibration).value) == ReplaceOffset(c2, 157, 201, calibration.fdtOffset)
  {
    hide WordSum, Checksum, Resealed, Replace, ReplaceOffset, Section;
  }

  /** Every accepted OTP yields exactly these bytes, and the last word brings the word sum to 0x5a5b. */
  lemma GeneratedBytes(source: Byte, redundant: Byte, encoded: Byte)
    requires DecodeCalibration(source, redundant, encoded).Ok?
    ensures var calibration := DecodeCalibration(source, redundant, encoded).value;
      && calibration.diff <= 113 && calibration.fdtOffset <= 3 && Apart(Base())
      && var r := Generate(Base(), calibration);
         r.Ok? && ConfiguredBytes(r.value, calibration) && Config(r.value) && WordSum(r.value) == 0x5a5b
  {
    EveryOtpIsConfigured(source, redundant, encoded);
    Sections();
    hide Base, Generate, Holds, DecodeCalibration, WordSum, Checksum, Resealed, Replace, ReplaceOffset, ConfiguredBytes,
      Section;
    GenerateReplaces(Base(), DecodeCalibration(source, redundant, encoded).value);
    ThreeReplacements(DecodeCalibration(source, redundant, encoded).value);
  }
}
