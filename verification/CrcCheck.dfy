/** The two checksums on the bytes "123456789", the check values of the CRC catalogue, and on no bytes at all. */
module CrcCheck {
  import opened Bytes
  import opened Crc
  import opened ShiftRegister

  const DIGITS: seq<Byte> := [0x31, 0x32, 0x33, 0x34, 0x35, 0x36, 0x37, 0x38, 0x39]

  /** Eight turns of the inner loop. */
  function EightTurns(kind: Kind, w: bv32): bv32 {
    var fourth := WordStep(kind, WordStep(kind, WordStep(kind, WordStep(kind, w))));
    WordStep(kind, WordStep(kind, WordStep(kind, WordStep(kind, fourth))))
  }

  lemma TurnsOfByte(kind: Kind, w: bv32)
    ensures WordSteps(kind, w, 8) == EightTurns(kind, w)
  {
    hide WordStep;
    var n: nat := 8;
    var second := WordStep(kind, WordStep(kind, w));
    var fourth := WordStep(kind, WordStep(kind, second));
    var sixth := WordStep(kind, WordStep(kind, fourth));
    assert WordSteps(kind, w, n) == WordSteps(kind, WordStep(kind, w), n - 1) == WordSteps(kind, second, n - 2);
    assert WordSteps(kind, second, n - 2) == WordSteps(kind, WordStep(kind, second), n - 3) == WordSteps(kind, fourth, n - 4);
    assert WordSteps(kind, fourth, n - 4) == WordSteps(kind, WordStep(kind, fourth), n - 5) == WordSteps(kind, sixth, n - 6);
    assert WordSteps(kind, sixth, n - 6) == WordSteps(kind, WordStep(kind, sixth), n - 7);
  }

  /** The register behind the first `i + 1` digits, from the one behind the first `i`. */
  lemma Digit(kind: Kind, i: nat, w: bv32, entry: bv32, z: bv32)
    requires i < 9 && WordRun(kind, START, DIGITS[..i]) == w
    requires EntryWord(kind, DIGITS[i]) == entry && EightTurns(kind, w ^ entry) == z
    ensures WordRun(kind, START, DIGITS[..i + 1]) == z
  {
    hide WordRun, WordSteps, EightTurns, EntryWord;
    WordRunNext(kind, START, DIGITS, i);
    TurnsOfByte(kind, w ^ entry);
  }

  lemma Mpeg2Half()
    ensures WordRun(Mpeg2, START, DIGITS[..5]) == 0xbd9a_b747
  {
    hide WordRun, WordSteps;
    EmptyRun(Mpeg2);
    assert DIGITS[..0] == [];
    Digit(Mpeg2, 0, 0xffff_ffff, 0x3100_0000, 0x9efb_cf93);
    Digit(Mpeg2, 1, 0x9efb_cf93, 0x3200_0000, 0x3fec_5e6a);
    Digit(Mpeg2, 2, 0x3fec_5e6a, 0x3300_0000, 0xd952_f164);
    Digit(Mpeg2, 3, 0xd952_f164, 0x3400_0000, 0xa695_c4aa);
    Digit(Mpeg2, 4, 0xa695_c4aa, 0x3500_0000, 0xbd9a_b747);
  }

  lemma Mpeg2Digits()
    ensures WordRun(Mpeg2, START, DIGITS) == 0x0376_e6e7
  {
    hide WordRun, WordSteps;
    Mpeg2Half();
    Digit(Mpeg2, 5, 0xbd9a_b747, 0x3600_0000, 0xd8f0_6c8f);
    Digit(Mpeg2, 6, 0xd8f0_6c8f, 0x3700_0000, 0x0d8a_14c4);
    Digit(Mpeg2, 7, 0x0d8a_14c4, 0x3800_0000, 0x49e3_c2fb);
    Digit(Mpeg2, 8, 0x49e3_c2fb, 0x3900_0000, 0x0376_e6e7);
    assert DIGITS[..9] == DIGITS;
  }

  lemma IsoHdlcHalf()
    ensures WordRun(IsoHdlc, START, DIGITS[..5]) == 0x340a_c5e3
  {
    hide WordRun, WordSteps;
    EmptyRun(IsoHdlc);
    assert DIGITS[..0] == [];
    Digit(IsoHdlc, 0, 0xffff_ffff, 0x0000_0031, 0x7c23_1048);
    Digit(IsoHdlc, 1, 0x7c23_1048, 0x0000_0032, 0xb0ac_bb32);
    Digit(IsoHdlc, 2, 0xb0ac_bb32, 0x0000_0033, 0x77b7_9c2d);
    Digit(IsoHdlc, 3, 0x77b7_9c2d, 0x0000_0034, 0x641c_1f5c);
    Digit(IsoHdlc, 4, 0x641c_1f5c, 0x0000_0035, 0x340a_c5e3);
  }

  lemma IsoHdlcDigits()
    ensures WordRun(IsoHdlc, START, DIGITS) == 0x340b_c6d9
  {
    hide WordRun, WordSteps;
    IsoHdlcHalf();
    Digit(IsoHdlc, 5, 0x340a_c5e3, 0x0000_0036, 0xf68d_2c9e);
    Digit(IsoHdlc, 6, 0xf68d_2c9e, 0x0000_0037, 0xaffc_9660);
    Digit(IsoHdlc, 7, 0xaffc_9660, 0x0000_0038, 0x651f_2550);
    Digit(IsoHdlc, 8, 0x651f_2550, 0x0000_0039, 0x340b_c6d9);
    assert DIGITS[..9] == DIGITS;
  }
  /** The check values of both checksums. */
  lemma CheckValues()
    ensures Checksum(Mpeg2, DIGITS) == 0x0376_e6e7 && Checksum(IsoHdlc, DIGITS) == 0xcbf4_3926
    ensures Checksum(Mpeg2, []) == 0xffff_ffff && Checksum(IsoHdlc, []) == 0
  {
    hide WordRun;
    Mpeg2Digits();
    IsoHdlcDigits();
    EmptyRun(Mpeg2);
    EmptyRun(IsoHdlc);
  }
}
