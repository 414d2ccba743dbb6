/**
 The two bitwise CRC-32 loops of the repository: CRC-32/MPEG-2 (ISO/IEC 13818-1 Annex A), most significant bit first,
 guards firmware blobs and stored template nodes; CRC-32/ISO-HDLC (IEEE 802.3 section 3.2.9), least significant bit
 first, guards raw templates.

 The loops work on 32-bit words.  For the proofs a word is also viewed as its bits, the outgoing bit first: the top bit
 for MPEG-2 and the low bit for ISO-HDLC.  In that order `crc << 1` and `crc >> 1` are the same shift, and 0x04c11db7
 read from the top and 0xedb88320 read from the bottom are the same polynomial, so both loops are one.
 */
module Crc {
  import opened Bytes
  import opened BitVectors
  import opened ShiftRegister

  datatype Kind = Mpeg2 | IsoHdlc

  // ---- the loops on words ---------------------------------------------------------------------------------------

  /** The polynomial as either loop writes it. */
  function Poly(kind: Kind): bv32 {
    if kind.Mpeg2? then 0x04c1_1db7 else 0xedb8_8320
  }

  /** One turn of the inner loop. */
  function WordStep(kind: Kind, w: bv32): bv32 {
    var next := Next(kind.Mpeg2?, w);
    if Out(kind.Mpeg2?, w) then Xored(next, Poly(kind)) else next
  }

  function WordSteps(kind: Kind, w: bv32, count: nat): bv32
    decreases count
  {
    if count == 0 then w else WordSteps(kind, WordStep(kind, w), count - 1)
  }

  /** A message byte at the outgoing end of a word. */
  function EntryWord(kind: Kind, b: Byte): bv32 {
    if kind.Mpeg2? then ((b as bv8) as bv32) << 24 else (b as bv8) as bv32
  }

  function WordFeed(kind: Kind, w: bv32, b: Byte): bv32 {
    WordSteps(kind, Xored(w, EntryWord(kind, b)), 8)
  }

  function WordRun(kind: Kind, w: bv32, data: seq<Byte>): bv32
    decreases |data|
  {
    if data == [] then w else WordRun(kind, WordFeed(kind, w, data[0]), data[1..])
  }

  /** ISO-HDLC complements the result. */
  function Finished(kind: Kind, w: bv32): bv32 {
    if kind.Mpeg2? then w else !w
  }

  const START: bv32 := 0xffff_ffff

  function Checksum(kind: Kind, data: seq<Byte>): U32 {
    Finished(kind, WordRun(kind, START, data)) as int
  }

  lemma {:induction false} WordStepsLast(kind: Kind, w: bv32, count: nat)
    ensures WordSteps(kind, w, count + 1) == WordStep(kind, WordSteps(kind, w, count))
    decreases count
  {
    hide WordStep;
    if count == 0 {
      assert WordSteps(kind, w, 1) == WordSteps(kind, WordStep(kind, w), 0);
    } else {
      WordStepsLast(kind, WordStep(kind, w), count - 1);
    }
  }

  lemma {:induction false} WordRunNext(kind: Kind, w: bv32, data: seq<Byte>, i: nat)
    requires i < |data|
    ensures WordRun(kind, w, data[..i + 1]) == WordFeed(kind, WordRun(kind, w, data[..i]), data[i])
    decreases i
  {
    hide WordFeed;
    if i == 0 {
      assert data[..1] == [data[0]] && [data[0]][1..] == [];
    } else {
      assert data[..i + 1][1..] == data[1..][..i] && data[..i][1..] == data[1..][..i - 1];
      WordRunNext(kind, WordFeed(kind, w, data[0]), data[1..], i - 1);
    }
  }

  /** One byte of the loop that guards blobs and nodes. */
  method FeedMpeg2(crc: bv32, b: Byte) returns (fed: bv32)
    ensures fed == WordFeed(Mpeg2, crc, b)
  {
    hide WordStep;
    fed := crc ^ (((b as bv8) as bv32) << 24);
    ghost var entered := fed;
    for bit := 0 to 8
      invariant fed == WordSteps(Mpeg2, entered, bit)
    {
      WordStepsLast(Mpeg2, entered, bit);
      ShiftLeftStep(fed);
      fed := if fed & 0x8000_0000 != 0 then (fed << 1) ^ 0x04c1_1db7 else fed << 1;
    }
  }

  lemma ShiftLeftStep(w: bv32)
    ensures WordStep(Mpeg2, w) == if w & 0x8000_0000 != 0 then (w << 1) ^ 0x04c1_1db7 else w << 1
  {}

  method Crc32Mpeg2(data: seq<Byte>) returns (crc: U32)
    ensures crc == Checksum(Mpeg2, data)
  {
    hide WordFeed, WordRun;
    var register: bv32 := 0xffff_ffff;
    EmptyRun(Mpeg2);
    for i := 0 to |data|
      invariant register == WordRun(Mpeg2, START, data[..i])
    {
      WordRunNext(Mpeg2, START, data, i);
      register := FeedMpeg2(register, data[i]);
    }
    assert data[..|data|] == data;
    crc := register as int;
  }

  lemma EmptyRun(kind: Kind)
    ensures WordRun(kind, START, []) == START
  {}

  /** One byte of the loop that guards raw templates; the polynomial is masked instead of chosen. */
  method FeedIsoHdlc(crc: bv32, b: Byte) returns (fed: bv32)
    ensures fed == WordFeed(IsoHdlc, crc, b)
  {
    hide WordStep;
    fed := crc ^ ((b as bv8) as bv32);
    ghost var entered := fed;
    for bit := 0 to 8
      invariant fed == WordSteps(IsoHdlc, entered, bit)
    {
      WordStepsLast(IsoHdlc, entered, bit);
      fed := StepIsoHdlc(fed);
    }
  }

  method StepIsoHdlc(crc: bv32) returns (stepped: bv32)
    ensures stepped == WordStep(IsoHdlc, crc)
  {
    var mask: bv32 := 0 - (crc & 1);
    LowBit(crc);
    MaskOf(crc & 1);
    XorZero(crc >> 1);
    stepped := (crc >> 1) ^ (0xedb8_8320 & mask);
  }

  method RawTemplateCrc32(payload: seq<Byte>) returns (crc: U32)
    ensures crc == Checksum(IsoHdlc, payload)
  {
    hide WordFeed, WordRun;
    var register: bv32 := 0xffff_ffff;
    EmptyRun(IsoHdlc);
    for i := 0 to |payload|
      invariant register == WordRun(IsoHdlc, START, payload[..i])
    {
      WordRunNext(IsoHdlc, START, payload, i);
      register := FeedIsoHdlc(register, payload[i]);
    }
    assert payload[..|payload|] == payload;
    crc := Complement(register);
  }

  method Complement(w: bv32) returns (crc: U32)
    ensures crc == Finished(IsoHdlc, w) as int
  {
    crc := (!w) as int;
  }

  // ---- a word as its bits ---------------------------------------------------------------------------------------

  type Register = s: seq<bool> | |s| == 32 witness Flags(32, false)

  function Flags(n: nat, value: bool): (s: seq<bool>)
    ensures |s| == n && forall i :: 0 <= i < n ==> s[i] == value
  {
    seq(n, _ => value)
  }

  /** 0x04c1_1db7 from the top bit down, which is 0xedb8_8320 from the low bit up. */
  const POLYNOMIAL: Register := [
    false, false, false, false, false, true, false, false, true, true, false, false, false, false, false, true,
    false, false, false, true, true, true, false, true, true, false, true, true, false, true, true, true]

  function Xor(a: Register, b: Register): Register {
    seq(32, i requires 0 <= i < 32 => a[i] != b[i])
  }

  /** The register after `count` plain shifts. */
  function Shift(s: Register, count: nat): Register
    requires count <= 32
  {
    s[count..] + Flags(count, false)
  }

  /** One turn of the inner loop. */
  function Step(s: Register): Register {
    if s[0] then Xor(Shift(s, 1), POLYNOMIAL) else Shift(s, 1)
  }

  function Steps(s: Register, count: nat): Register
    decreases count
  {
    if count == 0 then s else Steps(Step(s), count - 1)
  }

  /** A word as a register. */
  function View(kind: Kind, w: bv32): Register {
    WordBits(kind.Mpeg2?, w, 32)
  }

  /** The bits of a message byte in the order the loop consumes them. */
  function Octet(kind: Kind, b: Byte): (s: seq<bool>)
    ensures |s| == 8
  {
    WordBits(kind.Mpeg2?, EntryWord(kind, b), 8)
  }

  /** XORs one message byte into the outgoing end of the register and runs the inner loop over it. */
  function Feed(kind: Kind, s: Register, b: Byte): Register {
    var octet := Octet(kind, b);
    Steps(Xor(s, octet + Flags(24, false)), |octet|)
  }

  function Run(kind: Kind, s: Register, data: seq<Byte>): Register
    decreases |data|
  {
    if data == [] then s else Run(kind, Feed(kind, s, data[0]), data[1..])
  }

  // ---- the two views agree --------------------------------------------------------------------------------------

  lemma TopHalf()
    ensures WordBits(true, 0x04c1_1db7, 32) == POLYNOMIAL[..16] + WordBits(true, 0x1db7_0000, 16)
  {
    hide WordBits;
    PeelLeft(0x04c11db7, 0x4c11db70, 28);
    PeelLeft(0x4c11db70, 0xc11db700, 24);
    PeelLeft(0xc11db700, 0x11db7000, 20);
    PeelLeft(0x11db7000, 0x1db70000, 16);
  }

  lemma TopRest()
    ensures WordBits(true, 0x1db7_0000, 16) == POLYNOMIAL[16..]
  {
    hide WordBits;
    PeelLeft(0x1db70000, 0xdb700000, 12);
    PeelLeft(0xdb700000, 0xb7000000, 8);
    PeelLeft(0xb7000000, 0x70000000, 4);
    PeelLeft(0x70000000, 0x00000000, 0);
    assert WordBits(true, 0, 0) == [];
  }

  lemma BottomHalf()
    ensures WordBits(false, 0xedb8_8320, 32) == POLYNOMIAL[..16] + WordBits(false, 0x0000_edb8, 16)
  {
    hide WordBits;
    PeelRight(0xedb88320, 0x0edb8832, 28);
    PeelRight(0x0edb8832, 0x00edb883, 24);
    PeelRight(0x00edb883, 0x000edb88, 20);
    PeelRight(0x000edb88, 0x0000edb8, 16);
  }

  lemma BottomRest()
    ensures WordBits(false, 0x0000_edb8, 16) == POLYNOMIAL[16..]
  {
    hide WordBits;
    PeelRight(0x0000edb8, 0x00000edb, 12);
    PeelRight(0x00000edb, 0x000000ed, 8);
    PeelRight(0x000000ed, 0x0000000e, 4);
    PeelRight(0x0000000e, 0x00000000, 0);
    assert WordBits(false, 0, 0) == [];
  }

  lemma Halves(s: Register)
    ensures s[..16] + s[16..] == s
  {}

  /** Both loops use the same polynomial. */
  lemma PolynomialBits(kind: Kind)
    ensures View(kind, Poly(kind)) == POLYNOMIAL
  {
    hide WordBits;
    TopHalf();
    TopRest();
    BottomHalf();
    BottomRest();
    Halves(POLYNOMIAL);
  }

  lemma ViewXor(kind: Kind, a: bv32, b: bv32)
    ensures View(kind, Xored(a, b)) == Xor(View(kind, a), View(kind, b))
  {
    hide Xored, WordBits;
    BitsXor(kind.Mpeg2?, a, b, 32);
  }

  lemma ViewNext(kind: Kind, w: bv32)
    ensures View(kind, Next(kind.Mpeg2?, w)) == Shift(View(kind, w), 1) && View(kind, w)[0] == Out(kind.Mpeg2?, w)
  {
    hide Out, Next;
    BitsNext(kind.Mpeg2?, w);
    assert Flags(1, false) == [false];
  }

  /** One turn of the word loop is one turn of the bit loop. */
  lemma StepBits(kind: Kind, w: bv32)
    ensures View(kind, WordStep(kind, w)) == Step(View(kind, w))
  {
    hide Out, Next, Poly, Xored, View, Shift, Xor;
    ViewNext(kind, w);
    PolynomialBits(kind);
    ViewXor(kind, Next(kind.Mpeg2?, w), Poly(kind));
  }

  lemma {:induction false} StepsBits(kind: Kind, w: bv32, count: nat)
    ensures View(kind, WordSteps(kind, w, count)) == Steps(View(kind, w), count)
    decreases count
  {
    hide WordStep, Step, View;
    if count > 0 {
      StepBits(kind, w);
      StepsBits(kind, WordStep(kind, w), count - 1);
    }
  }

  lemma EntryOut(kind: Kind, b: Byte)
    ensures Shifted(kind.Mpeg2?, EntryWord(kind, b), 8) == 0
  {
    hide Shifted;
    ShiftedByte(kind.Mpeg2?, EntryWord(kind, b));
    ByteLeaves(b as bv8);
  }

  /** A byte enters at the first eight bits. */
  lemma EntryBits(kind: Kind, b: Byte)
    ensures View(kind, EntryWord(kind, b)) == Octet(kind, b) + Flags(24, false)
  {
    hide EntryWord, WordBits, Shifted;
    EntryOut(kind, b);
    BitsSplit(kind.Mpeg2?, EntryWord(kind, b), 8, 24);
    ZeroBits(kind.Mpeg2?, 24);
    assert WordBits(kind.Mpeg2?, 0, 24) == Flags(24, false);
  }

  lemma FeedBits(kind: Kind, w: bv32, b: Byte)
    ensures View(kind, WordFeed(kind, w, b)) == Feed(kind, View(kind, w), b)
  {
    hide EntryWord, View, Steps, WordSteps, Xored, Xor, Octet;
    EntryBits(kind, b);
    ViewXor(kind, w, EntryWord(kind, b));
    StepsBits(kind, Xored(w, EntryWord(kind, b)), 8);
  }

  /** The word loop over a message is the bit loop over it. */
  lemma {:induction false} RunBits(kind: Kind, w: bv32, data: seq<Byte>)
    ensures View(kind, WordRun(kind, w, data)) == Run(kind, View(kind, w), data)
    decreases |data|
  {
    hide View, Feed, WordFeed;
    if data != [] {
      FeedBits(kind, w, data[0]);
      RunBits(kind, WordFeed(kind, w, data[0]), data[1..]);
    }
  }

  lemma NotInjective(a: bv32, b: bv32)
    requires !a == !b
    ensures a == b
  {}

  /** Equal checksums come from equal words. */
  lemma ChecksumFixesWord(kind: Kind, a: seq<Byte>, b: seq<Byte>)
    requires Checksum(kind, a) == Checksum(kind, b)
    ensures WordRun(kind, START, a) == WordRun(kind, START, b)
  {
    hide WordRun, Finished;
    FinishedInjective(kind, WordRun(kind, START, a), WordRun(kind, START, b));
  }

  lemma FinishedInjective(kind: Kind, a: bv32, b: bv32)
    requires Finished(kind, a) as int == Finished(kind, b) as int
    ensures a == b
  {
    IntInjective(Finished(kind, a), Finished(kind, b));
    if kind.IsoHdlc? {
      NotInjective(a, b);
    }
  }

  /** Equal checksums come from equal registers. */
  lemma ChecksumFixesRegister(kind: Kind, a: seq<Byte>, b: seq<Byte>)
    requires Checksum(kind, a) == Checksum(kind, b)
    ensures Run(kind, View(kind, START), a) == Run(kind, View(kind, START), b)
  {
    ChecksumFixesWord(kind, a, b);
    hide *;
    RunBits(kind, START, a);
    RunBits(kind, START, b);
  }

  // ---- messages -------------------------------------------------------------------------------------------------

  lemma {:induction false} RunAppend(kind: Kind, s: Register, front: seq<Byte>, back: seq<Byte>)
    ensures Run(kind, s, front + back) == Run(kind, Run(kind, s, front), back)
    decreases |front|
  {
    if front == [] {
      assert front + back == back;
    } else {
      assert (front + back)[1..] == front[1..] + back;
      RunAppend(kind, Feed(kind, s, front[0]), front[1..], back);
    }
  }

  // ---- every bit step can be undone -----------------------------------------------------------------------------

  lemma XorCancels(a: Register, b: Register, c: Register)
    requires Xor(a, c) == Xor(b, c)
    ensures a == b
  {
    forall i | 0 <= i < 32
      ensures a[i] == b[i]
    {
      assert Xor(a, c)[i] == Xor(b, c)[i];
    }
  }

  /** The polynomial is odd, so the last bit of the result tells whether it was applied. */
  lemma StepInjective(a: Register, b: Register)
    requires Step(a) == Step(b)
    ensures a == b
  {
    assert Step(a)[31] == a[0] && Step(b)[31] == b[0];
    if a[0] {
      XorCancels(Shift(a, 1), Shift(b, 1), POLYNOMIAL);
    }
    forall i | 1 <= i < 32
      ensures a[i] == b[i]
    {
      assert Shift(a, 1)[i - 1] == Shift(b, 1)[i - 1];
    }
  }

  lemma {:induction false} StepsInjective(a: Register, b: Register, count: nat)
    requires Steps(a, count) == Steps(b, count)
    ensures a == b
    decreases count
  {
    if count > 0 {
      StepsInjective(Step(a), Step(b), count - 1);
      StepInjective(a, b);
    }
  }

  /** Reading the same bytes never merges two different registers. */
  lemma {:induction false} RunInjective(kind: Kind, a: Register, b: Register, data: seq<Byte>)
    requires Run(kind, a, data) == Run(kind, b, data)
    ensures a == b
    decreases |data|
  {
    if data != [] {
      RunInjective(kind, Feed(kind, a, data[0]), Feed(kind, b, data[0]), data[1..]);
      var entry := Octet(kind, data[0]) + Flags(24, false);
      StepsInjective(Xor(a, entry), Xor(b, entry), |Octet(kind, data[0])|);
      XorCancels(a, b, entry);
    }
  }

  // ---- up to four message bytes enter as one word ---------------------------------------------------------------

  lemma StepLinear(s: Register, d: Register)
    requires !d[0]
    ensures Step(Xor(s, d)) == Xor(Step(s), Shift(d, 1))
  {}

  lemma ShiftTwice(d: Register, count: nat)
    requires 0 < count <= 32
    ensures Shift(Shift(d, 1), count - 1) == Shift(d, count)
  {}

  /** A difference whose outgoing bits are clear only shifts while the register steps. */
  lemma {:induction false} StepsLinear(s: Register, d: Register, count: nat)
    requires count <= 32 && forall i :: 0 <= i < count ==> !d[i]
    ensures Steps(Xor(s, d), count) == Xor(Steps(s, count), Shift(d, count))
    decreases count
  {
    if count == 0 {
      assert Shift(d, 0) == d;
    } else {
      StepLinear(s, d);
      StepsLinear(Step(s), Shift(d, 1), count - 1);
      ShiftTwice(d, count);
    }
  }

  /** The bits of `data` in consumption order. */
  function Stream(kind: Kind, data: seq<Byte>): (s: seq<bool>)
    ensures |s| == 8 * |data|
    decreases |data|
  {
    if data == [] then [] else Octet(kind, data[0]) + Stream(kind, data[1..])
  }

  function Entry(kind: Kind, data: seq<Byte>): Register
    requires |data| <= 4
  {
    Stream(kind, data) + Flags(32 - 8 * |data|, false)
  }

  lemma {:induction false} StepsCompose(s: Register, m: nat, n: nat)
    ensures Steps(Steps(s, m), n) == Steps(s, m + n)
    decreases m
  {
    if m > 0 {
      StepsCompose(Step(s), m - 1, n);
    }
  }

  lemma XorJoin(s: Register, octet: seq<bool>, rest: Register)
    requires |octet| == 8
    ensures Xor(Xor(s, octet + Flags(24, false)), Flags(8, false) + rest[..24]) == Xor(s, octet + rest[..24])
  {}

  lemma EntrySplit(kind: Kind, data: seq<Byte>)
    requires 0 < |data| <= 4
    ensures Entry(kind, data) == Octet(kind, data[0]) + Entry(kind, data[1..])[..24]
    ensures Shift(Flags(8, false) + Entry(kind, data[1..])[..24], 8) == Entry(kind, data[1..])
  {
    var rest := Entry(kind, data[1..]);
    assert rest[..24] == Stream(kind, data[1..]) + Flags(32 - 8 * |data|, false);
  }

  /** XORing the remaining bytes after a byte was fed equals XORing them in before it. */
  lemma EnterEarly(kind: Kind, s: Register, data: seq<Byte>)
    requires 0 < |data| <= 4
    ensures Xor(Feed(kind, s, data[0]), Entry(kind, data[1..])) == Steps(Xor(s, Entry(kind, data)), |Octet(kind, data[0])|)
  {
    var entered := Xor(s, Octet(kind, data[0]) + Flags(24, false));
    var rest := Entry(kind, data[1..]);
    EntrySplit(kind, data);
    XorJoin(s, Octet(kind, data[0]), rest);
    StepsLinear(entered, Flags(8, false) + rest[..24], |Octet(kind, data[0])|);
  }

  lemma EmptyEntry(kind: Kind, s: Register)
    ensures Xor(s, Entry(kind, [])) == s
  {}

  /** Feeding at most four bytes one by one equals XORing them in at once and stepping. */
  lemma {:induction false} ShortRun(kind: Kind, s: Register, data: seq<Byte>, turns: nat)
    requires |data| <= 4 && turns == |Stream(kind, data)|
    ensures Run(kind, s, data) == Steps(Xor(s, Entry(kind, data)), turns)
    decreases |data|
  {
    if data == [] {
      EmptyEntry(kind, s);
    } else {
      var fed, turn := Feed(kind, s, data[0]), |Octet(kind, data[0])|;
      ShortRun(kind, fed, data[1..], turns - turn);
      EnterEarly(kind, s, data);
      StepsCompose(Xor(s, Entry(kind, data)), turn, turns - turn);
    }
  }

  lemma EntryWordInjective(kind: Kind, a: Byte, b: Byte)
    requires EntryWord(kind, a) == EntryWord(kind, b)
    ensures a == b
  {
    WideInjective(a as bv8, b as bv8);
    ByteRoundTrip(a);
    ByteRoundTrip(b);
  }

  lemma OctetInjective(kind: Kind, a: Byte, b: Byte)
    requires Octet(kind, a) == Octet(kind, b)
    ensures a == b
  {
    hide EntryWord, WordBits, Shifted;
    EntryOut(kind, a);
    EntryOut(kind, b);
    BitsInjective(kind.Mpeg2?, EntryWord(kind, a), EntryWord(kind, b), 8);
    EntryWordInjective(kind, a, b);
  }

  lemma {:induction false} StreamInjective(kind: Kind, a: seq<Byte>, b: seq<Byte>)
    requires |a| == |b| && Stream(kind, a) == Stream(kind, b)
    ensures a == b
    decreases |a|
  {
    if a != [] {
      assert Stream(kind, a)[..8] == Octet(kind, a[0]) && Stream(kind, b)[..8] == Octet(kind, b[0]);
      assert Stream(kind, a)[8..] == Stream(kind, a[1..]) && Stream(kind, b)[8..] == Stream(kind, b[1..]);
      OctetInjective(kind, a[0], b[0]);
      StreamInjective(kind, a[1..], b[1..]);
    }
  }

  /** Either CRC tells apart two messages that differ only inside a window of four consecutive bytes. */
  lemma DetectsWindow(kind: Kind, before: seq<Byte>, a: seq<Byte>, b: seq<Byte>, after: seq<Byte>)
    requires |a| == |b| <= 4 && a != b
    ensures Checksum(kind, before + a + after) != Checksum(kind, before + b + after)
  {
    if Checksum(kind, before + a + after) == Checksum(kind, before + b + after) {
      hide Checksum, View;
      var init: Register := View(kind, START);
      ChecksumFixesRegister(kind, before + a + after, before + b + after);
      RunAppend(kind, init, before + a, after);
      RunAppend(kind, init, before + b, after);
      RunAppend(kind, init, before, a);
      RunAppend(kind, init, before, b);
      var s := Run(kind, init, before);
      RunInjective(kind, Run(kind, s, a), Run(kind, s, b), after);
      SameRun(kind, s, a, b);
    }
  }

  lemma EntryInjective(kind: Kind, a: seq<Byte>, b: seq<Byte>)
    requires |a| == |b| <= 4 && Entry(kind, a) == Entry(kind, b)
    ensures a == b
  {
    assert Stream(kind, a) == Entry(kind, a)[..8 * |a|] && Stream(kind, b) == Entry(kind, b)[..8 * |a|];
    StreamInjective(kind, a, b);
  }

  lemma XorSymmetric(a: Register, b: Register)
    ensures Xor(a, b) == Xor(b, a)
  {}

  lemma SameRun(kind: Kind, s: Register, a: seq<Byte>, b: seq<Byte>)
    requires |a| == |b| <= 4 && Run(kind, s, a) == Run(kind, s, b)
    ensures a == b
  {
    ShortRun(kind, s, a, |Stream(kind, a)|);
    ShortRun(kind, s, b, |Stream(kind, b)|);
    var ea, eb := Entry(kind, a), Entry(kind, b);
    StepsInjective(Xor(s, ea), Xor(s, eb), |Stream(kind, a)|);
    XorSymmetric(s, ea);
    XorSymmetric(s, eb);
    XorCancels(ea, eb, s);
    EntryInjective(kind, a, b);
  }

  /** The two byte strings differ, and only inside the four bytes from `at` on. */
  ghost predicate Altered(a: seq<Byte>, b: seq<Byte>, at: nat) {
    |a| == |b| && a != b && forall i :: 0 <= i < |a| && (i < at || i >= at + 4) ==> a[i] == b[i]
  }

  lemma Differ(a: seq<Byte>, b: seq<Byte>) returns (i: nat)
    requires |a| == |b| && a != b
    ensures i < |a| && a[i] != b[i]
  {
    i :| i < |a| && a[i] != b[i];
  }

  lemma Cut(s: seq<Byte>, from: nat, end: nat)
    requires from <= end <= |s|
    ensures s == s[..from] + s[from..end] + s[end..]
  {}

  lemma AlteredChecksum(kind: Kind, a: seq<Byte>, b: seq<Byte>, at: nat)
    requires Altered(a, b, at)
    ensures Checksum(kind, a) != Checksum(kind, b)
  {
    hide Checksum;
    var i := Differ(a, b);
    var end := if at + 4 < |a| then at + 4 else |a|;
    Cut(a, at, end);
    Cut(b, at, end);
    assert b[..at] == a[..at] && b[end..] == a[end..];
    DetectsWindow(kind, a[..at], a[at..end], b[at..end], a[end..]);
  }

  /** The part of both strings from `from` to `end`, when it differs at all, differs inside the same window. */
  lemma AlteredPart(a: seq<Byte>, b: seq<Byte>, at: nat, from: nat, end: nat)
    requires Altered(a, b, at) && from <= end <= |a| && a[from..end] != b[from..end]
    ensures at + 4 > from && Altered(a[from..end], b[from..end], if at < from then 0 else at - from)
  {
    var i := Differ(a[from..end], b[from..end]);
    assert a[from + i] != b[from + i];
  }
}
