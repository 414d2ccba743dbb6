/** Generation of the chip configuration: keyed value replacement under a word-sum checksum, and calibration from OTP. */
module ChipConfig {
  import opened Wrappers
  import opened Arithmetic
  import opened Bytes

  const CONFIG_SIZE := 0x100
  const CHECKSUM_AT := 0xfe
  const SUM_TARGET: U16 := 0x5a5b
  const EXPECTED_BASE_CHECKSUM: U16 := 0x0e53
  const IMAGE_TCODE_KEY: U16 := 0x005c
  const FDT_DELTA_KEY: U16 := 0x0082
  const FDT_OFFSET_KEY: U16 := 0x0056

  datatype ConfigError =
    | InvalidCopies(source: Byte, redundant: Byte)
    | InvalidFdtOffset(encoded: Byte)
    | ConfigKeyMissing(key: U16, start: nat, end: nat)
    | UnexpectedBaseChecksum(expected: U16, actual: U16)
    | ChecksumInvariant(expected: U16, actual: U16)

  predicate Config(c: seq<Byte>) {
    |c| == CONFIG_SIZE
  }

  function WordAt(c: seq<Byte>, at: nat): U16
    requires at + 2 <= |c|
  {
    FromLE16(c[at..at + 2])
  }

  // ---- the word sum ---------------------------------------------------------------------------------------------

  /** The wrapping sum of the first `count` little-endian words. */
  function SumWords(c: seq<Byte>, count: nat): U16
    requires 2 * count <= |c|
  {
    if count == 0 then 0 else (SumWords(c, count - 1) + WordAt(c, 2 * (count - 1))) % 0x1_0000
  }

  function WordSum(c: seq<Byte>): U16
    requires Config(c)
  {
    SumWords(c, 128)
  }

  lemma {:induction false} SumOfPrefix(a: seq<Byte>, b: seq<Byte>, count: nat)
    requires 2 * count <= |a| && 2 * count <= |b| && a[..2 * count] == b[..2 * count]
    ensures SumWords(a, count) == SumWords(b, count)
  {
    hide FromLE16;
    if count > 0 {
      assert a[..2 * (count - 1)] == a[..2 * count][..2 * (count - 1)];
      assert b[..2 * (count - 1)] == b[..2 * count][..2 * (count - 1)];
      SumOfPrefix(a, b, count - 1);
      assert a[2 * (count - 1)..2 * (count - 1) + 2] == a[..2 * count][2 * (count - 1)..];
      assert b[2 * (count - 1)..2 * (count - 1) + 2] == b[..2 * count][2 * (count - 1)..];
    }
  }

  /** The word that completes the sum. */
  function Checksum(c: seq<Byte>): U16
    requires Config(c)
  {
    (SUM_TARGET - SumWords(c, 127)) % 0x1_0000
  }

  function Resealed(c: seq<Byte>): (r: seq<Byte>)
    requires Config(c)
    ensures Config(r)
  {
    c[..CHECKSUM_AT] + LE16(Checksum(c))
  }

  /** Resealing completes the sum to its target, and is the only change that does so by the last word alone. */
  lemma ResealedSums(c: seq<Byte>)
    requires Config(c)
    ensures WordSum(Resealed(c)) == SUM_TARGET
    ensures WordSum(c) == SUM_TARGET <==> Resealed(c) == c
  {
    hide FromLE16, LE16, SumWords;
    var r := Resealed(c);
    assert r[..2 * 127] == c[..2 * 127];
    SumOfPrefix(r, c, 127);
    LastWord(r);
    LastWord(c);
    assert r[254..256] == LE16(Checksum(c));
    LE16RoundTrip(Checksum(c));
    assert c == c[..254] + c[254..256];
    if WordSum(c) == SUM_TARGET {
      WordBytes(c[254..256]);
    }
  }

  lemma LastWord(c: seq<Byte>)
    requires Config(c)
    ensures WordSum(c) == (SumWords(c, 127) + WordAt(c, 254)) % 0x1_0000
  {
    hide FromLE16;
  }

  lemma WordBytes(s: seq<Byte>)
    requires |s| == 2
    ensures LE16(FromLE16(s)) == s
  {}

  method RecomputeChecksum(config: array<Byte>) returns (checksum: U16)
    requires config.Length == CONFIG_SIZE
    modifies config
    ensures checksum == Checksum(old(config[..])) && config[..] == Resealed(old(config[..]))
  {
    hide FromLE16, LE16;
    var sum: U16 := 0;
    for word := 0 to 127
      invariant sum == SumWords(config[..], word)
    {
      sum := (sum + WordAt(config[..], 2 * word)) % 0x1_0000;
    }
    checksum := (SUM_TARGET - sum) % 0x1_0000;
    CopyInto(config, CHECKSUM_AT, LE16(checksum));
    assert config[..] == old(config[..])[..CHECKSUM_AT] + LE16(checksum) + old(config[..])[CHECKSUM_AT + 2..];
  }

  method ConfigWordSum(config: seq<Byte>) returns (sum: U16)
    requires Config(config)
    ensures sum == WordSum(config)
  {
    hide FromLE16;
    sum := 0;
    for word := 0 to 128
      invariant sum == SumWords(config, word)
    {
      sum := (sum + WordAt(config, 2 * word)) % 0x1_0000;
    }
  }

  // ---- keyed records --------------------------------------------------------------------------------------------

  /** The first record with the key, in four-byte steps from `offset`. */
  function FindRecord(c: seq<Byte>, offset: nat, end: nat, key: U16): (r: Option<nat>)
    requires end <= |c|
    ensures r.Some? ==> offset <= r.value && r.value + 4 <= end
    decreases end - offset
  {
    if offset + 4 > end then None
    else if WordAt(c, offset) == key then Some(offset)
    else FindRecord(c, offset + 4, end, key)
  }

  /** Where a record may start: in steps of four bytes from `offset`. */
  predicate Slot(offset: nat, i: nat) {
    offset <= i && (i - offset) % 4 == 0
  }

  lemma SlotStep(offset: nat, i: nat)
    ensures Slot(offset, i) <==> i == offset || Slot(offset + 4, i)
  {}

  predicate KeyedAt(c: seq<Byte>, i: nat, key: U16) {
    i + 1 < |c| && (c[i] as int) + 0x100 * c[i + 1] as int == key
  }

  /** The record found is the first one of the section whose first two bytes are the key. */
  lemma {:induction false} FoundExactly(c: seq<Byte>, offset: nat, end: nat, key: U16, at: nat)
    requires end <= |c|
    ensures FindRecord(c, offset, end, key) == Some(at) <==>
      && Slot(offset, at) && at + 4 <= end && KeyedAt(c, at, key)
      && forall i: nat :: Slot(offset, i) && i < at ==> !KeyedAt(c, i, key)
    decreases end - offset
  {
    hide FromLE16, Slot;
    forall i: nat
      ensures Slot(offset, i) <==> i == offset || Slot(offset + 4, i)
      ensures Slot(offset + 4, i) ==> i > offset
    {
      SlotStep(offset, i);
      SlotBound(offset + 4, i);
    }
    if offset + 4 <= end {
      hide KeyedAt;
      FoundExactly(c, offset + 4, end, key, at);
      KeyOfWord(c, offset, key);
    }
  }

  lemma SlotBound(offset: nat, i: nat)
    ensures Slot(offset, i) ==> offset <= i
  {}

  lemma KeyOfWord(c: seq<Byte>, at: nat, key: U16)
    requires at + 2 <= |c|
    ensures KeyedAt(c, at, key) <==> WordAt(c, at) == key
  {
    TwoBytes(c[at..at + 2]);
  }

  function WithValue(c: seq<Byte>, at: nat, value: U16): (r: seq<Byte>)
    requires at + 4 <= |c|
    ensures |r| == |c|
  {
    c[..at + 2] + LE16(value) + c[at + 4..]
  }

  /** The value of the first record with the key. */
  function FindValue(c: seq<Byte>, start: nat, end: nat, key: U16): Option<U16>
    requires end <= |c|
  {
    var found := FindRecord(c, start, end, key);
    if found.Some? then Some(WordAt(c, found.value + 2)) else None
  }

  /** Replacing a keyed value: its old value and the resealed configuration, or an error and no change. */
  function Replace(c: seq<Byte>, start: nat, end: nat, key: U16, value: U16): (r: (Result<U16, ConfigError>, seq<Byte>))
    requires Config(c) && end <= CONFIG_SIZE
    ensures Config(r.1)
  {
    var found := FindRecord(c, start, end, key);
    if found.None? then (Err(ConfigKeyMissing(key, start, end)), c)
    else (Ok(WordAt(c, found.value + 2)), Resealed(WithValue(c, found.value, value)))
  }

  method ReplaceConfigValue(config: array<Byte>, start: nat, end: nat, key: U16, value: U16)
    returns (r: Result<U16, ConfigError>)
    requires config.Length == CONFIG_SIZE && end <= CONFIG_SIZE
    modifies config
    ensures (r, config[..]) == Replace(old(config[..]), start, end, key, value)
  {
    hide FromLE16, LE16, Resealed;
    var offset := start;
    while offset + 4 <= end
      invariant config[..] == old(config[..])
      invariant FindRecord(config[..], offset, end, key) == FindRecord(config[..], start, end, key)
      decreases end - offset
    {
      if WordAt(config[..], offset) == key {
        var oldValue := WordAt(config[..], offset + 2);
        CopyInto(config, offset + 2, LE16(value));
        var checksum := RecomputeChecksum(config);
        return Ok(oldValue);
      }
      offset := offset + 4;
    }
    return Err(ConfigKeyMissing(key, start, end));
  }

  method FindConfigValue(config: seq<Byte>, start: nat, end: nat, key: U16) returns (value: Option<U16>)
    requires Config(config) && end <= CONFIG_SIZE
    ensures value == FindValue(config, start, end, key)
  {
    hide FromLE16;
    var offset := start;
    while offset + 4 <= end
      invariant FindRecord(config, offset, end, key) == FindRecord(config, start, end, key)
      decreases end - offset
    {
      if WordAt(config, offset) == key {
        return Some(WordAt(config, offset + 2));
      }
      offset := offset + 4;
    }
    return None;
  }

  /** A successful replacement leaves the sum at its target; a failed one changes nothing. */
  lemma ReplaceKeepsSum(c: seq<Byte>, start: nat, end: nat, key: U16, value: U16)
    requires Config(c) && end <= CONFIG_SIZE
    ensures var (r, d) := Replace(c, start, end, key, value);
      && (r.Ok? ==> WordSum(d) == SUM_TARGET)
      && (r.Err? ==> d == c)
      && (WordSum(c) == SUM_TARGET ==> WordSum(d) == SUM_TARGET)
  {
    hide WordSum, Resealed;
    var found := FindRecord(c, start, end, key);
    if found.Some? {
      ResealedSums(WithValue(c, found.value, value));
    }
  }

  /** A record in front of the checksum word: only its value and the checksum change, and it reads back. */
  lemma ReplaceTouchesValueAndChecksum(c: seq<Byte>, start: nat, end: nat, key: U16, value: U16, at: nat)
    requires Config(c) && end <= CONFIG_SIZE && FindRecord(c, start, end, key) == Some(at) && at + 4 <= CHECKSUM_AT
    ensures var d := Replace(c, start, end, key, value).1;
      && (forall i :: 0 <= i < CHECKSUM_AT && i != at + 2 && i != at + 3 ==> d[i] == c[i])
      && FindRecord(d, start, end, key) == Some(at) && WordAt(d, at + 2) == value
  {
    hide FromLE16, LE16, Checksum;
    var d := Replace(c, start, end, key, value).1;
    var written := WithValue(c, at, value);
    ValueSlice(c, at, value);
    assert d[at + 2..at + 4] == written[..CHECKSUM_AT][at + 2..at + 4] == written[at + 2..at + 4];
    LE16RoundTrip(value);
    FindUnchanged(c, d, start, end, key, at);
  }

  lemma ValueSlice(c: seq<Byte>, at: nat, value: U16)
    requires at + 4 <= |c|
    ensures WithValue(c, at, value)[at + 2..at + 4] == LE16(value)
  {
    hide LE16;
  }

  lemma {:induction false} FindUnchanged(c: seq<Byte>, d: seq<Byte>, offset: nat, end: nat, key: U16, at: nat)
    requires |c| == |d| && end <= |c| && FindRecord(c, offset, end, key) == Some(at)
    requires forall i :: 0 <= i < at + 2 ==> d[i] == c[i]
    ensures FindRecord(d, offset, end, key) == Some(at)
    decreases end - offset
  {
    hide FromLE16;
    assert c[offset..offset + 2] == d[offset..offset + 2];
    if WordAt(c, offset) != key {
      FindUnchanged(c, d, offset + 4, end, key, at);
    }
  }

  /** What a replaced value reads back as: records that overlap the checksum word lose one or both of their bytes to it. */
  function ReadsBack(c: seq<Byte>, at: nat, value: U16): U16
    requires Config(c) && at + 4 <= CONFIG_SIZE
  {
    if at + 4 <= CHECKSUM_AT then value
    else if at + 4 == CHECKSUM_AT + 1 then value % 0x100 + 0x100 * (Checksum(WithValue(c, at, value)) % 0x100)
    else Checksum(c)
  }

  lemma FrontSlice(c: seq<Byte>, d: seq<Byte>, at: nat)
    requires Config(c) && Config(d) && at + 2 <= CHECKSUM_AT && d[..CHECKSUM_AT] == c[..CHECKSUM_AT]
    ensures d[at..at + 2] == c[at..at + 2]
  {
    assert d[at..at + 2] == d[..CHECKSUM_AT][at..at + 2] && c[at..at + 2] == c[..CHECKSUM_AT][at..at + 2];
  }

  lemma ValueReadsBack(c: seq<Byte>, start: nat, end: nat, key: U16, value: U16, at: nat)
    requires Config(c) && end <= CONFIG_SIZE && FindRecord(c, start, end, key) == Some(at)
    ensures WordAt(Replace(c, start, end, key, value).1, at + 2) == ReadsBack(c, at, value)
  {
    hide FromLE16, SumWords;
    var d, written := Replace(c, start, end, key, value).1, WithValue(c, at, value);
    ValueSlice(c, at, value);
    LE16RoundTrip(value);
    LE16RoundTrip(Checksum(written));
    if at + 4 <= CHECKSUM_AT {
      FrontSlice(written, d, at + 2);
    } else if at + 4 == CHECKSUM_AT + 1 {
      assert d[at + 2..at + 4] == [written[at + 2], LE16(Checksum(written))[0]];
      TwoBytes(d[at + 2..at + 4]);
    } else {
      assert written[..2 * 127] == c[..2 * 127];
      SumOfPrefix(written, c, 127);
      assert d[at + 2..at + 4] == LE16(Checksum(c));
    }
  }

  lemma TwoBytes(s: seq<Byte>)
    requires |s| == 2
    ensures FromLE16(s) == (s[0] as int) + 0x100 * (s[1] as int)
  {}

  /** The exact condition under which one replaced value reads back. */
  lemma ValueKeptExactly(c: seq<Byte>, start: nat, end: nat, key: U16, value: U16, at: nat)
    requires Config(c) && end <= CONFIG_SIZE && FindRecord(c, start, end, key) == Some(at)
    ensures WordAt(Replace(c, start, end, key, value).1, at + 2) == value <==>
      || at + 4 <= CHECKSUM_AT
      || (at + 4 == CHECKSUM_AT + 1 && value / 0x100 == Checksum(WithValue(c, at, value)) % 0x100)
      || (at + 4 == CHECKSUM_AT + 2 && value == Checksum(c))
  {
    hide FindRecord, Checksum, Replace, WithValue, WordAt;
    ValueReadsBack(c, start, end, key, value, at);
  }

  /** Every value reads back if and only if the record lies in front of the checksum word. */
  lemma EveryValueKeptExactly(c: seq<Byte>, start: nat, end: nat, key: U16, at: nat)
    requires Config(c) && end <= CONFIG_SIZE && FindRecord(c, start, end, key) == Some(at)
    ensures (forall value: U16 :: WordAt(Replace(c, start, end, key, value).1, at + 2) == value) <==> at + 4 <= CHECKSUM_AT
  {
    hide FindRecord, Checksum, Replace, WithValue, WordAt;
    forall value: U16
      ensures at + 4 <= CHECKSUM_AT ==> WordAt(Replace(c, start, end, key, value).1, at + 2) == value
    {
      ValueKeptExactly(c, start, end, key, value, at);
    }
    if at + 4 > CHECKSUM_AT {
      var lost := LostValue(c, at);
      ValueKeptExactly(c, start, end, key, lost, at);
    }
  }

  /** A value that a record overlapping the checksum word does not keep. */
  lemma LostValue(c: seq<Byte>, at: nat) returns (value: U16)
    requires Config(c) && CHECKSUM_AT < at + 4 <= CONFIG_SIZE
    ensures at + 4 == CHECKSUM_AT + 1 ==> value / 0x100 != Checksum(WithValue(c, at, value)) % 0x100
    ensures at + 4 == CHECKSUM_AT + 2 ==> value != Checksum(c)
  {
    hide SumWords;
    if at + 4 == CHECKSUM_AT + 1 {
      value := if Checksum(WithValue(c, at, 0)) % 0x100 == 0 then 0x100 else 0;
      assert WithValue(c, at, value)[..2 * 127] == WithValue(c, at, 0)[..2 * 127];
      SumOfPrefix(WithValue(c, at, value), WithValue(c, at, 0), 127);
    } else {
      value := if Checksum(c) == 0 then 1 else 0;
    }
  }

  /** An all-zero table holds the key 0 at 0xfb and at 0xfc; neither record keeps every value. */
  lemma OverlappingRecordsLose()
    ensures var c := Zeros(CONFIG_SIZE);
      && FindRecord(c, 0xfb, 0xff, 0) == Some(0xfb) && FindRecord(c, 0xfc, 0x100, 0) == Some(0xfc)
      && (exists value: U16 :: WordAt(Replace(c, 0xfb, 0xff, 0, value).1, 0xfd) != value)
      && (exists value: U16 :: WordAt(Replace(c, 0xfc, 0x100, 0, value).1, 0xfe) != value)
  {
    var c := Zeros(CONFIG_SIZE);
    assert c[0xfb..0xfd] == [0, 0] && c[0xfc..0xfe] == [0, 0];
    assert WordAt(c, 0xfb) == 0 && WordAt(c, 0xfc) == 0;
    hide Replace, Checksum, SumWords;
    EveryValueKeptExactly(c, 0xfb, 0xff, 0, 0xfb);
    EveryValueKeptExactly(c, 0xfc, 0x100, 0, 0xfc);
  }

  // ---- records do not disturb one another -----------------------------------------------------------------------

  /** A section whose bytes are the same finds the same. */
  lemma {:induction false} FindSame(c: seq<Byte>, d: seq<Byte>, offset: nat, end: nat, key: U16)
    requires |c| == |d| && end <= |c| && forall i :: offset <= i < end ==> d[i] == c[i]
    ensures FindRecord(d, offset, end, key) == FindRecord(c, offset, end, key)
    ensures FindValue(d, offset, end, key) == FindValue(c, offset, end, key)
    decreases end - offset
  {
    hide FromLE16;
    if offset + 4 <= end {
      assert c[offset..offset + 2] == d[offset..offset + 2] && c[offset + 2..offset + 4] == d[offset + 2..offset + 4];
      FindSame(c, d, offset + 4, end, key);
    }
  }

  /** The value of a record with another key, of the same section, changed: the other keys still find the same. */
  lemma {:induction false} FindOther(c: seq<Byte>, d: seq<Byte>, offset: nat, end: nat, key: U16, changed: U16, at: nat)
    requires |c| == |d| && end <= |c| && key != changed && FindRecord(c, offset, end, changed) == Some(at)
    requires forall i :: offset <= i < end && i != at + 2 && i != at + 3 ==> d[i] == c[i]
    ensures FindRecord(d, offset, end, key) == FindRecord(c, offset, end, key)
    ensures FindValue(d, offset, end, key) == FindValue(c, offset, end, key)
    decreases end - offset
  {
    hide FromLE16;
    assert c[offset..offset + 2] == d[offset..offset + 2];
    if WordAt(c, offset) == changed {
      FindSame(c, d, offset + 4, end, key);
    } else {
      assert c[offset + 2..offset + 4] == d[offset + 2..offset + 4];
      FindOther(c, d, offset + 4, end, key, changed, at);
    }
  }

  /** Below the checksum word only the value of the record changed. */
  ghost predicate OnlyValue(c: seq<Byte>, d: seq<Byte>, at: nat) {
    && Config(c) && Config(d) && at + 4 <= CHECKSUM_AT
    && forall i :: 0 <= i < CHECKSUM_AT && i != at + 2 && i != at + 3 ==> d[i] == c[i]
  }

  /** A replacement in front of the checksum word, as its caller sees it afterwards. */
  lemma ReplaceInside(c: seq<Byte>, start: nat, end: nat, key: U16, value: U16)
    requires Config(c) && end <= CHECKSUM_AT && FindRecord(c, start, end, key).Some?
    ensures var at, d := FindRecord(c, start, end, key).value, Replace(c, start, end, key, value).1;
      OnlyValue(c, d, at) && FindRecord(d, start, end, key) == Some(at) && FindValue(d, start, end, key) == Some(value)
  {
    hide FindRecord, Replace;
    ReplaceTouchesValueAndChecksum(c, start, end, key, value, FindRecord(c, start, end, key).value);
  }

  datatype Replacement = Replacement(start: nat, end: nat, key: U16, value: U16)

  function ReplaceAll(c: seq<Byte>, replacements: seq<Replacement>): (d: seq<Byte>)
    requires Config(c) && forall r <- replacements :: r.end <= CONFIG_SIZE
    ensures Config(d)
    decreases |replacements|
  {
    if replacements == [] then c
    else
      var r := replacements[0];
      ReplaceAll(Replace(c, r.start, r.end, r.key, r.value).1, replacements[1..])
  }

  /** The sum survives any sequence of replacements, failing ones included. */
  lemma {:induction false} ReplaceAllKeepsSum(c: seq<Byte>, replacements: seq<Replacement>)
    requires Config(c) && WordSum(c) == SUM_TARGET && forall r <- replacements :: r.end <= CONFIG_SIZE
    ensures WordSum(ReplaceAll(c, replacements)) == SUM_TARGET
    decreases |replacements|
  {
    hide WordSum, Replace;
    if replacements != [] {
      var r := replacements[0];
      ReplaceKeepsSum(c, r.start, r.end, r.key, r.value);
      ReplaceAllKeepsSum(Replace(c, r.start, r.end, r.key, r.value).1, replacements[1..]);
    }
  }

  // ---- calibration ----------------------------------------------------------------------------------------------

  datatype Calibration = Calibration(tcode: U16, diff: U16, fdtOffset: Byte)

  /** The three two-bit copies of the offset; the second one is stored complemented. */
  function Copies(encoded: Byte): (int, int, int) {
    (encoded % 4, 3 - encoded / 4 % 4, encoded / 16 % 4)
  }

  function DecodeFdtOffset(encoded: Byte): Option<Byte> {
    var (a, b, c) := Copies(encoded);
    if a == c || a == b then Some(a) else if b == c then Some(c) else None
  }

  /** Bit `k` of a byte. */
  function Bit(b: Byte, k: nat): int
    requires k < 8
  {
    b / [1, 2, 4, 8, 16, 32, 64, 128][k] % 2
  }

  /**
   The offset is the value that at least two of the copies agree on: bits 0 and 1, the complement of bits 2 and 3, and
   bits 4 and 5.
   */
  lemma FdtOffsetIsMajority(encoded: Byte, value: Byte)
    ensures var a := Bit(encoded, 0) + 2 * Bit(encoded, 1);
      var b := (1 - Bit(encoded, 2)) + 2 * (1 - Bit(encoded, 3));
      var c := Bit(encoded, 4) + 2 * Bit(encoded, 5);
      DecodeFdtOffset(encoded) == Some(value) <==>
        ((a == value && b == value) || (a == value && c == value) || (b == value && c == value))
  {
    CopiesAreBits(encoded);
    hide Copies, Bit;
  }

  lemma TwoBits(n: nat)
    ensures n % 4 == n % 2 + 2 * (n / 2 % 2)
  {}

  lemma CopiesAreBits(encoded: Byte)
    ensures Copies(encoded) == (Bit(encoded, 0) + 2 * Bit(encoded, 1), (1 - Bit(encoded, 2)) + 2 * (1 - Bit(encoded, 3)),
      Bit(encoded, 4) + 2 * Bit(encoded, 5))
  {
    TwoBits(encoded);
    TwoBits(encoded / 4);
    TwoBits(encoded / 16);
    Halves(encoded, 4);
    Halves(encoded, 16);
  }

  lemma Halves(n: nat, d: nat)
    requires d == 4 || d == 16
    ensures n / d / 2 == n / (2 * d)
  {}

  function DecodeCalibration(source: Byte, redundant: Byte, encoded: Byte): Result<Calibration, ConfigError> {
    var copiesAgree := source != 0 && source == redundant;
    :- Need(copiesAgree, InvalidCopies(source, redundant));
    var tcode := (source / 16 + 5) * 16;
    var numerator := (source % 16 + 2) * 100 * 256;
    var diff := numerator / tcode % 0x1_0000 / 0x30;
    var offset := DecodeFdtOffset(encoded);
    if offset.None? then Err(InvalidFdtOffset(encoded)) else Ok(Calibration(tcode, diff, offset.value))
  }

  /** The two calibration values for the two halves of the source byte. */
  function DiffOf(low: nat, tcode: nat): nat
    requires tcode > 0
  {
    (low + 2) * 100 * 256 / tcode / 0x30
  }

  lemma DecodedValues(source: Byte, redundant: Byte, encoded: Byte)
    requires DecodeCalibration(source, redundant, encoded).Ok?
    ensures var r := DecodeCalibration(source, redundant, encoded).value;
      r.tcode == (source / 16 + 5) * 16 && 80 <= r.tcode <= 320 && r.diff == DiffOf(source % 16, r.tcode)
  {
    hide DecodeFdtOffset, DiffOf;
    DiffUnmasked(source % 16, (source / 16 + 5) * 16);
  }

  /** The 16-bit mask between the two divisions is the identity. */
  lemma DiffUnmasked(low: nat, tcode: nat)
    requires low <= 15 && 80 <= tcode
    ensures (low + 2) * 100 * 256 / tcode % 0x1_0000 / 0x30 == DiffOf(low, tcode)
  {
    QuotientBelow((low + 2) * 100 * 256, tcode, 5441);
  }

  /**
   An OTP is accepted exactly when its two copies of the source byte are equal and not zero and the offset has a majority.
   The upper nibble gives `tcode`, and the lower one gives `diff`, a quotient by 48 times `tcode` rounded down.
   */
  lemma CalibrationExactly(source: Byte, redundant: Byte, encoded: Byte)
    ensures var r, offset := DecodeCalibration(source, redundant, encoded), DecodeFdtOffset(encoded);
      && (r.Ok? <==> source != 0 && source == redundant && offset.Some?)
      && (r.Err? ==> r.error == if source != 0 && source == redundant then InvalidFdtOffset(encoded) else InvalidCopies(source, redundant))
      && (r.Ok? ==>
            && r.value.tcode == 16 * (source / 16) + 80 && Some(r.value.fdtOffset) == offset
            && 48 * r.value.tcode * r.value.diff <= 25600 * (source % 16 + 2) < 48 * r.value.tcode * (r.value.diff + 1))
  {
    if DecodeCalibration(source, redundant, encoded).Ok? {
      DecodedValues(source, redundant, encoded);
      NestedQuotient(25600 * (source % 16 + 2), (source / 16 + 5) * 16, 48);
    }
    hide DecodeFdtOffset;
  }

  lemma NestedQuotient(n: nat, d: nat, e: nat)
    requires d > 0 && e > 0
    ensures var q := n / d / e; e * d * q <= n < e * d * (q + 1)
  {
    var m := n / d;
    var q := m / e;
    assert m * d <= n < (m + 1) * d && q * e <= m && m + 1 <= (q + 1) * e;
    MultiplyMonotone(q * e, m, d);
    MultiplyMonotone(m + 1, (q + 1) * e, d);
    assert q * e * d == e * d * q && (q + 1) * e * d == e * d * (q + 1);
  }

  /** Nothing of the source byte is lost: accepted OTPs with the same two calibration values have the same source byte. */
  lemma CalibrationIdentifiesSource(s1: Byte, r1: Byte, e1: Byte, s2: Byte, r2: Byte, e2: Byte)
    requires DecodeCalibration(s1, r1, e1).Ok? && DecodeCalibration(s2, r2, e2).Ok?
    ensures var a, b := DecodeCalibration(s1, r1, e1).value, DecodeCalibration(s2, r2, e2).value;
      a.tcode == b.tcode && a.diff == b.diff <==> s1 == s2
  {
    DecodedValues(s1, r1, e1);
    DecodedValues(s2, r2, e2);
    hide DecodeCalibration, DiffOf;
    var tcode := DecodeCalibration(s1, r1, e1).value.tcode;
    if s1 % 16 < s2 % 16 {
      DiffIncreases(s1 % 16, s2 % 16, tcode);
    } else if s2 % 16 < s1 % 16 {
      DiffIncreases(s2 % 16, s1 % 16, tcode);
    }
  }

  lemma DiffIncreases(a: nat, b: nat, tcode: nat)
    requires a < b && 80 <= tcode <= 320
    ensures DiffOf(a, tcode) < DiffOf(b, tcode)
  {
    var m, n := (a + 2) * 100 * 256, (b + 2) * 100 * 256;
    var q := m / tcode;
    assert q * tcode <= m;
    MultiplyMonotone(tcode, 320, 80);
    assert (q + 80) * tcode == q * tcode + 80 * tcode;
    DivideAtLeast(n, tcode, q + 80);
  }

  /**
   For every accepted OTP the arithmetic stays far inside its types: `tcode` in 80..320, `diff` at most 113 so that shifting
   it by eight bits loses nothing, and the 16-bit mask in between is the identity.
   */
  lemma CalibrationRanges(source: Byte, redundant: Byte, encoded: Byte)
    requires DecodeCalibration(source, redundant, encoded).Ok?
    ensures var r := DecodeCalibration(source, redundant, encoded).value;
      && 80 <= r.tcode <= 320 && r.diff <= 113 && r.fdtOffset <= 3
      && r.diff * 256 + 0x80 < 0x1_0000 && (r.diff * 256 + 0x80) / 256 == r.diff
      && (source % 16 + 2) * 100 * 256 / r.tcode < 0x1_0000
  {
    hide DecodeFdtOffset;
    OffsetSmall(encoded);
    DivisionSmall((source % 16 + 2) * 100 * 256, (source / 16 + 5) * 16);
  }

  lemma OffsetSmall(encoded: Byte)
    ensures DecodeFdtOffset(encoded).Some? ==> DecodeFdtOffset(encoded).value <= 3
  {}

  lemma DivisionSmall(numerator: nat, tcode: nat)
    requires numerator <= 17 * 100 * 256 && 80 <= tcode
    ensures numerator / tcode <= 5440 && numerator / tcode % 0x1_0000 / 0x30 <= 113
  {
    QuotientBelow(numerator, tcode, 5441);
  }

  // ---- generation -----------------------------------------------------------------------------------------------

  /** Where a section starts and ends, from its two header bytes. */
  function Section(c: seq<Byte>, startField: nat, lengthField: nat): (nat, nat)
    requires Config(c) && startField < CONFIG_SIZE && lengthField < CONFIG_SIZE
  {
    (c[startField], (c[startField] as int) + (c[lengthField] as int))
  }

  /**
   The generated configuration for the calibration of an already validated OTP.  `base` is the vendor's base table, whose
   two sections lie inside the table.
   */
  function Generate(base: seq<Byte>, calibration: Calibration): Result<seq<Byte>, ConfigError>
    requires Config(base) && calibration.diff <= 113 && calibration.fdtOffset <= 3
    requires Section(base, 5, 6).1 <= CONFIG_SIZE && Section(base, 9, 10).1 <= CONFIG_SIZE
  {
    hide Replace, Resealed, WordSum, Checksum, FindRecord;
    var config := Resealed(base);
    :- Need(Checksum(base) == EXPECTED_BASE_CHECKSUM, UnexpectedBaseChecksum(EXPECTED_BASE_CHECKSUM, Checksum(base)));
    var (fdtStart, fdtEnd) := Section(base, 5, 6);
    var (imageStart, imageEnd) := Section(base, 9, 10);
    var (r1, c1) := Replace(config, imageStart, imageEnd, IMAGE_TCODE_KEY, calibration.tcode);
    var _ :- r1;
    var (r2, c2) := Replace(c1, fdtStart, fdtEnd, FDT_DELTA_KEY, calibration.diff * 256 + 0x80);
    var _ :- r2;
    var c3 :- ReplaceOffset(c2, fdtStart, fdtEnd, calibration.fdtOffset);
    :- Need(WordSum(c3) == SUM_TARGET, ChecksumInvariant(SUM_TARGET, WordSum(c3)));
    Ok(c3)
  }

  /** A non-zero offset goes, increased by eight, into the low byte of its value. */
  function ReplaceOffset(c: seq<Byte>, start: nat, end: nat, offset: Byte): (r: Result<seq<Byte>, ConfigError>)
    requires Config(c) && end <= CONFIG_SIZE && offset <= 3
    ensures r.Ok? ==> Config(r.value)
  {
    hide Replace;
    if offset == 0 then Ok(c)
    else
      var found := FindRecord(c, start, end, FDT_OFFSET_KEY);
      if found.None? then Err(ConfigKeyMissing(FDT_OFFSET_KEY, start, end))
      else
        var value := WordAt(c, found.value + 2) / 0x100 * 0x100 + offset + 8;
        // The key was just found, so the replacement cannot miss it.
        Ok(Replace(c, start, end, FDT_OFFSET_KEY, value).1)
  }

  /** A generated configuration has its word sum at the target; the closing check of the sum can never fail. */
  lemma GeneratedSums(base: seq<Byte>, calibration: Calibration)
    requires Config(base) && calibration.diff <= 113 && calibration.fdtOffset <= 3
    requires Section(base, 5, 6).1 <= CONFIG_SIZE && Section(base, 9, 10).1 <= CONFIG_SIZE
    ensures var r := Generate(base, calibration);
      && (r.Ok? ==> Config(r.value) && WordSum(r.value) == SUM_TARGET)
      && (r.Err? ==> !r.error.ChecksumInvariant?)
  {
    hide Replace, Resealed, WordSum, Checksum, FindRecord, SumWords, FromLE16;
    ResealedSums(base);
    var c0 := Resealed(base);
    var (fdtStart, fdtEnd) := Section(base, 5, 6);
    var (imageStart, imageEnd) := Section(base, 9, 10);
    ReplaceKeepsSum(c0, imageStart, imageEnd, IMAGE_TCODE_KEY, calibration.tcode);
    ReplaceErrors(c0, imageStart, imageEnd, IMAGE_TCODE_KEY, calibration.tcode);
    var c1 := Replace(c0, imageStart, imageEnd, IMAGE_TCODE_KEY, calibration.tcode).1;
    ReplaceKeepsSum(c1, fdtStart, fdtEnd, FDT_DELTA_KEY, calibration.diff * 256 + 0x80);
    ReplaceErrors(c1, fdtStart, fdtEnd, FDT_DELTA_KEY, calibration.diff * 256 + 0x80);
    var c2 := Replace(c1, fdtStart, fdtEnd, FDT_DELTA_KEY, calibration.diff * 256 + 0x80).1;
    OffsetSums(c2, fdtStart, fdtEnd, calibration.fdtOffset);
  }

  lemma ReplaceErrors(c: seq<Byte>, start: nat, end: nat, key: U16, value: U16)
    requires Config(c) && end <= CONFIG_SIZE
    ensures Replace(c, start, end, key, value).0.Err? <==> FindRecord(c, start, end, key).None?
    ensures Replace(c, start, end, key, value).0.Err? ==>
      Replace(c, start, end, key, value).0.error == ConfigKeyMissing(key, start, end)
  {}

  lemma OffsetSums(c: seq<Byte>, start: nat, end: nat, offset: Byte)
    requires Config(c) && end <= CONFIG_SIZE && offset <= 3 && WordSum(c) == SUM_TARGET
    ensures var r := ReplaceOffset(c, start, end, offset);
      && (r.Ok? ==> WordSum(r.value) == SUM_TARGET)
      && (r.Err? ==> r.error.ConfigKeyMissing?)
  {
    hide Replace, WordSum, FindRecord;
    var found := FindRecord(c, start, end, FDT_OFFSET_KEY);
    if offset != 0 && found.Some? {
      var value := WordAt(c, found.value + 2) / 0x100 * 0x100 + offset + 8;
      ReplaceKeepsSum(c, start, end, FDT_OFFSET_KEY, value);
      ReplaceErrors(c, start, end, FDT_OFFSET_KEY, value);
    }
  }

  /** The two sections lie in front of the checksum word and apart from each other. */
  predicate Apart(base: seq<Byte>)
    requires Config(base)
  {
    var (fdtStart, fdtEnd) := Section(base, 5, 6);
    var (imageStart, imageEnd) := Section(base, 9, 10);
    fdtEnd <= CHECKSUM_AT && imageEnd <= CHECKSUM_AT && (fdtEnd <= imageStart || imageEnd <= fdtStart)
  }

  /** The calibration as a generated configuration holds it. */
  ghost predicate Holds(base: seq<Byte>, config: seq<Byte>, calibration: Calibration)
    requires Config(base) && Config(config) && Apart(base) && calibration.diff <= 113 && calibration.fdtOffset <= 3
  {
    var (fdtStart, fdtEnd) := Section(base, 5, 6);
    var (imageStart, imageEnd) := Section(base, 9, 10);
    var before, after := FindValue(base, fdtStart, fdtEnd, FDT_OFFSET_KEY), FindValue(config, fdtStart, fdtEnd, FDT_OFFSET_KEY);
    && FindValue(config, imageStart, imageEnd, IMAGE_TCODE_KEY) == Some(calibration.tcode)
    && FindValue(config, fdtStart, fdtEnd, FDT_DELTA_KEY) == Some(calibration.diff * 256 + 0x80)
    && (calibration.fdtOffset == 0 ==> after == before)
    && (calibration.fdtOffset != 0 ==>
          before.Some? && after == Some(before.value / 0x100 * 0x100 + calibration.fdtOffset + 8))
  }

  lemma SameSections(base: seq<Byte>)
    requires Config(base) && Apart(base)
    ensures forall i :: 0 <= i < CHECKSUM_AT ==> Resealed(base)[i] == base[i]
  {
    hide Checksum;
  }

  /**
   All three calibration values read back at their keys from a generated configuration: the later replacements do not
   disturb the earlier ones, and the offset keeps the upper byte of the base table.
   */
  lemma GeneratedHolds(base: seq<Byte>, calibration: Calibration)
    requires Config(base) && calibration.diff <= 113 && calibration.fdtOffset <= 3 && Apart(base)
    requires Generate(base, calibration).Ok?
    ensures Config(Generate(base, calibration).value) && Holds(base, Generate(base, calibration).value, calibration)
  {
    hide Replace, Resealed, WordSum, Checksum, FindRecord, SumWords, FromLE16, OnlyValue;
    var c0 := Resealed(base);
    var (fdtStart, fdtEnd) := Section(base, 5, 6);
    var (imageStart, imageEnd) := Section(base, 9, 10);
    GeneratedSums(base, calibration);
    ReplaceErrors(c0, imageStart, imageEnd, IMAGE_TCODE_KEY, calibration.tcode);
    ReplaceInside(c0, imageStart, imageEnd, IMAGE_TCODE_KEY, calibration.tcode);
    var c1 := Replace(c0, imageStart, imageEnd, IMAGE_TCODE_KEY, calibration.tcode).1;
    var delta := calibration.diff * 256 + 0x80;
    ReplaceErrors(c1, fdtStart, fdtEnd, FDT_DELTA_KEY, delta);
    ReplaceInside(c1, fdtStart, fdtEnd, FDT_DELTA_KEY, delta);
    var c2 := Replace(c1, fdtStart, fdtEnd, FDT_DELTA_KEY, delta).1;
    UnchangedOffset(base, c0, c1, c2);
    ImageKept(base, c1, c2, FDT_DELTA_KEY);
    if calibration.fdtOffset != 0 {
      var value := WordAt(c2, FindRecord(c2, fdtStart, fdtEnd, FDT_OFFSET_KEY).value + 2) / 0x100 * 0x100 + calibration.fdtOffset + 8;
      ReplaceInside(c2, fdtStart, fdtEnd, FDT_OFFSET_KEY, value);
      var c3 := Replace(c2, fdtStart, fdtEnd, FDT_OFFSET_KEY, value).1;
      ImageKept(base, c2, c3, FDT_OFFSET_KEY);
      OtherKept(c2, c3, fdtStart, fdtEnd, FDT_DELTA_KEY, FDT_OFFSET_KEY);
    }
  }

  /** A replacement in the touch-detection section leaves the image section alone. */
  lemma ImageKept(base: seq<Byte>, c: seq<Byte>, d: seq<Byte>, key: U16)
    requires Config(base) && Apart(base) && Config(c) && Config(d)
    requires var (s, e) := Section(base, 5, 6);
      FindRecord(c, s, e, key).Some? && OnlyValue(c, d, FindRecord(c, s, e, key).value)
    ensures var (s, e) := Section(base, 9, 10);
      FindValue(d, s, e, IMAGE_TCODE_KEY) == FindValue(c, s, e, IMAGE_TCODE_KEY)
  {
    hide FindValue, FindRecord;
    var (s, e) := Section(base, 9, 10);
    FindSame(c, d, s, e, IMAGE_TCODE_KEY);
  }

  lemma OtherKept(c: seq<Byte>, d: seq<Byte>, start: nat, end: nat, key: U16, changed: U16)
    requires Config(c) && Config(d) && end <= CHECKSUM_AT && key != changed
    requires FindRecord(c, start, end, changed).Some? && OnlyValue(c, d, FindRecord(c, start, end, changed).value)
    ensures FindRecord(d, start, end, key) == FindRecord(c, start, end, key)
    ensures FindValue(d, start, end, key) == FindValue(c, start, end, key)
  {
    hide FindValue, FindRecord;
    FindOther(c, d, start, end, key, changed, FindRecord(c, start, end, changed).value);
  }

  /** The first two replacements leave the offset record as the base table has it. */
  lemma UnchangedOffset(base: seq<Byte>, c0: seq<Byte>, c1: seq<Byte>, c2: seq<Byte>)
    requires Config(base) && Apart(base) && c0 == Resealed(base) && Config(c1) && Config(c2)
    requires var (s, e) := Section(base, 9, 10);
      FindRecord(c0, s, e, IMAGE_TCODE_KEY).Some? && OnlyValue(c0, c1, FindRecord(c0, s, e, IMAGE_TCODE_KEY).value)
    requires var (s, e) := Section(base, 5, 6);
      FindRecord(c1, s, e, FDT_DELTA_KEY).Some? && OnlyValue(c1, c2, FindRecord(c1, s, e, FDT_DELTA_KEY).value)
    ensures var (s, e) := Section(base, 5, 6);
      && FindRecord(c2, s, e, FDT_OFFSET_KEY) == FindRecord(base, s, e, FDT_OFFSET_KEY)
      && FindValue(c2, s, e, FDT_OFFSET_KEY) == FindValue(base, s, e, FDT_OFFSET_KEY)
  {
    hide FindValue, FindRecord, Resealed;
    SameSections(base);
    var (s, e) := Section(base, 5, 6);
    FindSame(base, c0, s, e, FDT_OFFSET_KEY);
    FindSame(c0, c1, s, e, FDT_OFFSET_KEY);
    OtherKept(c1, c2, s, e, FDT_OFFSET_KEY, FDT_DELTA_KEY);
  }

  /** Generation succeeds for every calibration when the base table has its checksum and the three records. */
  lemma GenerateSucceeds(base: seq<Byte>, calibration: Calibration)
    requires Config(base) && calibration.diff <= 113 && calibration.fdtOffset <= 3 && Apart(base)
    requires Checksum(base) == EXPECTED_BASE_CHECKSUM
    requires var (s, e) := Section(base, 9, 10); FindRecord(base, s, e, IMAGE_TCODE_KEY).Some?
    requires var (s, e) := Section(base, 5, 6);
      FindRecord(base, s, e, FDT_DELTA_KEY).Some? && FindRecord(base, s, e, FDT_OFFSET_KEY).Some?
    ensures Generate(base, calibration).Ok?
  {
    hide Replace, Resealed, WordSum, Checksum, FindRecord, SumWords, FromLE16, OnlyValue, FindValue;
    var c0 := Resealed(base);
    var (fdtStart, fdtEnd) := Section(base, 5, 6);
    var (imageStart, imageEnd) := Section(base, 9, 10);
    SameSections(base);
    FindSame(base, c0, imageStart, imageEnd, IMAGE_TCODE_KEY);
    FindSame(base, c0, fdtStart, fdtEnd, FDT_DELTA_KEY);
    ReplaceErrors(c0, imageStart, imageEnd, IMAGE_TCODE_KEY, calibration.tcode);
    ReplaceInside(c0, imageStart, imageEnd, IMAGE_TCODE_KEY, calibration.tcode);
    var c1 := Replace(c0, imageStart, imageEnd, IMAGE_TCODE_KEY, calibration.tcode).1;
    FdtKept(base, c0, c1);
    var delta := calibration.diff * 256 + 0x80;
    ReplaceErrors(c1, fdtStart, fdtEnd, FDT_DELTA_KEY, delta);
    ReplaceInside(c1, fdtStart, fdtEnd, FDT_DELTA_KEY, delta);
    var c2 := Replace(c1, fdtStart, fdtEnd, FDT_DELTA_KEY, delta).1;
    UnchangedOffset(base, c0, c1, c2);
    GeneratedSums(base, calibration);
  }

  lemma FdtKept(base: seq<Byte>, c: seq<Byte>, d: seq<Byte>)
    requires Config(base) && Apart(base) && Config(c) && Config(d)
    requires var (s, e) := Section(base, 9, 10);
      FindRecord(c, s, e, IMAGE_TCODE_KEY).Some? && OnlyValue(c, d, FindRecord(c, s, e, IMAGE_TCODE_KEY).value)
    ensures var (s, e) := Section(base, 5, 6);
      FindRecord(d, s, e, FDT_DELTA_KEY) == FindRecord(c, s, e, FDT_DELTA_KEY)
  {
    hide FindValue, FindRecord;
    var (s, e) := Section(base, 5, 6);
    FindSame(c, d, s, e, FDT_DELTA_KEY);
  }
}
