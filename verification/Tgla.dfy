/** The outer storage node around a raw template: fixed header fields, a CRC-32/MPEG-2 and zero slack. */
module Tgla {
  import opened Wrappers
  import opened Bytes
  import opened TemplateFormat
  import opened TemplateGrammar
  import opened TemplateRoundTrip
  import TemplateLayout
  import Crc

  const MAGIC: seq<Byte> := [0x54, 0x47, 0x4c, 0x41]
  const OVERHEAD := 0x88
  const RAW_OFFSET := 0x84

  datatype StorageError =
    | LengthOverflow(rawLength: nat)
    | NodeTooShort(length: nat)
    | BadMagic(magic: seq<Byte>)
    | TotalSizeMismatch(stored: U32, length: nat)
    | RawLengthSizeMismatch(rawLength: nat, expected: nat, length: nat)
    | NonZeroConfigPrefix(offset: nat, value: Byte)
    | NonZeroCommitMetadata(offset: nat, value: Byte)
    | VersionBufferMismatch
    | NonZeroField80(offset: nat, value: Byte)
    | RawCrcMismatch(stored: U32, computed: U32)
    | NonZeroTrailingSlack(offset: nat, value: Byte)

  /** A validated node. */
  datatype FreshNode = FreshNode(bytes: seq<Byte>, rawLength: nat, rawCrc: U32) {
    predicate Valid() {
      |bytes| == rawLength + OVERHEAD
    }

    function RawTemplate(): seq<Byte>
      requires Valid()
    {
      bytes[RAW_OFFSET..RAW_OFFSET + rawLength]
    }
  }

  /** Everything in front of the raw template. */
  function Front(rawLength: U32, crc: U32): (s: seq<Byte>)
    requires rawLength + OVERHEAD < U32_LIMIT
    ensures |s| == RAW_OFFSET
  {
    MAGIC + LE32(rawLength + OVERHEAD) + LE32(crc) + LE32(rawLength) + Zeros(16) + Zeros(32) + VERSION_BUFFER + Zeros(4)
  }

  /** The node of a raw template. */
  function Node(raw: seq<Byte>): seq<Byte>
    requires |raw| + OVERHEAD < U32_LIMIT
  {
    Front(|raw|, Crc.Checksum(Crc.Mpeg2, raw)) + raw + Zeros(4)
  }

  function Wrap(raw: seq<Byte>): Result<seq<Byte>, StorageError> {
    if |raw| + OVERHEAD >= U32_LIMIT then Err(LengthOverflow(|raw|)) else Ok(Node(raw))
  }

  // ---- writing --------------------------------------------------------------------------------------------------

  function Overwrite(b: seq<Byte>, at: nat, data: seq<Byte>): seq<Byte>
    requires at + |data| <= |b|
  {
    b[..at] + data + b[at + |data|..]
  }

  method Write(node: array<Byte>, at: nat, data: seq<Byte>)
    requires at + |data| <= node.Length
    modifies node
    ensures node[..] == Overwrite(old(node[..]), at, data)
  {
    CopyInto(node, at, data);
  }

  /** Only the populated fields of a zeroed node are written. */
  method WrapFresh(raw: seq<Byte>) returns (r: Result<array<Byte>, StorageError>)
    ensures |raw| + OVERHEAD >= U32_LIMIT ==> r == Err(LengthOverflow(|raw|))
    ensures |raw| + OVERHEAD < U32_LIMIT ==> r.Ok? && fresh(r.value) && r.value[..] == Node(raw)
  {
    if |raw| + OVERHEAD >= U32_LIMIT {
      return Err(LengthOverflow(|raw|));
    }
    hide LE32, Node, Overwrite, Zeros;
    var node := new Byte[|raw| + OVERHEAD](_ => 0);
    assert node[..] == Zeros(|raw| + OVERHEAD);
    var crc := Crc.Crc32Mpeg2(raw);
    Write(node, 0, MAGIC);
    Write(node, 4, LE32(|raw| + OVERHEAD));
    Write(node, 8, LE32(crc));
    Write(node, 0xc, LE32(|raw|));
    ghost var header := node[..];
    HeaderLayout(header, LE32(|raw| + OVERHEAD), LE32(crc), LE32(|raw|));
    Write(node, 0x40, VERSION);
    Write(node, RAW_OFFSET, raw);
    NodeLayout(raw, node[..], header[..16]);
    return Ok(node);
  }

  lemma HeaderLayout(b: seq<Byte>, total: seq<Byte>, crc: seq<Byte>, length: seq<Byte>)
    requires |b| >= OVERHEAD && |total| == |crc| == |length| == 4
    requires b == Overwrite(Overwrite(Overwrite(Overwrite(Zeros(|b|), 0, MAGIC), 4, total), 8, crc), 12, length)
    ensures b[..16] == MAGIC + total + crc + length && b[16..] == Zeros(|b| - 16)
  {
    var n := |b|;
    assert Overwrite(Zeros(n), 0, MAGIC) == MAGIC + Zeros(n - 4);
    assert Overwrite(MAGIC + Zeros(n - 4), 4, total) == MAGIC + total + Zeros(n - 8);
    assert Overwrite(MAGIC + total + Zeros(n - 8), 8, crc) == MAGIC + total + crc + Zeros(n - 12);
    assert Overwrite(MAGIC + total + crc + Zeros(n - 12), 12, length) == MAGIC + total + crc + length + Zeros(n - 16);
  }

  lemma NodeLayout(raw: seq<Byte>, node: seq<Byte>, header: seq<Byte>)
    requires |raw| + OVERHEAD < U32_LIMIT
    requires header == MAGIC + LE32(|raw| + OVERHEAD) + LE32(Crc.Checksum(Crc.Mpeg2, raw)) + LE32(|raw|)
    requires node == Overwrite(Overwrite(header + Zeros(|raw| + OVERHEAD - 16), 0x40, VERSION), RAW_OFFSET, raw)
    ensures node == Node(raw)
  {
    hide LE32, Crc.Checksum;
  }

  // ---- reading --------------------------------------------------------------------------------------------------

  datatype ZeroRegion = ConfigPrefix | CommitMetadata | VersionTail | Field80 | TrailingSlack

  function NonZeroError(region: ZeroRegion, offset: nat, value: Byte): StorageError {
    match region
    case ConfigPrefix => NonZeroConfigPrefix(offset, value)
    case CommitMetadata => NonZeroCommitMetadata(offset, value)
    case VersionTail => StorageError.VersionBufferMismatch
    case Field80 => NonZeroField80(offset, value)
    case TrailingSlack => NonZeroTrailingSlack(offset, value)
  }

  function RequireZero(b: seq<Byte>, from: nat, end: nat, region: ZeroRegion): (r: Outcome<StorageError>)
    requires from <= end <= |b|
    ensures r.Pass? <==> forall i :: from <= i < end ==> b[i] == 0
  {
    var found := FirstNonZero(b, from, end);
    if found.Some? then Fail(NonZeroError(region, found.value, b[found.value])) else Pass
  }

  /** The fields between the header words and the raw template. */
  function CheckFixedFields(node: seq<Byte>): Outcome<StorageError>
    requires |node| >= OVERHEAD
  {
    var prefix := RequireZero(node, 0x10, 0x20, ConfigPrefix);
    if prefix.Fail? then prefix
    else
      var metadata := RequireZero(node, 0x20, 0x40, CommitMetadata);
      if metadata.Fail? then metadata
      else if node[0x40..0x40 + |VERSION|] != VERSION then Fail(StorageError.VersionBufferMismatch)
      else
        var version := RequireZero(node, 0x40 + |VERSION|, 0x80, VersionTail);
        if version.Fail? then version else RequireZero(node, 0x80, 0x84, Field80)
  }

  function Parse(node: seq<Byte>): (r: Result<FreshNode, StorageError>)
    ensures r.Ok? ==> r.value.Valid() && r.value.bytes == node
  {
    hide FromLE32, Crc.Checksum, RequireZero, CheckFixedFields;
    :- Need(|node| >= OVERHEAD, NodeTooShort(|node|));
    :- Need(node[..4] == MAGIC, BadMagic(node[..4]));
    var total := FromLE32(node[4..8]);
    :- Need(total == |node|, TotalSizeMismatch(total, |node|));
    var crc, rawLength := FromLE32(node[8..12]), FromLE32(node[12..16]);
    :- Need(rawLength + OVERHEAD == |node|, RawLengthSizeMismatch(rawLength, rawLength + OVERHEAD, |node|));
    :- CheckFixedFields(node);
    var rawEnd := RAW_OFFSET + rawLength;
    var computed := Crc.Checksum(Crc.Mpeg2, node[RAW_OFFSET..rawEnd]);
    :- Need(crc == computed, StorageError.RawCrcMismatch(crc, computed));
    :- RequireZero(node, rawEnd, |node|, TrailingSlack);
    Ok(FreshNode(node, rawLength, crc))
  }

  lemma ZeroSlice(b: seq<Byte>, from: nat, end: nat)
    requires from <= end <= |b| && forall i :: from <= i < end ==> b[i] == 0
    ensures b[from..end] == Zeros(end - from)
  {}

  lemma FixedSlices(node: seq<Byte>)
    requires |node| >= OVERHEAD && CheckFixedFields(node).Pass?
    ensures node[16..32] == Zeros(16) && node[32..64] == Zeros(32)
    ensures node[64..64 + |VERSION|] == VERSION && node[64 + |VERSION|..128] == Zeros(64 - |VERSION|)
    ensures node[128..RAW_OFFSET] == Zeros(4)
  {
    hide RequireZero;
    ZeroSlice(node, 16, 32);
    ZeroSlice(node, 32, 64);
    ZeroSlice(node, 64 + |VERSION|, 128);
    ZeroSlice(node, 128, 132);
  }

  lemma Slices(node: seq<Byte>, rawEnd: nat)
    requires RAW_OFFSET <= rawEnd == |node| - 4
    ensures node == node[..4] + node[4..8] + node[8..12] + node[12..16] + node[16..32] + node[32..64]
      + (node[64..64 + |VERSION|] + node[64 + |VERSION|..128]) + node[128..RAW_OFFSET] + node[RAW_OFFSET..rawEnd]
      + node[rawEnd..]
  {}

  lemma ParsedFields(node: seq<Byte>)
    requires Parse(node).Ok?
    ensures var n := Parse(node).value;
      && |node| < U32_LIMIT && n.rawLength + OVERHEAD == |node| && CheckFixedFields(node).Pass? && node[..4] == MAGIC
      && node[4..8] == LE32(|node|) && node[8..12] == LE32(Crc.Checksum(Crc.Mpeg2, n.RawTemplate()))
      && node[12..16] == LE32(n.rawLength) && node[|node| - 4..] == Zeros(4)
  {
    hide LE32, FromLE32, Crc.Checksum, RequireZero, CheckFixedFields;
    ZeroSlice(node, |node| - 4, |node|);
  }

  lemma ParsedIsNode(node: seq<Byte>)
    requires Parse(node).Ok?
    ensures |node| < U32_LIMIT && node == Node(Parse(node).value.RawTemplate())
  {
    hide LE32, Crc.Checksum, Parse, CheckFixedFields;
    var n := Parse(node).value;
    ParsedFields(node);
    FixedSlices(node);
    Slices(node, RAW_OFFSET + n.rawLength);
  }

  lemma NodeFields(raw: seq<Byte>)
    requires |raw| + OVERHEAD < U32_LIMIT
    ensures var node := Node(raw);
      && |node| == |raw| + OVERHEAD && node[..4] == MAGIC && node[4..8] == LE32(|raw| + OVERHEAD)
      && node[8..12] == LE32(Crc.Checksum(Crc.Mpeg2, raw)) && node[12..16] == LE32(|raw|)
      && (forall i :: 16 <= i < 64 ==> node[i] == 0)
      && node[64..64 + |VERSION|] == VERSION && (forall i :: 64 + |VERSION| <= i < RAW_OFFSET ==> node[i] == 0)
      && node[RAW_OFFSET..RAW_OFFSET + |raw|] == raw
      && (forall i :: RAW_OFFSET + |raw| <= i < |node| ==> node[i] == 0)
  {
    hide LE32, Crc.Checksum;
  }

  /** "TGLA", three words, zeros, the version buffer, zeros, the raw template and four zeros, each at its offset. */
  predicate NodeAt(node: seq<Byte>, raw: seq<Byte>) {
    && |node| == |raw| + 136
    && node[..4] == [0x54, 0x47, 0x4c, 0x41]
    && TemplateLayout.WordAt(node, 4, |raw| + 136)
    && TemplateLayout.WordAt(node, 8, Crc.Checksum(Crc.Mpeg2, raw))
    && TemplateLayout.WordAt(node, 12, |raw|)
    && TemplateLayout.ZerosAt(node, 16, 64) && TemplateLayout.VersionAt(node, 64) && TemplateLayout.ZerosAt(node, 128, 132)
    && node[132..132 + |raw|] == raw
    && TemplateLayout.ZerosAt(node, 132 + |raw|, 136 + |raw|)
  }

  lemma WordSlice(b: seq<Byte>, at: nat, w: U32)
    requires at + 4 <= |b| && b[at..at + 4] == LE32(w)
    ensures TemplateLayout.WordAt(b, at, w)
  {
    hide LE32;
    TemplateLayout.WordBytes(w);
    var word := b[at..at + 4];
    assert word[0] == b[at] && word[1] == b[at + 1] && word[2] == b[at + 2] && word[3] == b[at + 3];
  }

  /** A wrapped template lies where the node format has it. */
  lemma WrappedLayout(raw: seq<Byte>, node: seq<Byte>)
    requires Wrap(raw) == Ok(node)
    ensures NodeAt(node, raw)
  {
    hide LE32, Crc.Checksum, Node, TemplateLayout.WordAt;
    NodeFields(raw);
    assert |node| == |raw| + 136;
    WordSlice(node, 4, |raw| + OVERHEAD);
    WordSlice(node, 8, Crc.Checksum(Crc.Mpeg2, raw));
    WordSlice(node, 12, |raw|);
    assert node[64..82] == VERSION[..18] by {
      assert node[64..83] == VERSION && node[64..83][..18] == node[64..82];
    }
    assert node[82] == 0 by {
      assert node[64..83][18] == VERSION[18];
    }
  }

  lemma NodeParses(raw: seq<Byte>)
    requires |raw| + OVERHEAD < U32_LIMIT
    ensures Parse(Node(raw)).Ok? && Parse(Node(raw)).value.RawTemplate() == raw
  {
    hide LE32, FromLE32, Crc.Checksum, Node, FirstNonZero, RequireZero;
    NodeFields(raw);
    LE32RoundTrip(|raw| + OVERHEAD);
    LE32RoundTrip(Crc.Checksum(Crc.Mpeg2, raw));
    LE32RoundTrip(|raw|);
  }

  /** A byte string parses as a node for `raw` exactly when wrapping `raw` yields it. */
  lemma ParsesIffWrapped(node: seq<Byte>, raw: seq<Byte>)
    ensures Parse(node).Ok? && Parse(node).value.RawTemplate() == raw <==> Wrap(raw) == Ok(node)
  {
    hide Node, Parse;
    if Parse(node).Ok? {
      ParsedIsNode(node);
    }
    if |raw| + OVERHEAD < U32_LIMIT {
      NodeParses(raw);
    }
  }

  // ---- altered bytes --------------------------------------------------------------------------------------------

  /** No change confined to four consecutive bytes, anywhere in an accepted node, is accepted. */
  lemma AlteredNodeRejected(node: seq<Byte>, altered: seq<Byte>, at: nat)
    requires Parse(node).Ok? && Crc.Altered(node, altered, at)
    ensures Parse(altered).Err?
  {
    hide Parse, Node, Crc.Checksum, LE32;
    if Parse(altered).Ok? {
      ParsedIsNode(node);
      ParsedIsNode(altered);
      var a, b := Parse(node).value.RawTemplate(), Parse(altered).value.RawTemplate();
      NodeFields(a);
      NodeFields(b);
      assert a != b;
      var end := RAW_OFFSET + |a|;
      Crc.AlteredPart(node, altered, at, RAW_OFFSET, end);
      Crc.AlteredChecksum(Crc.Mpeg2, a, b, if at < RAW_OFFSET then 0 else at - RAW_OFFSET);
      assert node[8..12] == altered[8..12];
      LE32RoundTrip(Crc.Checksum(Crc.Mpeg2, a));
      LE32RoundTrip(Crc.Checksum(Crc.Mpeg2, b));
    }
  }

  lemma RawFields(raw: seq<Byte>)
    requires ParseRaw(raw).Ok?
    ensures |raw| >= 10 && raw[0] == 0x87 && raw[5] == 0x86 && |raw| - 10 < U32_LIMIT
    ensures raw[1..5] == LE32(Crc.Checksum(Crc.IsoHdlc, raw[10..])) && raw[6..10] == LE32(|raw| - 10)
  {
    hide ParsePayload, LE32, FromLE32, Crc.Checksum;
  }

  /** The same holds of an accepted raw template. */
  lemma AlteredRawRejected(raw: seq<Byte>, altered: seq<Byte>, at: nat)
    requires ParseRaw(raw).Ok? && Crc.Altered(raw, altered, at)
    ensures ParseRaw(altered).Err?
  {
    hide ParseRaw, Crc.Checksum, LE32;
    if ParseRaw(altered).Ok? {
      RawFields(raw);
      RawFields(altered);
      var n := |raw|;
      assert raw[10..] != altered[10..] by {
        assert raw == [raw[0]] + raw[1..5] + [raw[5]] + raw[6..10] + raw[10..];
        assert altered == [altered[0]] + altered[1..5] + [altered[5]] + altered[6..10] + altered[10..];
      }
      assert raw[10..n] == raw[10..] && altered[10..n] == altered[10..];
      Crc.AlteredPart(raw, altered, at, 10, n);
      Crc.AlteredChecksum(Crc.IsoHdlc, raw[10..], altered[10..], if at < 10 then 0 else at - 10);
      assert raw[1..5] == altered[1..5];
      LE32RoundTrip(Crc.Checksum(Crc.IsoHdlc, raw[10..]));
      LE32RoundTrip(Crc.Checksum(Crc.IsoHdlc, altered[10..]));
    }
  }
}
