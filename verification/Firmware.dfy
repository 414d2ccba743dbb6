/** The proprietary firmware blob, the transfer package built from it, and the chunks that package is written in. */
module Firmware {
  import opened Wrappers
  import opened Bytes
  import Crc

  const TRANSFER_HEADER := 12
  const BLOB_CRC := 4
  const APP_FIRMWARE_TYPE: U32 := 2
  const F0_HEADER := 12
  const F0_MAX_DATA := 0x100

  datatype FirmwareError =
    | BlobTooShort(size: nat)
    | PrefixOutOfBounds(prefixSize: nat, blobSize: nat)
    | BlobCrcMismatch(expected: U32, computed: U32)
    | EmptyApp
    | AppTooLarge(size: nat)
    | PackageTooLarge(size: nat)

  datatype Blob = Blob(raw: seq<Byte>, prefixSize: nat, app: seq<Byte>, storedCrc: U32)

  /** `blob[0] + 1` prefix bytes, the application, and the CRC of everything before it. */
  function ParseBlob(raw: seq<Byte>): Result<Blob, FirmwareError> {
    var size := |raw|;
    :- Need(size >= 1 + BLOB_CRC, BlobTooShort(size));
    var prefixSize := (raw[0] as int) + 1;
    var crcOffset := size - BLOB_CRC;
    :- Need(prefixSize <= crcOffset, PrefixOutOfBounds(prefixSize, size));
    var stored, computed := FromLE32(raw[crcOffset..]), Crc.Checksum(Crc.Mpeg2, raw[..crcOffset]);
    :- Need(stored == computed, BlobCrcMismatch(stored, computed));
    var app := raw[prefixSize..crcOffset];
    :- Need(app != [], EmptyApp);
    Ok(Blob(raw, prefixSize, app, stored))
  }

  /** A blob is accepted exactly when it is some metadata and a non-empty application, sealed with their CRC. */
  lemma BlobAcceptedIff(raw: seq<Byte>, blob: Blob)
    ensures ParseBlob(raw) == Ok(blob) <==>
      && blob.raw == raw && 1 <= blob.prefixSize <= 0x100 && blob.app != []
      && |raw| == blob.prefixSize + |blob.app| + BLOB_CRC
      && (raw[0] as int) == blob.prefixSize - 1 && raw[blob.prefixSize..|raw| - BLOB_CRC] == blob.app
      && blob.storedCrc == Crc.Checksum(Crc.Mpeg2, raw[..|raw| - BLOB_CRC])
      && raw[|raw| - BLOB_CRC..] == LE32(blob.storedCrc)
  {
    hide LE32, FromLE32, Crc.Checksum;
    LE32RoundTrip(blob.storedCrc);
  }

  /** No change confined to four consecutive bytes in front of the stored CRC is accepted. */
  lemma AlteredBlobRejected(raw: seq<Byte>, altered: seq<Byte>, at: nat)
    requires ParseBlob(raw).Ok? && Crc.Altered(raw, altered, at) && at + 4 <= |raw| - BLOB_CRC
    ensures ParseBlob(altered).Err?
  {
    hide LE32, FromLE32, Crc.Checksum;
    var end := |raw| - BLOB_CRC;
    var i := Crc.Differ(raw, altered);
    assert raw[0..end][i] != altered[0..end][i];
    assert raw[0..end] == raw[..end] && altered[0..end] == altered[..end] && raw[end..] == altered[end..];
    Crc.AlteredPart(raw, altered, at, 0, end);
    Crc.AlteredChecksum(Crc.Mpeg2, raw[0..end], altered[0..end], at);
  }

  // ---- the transfer package -------------------------------------------------------------------------------------

  datatype Package = Package(bytes: seq<Byte>, appLength: U32, appCrc: U32, headerCrc: U32)

  function FromApp(app: seq<Byte>): Result<Package, FirmwareError> {
    var packageLength := TRANSFER_HEADER + |app|;
    :- Need(app != [], EmptyApp);
    :- Need(|app| < U32_LIMIT, AppTooLarge(|app|));
    :- Need(packageLength < U32_LIMIT, PackageTooLarge(packageLength));
    var appCrc := Crc.Checksum(Crc.Mpeg2, app);
    var headerCrc := Crc.Checksum(Crc.Mpeg2, LE32(|app|) + LE32(appCrc));
    Ok(Package(LE32(headerCrc) + LE32(|app|) + LE32(appCrc) + app, |app|, appCrc, headerCrc))
  }

  /** What a receiver checks of a complete package: both CRCs and the length. */
  predicate Intact(bytes: seq<Byte>) {
    && |bytes| > TRANSFER_HEADER
    && FromLE32(bytes[4..8]) == |bytes| - TRANSFER_HEADER
    && FromLE32(bytes[..4]) == Crc.Checksum(Crc.Mpeg2, bytes[4..12])
    && FromLE32(bytes[8..12]) == Crc.Checksum(Crc.Mpeg2, bytes[12..])
  }

  /** A package is intact, and everything intact is the package of its application part. */
  lemma IntactIffPackaged(bytes: seq<Byte>)
    requires |bytes| < U32_LIMIT
    ensures Intact(bytes) <==> |bytes| > TRANSFER_HEADER && FromApp(bytes[12..]).Ok? && FromApp(bytes[12..]).value.bytes == bytes
  {
    hide LE32, FromLE32, Crc.Checksum;
    if |bytes| > TRANSFER_HEADER {
      assert bytes == bytes[..4] + bytes[4..8] + bytes[8..12] + bytes[12..];
      assert bytes[4..12] == bytes[4..8] + bytes[8..12];
      var p := FromApp(bytes[12..]).value;
      LE32RoundTrip(p.headerCrc);
      LE32RoundTrip(p.appLength);
      LE32RoundTrip(p.appCrc);
      if p.bytes == bytes {
        assert bytes[..4] == LE32(p.headerCrc) && bytes[4..8] == LE32(p.appLength) && bytes[8..12] == LE32(p.appCrc);
      }
    }
  }

  // ---- chunks ---------------------------------------------------------------------------------------------------

  /** A package that can be transferred: `FromApp` produces no other. */
  predicate Transferable(p: Package) {
    0 < |p.bytes| < U32_LIMIT
  }

  function ChunkCount(p: Package): nat {
    (|p.bytes| + F0_MAX_DATA - 1) / F0_MAX_DATA
  }

  datatype Chunk = Chunk(offset: U32, data: seq<Byte>)

  lemma ChunkBounds(p: Package, i: nat)
    requires i < ChunkCount(p)
    ensures F0_MAX_DATA * i < |p.bytes|
    ensures i + 1 == ChunkCount(p) <==> |p.bytes| <= F0_MAX_DATA * (i + 1)
  {}

  /** The position behind chunk `i`. */
  function ChunkEnd(p: Package, i: nat): nat {
    if F0_MAX_DATA * (i + 1) <= |p.bytes| then F0_MAX_DATA * (i + 1) else |p.bytes|
  }

  function ChunkAt(p: Package, i: nat): (c: Chunk)
    requires Transferable(p) && i < ChunkCount(p)
    ensures 0 < |c.data| <= F0_MAX_DATA
  {
    ChunkBounds(p, i);
    Chunk(F0_MAX_DATA * i, p.bytes[F0_MAX_DATA * i..ChunkEnd(p, i)])
  }

  /** The chunks are the 256-byte pieces of the package, each with its offset; only the last one can be shorter. */
  lemma ChunksExactly(p: Package, i: nat)
    requires Transferable(p)
    ensures 256 * ChunkCount(p) - 256 < |p.bytes| <= 256 * ChunkCount(p)
    ensures i < ChunkCount(p) ==> 256 * i < |p.bytes|
    ensures i < ChunkCount(p) ==> var end := if 256 * i + 256 <= |p.bytes| then 256 * i + 256 else |p.bytes|;
      ChunkAt(p, i) == Chunk(256 * i, p.bytes[256 * i..end])
  {
    if i < ChunkCount(p) {
      ChunkBounds(p, i);
    }
  }

  function F0Payload(c: Chunk): (payload: seq<Byte>)
    requires |c.data| <= F0_MAX_DATA
    ensures |payload| == F0_HEADER + |c.data|
  {
    LE32(c.offset) + LE32(|c.data|) + LE32(APP_FIRMWARE_TYPE) + c.data
  }

  // ---- the receiving side ---------------------------------------------------------------------------------------

  /** Appends one write to the image when it continues it: right offset, honest length, right type. */
  function Install(image: seq<Byte>, payload: seq<Byte>): Option<seq<Byte>> {
    if |payload| < F0_HEADER then None
    else
      var offset, length, kind := FromLE32(payload[..4]), FromLE32(payload[4..8]), FromLE32(payload[8..12]);
      if offset == |image| && length == |payload| - F0_HEADER && kind == 2 then
        Some(image + payload[F0_HEADER..])
      else None
  }

  lemma InstallChunk(p: Package, i: nat)
    requires Transferable(p) && i < ChunkCount(p)
    ensures F0_MAX_DATA * i <= ChunkEnd(p, i) <= |p.bytes|
    ensures Install(p.bytes[..F0_MAX_DATA * i], F0Payload(ChunkAt(p, i))) == Some(p.bytes[..ChunkEnd(p, i)])
  {
    hide LE32, FromLE32;
    ChunkBounds(p, i);
    var c := ChunkAt(p, i);
    assert p.bytes[..F0_MAX_DATA * i] + c.data == p.bytes[..ChunkEnd(p, i)];
    var payload := F0Payload(c);
    assert payload[..4] == LE32(c.offset) && payload[4..8] == LE32(|c.data|)
        && payload[8..12] == LE32(APP_FIRMWARE_TYPE) && payload[12..] == c.data;
    LE32RoundTrip(c.offset);
    LE32RoundTrip(|c.data|);
    LE32RoundTrip(APP_FIRMWARE_TYPE);
  }
}
