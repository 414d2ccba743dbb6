/** MCU packets and their A0 framing. */
module Protocol {
  import opened Wrappers
  import opened Bytes

  const A0_MARKER: Byte := 0xa0
  const CHECKSUM_TARGET: Byte := 0xaa
  const SPECIAL_CHECK_BYTE: Byte := 0x88
  const OUTER_HEADER := 4
  const MCU_HEADER := 3
  const MIN_PACKET := 8
  const U16_MAX := 0xffff

  const GET_IMAGE: Byte := 0x20
  const ACK: Byte := 0xb0
  const PSK_READ: Byte := 0xe4
  const FIRMWARE_WRITE: Byte := 0xf0
  const FIRMWARE_CHECK: Byte := 0xf4

  /** A decoded packet; an incoming image has no trailer. */
  datatype Packet = Packet(command: Byte, payload: seq<Byte>, trailer: Option<Byte>)

  datatype ProtocolError =
    | PayloadTooLarge(length: nat)
    | FrameTooLarge(length: nat, maximum: nat)
    | PacketTooShort(length: nat, minimum: nat)
    | UnsupportedOuterMarker(marker: Byte)
    | OuterChecksumMismatch(expected: Byte, actual: Byte)
    | OuterLengthMismatch(declared: nat, length: nat)
    | InnerPacketTooShort(length: nat)
    | InvalidEncodedLength
    | InnerLengthMismatch(declared: nat, length: nat)
    | InnerChecksumMismatch(expected: Byte, actual: Byte)

  // ---- checksums ------------------------------------------------------------------------------------------------

  function AddBytes(a: Byte, b: Byte): Byte {
    (a + b) % 0x100
  }

  /** The wrapping sum of all bytes on top of `sum`. */
  function Fold(sum: Byte, payload: seq<Byte>): Byte
    decreases |payload|
  {
    if payload == [] then sum else Fold(AddBytes(sum, payload[0]), payload[1..])
  }

  function ChecksumAA(command: Byte, encodedLength: U16, payload: seq<Byte>): Byte {
    var length := LE16(encodedLength);
    (CHECKSUM_TARGET - Fold(AddBytes(AddBytes(command, length[0]), length[1]), payload)) % 0x100
  }

  function OuterChecksum(low: Byte, high: Byte): Byte {
    AddBytes(AddBytes(A0_MARKER, low), high)
  }

  // ---- encoding -------------------------------------------------------------------------------------------------

  function EncodeMcu(command: Byte, payload: seq<Byte>): Result<seq<Byte>, ProtocolError> {
    if |payload| + 1 > U16_MAX then Err(PayloadTooLarge(|payload|))
    else Ok([command] + LE16(|payload| + 1) + payload + [ChecksumAA(command, |payload| + 1, payload)])
  }

  function Enclose(inner: seq<Byte>): seq<Byte>
    requires |inner| <= U16_MAX
  {
    var length := LE16(|inner|);
    [A0_MARKER] + length + [OuterChecksum(length[0], length[1])] + inner
  }

  /** One complete logical packet. */
  function EncodeA0(command: Byte, payload: seq<Byte>): Result<seq<Byte>, ProtocolError> {
    var inner :- EncodeMcu(command, payload);
    if |inner| > U16_MAX then Err(FrameTooLarge(|inner|, U16_MAX)) else Ok(Enclose(inner))
  }

  // ---- decoding -------------------------------------------------------------------------------------------------

  function ValidateTrailer(command: Byte, encodedLength: U16, payload: seq<Byte>, trailer: Byte): Outcome<ProtocolError> {
    var expected := ChecksumAA(command, encodedLength, payload);
    Need(trailer == expected || trailer == SPECIAL_CHECK_BYTE, InnerChecksumMismatch(expected, trailer))
  }

  function DecodeMcu(inner: seq<Byte>): Result<Packet, ProtocolError> {
    hide ChecksumAA;
    :- Need(|inner| >= MCU_HEADER + 1, InnerPacketTooShort(|inner|));
    var command, encodedLength := inner[0], FromLE16(inner[1..3]);
    :- Need(encodedLength != 0, InvalidEncodedLength);
    :- Need(|inner| == MCU_HEADER + encodedLength, InnerLengthMismatch(MCU_HEADER + encodedLength, |inner|));
    if command == GET_IMAGE then Ok(Packet(command, inner[MCU_HEADER..], None))
    else
      var payload, trailer := inner[MCU_HEADER..|inner| - 1], inner[|inner| - 1];
      :- ValidateTrailer(command, encodedLength, payload, trailer);
      Ok(Packet(command, payload, Some(trailer)))
  }

  function DecodeA0(data: seq<Byte>): Result<Packet, ProtocolError> {
    hide DecodeMcu;
    :- Need(|data| >= MIN_PACKET, PacketTooShort(|data|, MIN_PACKET));
    :- Need(data[0] == A0_MARKER, UnsupportedOuterMarker(data[0]));
    var expected := OuterChecksum(data[1], data[2]);
    :- Need(data[3] == expected, OuterChecksumMismatch(expected, data[3]));
    var length := FromLE16(data[1..3]);
    :- Need(length == |data| - OUTER_HEADER, OuterLengthMismatch(length, |data| - OUTER_HEADER));
    DecodeMcu(data[OUTER_HEADER..])
  }

  // ---- what decoding accepts ------------------------------------------------------------------------------------

  /** Everything behind the three header bytes of a packet. */
  function Body(p: Packet): seq<Byte> {
    p.payload + if p.trailer.Some? then [p.trailer.value] else []
  }

  /** The packets a frame can carry: only an image lacks the trailer, and a trailer is the checksum or the wildcard. */
  predicate Carried(p: Packet) {
    && 1 <= |Body(p)| <= U16_MAX - MCU_HEADER
    && (p.command == GET_IMAGE <==> p.trailer.None?)
    && (p.trailer.Some? ==>
          p.trailer.value == SPECIAL_CHECK_BYTE || p.trailer.value == ChecksumAA(p.command, |Body(p)|, p.payload))
  }

  function Frame(p: Packet): seq<Byte>
    requires |Body(p)| <= U16_MAX - MCU_HEADER
  {
    Enclose([p.command] + LE16(|Body(p)|) + Body(p))
  }

  lemma McuAccepted(inner: seq<Byte>, p: Packet)
    ensures DecodeMcu(inner) == Ok(p) <==>
      && |Body(p)| <= U16_MAX && inner == [p.command] + LE16(|Body(p)|) + Body(p)
      && 1 <= |Body(p)| && (p.command == GET_IMAGE <==> p.trailer.None?)
      && (p.trailer.Some? ==>
            p.trailer.value == SPECIAL_CHECK_BYTE || p.trailer.value == ChecksumAA(p.command, |Body(p)|, p.payload))
  {
    hide ChecksumAA, LE16, FromLE16;
    if DecodeMcu(inner) == Ok(p) {
      assert inner == [inner[0]] + inner[1..3] + inner[3..];
      assert inner[3..] == inner[3..|inner| - 1] + [inner[|inner| - 1]];
    } else if |Body(p)| <= U16_MAX && inner == [p.command] + LE16(|Body(p)|) + Body(p) {
      assert inner[1..3] == LE16(|Body(p)|) && inner[3..] == Body(p);
      LE16RoundTrip(|Body(p)|);
      if p.trailer.Some? {
        assert inner[3..|inner| - 1] == p.payload && inner[|inner| - 1] == p.trailer.value;
      } else {
        assert Body(p) == p.payload;
      }
    }
  }

  /** A byte string decodes to a packet exactly when it is the frame of that packet and the packet can be carried. */
  lemma DecodesIffFramed(data: seq<Byte>, p: Packet)
    ensures DecodeA0(data) == Ok(p) <==> Carried(p) && data == Frame(p)
  {
    hide ChecksumAA, LE16, FromLE16, DecodeMcu, OuterChecksum;
    if DecodeA0(data) == Ok(p) {
      McuAccepted(data[4..], p);
      assert data == [data[0]] + data[1..3] + [data[3]] + data[4..];
    }
    if Carried(p) && data == Frame(p) {
      var inner := [p.command] + LE16(|Body(p)|) + Body(p);
      assert data[1..3] == LE16(|inner|) && data[4..] == inner && data[1] == data[1..3][0] && data[2] == data[1..3][1];
      LE16RoundTrip(|inner|);
      McuAccepted(inner, p);
    }
  }

  /** The packet an encoded frame decodes to: an image frame keeps its checksum as the last payload byte. */
  function Echo(command: Byte, payload: seq<Byte>): Packet
    requires |payload| + 1 <= U16_MAX
  {
    var checksum := ChecksumAA(command, |payload| + 1, payload);
    if command == GET_IMAGE then Packet(command, payload + [checksum], None) else Packet(command, payload, Some(checksum))
  }

  /** Encoding succeeds exactly up to 65531 payload bytes, and then decoding gives command and payload back. */
  lemma EncodeRoundTrip(command: Byte, payload: seq<Byte>)
    ensures EncodeA0(command, payload).Ok? <==> |payload| <= 65531
    ensures |payload| <= 65531 ==>
      && EncodeA0(command, payload).value == Frame(Echo(command, payload))
      && |EncodeA0(command, payload).value| == |payload| + 8
      && DecodeA0(EncodeA0(command, payload).value) == Ok(Echo(command, payload))
  {
    hide ChecksumAA, LE16, OuterChecksum, DecodeA0;
    if |payload| <= 65531 {
      var p := Echo(command, payload);
      var checksum := ChecksumAA(command, |payload| + 1, payload);
      assert Body(p) == payload + [checksum];
      assert [command] + LE16(|payload| + 1) + payload + [checksum] == [command] + LE16(|Body(p)|) + Body(p);
      DecodesIffFramed(Frame(p), p);
    }
  }

  /**
   An accepted buffer is the encoding of what it decodes to, up to the two recorded exceptions: the wildcard trailer, and
   image responses, whose last payload byte stands where the checksum would be.
   */
  lemma AcceptedIsCanonical(data: seq<Byte>)
    requires DecodeA0(data).Ok?
    ensures var p := DecodeA0(data).value;
      && Carried(p) && data == Frame(p)
      && (p.command != GET_IMAGE ==>
            && EncodeA0(p.command, p.payload).Ok? && |data| == |p.payload| + 8
            && (data == EncodeA0(p.command, p.payload).value
                || data == EncodeA0(p.command, p.payload).value[..|data| - 1] + [SPECIAL_CHECK_BYTE]))
  {
    hide ChecksumAA, LE16, OuterChecksum, DecodeA0, EncodeA0;
    var p := DecodeA0(data).value;
    DecodesIffFramed(data, p);
    if p.command != GET_IMAGE {
      EncodeRoundTrip(p.command, p.payload);
      var echo := Echo(p.command, p.payload);
      if p.trailer != echo.trailer {
        assert Body(p)[..|p.payload|] == Body(echo)[..|p.payload|] == p.payload;
        assert Frame(p) == Frame(echo)[..|data| - 1] + [SPECIAL_CHECK_BYTE];
      }
    }
  }

  /** With the outer length fixed by the first check, the inner packet is never too short. */
  lemma InnerTooShortIsDead(data: seq<Byte>)
    ensures DecodeA0(data).Err? ==> !DecodeA0(data).error.InnerPacketTooShort?
  {
    hide ChecksumAA, FromLE16, OuterChecksum;
  }

  // ---- the bytes on the wire ------------------------------------------------------------------------------------

  /** A length in two bytes, the low one first. */
  function Length(low: int, high: int): int {
    low + 0x100 * high
  }

  /** The plain sum of all bytes. */
  function Total(s: seq<Byte>): nat {
    if s == [] then 0 else s[0] + Total(s[1..])
  }

  lemma {:induction false} TotalAppends(a: seq<Byte>, b: seq<Byte>)
    ensures Total(a + b) == Total(a) + Total(b)
  {
    if a == [] {
      assert a + b == b;
    } else {
      assert (a + b)[1..] == a[1..] + b;
      TotalAppends(a[1..], b);
    }
  }

  lemma {:induction false} FoldIsTotal(sum: Byte, payload: seq<Byte>)
    ensures Fold(sum, payload) == (sum + Total(payload)) % 0x100
    decreases |payload|
  {
    if payload != [] {
      FoldIsTotal(AddBytes(sum, payload[0]), payload[1..]);
    }
  }

  lemma AddTwice(a: nat, b: nat, c: nat)
    ensures ((a + b) % 0x100 + c) % 0x100 == (a + b + c) % 0x100
  {}

  lemma Completes(sum: nat, trailer: Byte)
    ensures (sum + trailer) % 0x100 == 0xaa <==> trailer == (0xaa - sum % 0x100) % 0x100
  {}

  lemma InnerTotal(command: Byte, length: seq<Byte>, payload: seq<Byte>, trailer: Byte)
    requires |length| == 2
    ensures Total([command] + length + payload + [trailer])
      == command as int + length[0] as int + length[1] as int + Total(payload) + trailer as int
  {
    TotalAppends([command] + length + payload, [trailer]);
    TotalAppends([command] + length, payload);
    TotalAppends([command], length);
    assert length == [length[0]] + [length[1]];
    TotalAppends([length[0]], [length[1]]);
  }

  lemma FoldOfThree(a: Byte, b: Byte, c: Byte, payload: seq<Byte>)
    ensures Fold(AddBytes(AddBytes(a, b), c), payload) == (a as int + b as int + c as int + Total(payload)) % 0x100
  {
    hide Fold, Total;
    FoldIsTotal(AddBytes(AddBytes(a, b), c), payload);
    AddTwice(a, b, c);
    AddTwice(a as int + b as int + c as int, 0, Total(payload));
  }

  /** The checksum is the byte that brings the whole inner packet to 0xaa. */
  lemma ChecksumCompletes(command: Byte, payload: seq<Byte>, trailer: Byte)
    requires |payload| + 1 <= U16_MAX
    ensures var inner := [command] + LE16(|payload| + 1) + payload + [trailer];
      Total(inner) % 0x100 == 0xaa <==> trailer == ChecksumAA(command, |payload| + 1, payload)
  {
    hide LE16, Fold, Total, AddBytes;
    var length := LE16(|payload| + 1);
    InnerTotal(command, length, payload, trailer);
    FoldOfThree(command, length[0], length[1], payload);
    Completes(command as int + length[0] as int + length[1] as int + Total(payload), trailer);
  }

  /** The outer four bytes: the marker 0xa0, the inner length, and the sum of these three. */
  predicate OuterOnWire(data: seq<Byte>) {
    && |data| >= 8
    && data[0] == 0xa0
    && Length(data[1], data[2]) == |data| - 4
    && data[3] == (0xa0 + data[1] as int + data[2] as int) % 0x100
  }

  /**
   A packet as the device sees it: behind the outer bytes the command, the length of what follows, the payload, and --
   but for images -- a byte that is the wildcard 0x88 or brings the sum of everything inside to 0xaa.
   */
  predicate OnWire(data: seq<Byte>, p: Packet) {
    var last := |data| - 1;
    && OuterOnWire(data)
    && data[4] == p.command
    && Length(data[5], data[6]) == |data| - 7
    && if p.command == 0x20 then p.trailer.None? && p.payload == data[7..]
       else
         && p.payload == data[7..last] && p.trailer == Some(data[last])
         && (data[last] == 0x88 || Total(data[4..]) % 0x100 == 0xaa)
  }

  lemma LengthBytes(data: seq<Byte>, at: nat, w: U16)
    requires at + 2 <= |data|
    ensures data[at..at + 2] == LE16(w) <==> Length(data[at], data[at + 1]) == w
  {
    assert data[at..at + 2] == [data[at], data[at + 1]];
  }

  lemma OuterSum(low: Byte, high: Byte)
    ensures OuterChecksum(low, high) == (0xa0 + low as int + high as int) % 0x100
  {}

  lemma EnclosedOnWire(data: seq<Byte>, inner: seq<Byte>)
    requires 4 <= |inner| <= U16_MAX
    ensures data == Enclose(inner) <==> |data| == |inner| + 4 && OuterOnWire(data) && data[4..] == inner
  {
    hide LE16, OuterChecksum;
    if |data| == |inner| + 4 {
      LengthBytes(data, 1, |inner|);
      OuterSum(data[1], data[2]);
      assert data == [data[0]] + data[1..3] + [data[3]] + data[4..];
    }
  }

  /** A byte string decodes to a packet exactly when it is that packet on the wire. */
  lemma DecodesIffOnWire(data: seq<Byte>, p: Packet)
    ensures DecodeA0(data) == Ok(p) <==> OnWire(data, p)
  {
    hide ChecksumAA, LE16, DecodeA0, Enclose, OuterOnWire;
    DecodesIffFramed(data, p);
    var body := Body(p);
    if 1 <= |body| <= U16_MAX - MCU_HEADER {
      var inner := [p.command] + LE16(|body|) + body;
      EnclosedOnWire(data, inner);
      if |data| == |inner| + 4 {
        InnerOnWire(data, p);
      }
    }
    if OnWire(data, p) {
      WireSizes(data, p);
    }
  }

  lemma WireSizes(data: seq<Byte>, p: Packet)
    requires OnWire(data, p)
    ensures |data| >= 8 && |Body(p)| == |data| - 7 && |data| - 4 <= U16_MAX
  {
    assert Body(p) == data[7..] by {
      if p.trailer.Some? { assert data[7..] == data[7..|data| - 1] + [data[|data| - 1]]; }
    }
  }

  /** The bytes behind the outer ones, given that the lengths fit. */
  lemma InnerOnWire(data: seq<Byte>, p: Packet)
    requires |data| >= 8 && |Body(p)| == |data| - 7 && |data| - 4 <= U16_MAX
    ensures data[4..] == [p.command] + LE16(|Body(p)|) + Body(p) && Carried(p) <==>
      && data[4] == p.command && Length(data[5], data[6]) == |data| - 7
      && (if p.command == 0x20 then p.trailer.None? && p.payload == data[7..]
          else
            && p.payload == data[7..|data| - 1] && p.trailer == Some(data[|data| - 1])
            && (data[|data| - 1] == 0x88 || Total(data[4..]) % 0x100 == 0xaa))
  {
    hide LE16, ChecksumAA, Total;
    LengthBytes(data, 5, |Body(p)|);
    assert data[4..] == [data[4]] + data[5..7] + data[7..];
    assert data[7..] == data[7..|data| - 1] + [data[|data| - 1]];
    if p.trailer.Some? {
      ChecksumCompletes(p.command, p.payload, p.trailer.value);
      var inner := [p.command] + LE16(|p.payload| + 1) + p.payload + [p.trailer.value];
      assert inner == [p.command] + LE16(|Body(p)|) + Body(p);
      if data[4..] == inner {
        assert data[7..] == inner[3..] && inner[3..] == p.payload + [p.trailer.value];
        assert data[5..7] == inner[1..3] && inner[1..3] == LE16(|Body(p)|) && data[4] == inner[0];
        assert data[7..|data| - 1] == inner[3..|inner| - 1] && inner[3..|inner| - 1] == p.payload;
      }
    } else {
      assert Body(p) == p.payload;
    }
  }

  /** An encoded packet on the wire: always closed by the byte that brings its inside to 0xaa. */
  lemma EncodedOnWire(command: Byte, payload: seq<Byte>)
    requires EncodeA0(command, payload).Ok?
    ensures var data := EncodeA0(command, payload).value;
      && OuterOnWire(data) && |data| == |payload| + 8
      && data[4] == command && Length(data[5], data[6]) == |payload| + 1
      && data[7..|data| - 1] == payload && Total(data[4..]) % 0x100 == 0xaa
  {
    hide LE16, ChecksumAA, Total, Enclose;
    var inner := EncodeMcu(command, payload).value;
    var data := EncodeA0(command, payload).value;
    EnclosedOnWire(data, inner);
    ChecksumCompletes(command, payload, ChecksumAA(command, |payload| + 1, payload));
    LengthBytes(data, 5, |payload| + 1);
    assert inner[1..3] == LE16(|payload| + 1) && inner[3..|inner| - 1] == payload;
    assert data[4] == data[4..][0] && data[5..7] == data[4..][1..3] && data[7..|data| - 1] == data[4..][3..|inner| - 1];
  }

  /** Why a byte string is refused: the first check that fails, with what was expected and what was found. */
  lemma RefusedFor(data: seq<Byte>)
    requires DecodeA0(data).Err?
    ensures var e, n := DecodeA0(data).error, |data|;
      if n < 8 then e == PacketTooShort(n, 8)
      else if data[0] != 0xa0 then e == UnsupportedOuterMarker(data[0])
      else if data[3] != (0xa0 + data[1] as int + data[2] as int) % 0x100 then
        e == OuterChecksumMismatch((0xa0 + data[1] as int + data[2] as int) % 0x100, data[3])
      else if Length(data[1], data[2]) != n - 4 then e == OuterLengthMismatch(Length(data[1], data[2]), n - 4)
      else if Length(data[5], data[6]) == 0 then e == InvalidEncodedLength
      else if Length(data[5], data[6]) != n - 7 then e == InnerLengthMismatch(3 + Length(data[5], data[6]), n - 4)
      else e.InnerChecksumMismatch? && e.actual == data[n - 1] && Total(data[4..n - 1] + [e.expected]) % 0x100 == 0xaa
  {
    hide ChecksumAA, FromLE16, Total, OuterChecksum;
    var n := |data|;
    if n >= 8 {
      OuterSum(data[1], data[2]);
      LengthRead(data, 1);
      var inner := data[4..];
      LengthRead(inner, 1);
      assert inner[1] == data[5] && inner[2] == data[6] && inner[n - 5] == data[n - 1];
      if Length(data[5], data[6]) == n - 7 {
        var payload := inner[3..n - 5];
        ChecksumCompletes(inner[0], payload, ChecksumAA(inner[0], n - 7, payload));
        assert inner[1..3] == LE16(n - 7);
        assert data[4..n - 1] == [inner[0]] + inner[1..3] + payload;
      }
    }
  }

  lemma LengthRead(data: seq<Byte>, at: nat)
    requires at + 2 <= |data|
    ensures FromLE16(data[at..at + 2]) == Length(data[at], data[at + 1])
  {}
}
