/**
 The synchronous read of a persisted object: one request per response, each at the offset the previous ones reached,
 until the object is complete.
 */
module KeyRead {
  import opened Wrappers
  import opened Arithmetic
  import opened Bytes
  import opened Protocol
  import opened Transport

  /** The request block for what is missing of an object, at most 256 bytes of it. */
  function Request(objectId: U32, total: U32, received: nat): Result<Block, ProtocolError>
    requires received <= total
  {
    EncodeSingle(PSK_READ, BuildPskRead(objectId, received, Min(total - received, PSK_CHUNK)))
  }

  /** The data of one response. */
  function Accept(objectId: U32, total: U32, received: nat, packet: Packet): (r: Result<seq<Byte>, WireError>)
    requires received <= total
    ensures r.Ok? ==> 0 < |r.value| <= total - received
  {
    var remaining := total - received;
    var data := ParsePskRead(packet.payload, objectId, Min(remaining, PSK_CHUNK), remaining);
    if data.Err? then Err(PskRead(data.error))
    else if data.value == [] then Err(PskReadEmpty(objectId, received, total))
    else Ok(data.value)
  }

  /** Reading on behind `output`: the blocks written, and the object or how the read stopped. */
  function ReadFrom(objectId: U32, total: U32, output: seq<Byte>, input: seq<seq<Byte>>): (seq<Block>, Wait<seq<Byte>>)
    requires |output| <= total
    decreases total - |output|
  {
    if |output| == total then ([], Got(output, input))
    else
      var request := Request(objectId, total, |output|);
      if request.Err? then ([], Stopped(Failed(PacketError(request.error))))
      else
        var reply := AwaitCompletion(PSK_READ, input);
        if reply.Stopped? then ([request.value], Stopped(reply.ending))
        else
          var data := Accept(objectId, total, |output|, reply.value);
          if data.Err? then ([request.value], Stopped(Failed(data.error)))
          else
            var rest := ReadFrom(objectId, total, output + data.value, reply.rest);
            ([request.value] + rest.0, rest.1)
  }

  function ReadObject(objectId: U32, length: nat, input: seq<seq<Byte>>): (seq<Block>, Wait<seq<Byte>>) {
    if length == 0 || length >= U32_LIMIT then ([], Stopped(Failed(InvalidObjectLength(length))))
    else ReadFrom(objectId, length, [], input)
  }

  // ---- requests -------------------------------------------------------------------------------------------------

  /** The block is a well-formed request for `requested` bytes of the object from `offset` on. */
  predicate Asks(block: Block, objectId: U32, offset: nat, requested: nat) {
    var packet := DecodeA0(block[..24]);
    && packet.Ok? && packet.value.command == 0xe4 && |packet.value.payload| == 16
    && FromLE32(packet.value.payload[..4]) == requested
    && FromLE32(packet.value.payload[4..8]) == offset
    && FromLE32(packet.value.payload[8..12]) == objectId
  }

  /** A block that does nothing but ask for key bytes. */
  predicate AsksForKey(block: Block) {
    var packet := DecodeA0(block[..24]);
    packet.Ok? && packet.value.command == 0xe4
  }

  /** A request never fails to fit, and decodes to what was meant. */
  lemma RequestAsks(objectId: U32, total: U32, received: nat)
    requires received <= total
    ensures var request := Request(objectId, total, received);
      request.Ok? && Asks(request.value, objectId, received, Min(total - received, PSK_CHUNK))
  {
    hide EncodeA0, DecodeA0, LE32, FromLE32;
    var requested := Min(total - received, PSK_CHUNK);
    var payload := BuildPskRead(objectId, received, requested);
    EncodeRoundTrip(PSK_READ, payload);
    var frame := EncodeA0(PSK_READ, payload).value;
    assert MakeBlock(frame)[..24] == frame;
    assert payload[..4] == LE32(requested) && payload[4..8] == LE32(received) && payload[8..12] == LE32(objectId);
    LE32RoundTrip(requested);
    LE32RoundTrip(received);
    LE32RoundTrip(objectId);
  }

  // ---- a device that answers ------------------------------------------------------------------------------------

  function Join(pieces: seq<seq<Byte>>): seq<Byte> {
    if pieces == [] then [] else pieces[0] + Join(pieces[1..])
  }

  /** An acknowledgement with any flags, then the response with one piece of the object. */
  function Answer(objectId: U32, flags: Byte, piece: seq<Byte>): seq<seq<Byte>>
    requires |piece| <= PSK_CHUNK
  {
    hide EncodeA0, PskResponse;
    ResponseLength(objectId, piece);
    EncodeRoundTrip(ACK, [PSK_READ, flags]);
    EncodeRoundTrip(PSK_READ, PskResponse(objectId, piece));
    [EncodeA0(ACK, [PSK_READ, flags]).value, EncodeA0(PSK_READ, PskResponse(objectId, piece)).value]
  }

  lemma ResponseLength(objectId: U32, piece: seq<Byte>)
    requires |piece| < U32_LIMIT
    ensures |PskResponse(objectId, piece)| == PSK_RESPONSE_HEADER + |piece|
  {}

  /** The device hands the object out in pieces of its own choosing. */
  function Answers(objectId: U32, flags: Byte, pieces: seq<seq<Byte>>): seq<seq<Byte>>
    requires forall piece <- pieces :: 0 < |piece| <= PSK_CHUNK
  {
    if pieces == [] then [] else Answer(objectId, flags, pieces[0]) + Answers(objectId, flags, pieces[1..])
  }

  /** One answer is waited for and accepted, whatever follows it. */
  lemma AnswerArrives(objectId: U32, flags: Byte, piece: seq<Byte>, more: seq<seq<Byte>>)
    requires |piece| <= PSK_CHUNK
    ensures AwaitCompletion(PSK_READ, Answer(objectId, flags, piece) + more)
      == Got(Echo(PSK_READ, PskResponse(objectId, piece)), more)
  {
    hide EncodeA0, DecodeA0, PskResponse, ChecksumAA;
    var input := Answer(objectId, flags, piece) + more;
    ResponseLength(objectId, piece);
    EncodeRoundTrip(ACK, [PSK_READ, flags]);
    EncodeRoundTrip(PSK_READ, PskResponse(objectId, piece));
    assert input[1..][1..] == more;
    assert AwaitAck(PSK_READ, input) == Got(flags, input[1..]);
  }

  lemma PieceAccepted(objectId: U32, total: U32, received: nat, piece: seq<Byte>)
    requires 0 < |piece| <= PSK_CHUNK && received + |piece| <= total
    ensures Accept(objectId, total, received, Echo(PSK_READ, PskResponse(objectId, piece))) == Ok(piece)
  {
    hide PskResponse, ParsePskRead, ChecksumAA;
    var remaining := total - received;
    PskReadAcceptedIff(PskResponse(objectId, piece), objectId, Min(remaining, PSK_CHUNK), remaining, piece);
  }

  /** One exchange of the read. */
  lemma ReadStep(objectId: U32, total: U32, output: seq<Byte>, input: seq<seq<Byte>>, piece: seq<Byte>)
    requires |output| < total && AwaitCompletion(PSK_READ, input).Got?
    requires Accept(objectId, total, |output|, AwaitCompletion(PSK_READ, input).value) == Ok(piece)
    ensures Request(objectId, total, |output|).Ok? && Asks(Request(objectId, total, |output|).value, objectId, |output|,
      Min(total - |output|, PSK_CHUNK))
    ensures var rest := ReadFrom(objectId, total, output + piece, AwaitCompletion(PSK_READ, input).rest);
      ReadFrom(objectId, total, output, input) == ([Request(objectId, total, |output|).value] + rest.0, rest.1)
  {
    hide Accept, Request, AwaitCompletion, Asks;
    RequestAsks(objectId, total, |output|);
  }

  /** One request per piece, each for what is missing from where the previous pieces ended. */
  ghost predicate AsksInTurn(objectId: U32, total: U32, start: nat, blocks: seq<Block>, pieces: seq<seq<Byte>>) {
    && |blocks| == |pieces|
    && forall k :: 0 <= k < |blocks| ==>
         && start + |Join(pieces[..k])| < total
         && var offset := start + |Join(pieces[..k])|;
            Asks(blocks[k], objectId, offset, Min(total - offset, PSK_CHUNK))
  }

  lemma AskFirst(objectId: U32, total: U32, start: nat, block: Block, blocks: seq<Block>, piece: seq<Byte>,
                 others: seq<seq<Byte>>)
    requires start < total && Asks(block, objectId, start, Min(total - start, PSK_CHUNK))
    requires AsksInTurn(objectId, total, start + |piece|, blocks, others)
    ensures AsksInTurn(objectId, total, start, [block] + blocks, [piece] + others)
  {
    hide Asks;
    var pieces := [piece] + others;
    forall k | 0 <= k < |pieces|
      ensures |Join(pieces[..k])| == if k == 0 then 0 else |piece| + |Join(others[..k - 1])|
    {
      if k > 0 {
        assert pieces[..k][1..] == others[..k - 1];
      }
    }
  }

  /**
   Whatever pieces a device cuts its object into, the read returns the object, consumes exactly the answers, and asks
   once per piece, each time for what is missing from where the previous pieces ended.
   */
  lemma {:induction false} ObjectIsRead(
    objectId: U32, total: U32, output: seq<Byte>, flags: Byte, pieces: seq<seq<Byte>>, more: seq<seq<Byte>>)
    requires forall piece <- pieces :: 0 < |piece| <= PSK_CHUNK
    requires |output| + |Join(pieces)| == total
    ensures var (blocks, read) := ReadFrom(objectId, total, output, Answers(objectId, flags, pieces) + more);
      read == Got(output + Join(pieces), more) && AsksInTurn(objectId, total, |output|, blocks, pieces)
    decreases |pieces|
  {
    hide Asks, AsksInTurn, Accept, Request, Answer, AwaitCompletion, ReadFrom;
    var input := Answers(objectId, flags, pieces) + more;
    if pieces == [] {
      ReadDone(objectId, total, output, more);
      assert input == more && output + [] == output;
    } else {
      var piece, others := pieces[0], pieces[1..];
      var tail := Answers(objectId, flags, others) + more;
      assert input == Answer(objectId, flags, piece) + tail;
      AnswerArrives(objectId, flags, piece, tail);
      PieceAccepted(objectId, total, |output|, piece);
      ReadStep(objectId, total, output, input, piece);
      ObjectIsRead(objectId, total, output + piece, flags, others, more);
      assert output + Join(pieces) == output + piece + Join(others) && [piece] + others == pieces;
      AskFirst(objectId, total, |output|, Request(objectId, total, |output|).value,
        ReadFrom(objectId, total, output + piece, tail).0, piece, others);
    }
  }

  lemma ReadDone(objectId: U32, total: U32, output: seq<Byte>, input: seq<seq<Byte>>)
    requires |output| == total
    ensures ReadFrom(objectId, total, output, input) == ([], Got(output, input))
    ensures AsksInTurn(objectId, total, total, [], [])
  {}

  // ---- whatever the device sends --------------------------------------------------------------------------------

  /** `packet` arrived somewhere in front of `rest`. */
  ghost predicate Arrived(packet: Packet, input: seq<seq<Byte>>, rest: seq<seq<Byte>>) {
    && |rest| < |input| && input[|input| - |rest|..] == rest
    && DecodeA0(input[|input| - |rest| - 1]) == Ok(packet)
  }

  lemma {:induction false} AckLeavesSuffix(command: Byte, input: seq<seq<Byte>>)
    ensures AwaitAck(command, input).Got? ==>
      && |AwaitAck(command, input).rest| < |input|
      && input[|input| - |AwaitAck(command, input).rest|..] == AwaitAck(command, input).rest
  {
    hide DecodeA0;
    if input != [] {
      AckLeavesSuffix(command, input[1..]);
    }
  }

  lemma {:induction false} PacketArrived(command: Byte, input: seq<seq<Byte>>)
    ensures AwaitPacket(command, input).Got? ==>
      && Arrived(AwaitPacket(command, input).value, input, AwaitPacket(command, input).rest)
      && AwaitPacket(command, input).value.command == command
  {
    hide DecodeA0;
    if input != [] {
      PacketArrived(command, input[1..]);
    }
  }

  lemma CompletionArrived(command: Byte, input: seq<seq<Byte>>)
    ensures AwaitCompletion(command, input).Got? ==>
      && Arrived(AwaitCompletion(command, input).value, input, AwaitCompletion(command, input).rest)
      && AwaitCompletion(command, input).value.command == command
  {
    hide DecodeA0, AwaitAck, AwaitPacket;
    AckLeavesSuffix(command, input);
    var ack := AwaitAck(command, input);
    if ack.Got? {
      PacketArrived(command, ack.rest);
    }
  }

  /** The `k`-th piece is carried by the packet at position `at[k]` of the stream. */
  ghost predicate Carries(objectId: U32, input: seq<seq<Byte>>, at: seq<nat>, pieces: seq<seq<Byte>>) {
    && |at| == |pieces|
    && (forall k :: 0 <= k < |at| ==> at[k] < |input| && 0 < |pieces[k]| <= PSK_CHUNK)
    && (forall j, k :: 0 <= j < k < |at| ==> at[j] < at[k])
    && forall k :: 0 <= k < |at| ==> CarriedBy(objectId, input[at[k]], pieces[k])
  }

  predicate CarriedBy(objectId: U32, data: seq<Byte>, piece: seq<Byte>) {
    var packet := DecodeA0(data);
    && |piece| < U32_LIMIT && packet.Ok? && packet.value.command == 0xe4
    && PskResponse(objectId, piece) <= packet.value.payload
  }

  lemma AcceptedIsCarried(objectId: U32, total: U32, received: nat, packet: Packet)
    requires received <= total && Accept(objectId, total, received, packet).Ok?
    ensures var piece := Accept(objectId, total, received, packet).value;
      0 < |piece| <= PSK_CHUNK && PskResponse(objectId, piece) <= packet.payload
  {
    hide PskResponse, ParsePskRead;
    var remaining, piece := total - received, Accept(objectId, total, received, packet).value;
    PskReadAcceptedIff(packet.payload, objectId, Min(remaining, PSK_CHUNK), remaining, piece);
  }

  /** The piece carried in front of `rest` precedes the ones carried behind. */
  lemma CarriesFirst(objectId: U32, input: seq<seq<Byte>>, rest: seq<seq<Byte>>, piece: seq<Byte>, at: seq<nat>,
                     pieces: seq<seq<Byte>>)
    returns (all: seq<nat>)
    requires |rest| < |input| && input[|input| - |rest|..] == rest
    requires 0 < |piece| <= PSK_CHUNK && CarriedBy(objectId, input[|input| - |rest| - 1], piece)
    requires Carries(objectId, rest, at, pieces)
    ensures Carries(objectId, input, all, [piece] + pieces)
  {
    hide CarriedBy;
    var skipped, ps := |input| - |rest|, [piece] + pieces;
    var moved: seq<nat> := seq(|at|, k requires 0 <= k < |at| => at[k] + skipped);
    all := [skipped - 1] + moved;
    forall k | 0 <= k < |all|
      ensures all[k] < |input| && 0 < |ps[k]| <= PSK_CHUNK && CarriedBy(objectId, input[all[k]], ps[k])
    {
      if k > 0 {
        assert all[k] == at[k - 1] + skipped && ps[k] == pieces[k - 1];
        assert input[skipped..][at[k - 1]] == input[all[k]];
      }
    }
    forall j, k | 0 <= j < k < |all|
      ensures all[j] < all[k]
    {
      assert all[k] == at[k - 1] + skipped;
      if j > 0 {
        assert all[j] == at[j - 1] + skipped;
      }
    }
  }

  /**
   Nothing is invented: whatever the stream holds, an object that is read is complete and consists of the pieces that
   successive responses for this object carried, in the order of the stream, one request for each.
   */
  lemma {:induction false} ReadComesFromDevice(objectId: U32, total: U32, output: seq<Byte>, input: seq<seq<Byte>>)
    returns (at: seq<nat>, pieces: seq<seq<Byte>>)
    requires |output| <= total && ReadFrom(objectId, total, output, input).1.Got?
    ensures var (blocks, read) := ReadFrom(objectId, total, output, input);
      && |read.value| == total && read.value == output + Join(pieces)
      && AsksInTurn(objectId, total, |output|, blocks, pieces) && Carries(objectId, input, at, pieces)
    decreases total - |output|
  {
    hide Accept, Request, AwaitCompletion, CarriedBy, Carries, Asks, AsksInTurn;
    at, pieces := [], [];
    if |output| == total {
      ReadDone(objectId, total, output, input);
      NothingCarried(objectId, input);
      assert output + [] == output;
    } else {
      CompletionArrived(PSK_READ, input);
      RequestAsks(objectId, total, |output|);
      var reply := AwaitCompletion(PSK_READ, input);
      var piece := Accept(objectId, total, |output|, reply.value).value;
      AcceptedIsCarried(objectId, total, |output|, reply.value);
      ReadStep(objectId, total, output, input, piece);
      var laterAt, later := ReadComesFromDevice(objectId, total, output + piece, reply.rest);
      ArrivedCarries(objectId, reply.value, input, reply.rest, piece);
      at := CarriesFirst(objectId, input, reply.rest, piece, laterAt, later);
      AskFirst(objectId, total, |output|, Request(objectId, total, |output|).value,
        ReadFrom(objectId, total, output + piece, reply.rest).0, piece, later);
      pieces := [piece] + later;
      assert output + piece + Join(later) == output + Join(pieces);
    }
  }

  lemma NothingCarried(objectId: U32, input: seq<seq<Byte>>)
    ensures Carries(objectId, input, [], [])
  {}

  lemma ArrivedCarries(objectId: U32, packet: Packet, input: seq<seq<Byte>>, rest: seq<seq<Byte>>, piece: seq<Byte>)
    requires Arrived(packet, input, rest) && packet.command == PSK_READ
    requires |piece| < U32_LIMIT && PskResponse(objectId, piece) <= packet.payload
    ensures CarriedBy(objectId, input[|input| - |rest| - 1], piece)
  {
    hide DecodeA0, PskResponse;
  }
}
