/** The synchronous transport as the object that owns the device: it writes blocks and consumes IN transfers. */
module GoodixTransport {
  import opened Wrappers
  import opened Bytes
  import opened Protocol
  import opened Firmware
  import opened Transport
  import opened KeyRead
  import opened Arithmetic

  class Link {
    /** The IN transfers still to come; when there are none the deadline passes. */
    var incoming: seq<seq<Byte>>
    var sent: seq<Block>

    constructor (incoming: seq<seq<Byte>>)
      ensures this.incoming == incoming && sent == []
    {
      this.incoming, sent := incoming, [];
    }

    /** Writes a frame as zero-padded 64-byte blocks. */
    method SendPaddedFrame(frame: seq<Byte>)
      modifies this`sent
      ensures sent == old(sent) + Blocks(frame)
    {
      hide BlockCount, ChunkOf, MakeBlock;
      for i := 0 to BlockCount(frame)
        invariant sent + BlocksFrom(frame, i) == old(sent) + Blocks(frame)
      {
        var block := MakeBlock(ChunkOf(frame, i));
        assert sent + ([block] + BlocksFrom(frame, i + 1)) == sent + [block] + BlocksFrom(frame, i + 1);
        sent := sent + [block];
      }
      assert sent + [] == sent;
    }

    method WaitForAck(command: Byte) returns (r: Result<Byte, Ending>)
      modifies this`incoming
      ensures var wait := AwaitAck(command, old(incoming));
        if wait.Got? then r == Ok(wait.value) && incoming == wait.rest else r == Err(wait.ending)
    {
      hide DecodeA0;
      while incoming != []
        invariant AwaitAck(command, incoming) == AwaitAck(command, old(incoming))
        decreases |incoming|
      {
        var data := incoming[0];
        incoming := incoming[1..];
        if data == [] {
          continue;
        }
        var packet := DecodeA0(data);
        if packet.Err? {
          return Err(Failed(PacketError(packet.error)));
        }
        if packet.value.command == ACK {
          var payload := packet.value.payload;
          if |payload| != 2 {
            return Err(Failed(MalformedAck(|payload|)));
          }
          if payload[0] != command {
            continue;
          }
          return Ok(payload[1]);
        }
        if packet.value.command == command {
          return Err(Failed(ResponseBeforeAck(command)));
        }
      }
      return Err(TimedOut);
    }

    method WaitForCompletion(command: Byte) returns (r: Result<Packet, Ending>)
      modifies this`incoming
      ensures var wait := AwaitCompletion(command, old(incoming));
        if wait.Got? then r == Ok(wait.value) && incoming == wait.rest else r == Err(wait.ending)
    {
      hide DecodeA0, AwaitAck;
      var ack := WaitForAck(command);
      if ack.Err? {
        return Err(ack.error);
      }
      ghost var start := incoming;
      while incoming != []
        invariant AwaitPacket(command, incoming) == AwaitPacket(command, start)
        decreases |incoming|
      {
        var data := incoming[0];
        incoming := incoming[1..];
        if data == [] {
          continue;
        }
        var packet := DecodeA0(data);
        if packet.Err? {
          return Err(Failed(PacketError(packet.error)));
        }
        if packet.value.command == command {
          return Ok(packet.value);
        }
      }
      return Err(TimedOut);
    }

    method TransactFirmware(command: Byte, payload: seq<Byte>) returns (r: Result<Packet, Ending>)
      modifies this
      ensures var (blocks, wait) := Transact(command, payload, old(incoming));
        && sent == old(sent) + blocks
        && if wait.Got? then r == Ok(wait.value) && incoming == wait.rest else r == Err(wait.ending)
    {
      hide EncodeA0, AwaitCompletion, Blocks;
      var frame := EncodeA0(command, payload);
      if frame.Err? {
        assert old(sent) + [] == old(sent);
        return Err(Failed(PacketError(frame.error)));
      }
      SendPaddedFrame(frame.value);
      r := WaitForCompletion(command);
    }

    /** One command in one block, and its completion. */
    method TransactSingle(command: Byte, payload: seq<Byte>) returns (r: Result<Packet, Ending>)
      modifies this
      ensures var block, wait := EncodeSingle(command, payload), AwaitCompletion(command, old(incoming));
        if block.Err? then r == Err(Failed(PacketError(block.error))) && sent == old(sent) && incoming == old(incoming)
        else
          && sent == old(sent) + [block.value]
          && if wait.Got? then r == Ok(wait.value) && incoming == wait.rest else r == Err(wait.ending)
    {
      hide EncodeSingle, AwaitCompletion;
      var block := EncodeSingle(command, payload);
      if block.Err? {
        return Err(Failed(PacketError(block.error)));
      }
      sent := sent + [block.value];
      r := WaitForCompletion(command);
    }

    /** Reads a persisted object piece by piece; the offset follows what was actually returned. */
    method ReadPskObject(objectId: U32, length: nat) returns (r: Result<seq<Byte>, Ending>)
      modifies this
      ensures var (blocks, read) := ReadObject(objectId, length, old(incoming));
        && sent == old(sent) + blocks
        && if read.Got? then r == Ok(read.value) && incoming == read.rest else r == Err(read.ending)
    {
      hide EncodeSingle, AwaitCompletion, ParsePskRead, BuildPskRead, ReadFrom;
      if length == 0 || length >= U32_LIMIT {
        assert old(sent) + [] == old(sent);
        return Err(Failed(InvalidObjectLength(length)));
      }
      ghost var whole := ReadFrom(objectId, length, [], incoming);
      var output, offset: U32 := [], 0;
      assert whole == ReadFrom(objectId, length, output, incoming);
      while |output| < length
        invariant offset == |output| <= length
        invariant whole.1 == ReadFrom(objectId, length, output, incoming).1
        invariant sent + ReadFrom(objectId, length, output, incoming).0 == old(sent) + whole.0
      {
        ghost var before, input := sent, incoming;
        var remaining := length - |output|;
        var requested := Min(remaining, PSK_CHUNK);
        var packet := TransactSingle(PSK_READ, BuildPskRead(objectId, offset, requested));
        ReadOn(objectId, length, output, input, before);
        if packet.Err? {
          return Err(packet.error);
        }
        var data := ParsePskRead(packet.value.payload, objectId, requested, remaining);
        if data.Err? {
          return Err(Failed(PskRead(data.error)));
        }
        if data.value == [] {
          return Err(Failed(PskReadEmpty(objectId, offset, length)));
        }
        output := output + data.value;
        // The checked addition of the loop: the offset stays below the length, so it cannot overflow.
        offset := offset + |data.value|;
      }
      ReadComplete(objectId, length, output, incoming);
      assert sent + [] == sent;
      return Ok(output);
    }

    /** Sends every chunk and then the check, and reports the result byte. */
    method SendPackage(p: Package, tag: seq<Byte>) returns (ending: Ending)
      requires Transferable(p)
      modifies this
      ensures var t := WriteAppTransfer(p, tag, old(incoming));
        sent == old(sent) + t.sent && ending == t.ending
    {
      hide Transact, ChunkCount, F0Payload, ChunkAt, TransferFrom;
      ghost var whole := WriteAppTransfer(p, tag, incoming);
      var count: nat := 0;
      while count < ChunkCount(p)
        invariant count <= ChunkCount(p)
        invariant whole.ending == TransferFrom(p, tag, count, incoming).ending
        invariant sent + TransferFrom(p, tag, count, incoming).sent == old(sent) + whole.sent
      {
        ghost var before, input := sent, incoming;
        var completion := TransactFirmware(FIRMWARE_WRITE, F0Payload(ChunkAt(p, count)));
        TransferStep(p, tag, count, input, before);
        if completion.Err? {
          return completion.error;
        }
        count := count + 1;
      }
      ghost var before, input := sent, incoming;
      var check := TransactFirmware(FIRMWARE_CHECK, tag);
      TransferLast(p, tag, input);
      assert Transact(FIRMWARE_CHECK, tag, input).1.Got? || Transact(FIRMWARE_CHECK, tag, input).1.Stopped?;
      if check.Err? {
        return check.error;
      }
      var payload := check.value.payload;
      if |payload| != 1 {
        return Failed(FirmwareCheckLength(|payload|));
      }
      if payload[0] == 0 {
        return Failed(FirmwareCheckRejected);
      }
      return Finished(TransferResult(count, payload[0]));
    }
  }

  lemma ReadOn(objectId: U32, total: U32, output: seq<Byte>, input: seq<seq<Byte>>, before: seq<Block>)
    requires |output| < total
    ensures var request, reply := Request(objectId, total, |output|), AwaitCompletion(PSK_READ, input);
      var r := ReadFrom(objectId, total, output, input);
      && request.Ok?
      && (reply.Stopped? ==> r == ([request.value], Stopped(reply.ending)))
      && (reply.Got? ==>
            var data := Accept(objectId, total, |output|, reply.value);
            && (data.Err? ==> r == ([request.value], Stopped(Failed(data.error))))
            && (data.Ok? ==>
                  var rest := ReadFrom(objectId, total, output + data.value, reply.rest);
                  r.1 == rest.1 && before + r.0 == before + [request.value] + rest.0))
  {
    hide EncodeSingle, AwaitCompletion, ParsePskRead, BuildPskRead;
    RequestAsks(objectId, total, |output|);
    var request, reply := Request(objectId, total, |output|), AwaitCompletion(PSK_READ, input);
    if reply.Got? {
      var data := Accept(objectId, total, |output|, reply.value);
      if data.Ok? {
        var rest := ReadFrom(objectId, total, output + data.value, reply.rest);
        assert before + ([request.value] + rest.0) == before + [request.value] + rest.0;
      }
    }
  }

  lemma ReadComplete(objectId: U32, total: U32, output: seq<Byte>, input: seq<seq<Byte>>)
    requires |output| == total
    ensures ReadFrom(objectId, total, output, input) == ([], Got(output, input))
  {}

  lemma TransferStep(p: Package, tag: seq<Byte>, i: nat, input: seq<seq<Byte>>, before: seq<Block>)
    requires Transferable(p) && i < ChunkCount(p)
    ensures var (blocks, reply) := Transact(FIRMWARE_WRITE, F0Payload(ChunkAt(p, i)), input);
      var t := TransferFrom(p, tag, i, input);
      && (!reply.Got? ==> t == Trace(blocks, reply.ending))
      && (reply.Got? ==>
            && t.ending == TransferFrom(p, tag, i + 1, reply.rest).ending
            && before + t.sent == before + blocks + TransferFrom(p, tag, i + 1, reply.rest).sent)
  {
    hide Transact, F0Payload, ChunkAt, ChunkCount;
    var (blocks, reply) := Transact(FIRMWARE_WRITE, F0Payload(ChunkAt(p, i)), input);
    if reply.Got? {
      var rest := TransferFrom(p, tag, i + 1, reply.rest);
      assert before + (blocks + rest.sent) == before + blocks + rest.sent;
    }
  }

  lemma TransferLast(p: Package, tag: seq<Byte>, input: seq<seq<Byte>>)
    requires Transferable(p)
    ensures TransferFrom(p, tag, ChunkCount(p), input) == CheckTransfer(tag, ChunkCount(p), input)
  {
    hide CheckTransfer, Transact, ChunkCount;
  }
}
