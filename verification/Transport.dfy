/** Physical blocks, persisted-key reads and the synchronous firmware transfer. */
module Transport {
  import opened Wrappers
  import opened Arithmetic
  import opened Bytes
  import opened Protocol
  import opened Firmware

  const BLOCK_SIZE := 64

  /** One physical OUT transfer. */
  type Block = s: seq<Byte> | |s| == BLOCK_SIZE witness Zeros(BLOCK_SIZE)

  // ---- blocks ---------------------------------------------------------------------------------------------------

  function MakeBlock(chunk: seq<Byte>): Block
    requires |chunk| <= BLOCK_SIZE
  {
    chunk + Zeros(BLOCK_SIZE - |chunk|)
  }

  /** The number of blocks a frame takes. */
  function BlockCount(frame: seq<Byte>): nat {
    (|frame| + BLOCK_SIZE - 1) / BLOCK_SIZE
  }

  /** The `i`-th 64-byte chunk of a frame; only the last one can be shorter. */
  function ChunkOf(frame: seq<Byte>, i: nat): (chunk: seq<Byte>)
    requires i < BlockCount(frame)
    ensures |chunk| <= BLOCK_SIZE
  {
    var from := BLOCK_SIZE * i;
    frame[from..if from + BLOCK_SIZE <= |frame| then from + BLOCK_SIZE else |frame|]
  }

  /** The blocks of a frame from the `i`-th on. */
  function BlocksFrom(frame: seq<Byte>, i: nat): seq<Block>
    requires i <= BlockCount(frame)
    decreases BlockCount(frame) - i
  {
    if i == BlockCount(frame) then [] else [MakeBlock(ChunkOf(frame, i))] + BlocksFrom(frame, i + 1)
  }

  function Blocks(frame: seq<Byte>): seq<Block> {
    BlocksFrom(frame, 0)
  }

  lemma {:induction false} BlocksFromAt(frame: seq<Byte>, i: nat, j: nat)
    requires i + j < BlockCount(frame)
    ensures j < |BlocksFrom(frame, i)| && BlocksFrom(frame, i)[j] == MakeBlock(ChunkOf(frame, i + j))
    decreases j
  {
    hide MakeBlock, ChunkOf;
    if j > 0 {
      BlocksFromAt(frame, i + 1, j - 1);
    }
  }

  /** A frame goes out in blocks of 64 bytes, as few as hold it, with zeros behind its last byte. */
  lemma BlocksExactly(frame: seq<Byte>, j: nat, k: nat)
    ensures 64 * |Blocks(frame)| - 64 < |frame| <= 64 * |Blocks(frame)|
    ensures j < |Blocks(frame)| && k < 64 ==>
      Blocks(frame)[j][k] == if 64 * j + k < |frame| then frame[64 * j + k] else 0
  {
    BlocksFromCount(frame, 0);
    if j < BlockCount(frame) {
      BlocksFromAt(frame, 0, j);
    }
  }

  /** One command as one zero-padded block; the inner frame has to fit behind the outer header. */
  function EncodeSingle(command: Byte, payload: seq<Byte>): Result<Block, ProtocolError> {
    hide EncodeA0;
    var frame := EncodeA0(command, payload);
    if frame.Err? then Err(frame.error)
    else
      EncodeRoundTrip(command, payload);
      if |frame.value| > BLOCK_SIZE then Err(FrameTooLarge(|frame.value| - OUTER_HEADER, BLOCK_SIZE - OUTER_HEADER))
      else Ok(MakeBlock(frame.value))
  }

  // ---- persisted-key reads --------------------------------------------------------------------------------------

  const PSK_CHUNK := 0x100
  const PSK_RESPONSE_HEADER := 9
  const SEALED_PSK_OBJECT: U32 := 0xbb01_0002
  const SEALED_PSK_SIZE := 0x66
  const PSK_HASH_OBJECT: U32 := 0xbb02_0001
  const PSK_HASH_SIZE := 0x20

  datatype PskReadError =
    | MalformedResponse(length: nat)
    | Rejected(status: Byte)
    | ObjectMismatch(expected: U32, actual: U32)
    | Truncated(declared: nat, available: nat)
    | ReturnedTooMuch(requested: nat, returned: nat, remaining: nat)

  function BuildPskRead(objectId: U32, offset: U32, requested: U32): (payload: seq<Byte>)
    ensures |payload| == 16
  {
    LE32(requested) + LE32(offset) + LE32(objectId) + Zeros(4)
  }

  function ParsePskRead(payload: seq<Byte>, objectId: U32, requested: nat, remaining: nat)
    : (r: Result<seq<Byte>, PskReadError>)
    ensures r.Ok? ==> |r.value| <= requested && |r.value| <= remaining
  {
    var length := |payload|;
    :- Need(length >= PSK_RESPONSE_HEADER, MalformedResponse(length));
    :- Need(payload[0] == 0, Rejected(payload[0]));
    var actual := FromLE32(payload[1..5]);
    :- Need(actual == objectId, ObjectMismatch(objectId, actual));
    var returned, available := FromLE32(payload[5..9]), length - PSK_RESPONSE_HEADER;
    :- Need(returned <= available, Truncated(returned, available));
    :- Need(returned <= requested && returned <= remaining, ReturnedTooMuch(requested, returned, remaining));
    Ok(payload[PSK_RESPONSE_HEADER..PSK_RESPONSE_HEADER + returned])
  }

  /** What the device answers a read with. */
  function PskResponse(objectId: U32, data: seq<Byte>): seq<Byte>
    requires |data| < U32_LIMIT
  {
    [0] + LE32(objectId) + LE32(|data|) + data
  }

  /** A read yields `data` exactly when the response carries it, possibly followed by ignored bytes, and it was asked for. */
  lemma PskReadAcceptedIff(payload: seq<Byte>, objectId: U32, requested: nat, remaining: nat, data: seq<Byte>)
    requires |data| < U32_LIMIT
    ensures ParsePskRead(payload, objectId, requested, remaining) == Ok(data) <==>
      PskResponse(objectId, data) <= payload && |data| <= requested && |data| <= remaining
  {
    hide LE32, FromLE32;
    LE32RoundTrip(objectId);
    LE32RoundTrip(|data|);
    var response := PskResponse(objectId, data);
    assert response[1..5] == LE32(objectId) && response[5..9] == LE32(|data|) && response[9..] == data;
    if ParsePskRead(payload, objectId, requested, remaining) == Ok(data) {
      assert payload[..9 + |data|] == [payload[0]] + payload[1..5] + payload[5..9] + payload[9..9 + |data|];
    } else if response <= payload {
      assert payload[1..5] == response[1..5] && payload[5..9] == response[5..9] && payload[9..9 + |data|] == response[9..];
    }
  }

  // ---- errors and endings of a transfer -------------------------------------------------------------------------

  datatype WireError =
    | PacketError(protocol: ProtocolError)
    | MalformedAck(payloadLength: nat)
    | ResponseBeforeAck(command: Byte)
    | FirmwareCheckLength(payloadLength: nat)
    | FirmwareCheckRejected
    | PskRead(read: PskReadError)
    | PskReadEmpty(objectId: U32, received: nat, total: nat)
    | PskReadOverflow(total: nat, received: nat)
    | InvalidObjectLength(length: nat)
    | PskUnusable
    | PskHashMismatch
    | AlreadyAuthenticated
    | NotAuthenticated
    | UnexpectedTransferData(length: nat)
    | F0IndexOutOfRange(index: nat, count: nat)
    | F0BlockOutOfRange(chunk: nat, block: nat)
    | F0CountMismatch(expected: nat, sent: nat)
    | FirmwareFrameTooLarge(command: Byte, length: nat)
    | OutputBufferTooSmall(required: nat, actual: nat)
    | TransferAlreadyComplete

  datatype TransferResult = TransferResult(f0ChunksSent: nat, firmwareCheckResult: Byte)

  /** How a transfer over a given stream of IN transfers ends; with nothing left to read it times out. */
  datatype Ending = Finished(result: TransferResult) | Failed(error: WireError) | TimedOut

  // ---- waiting for a response -----------------------------------------------------------------------------------

  datatype Wait<T> = Got(value: T, rest: seq<seq<Byte>>) | Stopped(ending: Ending)

  /** Reads until the acknowledgement of `command`; zero-length transfers and unrelated packets are skipped. */
  function AwaitAck(command: Byte, input: seq<seq<Byte>>): Wait<Byte> {
    if input == [] then Stopped(TimedOut)
    else if input[0] == [] then AwaitAck(command, input[1..])
    else
      var decoded := DecodeA0(input[0]);
      if decoded.Err? then Stopped(Failed(PacketError(decoded.error)))
      else
        var packet := decoded.value;
        if packet.command == ACK then
          if |packet.payload| != 2 then Stopped(Failed(MalformedAck(|packet.payload|)))
          else if packet.payload[0] != command then AwaitAck(command, input[1..])
          else Got(packet.payload[1], input[1..])
        else if packet.command == command then Stopped(Failed(ResponseBeforeAck(command)))
        else AwaitAck(command, input[1..])
  }

  /** Reads until the completion packet of `command`. */
  function AwaitPacket(command: Byte, input: seq<seq<Byte>>): Wait<Packet> {
    if input == [] then Stopped(TimedOut)
    else if input[0] == [] then AwaitPacket(command, input[1..])
    else
      var decoded := DecodeA0(input[0]);
      if decoded.Err? then Stopped(Failed(PacketError(decoded.error)))
      else if decoded.value.command == command then Got(decoded.value, input[1..])
      else AwaitPacket(command, input[1..])
  }

  function AwaitCompletion(command: Byte, input: seq<seq<Byte>>): Wait<Packet> {
    var ack := AwaitAck(command, input);
    if ack.Stopped? then Stopped(ack.ending) else AwaitPacket(command, ack.rest)
  }

  // ---- the synchronous transfer ---------------------------------------------------------------------------------

  /** The blocks written and the ending reached. */
  datatype Trace = Trace(sent: seq<Block>, ending: Ending)

  /** The same ending with more written in front. */
  function Prefixed(blocks: seq<Block>, t: Trace): Trace {
    Trace(blocks + t.sent, t.ending)
  }

  lemma PrefixedTwice(a: seq<Block>, b: seq<Block>, t: Trace)
    ensures Prefixed(a, Prefixed(b, t)) == Prefixed(a + b, t) && Prefixed([], t) == t && a + [] == a
  {
    assert a + (b + t.sent) == a + b + t.sent && [] + t.sent == t.sent;
  }

  lemma PrefixedTrace(a: seq<Block>, b: seq<Block>, ending: Ending)
    ensures Prefixed(a, Trace(b, ending)) == Trace(a + b, ending)
  {}

  /** One command with its blocks, and what is waited for after them. */
  function Transact(command: Byte, payload: seq<Byte>, input: seq<seq<Byte>>): (seq<Block>, Wait<Packet>) {
    var frame := EncodeA0(command, payload);
    if frame.Err? then ([], Stopped(Failed(PacketError(frame.error))))
    else (Blocks(frame.value), AwaitCompletion(command, input))
  }

  /** The check of the whole package that follows the last chunk. */
  function CheckTransfer(tag: seq<Byte>, sent: nat, input: seq<seq<Byte>>): Trace {
    var (blocks, reply) := Transact(FIRMWARE_CHECK, tag, input);
    if reply.Stopped? then Trace(blocks, reply.ending)
    else
      var payload := reply.value.payload;
      Trace(blocks,
        if |payload| != 1 then Failed(FirmwareCheckLength(|payload|))
        else if payload[0] == 0 then Failed(FirmwareCheckRejected)
        else Finished(TransferResult(sent, payload[0])))
  }

  /** The transfer from chunk `i` on. */
  function TransferFrom(p: Package, tag: seq<Byte>, i: nat, input: seq<seq<Byte>>): Trace
    requires Transferable(p) && i <= ChunkCount(p)
    decreases ChunkCount(p) - i
  {
    if i == ChunkCount(p) then CheckTransfer(tag, i, input)
    else
      var (blocks, reply) := Transact(FIRMWARE_WRITE, F0Payload(ChunkAt(p, i)), input);
      if reply.Stopped? then Trace(blocks, reply.ending)
      else Prefixed(blocks, TransferFrom(p, tag, i + 1, reply.rest))
  }

  function WriteAppTransfer(p: Package, tag: seq<Byte>, input: seq<seq<Byte>>): Trace
    requires Transferable(p)
  {
    TransferFrom(p, tag, 0, input)
  }

  // ---- what a complete transfer sends ---------------------------------------------------------------------------

  function F0Frame(p: Package, i: nat): (frame: seq<Byte>)
    requires Transferable(p) && i < ChunkCount(p)
    ensures Ok(frame) == EncodeA0(FIRMWARE_WRITE, F0Payload(ChunkAt(p, i)))
  {
    EncodeRoundTrip(FIRMWARE_WRITE, F0Payload(ChunkAt(p, i)));
    EncodeA0(FIRMWARE_WRITE, F0Payload(ChunkAt(p, i))).value
  }

  function F4Frame(tag: seq<Byte>): (frame: seq<Byte>)
    requires |tag| == 32
    ensures Ok(frame) == EncodeA0(FIRMWARE_CHECK, tag) && |frame| == 40
  {
    EncodeRoundTrip(FIRMWARE_CHECK, tag);
    EncodeA0(FIRMWARE_CHECK, tag).value
  }

  /** All blocks from chunk `i` to the check. */
  function TransferBlocks(p: Package, tag: seq<Byte>, i: nat): seq<Block>
    requires Transferable(p) && i <= ChunkCount(p) && |tag| == 32
    decreases ChunkCount(p) - i
  {
    if i == ChunkCount(p) then Blocks(F4Frame(tag)) else Blocks(F0Frame(p, i)) + TransferBlocks(p, tag, i + 1)
  }

  lemma AppendPrefix<T>(a: seq<T>, b: seq<T>, c: seq<T>)
    requires b <= c
    ensures a + b <= a + c
  {}

  /** Whatever is read, the blocks sent are the first of those, and all of them when the transfer finishes. */
  lemma {:induction false} SendsTransferBlocks(p: Package, tag: seq<Byte>, i: nat, input: seq<seq<Byte>>)
    requires Transferable(p) && i <= ChunkCount(p) && |tag| == 32
    ensures var t := TransferFrom(p, tag, i, input);
      && t.sent <= TransferBlocks(p, tag, i)
      && (t.ending.Finished? ==>
            && t.sent == TransferBlocks(p, tag, i)
            && t.ending.result.f0ChunksSent == ChunkCount(p) && t.ending.result.firmwareCheckResult != 0)
    decreases ChunkCount(p) - i
  {
    hide AwaitCompletion, Blocks, EncodeA0, F0Payload, ChunkAt, ChunkCount, AwaitAck, AwaitPacket;
    if i < ChunkCount(p) {
      var frame := F0Frame(p, i);
      var reply := AwaitCompletion(FIRMWARE_WRITE, input);
      NeverFinished(FIRMWARE_WRITE, input);
      if reply.Got? {
        SendsTransferBlocks(p, tag, i + 1, reply.rest);
        AppendPrefix(Blocks(frame), TransferFrom(p, tag, i + 1, reply.rest).sent, TransferBlocks(p, tag, i + 1));
      }
    } else {
      var frame := F4Frame(tag);
      NeverFinished(FIRMWARE_CHECK, input);
    }
  }

  lemma NeverFinished(command: Byte, input: seq<seq<Byte>>)
    ensures AwaitCompletion(command, input).Stopped? ==> !AwaitCompletion(command, input).ending.Finished?
  {
    hide DecodeA0;
    AckNeverFinished(command, input);
    if AwaitAck(command, input).Got? {
      PacketNeverFinished(command, AwaitAck(command, input).rest);
    }
  }

  lemma {:induction false} AckNeverFinished(command: Byte, input: seq<seq<Byte>>)
    ensures AwaitAck(command, input).Stopped? ==> !AwaitAck(command, input).ending.Finished?
  {
    hide DecodeA0;
    if input != [] {
      AckNeverFinished(command, input[1..]);
    }
  }

  lemma {:induction false} PacketNeverFinished(command: Byte, input: seq<seq<Byte>>)
    ensures AwaitPacket(command, input).Stopped? ==> !AwaitPacket(command, input).ending.Finished?
  {
    hide DecodeA0;
    if input != [] {
      PacketNeverFinished(command, input[1..]);
    }
  }

  // ---- the receiving side ---------------------------------------------------------------------------------------

  function Joined(blocks: seq<Block>): (bytes: seq<Byte>)
    ensures |bytes| == BLOCK_SIZE * |blocks|
  {
    if blocks == [] then [] else blocks[0] + Joined(blocks[1..])
  }

  /** The length of the frame that starts with this block. */
  function FrameLength(first: Block): nat {
    OUTER_HEADER + FromLE16(first[1..3])
  }

  /** The first frame of a block stream, by its declared length, and the blocks behind it. */
  function Cut(blocks: seq<Block>): (r: Option<(seq<Byte>, seq<Block>)>)
    requires blocks != []
    ensures r.Some? ==> |r.value.1| < |blocks|
  {
    var length := FrameLength(blocks[0]);
    var count := (length + BLOCK_SIZE - 1) / BLOCK_SIZE;
    if count > |blocks| then None else Some((Joined(blocks[..count])[..length], blocks[count..]))
  }

  /** Cuts a block stream into frames and decodes each of them. */
  function Receive(blocks: seq<Block>): Option<seq<Packet>>
    decreases |blocks|
  {
    if blocks == [] then Some([])
    else
      var cut := Cut(blocks);
      if cut.None? then None
      else
        var packet, rest := DecodeA0(cut.value.0), Receive(cut.value.1);
        if packet.Err? || rest.None? then None else Some([packet.value] + rest.value)
  }

  lemma {:induction false} BlocksFromCount(frame: seq<Byte>, i: nat)
    requires i <= BlockCount(frame)
    ensures |BlocksFrom(frame, i)| == BlockCount(frame) - i
    decreases BlockCount(frame) - i
  {
    if i < BlockCount(frame) {
      BlocksFromCount(frame, i + 1);
    }
  }

  lemma {:induction false} JoinedBlocks(frame: seq<Byte>, i: nat)
    requires i <= BlockCount(frame)
    ensures BLOCK_SIZE * i < |frame| ==> frame[BLOCK_SIZE * i..] <= Joined(BlocksFrom(frame, i))
    decreases BlockCount(frame) - i
  {
    if i < BlockCount(frame) {
      var from, blocks := BLOCK_SIZE * i, BlocksFrom(frame, i);
      JoinedBlocks(frame, i + 1);
      assert Joined(blocks) == blocks[0] + Joined(blocks[1..]);
      if from + BLOCK_SIZE < |frame| {
        assert frame[from..] == ChunkOf(frame, i) + frame[from + BLOCK_SIZE..];
        assert MakeBlock(ChunkOf(frame, i)) == ChunkOf(frame, i);
        AppendPrefix(ChunkOf(frame, i), frame[from + BLOCK_SIZE..], Joined(blocks[1..]));
      } else {
        assert ChunkOf(frame, i) == frame[from..];
      }
    }
  }

  /** Cutting undoes splitting into blocks, whatever follows. */
  lemma CutFrame(frame: seq<Byte>, more: seq<Block>)
    requires |frame| >= MIN_PACKET && |frame| == OUTER_HEADER + FromLE16(frame[1..3])
    ensures Blocks(frame) + more != [] && Cut(Blocks(frame) + more) == Some((frame, more))
  {
    hide FromLE16, BlocksFrom, Joined;
    var blocks, count := Blocks(frame), BlockCount(frame);
    BlocksFromCount(frame, 0);
    JoinedBlocks(frame, 0);
    FirstBlock(frame);
    assert frame[0..] == frame;
    assert (blocks + more)[..count] == blocks && (blocks + more)[count..] == more;
    assert Joined(blocks)[..|frame|] == frame;
  }

  /** A frame in front of any further blocks is received as the packet it decodes to. */
  lemma ReceiveFrame(frame: seq<Byte>, more: seq<Block>)
    requires DecodeA0(frame).Ok?
    ensures Receive(Blocks(frame) + more)
      == if Receive(more).Some? then Some([DecodeA0(frame).value] + Receive(more).value) else None
  {
    hide FromLE16, Blocks, Cut, DecodeA0;
    DeclaredLength(frame);
    CutFrame(frame, more);
  }

  lemma DeclaredLength(frame: seq<Byte>)
    requires DecodeA0(frame).Ok?
    ensures |frame| >= MIN_PACKET && |frame| == OUTER_HEADER + FromLE16(frame[1..3])
  {
    hide DecodeMcu, FromLE16, OuterChecksum;
  }

  lemma FirstBlock(frame: seq<Byte>)
    requires |frame| >= MIN_PACKET
    ensures Blocks(frame) != [] && Blocks(frame)[0][1..3] == frame[1..3]
  {}

  /** What the device ends up with: the image assembled from the writes, and the tag of the final check. */
  function Assemble(packets: seq<Packet>, image: seq<Byte>): Option<(seq<Byte>, seq<Byte>)> {
    if packets == [] then None
    else if packets[0].command == 0xf4 && |packets| == 1 then Some((image, packets[0].payload))
    else if packets[0].command != 0xf0 then None
    else
      var next := Install(image, packets[0].payload);
      if next.None? then None else Assemble(packets[1..], next.value)
  }

  /** The part of the package in front of chunk `i`. */
  function Written(p: Package, i: nat): seq<Byte> {
    p.bytes[..Min(F0_MAX_DATA * i, |p.bytes|)]
  }

  lemma WriteNext(p: Package, i: nat)
    requires Transferable(p) && i < ChunkCount(p)
    ensures Install(Written(p, i), F0Payload(ChunkAt(p, i))) == Some(Written(p, i + 1))
  {
    hide Install, F0Payload;
    ChunkBounds(p, i);
    InstallChunk(p, i);
  }

  lemma WrittenAll(p: Package)
    ensures Written(p, ChunkCount(p)) == p.bytes && Written(p, 0) == []
  {}

  lemma AssembleWrite(first: Packet, rest: seq<Packet>, image: seq<Byte>, next: seq<Byte>)
    requires first.command == FIRMWARE_WRITE && Install(image, first.payload) == Some(next)
    ensures Assemble([first] + rest, image) == Assemble(rest, next)
  {
    hide Install;
    assert ([first] + rest)[1..] == rest;
  }

  lemma {:induction false} BlocksAssemble(p: Package, tag: seq<Byte>, i: nat)
    requires Transferable(p) && i <= ChunkCount(p) && |tag| == 32
    ensures var packets := Receive(TransferBlocks(p, tag, i));
      packets.Some? && Assemble(packets.value, Written(p, i)) == Some((p.bytes, tag))
    decreases ChunkCount(p) - i
  {
    hide Receive, Blocks, EncodeA0, DecodeA0, F0Payload, Install, Written, ChunkAt, ChunkCount, Assemble;
    if i < ChunkCount(p) {
      var payload := F0Payload(ChunkAt(p, i));
      EncodeRoundTrip(FIRMWARE_WRITE, payload);
      BlocksAssemble(p, tag, i + 1);
      ReceiveFrame(F0Frame(p, i), TransferBlocks(p, tag, i + 1));
      WriteNext(p, i);
      AssembleWrite(Echo(FIRMWARE_WRITE, payload), Receive(TransferBlocks(p, tag, i + 1)).value, Written(p, i),
        Written(p, i + 1));
    } else {
      EncodeRoundTrip(FIRMWARE_CHECK, tag);
      ReceiveFrame(F4Frame(tag), []);
      assert Blocks(F4Frame(tag)) + [] == Blocks(F4Frame(tag));
      ReceiveNothing();
      WrittenAll(p);
      AssembleCheck(Echo(FIRMWARE_CHECK, tag), p.bytes);
    }
  }

  lemma AssembleCheck(last: Packet, image: seq<Byte>)
    requires last.command == FIRMWARE_CHECK
    ensures Assemble([last] + [], image) == Some((image, last.payload))
  {}

  lemma ReceiveNothing()
    ensures Receive([]) == Some([])
  {}

  /** A device that reassembles the blocks of a complete transfer holds the whole package and the tag. */
  lemma DeviceHoldsPackage(p: Package, tag: seq<Byte>)
    requires Transferable(p) && |tag| == 32
    ensures Receive(TransferBlocks(p, tag, 0)).Some?
    ensures Assemble(Receive(TransferBlocks(p, tag, 0)).value, []) == Some((p.bytes, tag))
  {
    hide Receive, TransferBlocks, Assemble, ChunkCount;
    WrittenAll(p);
    BlocksAssemble(p, tag, 0);
  }
}
