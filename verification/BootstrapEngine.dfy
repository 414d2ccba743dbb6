/**
 The callback-driven bootstrap engine as a value: it reads and authenticates the persisted key, writes the package chunk
 by chunk and block by block, and finishes with the firmware check.
 */
module BootstrapEngine {
  import opened Wrappers
  import opened Arithmetic
  import opened Bytes
  import opened Protocol
  import opened Firmware
  import opened Transport

  type Tag = s: seq<Byte> | |s| == 32 witness Zeros(32)

  /** Unsealing the key, comparing its hash, and deriving the tag of a package: opaque to the engine. */
  datatype Crypto = Crypto(
    unseal: seq<Byte> -> Option<seq<Byte>>,
    hashMatches: (seq<Byte>, seq<Byte>) -> bool,
    tag: (seq<Byte>, seq<Byte>) -> Option<Tag>)

  datatype Stage =
    | ReadSealedPskWrite | ReadSealedPskAck | ReadSealedPskCompletion
    | ReadPskHashWrite | ReadPskHashAck | ReadPskHashCompletion
    | FirmwareWriteBlock | FirmwareWriteAck | FirmwareWriteCompletion
    | FirmwareCheckWrite | FirmwareCheckAck | FirmwareCheckCompletion
    | Complete

  datatype Engine = Engine(
    package: Package,
    f4Tag: Option<Tag>,
    stage: Stage,
    sealedPsk: seq<Byte>,
    pskHash: seq<Byte>,
    f0ChunkIndex: nat,
    f0BlockIndex: nat,
    f0ChunksSent: nat,
    result: Option<TransferResult>)

  datatype Progress = Advanced | Ignored

  datatype Action = Out(block: Block) | In | Done

  function Start(package: Package): Engine {
    Engine(package, None, ReadSealedPskWrite, [], [], 0, 0, 0, None)
  }

  // ---- the plan -------------------------------------------------------------------------------------------------

  /** The tag for the package when the key unseals and its hash matches. */
  function Authenticate(crypto: Crypto, package: Package, sealedPsk: seq<Byte>, pskHash: seq<Byte>): Result<Tag, WireError> {
    var psk := crypto.unseal(sealedPsk);
    if psk.None? then Err(PskUnusable)
    else if !crypto.hashMatches(psk.value, pskHash) then Err(PskHashMismatch)
    else
      var tag := crypto.tag(psk.value, package.bytes);
      if tag.None? then Err(PskUnusable) else Ok(tag.value)
  }

  /** The frame of the current chunk; nothing of it is available before authentication. */
  function CurrentF0Frame(e: Engine): Result<seq<Byte>, WireError>
    requires Transferable(e.package)
  {
    hide EncodeA0, F0Payload, ChunkAt;
    if e.f4Tag.None? then Err(NotAuthenticated)
    else if e.f0ChunkIndex >= ChunkCount(e.package) then Err(F0IndexOutOfRange(e.f0ChunkIndex, ChunkCount(e.package)))
    else
      var frame := EncodeA0(FIRMWARE_WRITE, F0Payload(ChunkAt(e.package, e.f0ChunkIndex)));
      if frame.Err? then Err(PacketError(frame.error)) else Ok(frame.value)
  }

  // ---- packets --------------------------------------------------------------------------------------------------

  /** Whether a transfer acknowledges the command, or has nothing to do with it. */
  function MatchAck(bytes: seq<Byte>, command: Byte): Result<Progress, WireError> {
    var decoded := DecodeA0(bytes);
    if decoded.Err? then Err(PacketError(decoded.error))
    else
      var packet := decoded.value;
      if packet.command == ACK then
        if |packet.payload| != 2 then Err(MalformedAck(|packet.payload|))
        else if packet.payload[0] == command then Ok(Advanced)
        else Ok(Ignored)
      else if packet.command == command then Err(ResponseBeforeAck(command))
      else Ok(Ignored)
  }

  function MatchCompletion(bytes: seq<Byte>, command: Byte): Result<Option<Packet>, WireError> {
    var decoded := DecodeA0(bytes);
    if decoded.Err? then Err(PacketError(decoded.error))
    else Ok(if decoded.value.command == command then Some(decoded.value) else None)
  }

  /** The object read so far, extended by the data of one response. */
  function AppendPskRead(packet: Packet, objectId: U32, total: nat, output: seq<Byte>): (r: Result<seq<Byte>, WireError>)
    ensures r.Ok? ==> |output| < |r.value| <= total && output <= r.value
  {
    if total < |output| then Err(PskReadOverflow(total, |output|))
    else
      var remaining := total - |output|;
      var data := ParsePskRead(packet.payload, objectId, Min(remaining, PSK_CHUNK), remaining);
      if data.Err? then Err(PskRead(data.error))
      else if data.value == [] then Err(PskReadEmpty(objectId, |output|, total))
      else Ok(output + data.value)
  }

  // ---- actions --------------------------------------------------------------------------------------------------

  function CopyOut(frame: seq<Byte>, capacity: nat): Result<Action, WireError>
    requires |frame| <= BLOCK_SIZE
  {
    if capacity < BLOCK_SIZE then Err(OutputBufferTooSmall(BLOCK_SIZE, capacity)) else Ok(Out(MakeBlock(frame)))
  }

  function PskReadAction(objectId: U32, total: nat, received: nat, capacity: nat): Result<Action, WireError>
    requires total < U32_LIMIT
  {
    if received >= total then Err(PskReadOverflow(total, received))
    else
      var frame := EncodeA0(PSK_READ, BuildPskRead(objectId, received, Min(total - received, PSK_CHUNK)));
      if frame.Err? then Err(PacketError(frame.error))
      else if |frame.value| > BLOCK_SIZE then Err(FirmwareFrameTooLarge(PSK_READ, |frame.value|))
      else CopyOut(frame.value, capacity)
  }

  /** The next physical transfer, given the size of the caller's OUT buffer. */
  function NextAction(e: Engine, capacity: nat): Result<Action, WireError>
    requires Transferable(e.package)
  {
    hide CurrentF0Frame, EncodeA0, MakeBlock, ChunkOf;
    match e.stage
    case ReadSealedPskWrite => PskReadAction(SEALED_PSK_OBJECT, SEALED_PSK_SIZE, |e.sealedPsk|, capacity)
    case ReadPskHashWrite => PskReadAction(PSK_HASH_OBJECT, PSK_HASH_SIZE, |e.pskHash|, capacity)
    case FirmwareWriteBlock =>
      var frame :- CurrentF0Frame(e);
      if e.f0BlockIndex >= BlockCount(frame) then Err(F0BlockOutOfRange(e.f0ChunkIndex, e.f0BlockIndex))
      else CopyOut(ChunkOf(frame, e.f0BlockIndex), capacity)
    case FirmwareCheckWrite =>
      if e.f4Tag.None? then Err(NotAuthenticated)
      else
        var frame := EncodeA0(FIRMWARE_CHECK, e.f4Tag.value);
        if frame.Err? then Err(PacketError(frame.error))
        else if |frame.value| > BLOCK_SIZE then Err(FirmwareFrameTooLarge(FIRMWARE_CHECK, |frame.value|))
        else CopyOut(frame.value, capacity)
    case Complete => Ok(Done)
    case _ => Ok(In)
  }

  // ---- completed transfers --------------------------------------------------------------------------------------

  function CompleteOut(e: Engine, next: Stage, bytes: seq<Byte>): (Engine, Result<Progress, WireError>) {
    if bytes != [] then (e, Err(UnexpectedTransferData(|bytes|))) else (e.(stage := next), Ok(Advanced))
  }

  function CompleteAck(e: Engine, bytes: seq<Byte>, command: Byte, next: Stage): (Engine, Result<Progress, WireError>) {
    var matched := MatchAck(bytes, command);
    (if matched == Ok(Advanced) then e.(stage := next) else e, matched)
  }

  function CompleteSealedPsk(e: Engine, packet: Packet): (Engine, Result<Progress, WireError>) {
    var sealedPsk := AppendPskRead(packet, SEALED_PSK_OBJECT, SEALED_PSK_SIZE, e.sealedPsk);
    if sealedPsk.Err? then (e, Err(sealedPsk.error))
    else
      var next := if |sealedPsk.value| == SEALED_PSK_SIZE then ReadPskHashWrite else ReadSealedPskWrite;
      (e.(sealedPsk := sealedPsk.value, stage := next), Ok(Advanced))
  }

  /** The last hash bytes trigger authentication; when it fails the hash stays complete and the stage unchanged. */
  function CompletePskHash(crypto: Crypto, e: Engine, packet: Packet): (Engine, Result<Progress, WireError>) {
    var pskHash := AppendPskRead(packet, PSK_HASH_OBJECT, PSK_HASH_SIZE, e.pskHash);
    if pskHash.Err? then (e, Err(pskHash.error))
    else
      var read := e.(pskHash := pskHash.value);
      if |pskHash.value| != PSK_HASH_SIZE then (read.(stage := ReadPskHashWrite), Ok(Advanced))
      else if e.f4Tag.Some? then (read, Err(AlreadyAuthenticated))
      else
        var tag := Authenticate(crypto, e.package, e.sealedPsk, pskHash.value);
        if tag.Err? then (read, Err(tag.error))
        else (read.(f4Tag := Some(tag.value), sealedPsk := [], pskHash := [], stage := FirmwareWriteBlock), Ok(Advanced))
  }

  function CompleteBlock(e: Engine, bytes: seq<Byte>): (Engine, Result<Progress, WireError>)
    requires Transferable(e.package)
  {
    hide CurrentF0Frame;
    if bytes != [] then (e, Err(UnexpectedTransferData(|bytes|)))
    else
      var frame := CurrentF0Frame(e);
      if frame.Err? then (e, Err(frame.error))
      else if e.f0BlockIndex + 1 < BlockCount(frame.value) then (e.(f0BlockIndex := e.f0BlockIndex + 1), Ok(Advanced))
      else (e.(f0BlockIndex := 0, stage := FirmwareWriteAck), Ok(Advanced))
  }

  function CompleteChunk(e: Engine): Engine {
    var index := e.f0ChunkIndex + 1;
    e.(f0ChunksSent := e.f0ChunksSent + 1, f0ChunkIndex := index,
       stage := if index < ChunkCount(e.package) then FirmwareWriteBlock else FirmwareCheckWrite)
  }

  function CompleteCheck(e: Engine, packet: Packet): (Engine, Result<Progress, WireError>) {
    if |packet.payload| != 1 then (e, Err(FirmwareCheckLength(|packet.payload|)))
    else if packet.payload[0] == 0 then (e, Err(FirmwareCheckRejected))
    else if e.f0ChunksSent != ChunkCount(e.package) then (e, Err(F0CountMismatch(ChunkCount(e.package), e.f0ChunksSent)))
    else (e.(result := Some(TransferResult(e.f0ChunksSent, packet.payload[0])), stage := Complete), Ok(Advanced))
  }

  /** The completion stages: the command waited for. */
  function Awaited(stage: Stage): Byte {
    match stage
    case FirmwareWriteCompletion => FIRMWARE_WRITE
    case FirmwareCheckCompletion => FIRMWARE_CHECK
    case _ => PSK_READ
  }

  function CompleteResponse(crypto: Crypto, e: Engine, bytes: seq<Byte>): (Engine, Result<Progress, WireError>) {
    hide MatchCompletion, CompleteSealedPsk, CompletePskHash, CompleteCheck;
    var matched := MatchCompletion(bytes, Awaited(e.stage));
    if matched.Err? then (e, Err(matched.error))
    else if matched.value.None? then (e, Ok(Ignored))
    else
      match e.stage
      case ReadSealedPskCompletion => CompleteSealedPsk(e, matched.value.value)
      case ReadPskHashCompletion => CompletePskHash(crypto, e, matched.value.value)
      case FirmwareWriteCompletion => (CompleteChunk(e), Ok(Advanced))
      case _ => CompleteCheck(e, matched.value.value)
  }

  /** One completed physical transfer. */
  function Step(crypto: Crypto, e: Engine, bytes: seq<Byte>): (r: (Engine, Result<Progress, WireError>))
    requires Transferable(e.package)
    ensures r.0.package == e.package
  {
    match e.stage
    case ReadSealedPskWrite => CompleteOut(e, ReadSealedPskAck, bytes)
    case ReadSealedPskAck => CompleteAck(e, bytes, PSK_READ, ReadSealedPskCompletion)
    case ReadPskHashWrite => CompleteOut(e, ReadPskHashAck, bytes)
    case ReadPskHashAck => CompleteAck(e, bytes, PSK_READ, ReadPskHashCompletion)
    case FirmwareWriteBlock => CompleteBlock(e, bytes)
    case FirmwareWriteAck => CompleteAck(e, bytes, FIRMWARE_WRITE, FirmwareWriteCompletion)
    case FirmwareCheckWrite => CompleteOut(e, FirmwareCheckAck, bytes)
    case FirmwareCheckAck => CompleteAck(e, bytes, FIRMWARE_CHECK, FirmwareCheckCompletion)
    case Complete => (e, Err(TransferAlreadyComplete))
    case _ => CompleteResponse(crypto, e, bytes)
  }

  /** The engine after any sequence of completed transfers, accepted or not. */
  function Run(crypto: Crypto, e: Engine, inputs: seq<seq<Byte>>): (r: Engine)
    requires Transferable(e.package)
    ensures r.package == e.package
    decreases |inputs|
  {
    hide Step;
    if inputs == [] then e else Run(crypto, Step(crypto, e, inputs[0]).0, inputs[1..])
  }
}
