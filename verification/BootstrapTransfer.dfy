/** The bootstrap engine as the object its caller holds, updating its fields on every completed transfer. */
module BootstrapTransfer {
  import opened Wrappers
  import opened Bytes
  import opened Protocol
  import opened Firmware
  import opened Transport
  import opened BootstrapEngine
  import opened BootstrapSafety

  /** An action as reported to the caller; the bytes of an OUT block are in the caller's buffer. */
  datatype Transfer = OutTransfer | InTransfer | NoTransfer

  class BootstrapTransferEngine {
    const package: Package
    const crypto: Crypto
    var f4Tag: Option<Tag>
    var stage: Stage
    var sealedPsk: seq<Byte>
    var pskHash: seq<Byte>
    var f0ChunkIndex: nat
    var f0BlockIndex: nat
    var f0ChunksSent: nat
    var result: Option<TransferResult>

    function State(): (e: Engine)
      reads this
    {
      Engine(package, f4Tag, stage, sealedPsk, pskHash, f0ChunkIndex, f0BlockIndex, f0ChunksSent, result)
    }

    /** What every completed transfer keeps. */
    ghost predicate Valid()
      reads this
    {
      BootstrapSafety.Valid(crypto, State())
    }

    constructor (package: Package, crypto: Crypto)
      requires Transferable(package)
      ensures State() == Start(package) && this.package == package && this.crypto == crypto && Valid()
    {
      this.package, this.crypto := package, crypto;
      f4Tag, stage, sealedPsk, pskHash := None, ReadSealedPskWrite, [], [];
      f0ChunkIndex, f0BlockIndex, f0ChunksSent, result := 0, 0, 0, None;
      new;
      StartValid(crypto, package);
    }

    /**
     Describes the next transfer; only an OUT action writes to the buffer, and only its first block.  A buffer of one
     block is always enough.
     */
    method DescribeNext(output: array<Byte>) returns (r: Result<Transfer, WireError>)
      requires Valid()
      modifies output
      ensures Transferable(package) && (output.Length >= BLOCK_SIZE ==> r.Ok? && (r.value.NoTransfer? <==> stage == Complete))
      ensures var action := NextAction(State(), output.Length);
        && (action.Err? ==> r == Err(action.error) && output[..] == old(output[..]))
        && (action == Ok(In) ==> r == Ok(InTransfer) && output[..] == old(output[..]))
        && (action == Ok(Done) ==> r == Ok(NoTransfer) && output[..] == old(output[..]))
        && (action.Ok? && action.value.Out? ==>
              && r == Ok(OutTransfer) && output.Length >= BLOCK_SIZE
              && output[..] == action.value.block + old(output[..])[BLOCK_SIZE..])
    {
      hide F0Frame, BlockCount, ChunkCount, Authentic, Stuck, EncodeA0, CurrentF0Frame, PskReadAction, MakeBlock, ChunkOf;
      ValidTransferable(crypto, State());
      if output.Length >= BLOCK_SIZE {
        ActionsSucceed(crypto, State(), output.Length);
      }
      hide NextAction, BootstrapSafety.Valid;
      var action := NextAction(State(), output.Length);
      if action.Err? {
        return Err(action.error);
      }
      match action.value
      case In => return Ok(InTransfer);
      case Done => return Ok(NoTransfer);
      case Out(block) =>
        OutFits(State(), output.Length);
        CopyInto(output, 0, block);
        return Ok(OutTransfer);
    }

    /**
     Feeds one completed transfer.  Whatever it carries, the engine stays valid, an advance lowers the measure of what is
     left, an ignored packet changes nothing, and only a failed authentication changes anything while failing.
     */
    method CompleteTransfer(bytes: seq<Byte>) returns (r: Result<Progress, WireError>)
      requires Valid()
      modifies this
      ensures Transferable(old(State()).package) && (State(), r) == Step(crypto, old(State()), bytes)
      ensures Valid() && Keeps(crypto, old(State()), (State(), r))
    {
      ValidTransferable(crypto, State());
      StepKeepsValid(crypto, State(), bytes);
      hide MatchAck, CurrentF0Frame, CompleteResponse, BlockCount, Keeps, BootstrapSafety.Valid;
      match stage
      case ReadSealedPskWrite => r := FinishOut(ReadSealedPskAck, bytes);
      case ReadSealedPskAck => r := FinishAck(bytes, PSK_READ, ReadSealedPskCompletion);
      case ReadPskHashWrite => r := FinishOut(ReadPskHashAck, bytes);
      case ReadPskHashAck => r := FinishAck(bytes, PSK_READ, ReadPskHashCompletion);
      case FirmwareWriteBlock => r := FinishBlock(bytes);
      case FirmwareWriteAck => r := FinishAck(bytes, FIRMWARE_WRITE, FirmwareWriteCompletion);
      case FirmwareCheckWrite => r := FinishOut(FirmwareCheckAck, bytes);
      case FirmwareCheckAck => r := FinishAck(bytes, FIRMWARE_CHECK, FirmwareCheckCompletion);
      case Complete => r := Err(TransferAlreadyComplete);
      case _ => r := FinishResponse(bytes);
    }

    method FinishOut(next: Stage, bytes: seq<Byte>) returns (r: Result<Progress, WireError>)
      modifies this`stage
      ensures (State(), r) == CompleteOut(old(State()), next, bytes)
    {
      if bytes != [] {
        return Err(UnexpectedTransferData(|bytes|));
      }
      stage := next;
      return Ok(Advanced);
    }

    method FinishAck(bytes: seq<Byte>, command: Byte, next: Stage) returns (r: Result<Progress, WireError>)
      modifies this`stage
      ensures (State(), r) == CompleteAck(old(State()), bytes, command, next)
    {
      hide MatchAck;
      r := MatchAck(bytes, command);
      if r == Ok(Advanced) {
        stage := next;
      }
    }

    method FinishBlock(bytes: seq<Byte>) returns (r: Result<Progress, WireError>)
      requires Transferable(package)
      modifies this`stage, this`f0BlockIndex
      ensures (State(), r) == CompleteBlock(old(State()), bytes)
    {
      hide CurrentF0Frame, BlockCount;
      if bytes != [] {
        return Err(UnexpectedTransferData(|bytes|));
      }
      var frame := CurrentF0Frame(State());
      if frame.Err? {
        return Err(frame.error);
      }
      if f0BlockIndex + 1 < BlockCount(frame.value) {
        f0BlockIndex := f0BlockIndex + 1;
      } else {
        f0BlockIndex := 0;
        stage := FirmwareWriteAck;
      }
      return Ok(Advanced);
    }

    method FinishResponse(bytes: seq<Byte>) returns (r: Result<Progress, WireError>)
      modifies this
      ensures (State(), r) == CompleteResponse(crypto, old(State()), bytes)
    {
      hide MatchCompletion, ParsePskRead, Authenticate;
      var matched := MatchCompletion(bytes, Awaited(stage));
      if matched.Err? {
        return Err(matched.error);
      }
      if matched.value.None? {
        return Ok(Ignored);
      }
      match stage
      case ReadSealedPskCompletion => r := FinishSealedPsk(matched.value.value);
      case ReadPskHashCompletion => r := FinishPskHash(matched.value.value);
      case FirmwareWriteCompletion =>
        f0ChunksSent := f0ChunksSent + 1;
        f0ChunkIndex := f0ChunkIndex + 1;
        stage := if f0ChunkIndex < ChunkCount(package) then FirmwareWriteBlock else FirmwareCheckWrite;
        r := Ok(Advanced);
      case _ => r := FinishCheck(matched.value.value);
    }

    method FinishSealedPsk(packet: Packet) returns (r: Result<Progress, WireError>)
      modifies this`stage, this`sealedPsk
      ensures (State(), r) == CompleteSealedPsk(old(State()), packet)
    {
      hide AppendPskRead;
      var read := AppendPskRead(packet, SEALED_PSK_OBJECT, SEALED_PSK_SIZE, sealedPsk);
      if read.Err? {
        return Err(read.error);
      }
      sealedPsk := read.value;
      stage := if |sealedPsk| == SEALED_PSK_SIZE then ReadPskHashWrite else ReadSealedPskWrite;
      return Ok(Advanced);
    }

    method FinishPskHash(packet: Packet) returns (r: Result<Progress, WireError>)
      modifies this`stage, this`sealedPsk, this`pskHash, this`f4Tag
      ensures (State(), r) == CompletePskHash(crypto, old(State()), packet)
    {
      hide AppendPskRead, Authenticate;
      var read := AppendPskRead(packet, PSK_HASH_OBJECT, PSK_HASH_SIZE, pskHash);
      if read.Err? {
        return Err(read.error);
      }
      pskHash := read.value;
      if |pskHash| != PSK_HASH_SIZE {
        stage := ReadPskHashWrite;
        return Ok(Advanced);
      }
      if f4Tag.Some? {
        return Err(AlreadyAuthenticated);
      }
      var tag := Authenticate(crypto, package, sealedPsk, pskHash);
      if tag.Err? {
        return Err(tag.error);
      }
      f4Tag := Some(tag.value);
      sealedPsk, pskHash := [], [];
      stage := FirmwareWriteBlock;
      return Ok(Advanced);
    }

    method FinishCheck(packet: Packet) returns (r: Result<Progress, WireError>)
      modifies this`stage, this`result
      ensures (State(), r) == CompleteCheck(old(State()), packet)
    {
      if |packet.payload| != 1 {
        return Err(FirmwareCheckLength(|packet.payload|));
      }
      if packet.payload[0] == 0 {
        return Err(FirmwareCheckRejected);
      }
      if f0ChunksSent != ChunkCount(package) {
        return Err(F0CountMismatch(ChunkCount(package), f0ChunksSent));
      }
      result := Some(TransferResult(f0ChunksSent, packet.payload[0]));
      stage := Complete;
      return Ok(Advanced);
    }
  }

  lemma OutFits(e: Engine, capacity: nat)
    requires Transferable(e.package) && NextAction(e, capacity).Ok? && NextAction(e, capacity).value.Out?
    ensures capacity >= BLOCK_SIZE
  {
    hide EncodeA0, CurrentF0Frame, BuildPskRead, MakeBlock, ChunkOf;
  }
}
