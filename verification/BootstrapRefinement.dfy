/**
 The callback-driven engine does what the synchronous transfer does: same blocks, same ending, for every stream of IN
 transfers, with one difference that is stated exactly -- a zero-length transfer is skipped by one and an error for the
 other.
 */
module BootstrapRefinement {
  import opened Wrappers
  import opened Bytes
  import opened Protocol
  import opened Firmware
  import opened Transport
  import opened BootstrapEngine
  import opened BootstrapSafety

  // ---- driving the engine ---------------------------------------------------------------------------------------

  /** Submitting an OUT block completes with no data and always advances. */
  lemma OutAdvances(crypto: Crypto, e: Engine)
    requires Valid(crypto, e) && NextAction(e, BLOCK_SIZE).Ok? && NextAction(e, BLOCK_SIZE).value.Out?
    ensures Step(crypto, e, []).1 == Ok(Advanced)
  {
    hide EncodeA0, MakeBlock, ChunkOf, BlockCount, ChunkCount, F0Frame, CurrentF0Frame, PskReadAction;
    if e.stage == FirmwareWriteBlock {
      F0FrameCurrent(e);
    }
  }

  /**
   The caller's loop: submit what the engine asks for, feed it what completes, and stop when it is done, fails, or has
   nothing left to read.
   */
  function Drive(crypto: Crypto, e: Engine, input: seq<seq<Byte>>): Trace
    requires Valid(crypto, e)
    decreases |input|, Left(e).phase, Left(e).remaining, Left(e).substage, Left(e).blocks
  {
    hide Step, NextAction, Valid, Left;
    ValidTransferable(crypto, e);
    ActionsSucceed(crypto, e, BLOCK_SIZE);
    match NextAction(e, BLOCK_SIZE).value
    case Done =>
      CompleteHasResult(crypto, e);
      Trace([], Finished(e.result.value))
    case Out(block) =>
      OutAdvances(crypto, e);
      StepKeepsValid(crypto, e, []);
      KeptStep(crypto, e, Step(crypto, e, []));
      Prefixed([block], Drive(crypto, Step(crypto, e, []).0, input))
    case In =>
      if input == [] then Trace([], TimedOut)
      else
        StepKeepsValid(crypto, e, input[0]);
        KeptStep(crypto, e, Step(crypto, e, input[0]));
        var (next, progress) := Step(crypto, e, input[0]);
        if progress.Err? then Trace([], Failed(progress.error)) else Drive(crypto, next, input[1..])
  }

  lemma CompleteHasResult(crypto: Crypto, e: Engine)
    requires Valid(crypto, e) && e.stage == Complete
    ensures e.result.Some?
  {}

  lemma KeptStep(crypto: Crypto, e: Engine, r: (Engine, Result<Progress, WireError>))
    requires Transferable(e.package) && Keeps(crypto, e, r)
    ensures Valid(crypto, r.0) && Transferable(r.0.package) && (r.1 == Ok(Advanced) ==> Lower(Left(r.0), Left(e)))
  {}

  // ---- one chunk ------------------------------------------------------------------------------------------------

  lemma AfterBlocks(crypto: Crypto, e: Engine)
    requires Valid(crypto, e) && e.stage == FirmwareWriteBlock
    ensures Valid(crypto, e.(f0BlockIndex := 0, stage := FirmwareWriteAck))
  {
    hide F0Frame, BlockCount, ChunkCount;
  }

  lemma BlockFacts(crypto: Crypto, e: Engine)
    requires Valid(crypto, e) && e.stage == FirmwareWriteBlock
    ensures Transferable(e.package) && e.f4Tag.Some? && e.f0ChunkIndex < ChunkCount(e.package)
    ensures e.f0BlockIndex < BlockCount(F0Frame(e.package, e.f0ChunkIndex))
  {
    hide F0Frame, BlockCount, ChunkCount;
  }

  lemma BlockAction(crypto: Crypto, e: Engine)
    requires Valid(crypto, e) && e.stage == FirmwareWriteBlock
    ensures var frame := F0Frame(e.package, e.f0ChunkIndex);
      && NextAction(e, BLOCK_SIZE) == Ok(Out(MakeBlock(ChunkOf(frame, e.f0BlockIndex))))
      && Step(crypto, e, []) == (if e.f0BlockIndex + 1 < BlockCount(frame) then e.(f0BlockIndex := e.f0BlockIndex + 1)
           else e.(f0BlockIndex := 0, stage := FirmwareWriteAck), Ok(Advanced))
  {
    hide F0Frame, BlockCount, ChunkCount, ChunkOf, MakeBlock, CurrentF0Frame, Valid;
    BlockFacts(crypto, e);
    F0FrameCurrent(e);
  }

  /** One submitted block. */
  lemma DriveOut(crypto: Crypto, e: Engine, input: seq<seq<Byte>>, block: Block)
    requires Valid(crypto, e) && NextAction(e, BLOCK_SIZE) == Ok(Out(block))
    ensures Valid(crypto, Step(crypto, e, []).0)
    ensures Drive(crypto, e, input) == Prefixed([block], Drive(crypto, Step(crypto, e, []).0, input))
  {
    hide Step, NextAction, Valid;
    ValidTransferable(crypto, e);
    OutAdvances(crypto, e);
    StepKeepsValid(crypto, e, []);
    KeptStep(crypto, e, Step(crypto, e, []));
  }

  /** The blocks of the current chunk go out one by one, from the current one to the last. */
  lemma {:induction false} DriveBlocks(crypto: Crypto, e: Engine, input: seq<seq<Byte>>)
    requires Valid(crypto, e) && e.stage == FirmwareWriteBlock
    ensures Valid(crypto, e.(f0BlockIndex := 0, stage := FirmwareWriteAck))
    ensures Drive(crypto, e, input) == Prefixed(BlocksFrom(F0Frame(e.package, e.f0ChunkIndex), e.f0BlockIndex),
      Drive(crypto, e.(f0BlockIndex := 0, stage := FirmwareWriteAck), input))
    decreases BlockCount(F0Frame(e.package, e.f0ChunkIndex)) - e.f0BlockIndex
  {
    hide F0Frame, BlockCount, ChunkCount, ChunkOf, MakeBlock, Step, NextAction, Drive, Prefixed, Valid;
    BlockFacts(crypto, e);
    AfterBlocks(crypto, e);
    BlockAction(crypto, e);
    var frame, ack := F0Frame(e.package, e.f0ChunkIndex), e.(f0BlockIndex := 0, stage := FirmwareWriteAck);
    var block := MakeBlock(ChunkOf(frame, e.f0BlockIndex));
    DriveOut(crypto, e, input, block);
    if e.f0BlockIndex + 1 < BlockCount(frame) {
      var next := e.(f0BlockIndex := e.f0BlockIndex + 1);
      DriveBlocks(crypto, next, input);
      assert next.(f0BlockIndex := 0, stage := FirmwareWriteAck) == ack;
      PrefixedTwice([block], BlocksFrom(frame, e.f0BlockIndex + 1), Drive(crypto, ack, input));
    } else {
      PrefixedTwice([block], [], Drive(crypto, ack, input));
    }
  }

  predicate NoEmpty(input: seq<seq<Byte>>) {
    [] !in input
  }

  /** The stage behind an acknowledgement, and its command. */
  predicate AckStage(s: Stage, next: Stage, command: Byte) {
    || (s == ReadSealedPskAck && next == ReadSealedPskCompletion && command == PSK_READ)
    || (s == ReadPskHashAck && next == ReadPskHashCompletion && command == PSK_READ)
    || (s == FirmwareWriteAck && next == FirmwareWriteCompletion && command == FIRMWARE_WRITE)
    || (s == FirmwareCheckAck && next == FirmwareCheckCompletion && command == FIRMWARE_CHECK)
  }

  lemma AfterAck(crypto: Crypto, e: Engine, next: Stage, command: Byte)
    requires Valid(crypto, e) && AckStage(e.stage, next, command)
    ensures Valid(crypto, e.(stage := next)) && NextAction(e, BLOCK_SIZE) == Ok(In)
    ensures forall bytes :: Step(crypto, e, bytes) == CompleteAck(e, bytes, command, next)
  {
    hide F0Frame, BlockCount, ChunkCount, CompleteAck, Authentic, Authenticate;
  }

  /** One read of an acknowledgement stage. */
  lemma DriveIn(crypto: Crypto, e: Engine, input: seq<seq<Byte>>)
    requires Valid(crypto, e) && NextAction(e, BLOCK_SIZE) == Ok(In)
    ensures input == [] ==> Drive(crypto, e, input) == Trace([], TimedOut)
    ensures input != [] ==>
      var (next, progress) := Step(crypto, e, input[0]);
      && (progress.Err? ==> Drive(crypto, e, input) == Trace([], Failed(progress.error)))
      && (progress.Ok? ==> Valid(crypto, next) && Drive(crypto, e, input) == Drive(crypto, next, input[1..]))
  {
    hide Step, NextAction, Valid;
    ValidTransferable(crypto, e);
    if input != [] {
      StepKeepsValid(crypto, e, input[0]);
      KeptStep(crypto, e, Step(crypto, e, input[0]));
    }
  }

  lemma {:induction false} DriveAck(crypto: Crypto, e: Engine, input: seq<seq<Byte>>, next: Stage, command: Byte)
    requires Valid(crypto, e) && AckStage(e.stage, next, command) && NoEmpty(input)
    ensures var wait := AwaitAck(command, input);
      && Valid(crypto, e.(stage := next))
      && (wait.Stopped? ==> Drive(crypto, e, input) == Trace([], wait.ending))
      && (wait.Got? ==> NoEmpty(wait.rest) && Drive(crypto, e, input) == Drive(crypto, e.(stage := next), wait.rest))
    decreases |input|
  {
    hide DecodeA0, Step, NextAction, Valid, Drive;
    AfterAck(crypto, e, next, command);
    DriveIn(crypto, e, input);
    if input != [] {
      assert input[0] in input && input[0] != [] && forall x <- input[1..] :: x in input;
      if CompleteAck(e, input[0], command, next).1 == Ok(Ignored) {
        DriveAck(crypto, e, input[1..], next, command);
      }
    }
  }

  lemma WriteCompletionStep(crypto: Crypto, e: Engine, bytes: seq<Byte>)
    requires Valid(crypto, e) && e.stage == FirmwareWriteCompletion
    ensures NextAction(e, BLOCK_SIZE) == Ok(In)
    ensures var matched := MatchCompletion(bytes, FIRMWARE_WRITE);
      Step(crypto, e, bytes) ==
        if matched.Err? then (e, Err(matched.error))
        else if matched.value.None? then (e, Ok(Ignored))
        else (CompleteChunk(e), Ok(Advanced))
  {
    hide MatchCompletion, CompleteChunk;
  }

  lemma {:induction false} DriveWriteCompletion(crypto: Crypto, e: Engine, input: seq<seq<Byte>>)
    requires Valid(crypto, e) && e.stage == FirmwareWriteCompletion && NoEmpty(input)
    ensures var wait := AwaitPacket(FIRMWARE_WRITE, input);
      && (wait.Stopped? ==> Drive(crypto, e, input) == Trace([], wait.ending))
      && (wait.Got? ==>
            && NoEmpty(wait.rest) && Valid(crypto, CompleteChunk(e))
            && Drive(crypto, e, input) == Drive(crypto, CompleteChunk(e), wait.rest))
    decreases |input|
  {
    hide DecodeA0, Step, NextAction, Valid, Drive, CompleteChunk;
    WriteCompletionStep(crypto, e, if input == [] then [] else input[0]);
    DriveIn(crypto, e, input);
    if input != [] {
      assert input[0] in input && input[0] != [] && forall x <- input[1..] :: x in input;
      if MatchCompletion(input[0], FIRMWARE_WRITE) == Ok(None) {
        DriveWriteCompletion(crypto, e, input[1..]);
      }
    }
  }

  function CheckEnding(sent: nat, payload: seq<Byte>): Ending {
    if |payload| != 1 then Failed(FirmwareCheckLength(|payload|))
    else if payload[0] == 0 then Failed(FirmwareCheckRejected)
    else Finished(TransferResult(sent, payload[0]))
  }

  lemma CheckCompletionStep(crypto: Crypto, e: Engine, bytes: seq<Byte>)
    requires Valid(crypto, e) && e.stage == FirmwareCheckCompletion
    ensures NextAction(e, BLOCK_SIZE) == Ok(In)
    ensures var matched := MatchCompletion(bytes, FIRMWARE_CHECK);
      Step(crypto, e, bytes) ==
        if matched.Err? then (e, Err(matched.error))
        else if matched.value.None? then (e, Ok(Ignored))
        else CompleteCheck(e, matched.value.value)
    ensures e.f0ChunksSent == ChunkCount(e.package)
  {
    hide MatchCompletion, CompleteCheck, ChunkCount;
  }

  lemma DriveComplete(crypto: Crypto, e: Engine, input: seq<seq<Byte>>)
    requires Valid(crypto, e) && e.stage == Complete
    ensures e.result.Some? && Drive(crypto, e, input) == Trace([], Finished(e.result.value))
  {
    hide Step, Left, Valid;
    CompleteHasResult(crypto, e);
  }

  lemma {:induction false} DriveCheckCompletion(crypto: Crypto, e: Engine, input: seq<seq<Byte>>)
    requires Valid(crypto, e) && e.stage == FirmwareCheckCompletion && NoEmpty(input)
    ensures var wait := AwaitPacket(FIRMWARE_CHECK, input);
      && (wait.Stopped? ==> Drive(crypto, e, input) == Trace([], wait.ending))
      && (wait.Got? ==> Drive(crypto, e, input) == Trace([], CheckEnding(e.f0ChunksSent, wait.value.payload)))
    decreases |input|
  {
    hide DecodeA0, Step, NextAction, Valid, Drive, ChunkCount;
    ValidTransferable(crypto, e);
    CheckCompletionStep(crypto, e, if input == [] then [] else input[0]);
    DriveIn(crypto, e, input);
    if input != [] {
      assert input[0] in input && input[0] != [] && forall x <- input[1..] :: x in input;
      var next := Step(crypto, e, input[0]).0;
      if MatchCompletion(input[0], FIRMWARE_CHECK) == Ok(None) {
        DriveCheckCompletion(crypto, e, input[1..]);
      } else if next.stage == Complete {
        DriveComplete(crypto, next, input[1..]);
      }
    }
  }

  lemma CheckAction(crypto: Crypto, e: Engine)
    requires Valid(crypto, e) && e.stage == FirmwareCheckWrite
    ensures e.f4Tag.Some? && Transferable(e.package)
    ensures NextAction(e, BLOCK_SIZE) == Ok(Out(MakeBlock(F4Frame(e.f4Tag.value))))
    ensures Step(crypto, e, []) == (e.(stage := FirmwareCheckAck), Ok(Advanced))
    ensures Valid(crypto, e.(stage := FirmwareCheckAck)) && e.f0ChunksSent == ChunkCount(e.package)
  {
    hide MakeBlock, EncodeA0, F0Frame, BlockCount, ChunkCount, Authentic;
    EncodeRoundTrip(FIRMWARE_CHECK, e.f4Tag.value);
  }

  lemma SingleBlock(frame: seq<Byte>)
    requires 0 < |frame| <= BLOCK_SIZE
    ensures Blocks(frame) == [MakeBlock(frame)]
  {
    assert ChunkOf(frame, 0) == frame;
    assert BlocksFrom(frame, 1) == [];
  }

  /** The check of the transferred package, as the synchronous code does it. */
  lemma DriveCheck(crypto: Crypto, e: Engine, input: seq<seq<Byte>>)
    requires Valid(crypto, e) && e.stage == FirmwareCheckWrite && NoEmpty(input)
    ensures Drive(crypto, e, input) == CheckTransfer(e.f4Tag.value, e.f0ChunksSent, input)
  {
    hide EncodeA0, MakeBlock, Step, NextAction, Valid, AwaitAck, AwaitPacket, ChunkCount, Blocks, Drive;
    CheckAction(crypto, e);
    var tag, ack := e.f4Tag.value, e.(stage := FirmwareCheckAck);
    SingleBlock(F4Frame(tag));
    DriveAck(crypto, ack, input, FirmwareCheckCompletion, FIRMWARE_CHECK);
    var wait := AwaitAck(FIRMWARE_CHECK, input);
    if wait.Got? {
      DriveCheckCompletion(crypto, e.(stage := FirmwareCheckCompletion), wait.rest);
    }
    DriveOut(crypto, e, input, MakeBlock(F4Frame(tag)));
  }

  // ---- the whole firmware phase ---------------------------------------------------------------------------------

  lemma NextChunk(crypto: Crypto, e: Engine)
    requires Valid(crypto, e) && e.stage == FirmwareWriteBlock && e.f0BlockIndex == 0
    ensures var done := CompleteChunk(e.(stage := FirmwareWriteCompletion));
      && done.package == e.package && done.f4Tag == e.f4Tag && done.f0ChunkIndex == e.f0ChunkIndex + 1 == done.f0ChunksSent
      && done.f0BlockIndex == 0 && e.f0ChunkIndex < ChunkCount(e.package)
      && done.stage == if e.f0ChunkIndex + 1 < ChunkCount(e.package) then FirmwareWriteBlock else FirmwareCheckWrite
  {
    hide F0Frame, BlockCount, ChunkCount;
  }

  /** From the first block of a chunk on, the driven engine and the synchronous transfer coincide. */
  lemma {:induction false} DriveIsTransfer(crypto: Crypto, e: Engine, input: seq<seq<Byte>>)
    requires Valid(crypto, e) && e.stage == FirmwareWriteBlock && e.f0BlockIndex == 0 && NoEmpty(input)
    ensures e.f0ChunkIndex < ChunkCount(e.package) && e.f4Tag.Some? && Transferable(e.package)
    ensures Drive(crypto, e, input) == TransferFrom(e.package, e.f4Tag.value, e.f0ChunkIndex, input)
    decreases ChunkCount(e.package) - e.f0ChunkIndex
  {
    hide EncodeA0, Step, NextAction, AwaitAck, AwaitPacket, ChunkCount, BlocksFrom, Drive, F0Payload, ChunkAt, CheckTransfer,
      Left, BlockCount, Authentic;
    NextChunk(crypto, e);
    DriveBlocks(crypto, e, input);
    var p, i := e.package, e.f0ChunkIndex;
    var frame, ack := F0Frame(p, i), e.(stage := FirmwareWriteAck);
    assert e.(f0BlockIndex := 0, stage := FirmwareWriteAck) == ack;
    DriveAck(crypto, ack, input, FirmwareWriteCompletion, FIRMWARE_WRITE);
    var wait := AwaitAck(FIRMWARE_WRITE, input);
    if wait.Got? {
      var completion := e.(stage := FirmwareWriteCompletion);
      DriveWriteCompletion(crypto, completion, wait.rest);
      var reply := AwaitPacket(FIRMWARE_WRITE, wait.rest);
      if reply.Got? {
        var done := CompleteChunk(completion);
        if done.stage == FirmwareWriteBlock {
          DriveIsTransfer(crypto, done, reply.rest);
        } else {
          DriveCheck(crypto, done, reply.rest);
        }
      }
    }
  }
}
