/** What holds of the bootstrap engine after any sequence of completed transfers. */
module BootstrapSafety {
  import opened Wrappers
  import opened Arithmetic
  import opened Bytes
  import opened Protocol
  import opened Firmware
  import opened Transport
  import opened KeyRead
  import opened BootstrapEngine

  predicate ReadingSealed(s: Stage) {
    s == ReadSealedPskWrite || s == ReadSealedPskAck || s == ReadSealedPskCompletion
  }

  predicate ReadingHash(s: Stage) {
    s == ReadPskHashWrite || s == ReadPskHashAck || s == ReadPskHashCompletion
  }

  predicate Writing(s: Stage) {
    s == FirmwareWriteBlock || s == FirmwareWriteAck || s == FirmwareWriteCompletion
  }

  predicate Checking(s: Stage) {
    s == FirmwareCheckWrite || s == FirmwareCheckAck || s == FirmwareCheckCompletion
  }

  /** The sealed object opens to a key, the stored hash is the hash of that key, and the tag is the key's for this package. */
  predicate Authorises(crypto: Crypto, package: Package, sealedPsk: seq<Byte>, pskHash: seq<Byte>, tag: Tag) {
    var psk := crypto.unseal(sealedPsk);
    psk.Some? && crypto.hashMatches(psk.value, pskHash) && crypto.tag(psk.value, package.bytes) == Some(tag)
  }

  /** When the engine authenticates, with which tag, and why it does not. */
  lemma AuthenticatesExactly(crypto: Crypto, package: Package, sealedPsk: seq<Byte>, pskHash: seq<Byte>, tag: Tag)
    ensures var r, psk := Authenticate(crypto, package, sealedPsk, pskHash), crypto.unseal(sealedPsk);
      && (r == Ok(tag) <==> Authorises(crypto, package, sealedPsk, pskHash, tag))
      && (r.Err? ==> r.error == if psk.Some? && !crypto.hashMatches(psk.value, pskHash) then PskHashMismatch else PskUnusable)
  {}

  /** The tag comes from two completely read objects that authenticated for this package. */
  ghost predicate Authentic(crypto: Crypto, package: Package, tag: Tag) {
    exists sealedPsk, pskHash ::
      && |sealedPsk| == SEALED_PSK_SIZE && |pskHash| == PSK_HASH_SIZE
      && Authenticate(crypto, package, sealedPsk, pskHash) == Ok(tag)
  }

  /** Authentication failed: the hash is complete but there is no tag. */
  ghost predicate Stuck(crypto: Crypto, e: Engine) {
    && e.stage == ReadPskHashCompletion && e.f4Tag.None?
    && |e.sealedPsk| == SEALED_PSK_SIZE && |e.pskHash| == PSK_HASH_SIZE
    && Authenticate(crypto, e.package, e.sealedPsk, e.pskHash).Err?
  }

  ghost predicate Valid(crypto: Crypto, e: Engine) {
    && Transferable(e.package)
    && e.f0ChunkIndex == e.f0ChunksSent
    && (e.stage != FirmwareWriteBlock ==> e.f0BlockIndex == 0)
    && (e.result.Some? <==> e.stage == Complete)
    && (e.result.Some? ==> e.result.value.f0ChunksSent == ChunkCount(e.package) && e.result.value.firmwareCheckResult != 0)
    && (ReadingSealed(e.stage) ==>
          e.f4Tag.None? && |e.sealedPsk| < SEALED_PSK_SIZE && e.pskHash == [] && e.f0ChunksSent == 0)
    && (ReadingHash(e.stage) ==>
          && e.f4Tag.None? && |e.sealedPsk| == SEALED_PSK_SIZE && e.f0ChunksSent == 0
          && (|e.pskHash| < PSK_HASH_SIZE || Stuck(crypto, e)))
    && (!ReadingSealed(e.stage) && !ReadingHash(e.stage) ==>
          e.f4Tag.Some? && Authentic(crypto, e.package, e.f4Tag.value) && e.sealedPsk == [] && e.pskHash == [])
    && (Writing(e.stage) ==> e.f0ChunksSent < ChunkCount(e.package))
    && (e.stage == FirmwareWriteBlock ==> e.f0BlockIndex < BlockCount(F0Frame(e.package, e.f0ChunkIndex)))
    && (Checking(e.stage) || e.stage == Complete ==> e.f0ChunksSent == ChunkCount(e.package))
  }

  lemma StartValid(crypto: Crypto, package: Package)
    requires Transferable(package)
    ensures Valid(crypto, Start(package))
  {}

  // ---- progress -------------------------------------------------------------------------------------------------

  datatype Measure = Measure(phase: nat, remaining: nat, substage: nat, blocks: nat)

  ghost predicate Lower(a: Measure, b: Measure) {
    || a.phase < b.phase
    || (a.phase == b.phase && a.remaining < b.remaining)
    || (a.phase == b.phase && a.remaining == b.remaining && a.substage < b.substage)
    || (a.phase == b.phase && a.remaining == b.remaining && a.substage == b.substage && a.blocks < b.blocks)
  }

  /** What is left to do, lexicographically. */
  ghost function Left(e: Engine): Measure
    requires Transferable(e.package)
  {
    var substage :=
      if e.stage in {ReadSealedPskWrite, ReadPskHashWrite, FirmwareWriteBlock, FirmwareCheckWrite} then 2
      else if e.stage in {ReadSealedPskAck, ReadPskHashAck, FirmwareWriteAck, FirmwareCheckAck} then 1
      else 0;
    if ReadingSealed(e.stage) then Measure(4, SEALED_PSK_SIZE - Min(|e.sealedPsk|, SEALED_PSK_SIZE), substage, 0)
    else if ReadingHash(e.stage) then Measure(3, PSK_HASH_SIZE - Min(|e.pskHash|, PSK_HASH_SIZE), substage, 0)
    else if Writing(e.stage) then
      Measure(2, ChunkCount(e.package) - Min(e.f0ChunkIndex, ChunkCount(e.package)), substage, BlocksLeft(e))
    else if Checking(e.stage) then Measure(1, 0, substage, 0)
    else Measure(0, 0, 0, 0)
  }

  ghost function BlocksLeft(e: Engine): nat
    requires Transferable(e.package)
  {
    if e.stage != FirmwareWriteBlock || e.f0ChunkIndex >= ChunkCount(e.package) then 0
    else
      var count := BlockCount(F0Frame(e.package, e.f0ChunkIndex));
      count - Min(e.f0BlockIndex, count)
  }

  // ---- one step -------------------------------------------------------------------------------------------------

  lemma F0FrameCurrent(e: Engine)
    requires Transferable(e.package) && e.f4Tag.Some? && e.f0ChunkIndex < ChunkCount(e.package)
    ensures CurrentF0Frame(e) == Ok(F0Frame(e.package, e.f0ChunkIndex))
    ensures BlockCount(F0Frame(e.package, e.f0ChunkIndex)) > 0
  {
    EncodeRoundTrip(FIRMWARE_WRITE, F0Payload(ChunkAt(e.package, e.f0ChunkIndex)));
  }

  ghost predicate Progresses(e: Engine, r: (Engine, Result<Progress, WireError>))
    requires Transferable(e.package) && Transferable(r.0.package)
  {
    && (r.1 == Ok(Advanced) ==> Lower(Left(r.0), Left(e)))
    && (r.1 == Ok(Ignored) ==> r.0 == e)
  }

  /**
   A good step: the engine stays valid; an advance lowers the lexicographic measure, an ignored packet changes nothing,
   and the only error that changes anything is a failed authentication.
   */
  ghost predicate Keeps(crypto: Crypto, e: Engine, r: (Engine, Result<Progress, WireError>))
    requires Transferable(e.package)
  {
    && Valid(crypto, r.0) && Progresses(e, r)
    && (r.1.Err? ==> (r.0 == e || Stuck(crypto, r.0)) && !DeadError(r.1.error))
  }

  /** Any completed transfer, whatever it carries, is a good step. */
  lemma StepKeepsValid(crypto: Crypto, e: Engine, bytes: seq<Byte>)
    requires Valid(crypto, e)
    ensures Keeps(crypto, e, Step(crypto, e, bytes))
  {
    hide Keeps, CompleteResponse, CompleteBlock, CompleteAck, CompleteOut;
    match e.stage {
      case FirmwareWriteBlock => BlockStep(crypto, e, bytes);
      case ReadPskHashCompletion => HashStep(crypto, e, bytes);
      case FirmwareWriteCompletion => ChunkStep(crypto, e, bytes);
      case ReadSealedPskCompletion => SealedStep(crypto, e, bytes);
      case FirmwareCheckCompletion => CheckStep(crypto, e, bytes);
      case Complete => ErrorStep(crypto, e);
      case ReadSealedPskWrite => OutStep(crypto, e, ReadSealedPskAck, bytes);
      case ReadPskHashWrite => OutStep(crypto, e, ReadPskHashAck, bytes);
      case FirmwareCheckWrite => OutStep(crypto, e, FirmwareCheckAck, bytes);
      case ReadSealedPskAck => AckStep(crypto, e, bytes, PSK_READ, ReadSealedPskCompletion);
      case ReadPskHashAck => AckStep(crypto, e, bytes, PSK_READ, ReadPskHashCompletion);
      case FirmwareWriteAck => AckStep(crypto, e, bytes, FIRMWARE_WRITE, FirmwareWriteCompletion);
      case FirmwareCheckAck => AckStep(crypto, e, bytes, FIRMWARE_CHECK, FirmwareCheckCompletion);
    }
  }

  lemma ErrorStep(crypto: Crypto, e: Engine)
    requires Valid(crypto, e)
    ensures Keeps(crypto, e, (e, Err(TransferAlreadyComplete)))
  {}

  /** The stage that follows within one exchange. */
  predicate Follows(stage: Stage, next: Stage) {
    || (stage == ReadSealedPskWrite && next == ReadSealedPskAck)
    || (stage == ReadSealedPskAck && next == ReadSealedPskCompletion)
    || (stage == ReadPskHashWrite && next == ReadPskHashAck)
    || (stage == ReadPskHashAck && next == ReadPskHashCompletion)
    || (stage == FirmwareWriteAck && next == FirmwareWriteCompletion)
    || (stage == FirmwareCheckWrite && next == FirmwareCheckAck)
    || (stage == FirmwareCheckAck && next == FirmwareCheckCompletion)
  }

  lemma FollowsKeeps(crypto: Crypto, e: Engine, next: Stage)
    requires Valid(crypto, e) && Follows(e.stage, next)
    ensures Keeps(crypto, e, (e.(stage := next), Ok(Advanced)))
  {
    hide F0Frame, ChunkCount, BlockCount, Authenticate;
  }

  lemma OutStep(crypto: Crypto, e: Engine, next: Stage, bytes: seq<Byte>)
    requires Valid(crypto, e) && Follows(e.stage, next)
    ensures Keeps(crypto, e, CompleteOut(e, next, bytes))
  {
    FollowsKeeps(crypto, e, next);
    hide Left, Stuck;
  }

  lemma AckStep(crypto: Crypto, e: Engine, bytes: seq<Byte>, command: Byte, next: Stage)
    requires Valid(crypto, e) && Follows(e.stage, next)
    ensures Keeps(crypto, e, CompleteAck(e, bytes, command, next))
  {
    hide DecodeA0, Left, Stuck;
    FollowsKeeps(crypto, e, next);
  }

  lemma BlockStep(crypto: Crypto, e: Engine, bytes: seq<Byte>)
    requires Valid(crypto, e) && e.stage == FirmwareWriteBlock
    ensures Keeps(crypto, e, CompleteBlock(e, bytes))
  {
    hide F0Frame, CurrentF0Frame, BlockCount, ChunkCount, Authenticate;
    F0FrameCurrent(e);
  }

  lemma SealedStep(crypto: Crypto, e: Engine, bytes: seq<Byte>)
    requires Valid(crypto, e) && e.stage == ReadSealedPskCompletion
    ensures Keeps(crypto, e, CompleteResponse(crypto, e, bytes))
  {
    hide DecodeA0, F0Frame, BlockCount, ParsePskRead, ChunkCount, Authenticate;
  }

  lemma HashStep(crypto: Crypto, e: Engine, bytes: seq<Byte>)
    requires Valid(crypto, e) && e.stage == ReadPskHashCompletion
    ensures Keeps(crypto, e, CompleteResponse(crypto, e, bytes))
  {
    hide EncodeA0, DecodeA0, F0Payload, ChunkAt, F0Frame, BlockCount, ParsePskRead, ChunkCount;
    FirstChunk(e.package);
    var r := CompleteResponse(crypto, e, bytes);
    if r.0.stage == FirmwareWriteBlock {
      F0FrameCurrent(r.0);
    }
  }

  lemma CheckStep(crypto: Crypto, e: Engine, bytes: seq<Byte>)
    requires Valid(crypto, e) && e.stage == FirmwareCheckCompletion
    ensures Keeps(crypto, e, CompleteResponse(crypto, e, bytes))
  {
    hide DecodeA0, F0Frame, BlockCount, ChunkCount, Authenticate;
  }

  lemma FirstChunk(p: Package)
    requires Transferable(p)
    ensures ChunkCount(p) > 0
  {}

  lemma ChunkStep(crypto: Crypto, e: Engine, bytes: seq<Byte>)
    requires Valid(crypto, e) && e.stage == FirmwareWriteCompletion
    ensures Keeps(crypto, e, CompleteResponse(crypto, e, bytes))
  {
    hide EncodeA0, DecodeA0, F0Payload, ChunkAt, F0Frame, BlockCount, ChunkCount, Authenticate;
    var r := CompleteResponse(crypto, e, bytes);
    if r.0.stage == FirmwareWriteBlock {
      F0FrameCurrent(r.0);
    }
  }

  /** Errors that no sequence of transfers can produce. */
  predicate DeadError(error: WireError) {
    || error.PskReadOverflow? || error.AlreadyAuthenticated? || error.NotAuthenticated? || error.F0IndexOutOfRange?
    || error.F0BlockOutOfRange? || error.F0CountMismatch? || error.FirmwareFrameTooLarge?
  }

  /** Valid engines always have a next action when the caller offers a whole block. */
  lemma ActionsSucceed(crypto: Crypto, e: Engine, capacity: nat)
    requires Valid(crypto, e) && capacity >= BLOCK_SIZE
    ensures NextAction(e, capacity).Ok?
    ensures NextAction(e, capacity).value.Done? <==> e.stage == Complete
  {
    hide F0Payload, ChunkAt, ChunkCount, ChunkOf, MakeBlock, CurrentF0Frame, BlockCount, EncodeA0, BuildPskRead,
      PskReadAction, Authentic, F0Frame;
    match e.stage {
      case FirmwareWriteBlock => F0FrameCurrent(e);
      case FirmwareCheckWrite => EncodeRoundTrip(FIRMWARE_CHECK, e.f4Tag.value);
      case ReadSealedPskWrite => ReadFits(SEALED_PSK_OBJECT, SEALED_PSK_SIZE, |e.sealedPsk|, capacity);
      case ReadPskHashWrite => ReadFits(PSK_HASH_OBJECT, PSK_HASH_SIZE, |e.pskHash|, capacity);
      case _ =>
    }
  }

  lemma ReadFits(objectId: U32, total: nat, received: nat, capacity: nat)
    requires received < total < U32_LIMIT && capacity >= BLOCK_SIZE
    ensures PskReadAction(objectId, total, received, capacity).Ok? && PskReadAction(objectId, total, received, capacity).value.Out?
  {
    hide BuildPskRead, EncodeA0, MakeBlock;
    EncodeRoundTrip(PSK_READ, BuildPskRead(objectId, received, Min(total - received, PSK_CHUNK)));
  }

  // ---- key reads ------------------------------------------------------------------------------------------------

  /** The engine asks exactly as the synchronous read does: for the missing bytes, at most 256, from where they start. */
  lemma EngineAsks(objectId: U32, total: U32, received: nat)
    requires received < total
    ensures var request := Request(objectId, total, received);
      && request.Ok? && PskReadAction(objectId, total, received, BLOCK_SIZE) == Ok(Out(request.value))
      && Asks(request.value, objectId, received, Min(total - received, PSK_CHUNK))
  {
    hide EncodeA0, Asks, BuildPskRead, MakeBlock;
    RequestAsks(objectId, total, received);
    EncodeRoundTrip(PSK_READ, BuildPskRead(objectId, received, Min(total - received, PSK_CHUNK)));
  }

  /** Whatever buffer it is offered, a key-read action that writes asks for key bytes. */
  lemma ReadActionAsks(objectId: U32, total: U32, received: nat, capacity: nat)
    requires received < total && PskReadAction(objectId, total, received, capacity).Ok?
    ensures var action := PskReadAction(objectId, total, received, capacity).value;
      action.Out? && AsksForKey(action.block)
  {
    hide EncodeA0, DecodeA0, BuildPskRead, MakeBlock;
    EngineAsks(objectId, total, received);
  }

  /** The engine accepts exactly what the synchronous read accepts. */
  lemma EngineAccepts(packet: Packet, objectId: U32, total: U32, output: seq<Byte>)
    requires |output| < total
    ensures var data := Accept(objectId, total, |output|, packet);
      AppendPskRead(packet, objectId, total, output) == if data.Err? then Err(data.error) else Ok(output + data.value)
  {
    hide ParsePskRead;
  }

  /** An accepted response appends exactly the object bytes it carries, at least one and no more than were asked for. */
  lemma ReadAppendsResponse(packet: Packet, objectId: U32, total: nat, output: seq<Byte>, data: seq<Byte>)
    requires |output| < total < U32_LIMIT && |data| < U32_LIMIT
    ensures AppendPskRead(packet, objectId, total, output) == Ok(output + data) <==>
      PskResponse(objectId, data) <= packet.payload && 0 < |data| <= Min(total - |output|, PSK_CHUNK)
  {
    hide ParsePskRead, PskResponse;
    var remaining: nat := total - |output|;
    PskReadAcceptedIff(packet.payload, objectId, Min(remaining, PSK_CHUNK), remaining, data);
    if AppendPskRead(packet, objectId, total, output) == Ok(output + data) {
      var read := ParsePskRead(packet.payload, objectId, Min(remaining, PSK_CHUNK), remaining).value;
      assert (output + read)[|output|..] == read && (output + data)[|output|..] == data;
    }
  }

  // ---- whole runs -----------------------------------------------------------------------------------------------

  /** Validity survives every sequence of completed transfers, whatever they carried. */
  lemma {:induction false} RunKeepsValid(crypto: Crypto, e: Engine, inputs: seq<seq<Byte>>)
    requires Valid(crypto, e)
    ensures Valid(crypto, Run(crypto, e, inputs))
    decreases |inputs|
  {
    hide Step, Valid;
    ValidTransferable(crypto, e);
    if inputs != [] {
      StepKeepsValid(crypto, e, inputs[0]);
      RunKeepsValid(crypto, Step(crypto, e, inputs[0]).0, inputs[1..]);
    }
  }

  lemma ValidTransferable(crypto: Crypto, e: Engine)
    requires Valid(crypto, e)
    ensures Transferable(e.package)
  {}

  /** After a failed authentication nothing moves the engine any more. */
  lemma {:induction false} StuckForever(crypto: Crypto, e: Engine, inputs: seq<seq<Byte>>)
    requires Valid(crypto, e) && Stuck(crypto, e)
    ensures Run(crypto, e, inputs) == e
    decreases |inputs|
  {
    hide EncodeA0, DecodeA0;
    if inputs != [] {
      assert Step(crypto, e, inputs[0]).0 == e;
      StuckForever(crypto, e, inputs[1..]);
    }
  }

  lemma {:induction false} RunJoins(crypto: Crypto, e: Engine, a: seq<seq<Byte>>, b: seq<seq<Byte>>)
    requires Transferable(e.package)
    ensures Run(crypto, e, a + b) == Run(crypto, Run(crypto, e, a), b)
    decreases |a|
  {
    hide Step;
    if a == [] {
      assert a + b == b;
    } else {
      assert (a + b)[1..] == a[1..] + b;
      RunJoins(crypto, Step(crypto, e, a[0]).0, a[1..], b);
    }
  }

  /** Whether a step ended in a failed authentication. */
  predicate AuthenticationFailed(r: Result<Progress, WireError>) {
    r == Err(PskUnusable) || r == Err(PskHashMismatch)
  }

  /** Only the last response of the hash can fail authentication. */
  lemma OnlyHashAuthenticates(crypto: Crypto, e: Engine, bytes: seq<Byte>)
    requires Transferable(e.package) && AuthenticationFailed(Step(crypto, e, bytes).1)
    ensures e.stage == ReadPskHashCompletion
  {
    hide DecodeA0, ParsePskRead, EncodeA0, F0Payload, ChunkAt, ChunkCount, BlockCount;
  }

  /** The two errors of an authentication leave the engine stuck. */
  lemma AuthenticationErrorSticks(crypto: Crypto, e: Engine, bytes: seq<Byte>)
    requires Valid(crypto, e)
    ensures AuthenticationFailed(Step(crypto, e, bytes).1) ==> Stuck(crypto, Step(crypto, e, bytes).0)
  {
    hide Step, Valid, Stuck;
    ValidTransferable(crypto, e);
    if AuthenticationFailed(Step(crypto, e, bytes).1) {
      OnlyHashAuthenticates(crypto, e, bytes);
      HashErrorSticks(crypto, e, bytes);
    }
  }

  lemma HashErrorSticks(crypto: Crypto, e: Engine, bytes: seq<Byte>)
    requires Valid(crypto, e) && e.stage == ReadPskHashCompletion
    ensures AuthenticationFailed(Step(crypto, e, bytes).1) ==> Stuck(crypto, Step(crypto, e, bytes).0)
  {
    hide DecodeA0, ParsePskRead, F0Frame, BlockCount, ChunkCount, Authenticate, Authentic;
  }

  /**
   Once an authentication has failed, whatever was read before and whatever comes after, the engine stays where it is and
   never reaches a stage that writes firmware.
   */
  lemma FailedAuthenticationIsFinal(
    crypto: Crypto, package: Package, before: seq<seq<Byte>>, bytes: seq<Byte>, after: seq<seq<Byte>>)
    requires Transferable(package)
    ensures var e := Run(crypto, Start(package), before);
      var (failed, r) := Step(crypto, e, bytes);
      AuthenticationFailed(r) ==>
        && Run(crypto, Start(package), before + [bytes] + after) == failed
        && failed.stage == ReadPskHashCompletion && failed.f4Tag.None? && failed.f0ChunksSent == 0
  {
    hide Run, Step, AuthenticationFailed;
    StartValid(crypto, package);
    RunKeepsValid(crypto, Start(package), before);
    var e := Run(crypto, Start(package), before);
    var (failed, r) := Step(crypto, e, bytes);
    if AuthenticationFailed(r) {
      AuthenticationErrorSticks(crypto, e, bytes);
      StepKeepsValid(crypto, e, bytes);
      StuckForever(crypto, failed, after);
      RunJoins(crypto, Start(package), before, [bytes] + after);
      RunJoins(crypto, e, [bytes], after);
      RunOne(crypto, e, bytes);
      assert before + [bytes] + after == before + ([bytes] + after);
    }
  }

  lemma RunOne(crypto: Crypto, e: Engine, bytes: seq<Byte>)
    requires Transferable(e.package)
    ensures Run(crypto, e, [bytes]) == Step(crypto, e, bytes).0
  {
    hide Step;
    assert [bytes][1..] == [];
  }
}
