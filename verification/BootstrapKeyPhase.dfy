/** The driven engine reads both objects as the synchronous read does, and enters the firmware phase with their tag. */
module BootstrapKeyPhase {
  import opened Wrappers
  import opened Arithmetic
  import opened Bytes
  import opened Protocol
  import opened Firmware
  import opened Transport
  import opened KeyRead
  import opened BootstrapEngine
  import opened BootstrapSafety
  import opened BootstrapRefinement

  /** The three stages of one key-read exchange. */
  predicate KeyExchange(write: Stage, ack: Stage, completion: Stage) {
    || (write == ReadSealedPskWrite && ack == ReadSealedPskAck && completion == ReadSealedPskCompletion)
    || (write == ReadPskHashWrite && ack == ReadPskHashAck && completion == ReadPskHashCompletion)
  }

  function KeyRequest(e: Engine): Result<Block, ProtocolError>
    requires |e.sealedPsk| <= SEALED_PSK_SIZE && |e.pskHash| <= PSK_HASH_SIZE
  {
    if ReadingSealed(e.stage) then Request(SEALED_PSK_OBJECT, SEALED_PSK_SIZE, |e.sealedPsk|)
    else Request(PSK_HASH_OBJECT, PSK_HASH_SIZE, |e.pskHash|)
  }

  function KeyResponse(crypto: Crypto, e: Engine, packet: Packet): (Engine, Result<Progress, WireError>) {
    if ReadingSealed(e.stage) then CompleteSealedPsk(e, packet) else CompletePskHash(crypto, e, packet)
  }

  // ---- one exchange ---------------------------------------------------------------------------------------------

  lemma KeyAction(crypto: Crypto, e: Engine, ack: Stage, completion: Stage)
    requires Valid(crypto, e) && KeyExchange(e.stage, ack, completion)
    ensures |e.sealedPsk| <= SEALED_PSK_SIZE && |e.pskHash| <= PSK_HASH_SIZE && KeyRequest(e).Ok?
    ensures NextAction(e, BLOCK_SIZE) == Ok(Out(KeyRequest(e).value))
    ensures Step(crypto, e, []) == (e.(stage := ack), Ok(Advanced)) && Valid(crypto, e.(stage := ack))
  {
    hide F0Frame, BlockCount, ChunkCount, Authentic, Authenticate, PskReadAction, Asks, Request, CurrentF0Frame;
    if e.stage == ReadSealedPskWrite {
      EngineAsks(SEALED_PSK_OBJECT, SEALED_PSK_SIZE, |e.sealedPsk|);
    } else {
      EngineAsks(PSK_HASH_OBJECT, PSK_HASH_SIZE, |e.pskHash|);
    }
  }

  lemma KeyCompletionStep(crypto: Crypto, e: Engine, bytes: seq<Byte>)
    requires Valid(crypto, e) && (e.stage == ReadSealedPskCompletion || e.stage == ReadPskHashCompletion)
    ensures NextAction(e, BLOCK_SIZE) == Ok(In)
    ensures var matched := MatchCompletion(bytes, PSK_READ);
      Step(crypto, e, bytes) ==
        if matched.Err? then (e, Err(matched.error))
        else if matched.value.None? then (e, Ok(Ignored))
        else KeyResponse(crypto, e, matched.value.value)
  {
    hide MatchCompletion, CompleteSealedPsk, CompletePskHash;
  }

  lemma {:induction false} DriveKeyCompletion(crypto: Crypto, e: Engine, input: seq<seq<Byte>>)
    requires Valid(crypto, e) && (e.stage == ReadSealedPskCompletion || e.stage == ReadPskHashCompletion) && NoEmpty(input)
    ensures var wait := AwaitPacket(PSK_READ, input);
      && (wait.Stopped? ==> Drive(crypto, e, input) == Trace([], wait.ending))
      && (wait.Got? ==>
            var (next, progress) := KeyResponse(crypto, e, wait.value);
            && NoEmpty(wait.rest)
            && (progress.Err? ==> Drive(crypto, e, input) == Trace([], Failed(progress.error)))
            && (progress.Ok? ==> Valid(crypto, next) && Drive(crypto, e, input) == Drive(crypto, next, wait.rest)))
    decreases |input|
  {
    hide DecodeA0, Step, NextAction, Valid, Drive, KeyResponse;
    KeyCompletionStep(crypto, e, if input == [] then [] else input[0]);
    DriveIn(crypto, e, input);
    if input != [] {
      assert input[0] in input && input[0] != [] && forall x <- input[1..] :: x in input;
      if MatchCompletion(input[0], PSK_READ) == Ok(None) {
        DriveKeyCompletion(crypto, e, input[1..]);
      }
    }
  }

  /** From a request to the engine behind its response, or to the end of the run. */
  lemma DriveExchange(crypto: Crypto, e: Engine, input: seq<seq<Byte>>, ack: Stage, completion: Stage)
    requires Valid(crypto, e) && KeyExchange(e.stage, ack, completion) && NoEmpty(input)
    ensures |e.sealedPsk| <= SEALED_PSK_SIZE && |e.pskHash| <= PSK_HASH_SIZE && KeyRequest(e).Ok?
    ensures var blocks, reply := [KeyRequest(e).value], AwaitCompletion(PSK_READ, input);
      && (reply.Stopped? ==> Drive(crypto, e, input) == Trace(blocks, reply.ending))
      && (reply.Got? ==>
            var (next, progress) := KeyResponse(crypto, e.(stage := completion), reply.value);
            && NoEmpty(reply.rest)
            && (progress.Err? ==> Drive(crypto, e, input) == Trace(blocks, Failed(progress.error)))
            && (progress.Ok? ==> Valid(crypto, next) && Drive(crypto, e, input) == Prefixed(blocks, Drive(crypto, next, reply.rest))))
  {
    hide Step, NextAction, Valid, Drive, KeyResponse, KeyRequest, AwaitAck, AwaitPacket;
    KeyAction(crypto, e, ack, completion);
    DriveOut(crypto, e, input, KeyRequest(e).value);
    DriveAck(crypto, e.(stage := ack), input, completion, PSK_READ);
    var wait := AwaitAck(PSK_READ, input);
    if wait.Got? {
      DriveKeyCompletion(crypto, e.(stage := completion), wait.rest);
    }
  }

  // ---- both objects ---------------------------------------------------------------------------------------------

  lemma SealedFacts(crypto: Crypto, e: Engine)
    requires Valid(crypto, e) && e.stage == ReadSealedPskWrite
    ensures |e.sealedPsk| < SEALED_PSK_SIZE && e.pskHash == []
  {}

  lemma SealedResponse(crypto: Crypto, e: Engine, packet: Packet)
    requires |e.sealedPsk| < SEALED_PSK_SIZE && e.stage == ReadSealedPskCompletion
    ensures var data := Accept(SEALED_PSK_OBJECT, SEALED_PSK_SIZE, |e.sealedPsk|, packet);
      KeyResponse(crypto, e, packet) ==
        if data.Err? then (e, Err(data.error))
        else
          var read := e.sealedPsk + data.value;
          (e.(sealedPsk := read, stage := if |read| == SEALED_PSK_SIZE then ReadPskHashWrite else ReadSealedPskWrite),
           Ok(Advanced))
  {
    hide AppendPskRead, Accept;
    EngineAccepts(packet, SEALED_PSK_OBJECT, SEALED_PSK_SIZE, e.sealedPsk);
  }

  /** The engine reads the sealed key as the synchronous read does. */
  lemma {:induction false} DriveSealed(crypto: Crypto, e: Engine, input: seq<seq<Byte>>)
    requires Valid(crypto, e) && e.stage == ReadSealedPskWrite && NoEmpty(input)
    ensures |e.sealedPsk| < SEALED_PSK_SIZE
    ensures var (blocks, read) := ReadFrom(SEALED_PSK_OBJECT, SEALED_PSK_SIZE, e.sealedPsk, input);
      && (read.Stopped? ==> Drive(crypto, e, input) == Trace(blocks, read.ending))
      && (read.Got? ==>
            var next := e.(sealedPsk := read.value, stage := ReadPskHashWrite);
            && NoEmpty(read.rest) && Valid(crypto, next)
            && Drive(crypto, e, input) == Prefixed(blocks, Drive(crypto, next, read.rest)))
    decreases SEALED_PSK_SIZE - |e.sealedPsk|
  {
    hide Valid, Drive, KeyResponse, AwaitCompletion, Accept, Request, Prefixed;
    SealedFacts(crypto, e);
    DriveExchange(crypto, e, input, ReadSealedPskAck, ReadSealedPskCompletion);
    var reply := AwaitCompletion(PSK_READ, input);
    if reply.Got? {
      var at := e.(stage := ReadSealedPskCompletion);
      SealedResponse(crypto, at, reply.value);
      var (next, progress) := KeyResponse(crypto, at, reply.value);
      if progress.Ok? {
        var blocks := [KeyRequest(e).value];
        if next.stage == ReadSealedPskWrite {
          DriveSealed(crypto, next, reply.rest);
          var (later, read) := ReadFrom(SEALED_PSK_OBJECT, SEALED_PSK_SIZE, next.sealedPsk, reply.rest);
          if read.Got? {
            var done := next.(sealedPsk := read.value, stage := ReadPskHashWrite);
            assert done == e.(sealedPsk := read.value, stage := ReadPskHashWrite);
            PrefixedTwice(blocks, later, Drive(crypto, done, read.rest));
          } else {
            PrefixedTrace(blocks, later, read.ending);
          }
        } else {
          PrefixedTwice(blocks, [], Drive(crypto, next, reply.rest));
        }
      }
    }
  }

  lemma HashFacts(crypto: Crypto, e: Engine)
    requires Valid(crypto, e) && e.stage == ReadPskHashWrite
    ensures |e.sealedPsk| == SEALED_PSK_SIZE && |e.pskHash| < PSK_HASH_SIZE && e.f4Tag.None? && e.f0BlockIndex == 0
    ensures e.f0ChunkIndex == 0 == e.f0ChunksSent
  {}

  /** The engine once both objects are read and authenticated. */
  function Opened(e: Engine, tag: Tag): Engine {
    e.(f4Tag := Some(tag), sealedPsk := [], pskHash := [], stage := FirmwareWriteBlock)
  }

  lemma HashResponse(crypto: Crypto, e: Engine, packet: Packet)
    requires |e.pskHash| < PSK_HASH_SIZE && e.stage == ReadPskHashCompletion && e.f4Tag.None?
    ensures var data := Accept(PSK_HASH_OBJECT, PSK_HASH_SIZE, |e.pskHash|, packet);
      var (next, progress) := KeyResponse(crypto, e, packet);
      if data.Err? then progress == Err(data.error)
      else
        var read := e.(pskHash := e.pskHash + data.value);
        if |read.pskHash| < PSK_HASH_SIZE then next == read.(stage := ReadPskHashWrite) && progress == Ok(Advanced)
        else
          var tag := Authenticate(crypto, e.package, e.sealedPsk, read.pskHash);
          if tag.Err? then progress == Err(tag.error) else next == Opened(read, tag.value) && progress == Ok(Advanced)
  {
    hide AppendPskRead, Accept, Authenticate;
    EngineAccepts(packet, PSK_HASH_OBJECT, PSK_HASH_SIZE, e.pskHash);
  }

  /** The engine reads the hash as the synchronous read does, and then authenticates. */
  lemma {:induction false} DriveHash(crypto: Crypto, e: Engine, input: seq<seq<Byte>>)
    requires Valid(crypto, e) && e.stage == ReadPskHashWrite && NoEmpty(input)
    ensures |e.pskHash| < PSK_HASH_SIZE
    ensures var (blocks, read) := ReadFrom(PSK_HASH_OBJECT, PSK_HASH_SIZE, e.pskHash, input);
      && (read.Stopped? ==> Drive(crypto, e, input) == Trace(blocks, read.ending))
      && (read.Got? ==>
            var tag := Authenticate(crypto, e.package, e.sealedPsk, read.value);
            && NoEmpty(read.rest)
            && (tag.Err? ==> Drive(crypto, e, input) == Trace(blocks, Failed(tag.error)))
            && (tag.Ok? ==>
                  && Valid(crypto, Opened(e, tag.value))
                  && Drive(crypto, e, input) == Prefixed(blocks, Drive(crypto, Opened(e, tag.value), read.rest))))
    decreases PSK_HASH_SIZE - |e.pskHash|
  {
    hide Valid, Drive, KeyResponse, AwaitCompletion, Accept, Request, Prefixed, Authenticate;
    HashFacts(crypto, e);
    DriveExchange(crypto, e, input, ReadPskHashAck, ReadPskHashCompletion);
    var reply := AwaitCompletion(PSK_READ, input);
    if reply.Got? {
      var at := e.(stage := ReadPskHashCompletion);
      HashResponse(crypto, at, reply.value);
      var (next, progress) := KeyResponse(crypto, at, reply.value);
      var blocks := [KeyRequest(e).value];
      if progress.Ok? && next.stage == ReadPskHashWrite {
        DriveHash(crypto, next, reply.rest);
        var (later, read) := ReadFrom(PSK_HASH_OBJECT, PSK_HASH_SIZE, next.pskHash, reply.rest);
        if read.Stopped? {
          PrefixedTrace(blocks, later, read.ending);
        } else {
          var tag := Authenticate(crypto, e.package, e.sealedPsk, read.value);
          if tag.Err? {
            PrefixedTrace(blocks, later, Failed(tag.error));
          } else {
            assert Opened(next, tag.value) == Opened(e, tag.value);
            PrefixedTwice(blocks, later, Drive(crypto, Opened(e, tag.value), read.rest));
          }
        }
      } else {
        assert blocks + [] == blocks;
      }
    }
  }
}
