/**
 The engine against the synchronous bootstrap, from the first key read to the check and over arbitrary streams.  They
 differ in two ways, and the exact condition for either is stated: the engine opens the sealed key only once the hash is
 read too, and it takes a zero-length transfer for an error.
 */
module BootstrapRuns {
  import opened Wrappers
  import opened Bytes
  import opened Protocol
  import opened Firmware
  import opened Transport
  import opened KeyRead
  import opened BootstrapEngine
  import opened BootstrapSafety
  import opened BootstrapRefinement
  import opened BootstrapKeyPhase
  import opened ColdBootstrap

  /** What a zero-length IN transfer does to the engine. */
  const EMPTY_READ := Failed(PacketError(PacketTooShort(0, MIN_PACKET)))

  /** The transfers in front of the first zero-length one. */
  function Leading(input: seq<seq<Byte>>): seq<seq<Byte>> {
    if input == [] || input[0] == [] then [] else [input[0]] + Leading(input[1..])
  }

  /** The stream without its zero-length transfers. */
  function NonEmpty(input: seq<seq<Byte>>): seq<seq<Byte>> {
    if input == [] then [] else if input[0] == [] then NonEmpty(input[1..]) else [input[0]] + NonEmpty(input[1..])
  }

  lemma {:induction false} LeadingSplit(input: seq<seq<Byte>>)
    ensures |Leading(input)| <= |input| && NoEmpty(Leading(input)) && Leading(input) + input[|Leading(input)|..] == input
    ensures |Leading(input)| < |input| ==> input[|Leading(input)|] == []
  {
    if input != [] && input[0] != [] {
      LeadingSplit(input[1..]);
    }
  }

  lemma {:induction false} NonEmptyHasNone(input: seq<seq<Byte>>)
    ensures NoEmpty(NonEmpty(input))
  {
    if input != [] {
      NonEmptyHasNone(input[1..]);
    }
  }

  // ---- the synchronous side -------------------------------------------------------------------------------------

  function Extended<T>(w: Wait<T>, more: seq<seq<Byte>>): Wait<T> {
    if w.Got? then Got(w.value, w.rest + more) else w
  }

  function Skipped<T>(w: Wait<T>): Wait<T> {
    if w.Got? then Got(w.value, NonEmpty(w.rest)) else w
  }

  /** Only the zero-length transfer decodes to this error. */
  lemma ShortDecodes(data: seq<Byte>)
    ensures DecodeA0(data) == Err(PacketTooShort(0, MIN_PACKET)) <==> data == []
  {
    if |data| >= MIN_PACKET {
      InnerNeverShort(data[OUTER_HEADER..]);
    }
    hide DecodeMcu, OuterChecksum, FromLE16;
  }

  lemma InnerNeverShort(inner: seq<Byte>)
    ensures DecodeMcu(inner).Err? ==> !DecodeMcu(inner).error.PacketTooShort?
  {
    hide ChecksumAA, FromLE16;
  }

  lemma {:induction false} AckExtends(command: Byte, a: seq<seq<Byte>>, b: seq<seq<Byte>>)
    ensures AwaitAck(command, a) != Stopped(TimedOut) ==> AwaitAck(command, a + b) == Extended(AwaitAck(command, a), b)
    ensures AwaitAck(command, a) != Stopped(EMPTY_READ)
  {
    hide DecodeA0;
    if a != [] {
      ShortDecodes(a[0]);
      assert (a + b)[1..] == a[1..] + b;
      AckExtends(command, a[1..], b);
    }
  }

  lemma {:induction false} PacketExtends(command: Byte, a: seq<seq<Byte>>, b: seq<seq<Byte>>)
    ensures AwaitPacket(command, a) != Stopped(TimedOut) ==> AwaitPacket(command, a + b) == Extended(AwaitPacket(command, a), b)
    ensures AwaitPacket(command, a) != Stopped(EMPTY_READ)
  {
    hide DecodeA0;
    if a != [] {
      ShortDecodes(a[0]);
      assert (a + b)[1..] == a[1..] + b;
      PacketExtends(command, a[1..], b);
    }
  }

  lemma CompletionExtends(command: Byte, a: seq<seq<Byte>>, b: seq<seq<Byte>>)
    ensures AwaitCompletion(command, a) != Stopped(TimedOut) ==>
      AwaitCompletion(command, a + b) == Extended(AwaitCompletion(command, a), b)
    ensures AwaitCompletion(command, a) != Stopped(EMPTY_READ)
  {
    hide AwaitAck, AwaitPacket;
    AckExtends(command, a, b);
    if AwaitAck(command, a).Got? {
      PacketExtends(command, AwaitAck(command, a).rest, b);
    }
  }

  /** Input behind the point where the transfer ended makes no difference, and it never reports a zero-length read. */
  lemma {:induction false} TransferExtends(p: Package, tag: seq<Byte>, i: nat, a: seq<seq<Byte>>, b: seq<seq<Byte>>)
    requires Transferable(p) && i <= ChunkCount(p)
    ensures TransferFrom(p, tag, i, a).ending != TimedOut ==> TransferFrom(p, tag, i, a + b) == TransferFrom(p, tag, i, a)
    ensures TransferFrom(p, tag, i, a).ending != EMPTY_READ
    decreases ChunkCount(p) - i
  {
    hide AwaitCompletion, Blocks, EncodeA0, F0Payload, ChunkAt, ChunkCount;
    if i < ChunkCount(p) {
      EncodeRoundTrip(FIRMWARE_WRITE, F0Payload(ChunkAt(p, i)));
      CompletionExtends(FIRMWARE_WRITE, a, b);
      if AwaitCompletion(FIRMWARE_WRITE, a).Got? {
        TransferExtends(p, tag, i + 1, AwaitCompletion(FIRMWARE_WRITE, a).rest, b);
      }
    } else {
      EncodeNeverShort(FIRMWARE_CHECK, tag);
      CompletionExtends(FIRMWARE_CHECK, a, b);
    }
  }

  lemma EncodeNeverShort(command: Byte, payload: seq<Byte>)
    ensures EncodeA0(command, payload).Err? ==> !EncodeA0(command, payload).error.PacketTooShort?
  {
    hide ChecksumAA;
  }

  lemma {:induction false} AckSkips(command: Byte, input: seq<seq<Byte>>)
    ensures AwaitAck(command, NonEmpty(input)) == Skipped(AwaitAck(command, input))
  {
    hide DecodeA0;
    if input != [] {
      AckSkips(command, input[1..]);
      if input[0] != [] {
        assert NonEmpty(input)[1..] == NonEmpty(input[1..]);
      }
    }
  }

  lemma {:induction false} PacketSkips(command: Byte, input: seq<seq<Byte>>)
    ensures AwaitPacket(command, NonEmpty(input)) == Skipped(AwaitPacket(command, input))
  {
    hide DecodeA0;
    if input != [] {
      PacketSkips(command, input[1..]);
      if input[0] != [] {
        assert NonEmpty(input)[1..] == NonEmpty(input[1..]);
      }
    }
  }

  lemma CompletionSkips(command: Byte, input: seq<seq<Byte>>)
    ensures AwaitCompletion(command, NonEmpty(input)) == Skipped(AwaitCompletion(command, input))
  {
    hide AwaitAck, AwaitPacket;
    AckSkips(command, input);
    if AwaitAck(command, input).Got? {
      PacketSkips(command, AwaitAck(command, input).rest);
    }
  }

  /** Zero-length transfers are invisible to the synchronous code. */
  lemma {:induction false} TransferSkips(p: Package, tag: seq<Byte>, i: nat, input: seq<seq<Byte>>)
    requires Transferable(p) && i <= ChunkCount(p)
    ensures TransferFrom(p, tag, i, NonEmpty(input)) == TransferFrom(p, tag, i, input)
    decreases ChunkCount(p) - i
  {
    hide AwaitCompletion, Blocks, EncodeA0, F0Payload, ChunkAt, ChunkCount;
    if i < ChunkCount(p) {
      CompletionSkips(FIRMWARE_WRITE, input);
      if AwaitCompletion(FIRMWARE_WRITE, input).Got? {
        TransferSkips(p, tag, i + 1, AwaitCompletion(FIRMWARE_WRITE, input).rest);
      }
    } else {
      CompletionSkips(FIRMWARE_CHECK, input);
    }
  }

  /** Input behind the point where a read ended makes no difference, and it never reports a zero-length transfer. */
  lemma {:induction false} ReadExtends(objectId: U32, total: U32, output: seq<Byte>, a: seq<seq<Byte>>, b: seq<seq<Byte>>)
    requires |output| <= total
    ensures var (blocks, read) := ReadFrom(objectId, total, output, a);
      && (read != Stopped(TimedOut) ==> ReadFrom(objectId, total, output, a + b) == (blocks, Extended(read, b)))
      && read != Stopped(EMPTY_READ)
    decreases total - |output|
  {
    hide AwaitCompletion, Request, Accept, Asks;
    if |output| < total {
      RequestAsks(objectId, total, |output|);
      CompletionExtends(PSK_READ, a, b);
      var reply := AwaitCompletion(PSK_READ, a);
      if reply.Got? {
        AcceptNeverShort(objectId, total, |output|, reply.value);
        var data := Accept(objectId, total, |output|, reply.value);
        if data.Ok? {
          ReadExtends(objectId, total, output + data.value, reply.rest, b);
        }
      }
    }
  }

  lemma AcceptNeverShort(objectId: U32, total: U32, received: nat, packet: Packet)
    requires received <= total
    ensures Accept(objectId, total, received, packet).Err? ==> !Accept(objectId, total, received, packet).error.PacketError?
  {
    hide ParsePskRead;
  }

  lemma {:induction false} ReadSkips(objectId: U32, total: U32, output: seq<Byte>, input: seq<seq<Byte>>)
    requires |output| <= total
    ensures var (blocks, read) := ReadFrom(objectId, total, output, input);
      ReadFrom(objectId, total, output, NonEmpty(input)) == (blocks, Skipped(read))
    decreases total - |output|
  {
    hide AwaitCompletion, Request, Accept;
    if |output| < total {
      CompletionSkips(PSK_READ, input);
      var reply := AwaitCompletion(PSK_READ, input);
      if reply.Got? {
        var data := Accept(objectId, total, |output|, reply.value);
        if data.Ok? {
          ReadSkips(objectId, total, output + data.value, reply.rest);
        }
      }
    }
  }

  lemma CheckExtends(crypto: Crypto, p: Package, psk: seq<Byte>, a: seq<seq<Byte>>, b: seq<seq<Byte>>)
    requires Transferable(p)
    ensures var t := CheckAndTransfer(crypto, p, psk, a);
      (t.ending != TimedOut ==> CheckAndTransfer(crypto, p, psk, a + b) == t) && t.ending != EMPTY_READ
  {
    hide ReadFrom, TransferFrom;
    ReadExtends(PSK_HASH_OBJECT, PSK_HASH_SIZE, [], a, b);
    var hash := ReadObject(PSK_HASH_OBJECT, PSK_HASH_SIZE, a).1;
    var tag := crypto.tag(psk, p.bytes);
    if hash.Got? && tag.Some? {
      TransferExtends(p, tag.value, 0, hash.rest, b);
    }
  }

  lemma BootstrapExtends(crypto: Crypto, p: Package, a: seq<seq<Byte>>, b: seq<seq<Byte>>)
    requires Transferable(p)
    ensures var t := Bootstrap(crypto, p, a);
      (t.ending != TimedOut ==> Bootstrap(crypto, p, a + b) == t) && t.ending != EMPTY_READ
  {
    hide ReadFrom, CheckAndTransfer;
    ReadExtends(SEALED_PSK_OBJECT, SEALED_PSK_SIZE, [], a, b);
    var sealedPsk := ReadObject(SEALED_PSK_OBJECT, SEALED_PSK_SIZE, a).1;
    if sealedPsk.Got? {
      var psk := crypto.unseal(sealedPsk.value);
      if psk.Some? {
        CheckExtends(crypto, p, psk.value, sealedPsk.rest, b);
      }
    }
  }

  /** Zero-length transfers are invisible to the whole synchronous bootstrap. */
  lemma BootstrapSkips(crypto: Crypto, p: Package, input: seq<seq<Byte>>)
    requires Transferable(p)
    ensures Bootstrap(crypto, p, NonEmpty(input)) == Bootstrap(crypto, p, input)
  {
    hide ReadFrom, TransferFrom;
    ReadSkips(SEALED_PSK_OBJECT, SEALED_PSK_SIZE, [], input);
    var sealedPsk := ReadObject(SEALED_PSK_OBJECT, SEALED_PSK_SIZE, input).1;
    if sealedPsk.Got? {
      ReadSkips(PSK_HASH_OBJECT, PSK_HASH_SIZE, [], sealedPsk.rest);
      var psk, hash := crypto.unseal(sealedPsk.value), ReadObject(PSK_HASH_OBJECT, PSK_HASH_SIZE, sealedPsk.rest).1;
      if psk.Some? && hash.Got? {
        var tag := crypto.tag(psk.value, p.bytes);
        if tag.Some? {
          TransferSkips(p, tag.value, 0, hash.rest);
        }
      }
    }
  }

  // ---- the engine side ------------------------------------------------------------------------------------------

  /** Every IN stage reports a zero-length transfer as a packet that is too short. */
  lemma EmptyStep(crypto: Crypto, e: Engine)
    requires Transferable(e.package) && NextAction(e, BLOCK_SIZE) == Ok(In)
    ensures Step(crypto, e, []) == (e, Err(PacketError(PacketTooShort(0, MIN_PACKET))))
  {
    hide DecodeA0, CurrentF0Frame, EncodeA0, MakeBlock, ChunkOf, BuildPskRead;
    ShortDecodes([]);
  }

  /** A zero-length transfer behind `a` matters exactly when the engine would still be reading then. */
  lemma {:induction false} DriveExtends(crypto: Crypto, e: Engine, a: seq<seq<Byte>>, b: seq<seq<Byte>>)
    requires Valid(crypto, e) && b != [] && b[0] == []
    ensures var t := Drive(crypto, e, a);
      Drive(crypto, e, a + b) == if t.ending == TimedOut then Trace(t.sent, EMPTY_READ) else t
    decreases |a|, Left(e).phase, Left(e).remaining, Left(e).substage, Left(e).blocks
  {
    hide Step, NextAction, Valid, Left;
    ValidTransferable(crypto, e);
    ActionsSucceed(crypto, e, BLOCK_SIZE);
    match NextAction(e, BLOCK_SIZE).value
    case Done =>
      CompleteHasResult(crypto, e);
    case Out(block) =>
      OutAdvances(crypto, e);
      StepKeepsValid(crypto, e, []);
      KeptStep(crypto, e, Step(crypto, e, []));
      DriveExtends(crypto, Step(crypto, e, []).0, a, b);
    case In =>
      EmptyStep(crypto, e);
      if a == [] {
        assert a + b == b;
        StepKeepsValid(crypto, e, []);
      } else {
        assert (a + b)[1..] == a[1..] + b;
        StepKeepsValid(crypto, e, a[0]);
        KeptStep(crypto, e, Step(crypto, e, a[0]));
        if Step(crypto, e, a[0]).1.Ok? {
          DriveExtends(crypto, Step(crypto, e, a[0]).0, a[1..], b);
        }
      }
  }

  // ---- whole runs -----------------------------------------------------------------------------------------------

  /** What the engine does on a stream without zero-length transfers: both reads, then authentication, then the transfer. */
  function EngineOrder(crypto: Crypto, p: Package, input: seq<seq<Byte>>): Trace
    requires Transferable(p)
  {
    var (first, sealedPsk) := ReadObject(SEALED_PSK_OBJECT, SEALED_PSK_SIZE, input);
    if sealedPsk.Stopped? then Trace(first, sealedPsk.ending)
    else
      var (second, hash) := ReadObject(PSK_HASH_OBJECT, PSK_HASH_SIZE, sealedPsk.rest);
      if hash.Stopped? then Trace(first + second, hash.ending)
      else
        var tag := Authenticate(crypto, p, sealedPsk.value, hash.value);
        if tag.Err? then Trace(first + second, Failed(tag.error))
        else Prefixed(first + second, WriteAppTransfer(p, tag.value, hash.rest))
  }

  /** The sealed key, if it is read at all, can be opened. */
  predicate Opens(crypto: Crypto, input: seq<seq<Byte>>) {
    var sealedPsk := ReadObject(SEALED_PSK_OBJECT, SEALED_PSK_SIZE, input).1;
    sealedPsk.Got? ==> crypto.unseal(sealedPsk.value).Some?
  }

  /** A run from the start, on a stream without zero-length transfers. */
  lemma DriveFromStart(crypto: Crypto, p: Package, input: seq<seq<Byte>>)
    requires Transferable(p) && Valid(crypto, Start(p)) && NoEmpty(input)
    ensures Drive(crypto, Start(p), input) == EngineOrder(crypto, p, input)
  {
    hide Valid, Drive, ReadFrom, Authenticate, TransferFrom, Prefixed;
    DriveSealed(crypto, Start(p), input);
    var (first, sealedPsk) := ReadObject(SEALED_PSK_OBJECT, SEALED_PSK_SIZE, input);
    if sealedPsk.Got? {
      var reading := Start(p).(sealedPsk := sealedPsk.value, stage := ReadPskHashWrite);
      DriveHash(crypto, reading, sealedPsk.rest);
      var (second, hash) := ReadObject(PSK_HASH_OBJECT, PSK_HASH_SIZE, sealedPsk.rest);
      if hash.Stopped? {
        PrefixedTrace(first, second, hash.ending);
      } else {
        var tag := Authenticate(crypto, p, sealedPsk.value, hash.value);
        if tag.Err? {
          PrefixedTrace(first, second, Failed(tag.error));
        } else {
          DriveIsTransfer(crypto, Opened(reading, tag.value), hash.rest);
          PrefixedTwice(first, second, WriteAppTransfer(p, tag.value, hash.rest));
        }
      }
    }
  }

  /** An incomplete object is asked for. */
  lemma ReadAsks(objectId: U32, total: U32, output: seq<Byte>, input: seq<seq<Byte>>)
    requires |output| < total
    ensures ReadFrom(objectId, total, output, input).0 != []
  {
    hide Asks, Request, Accept, AwaitCompletion;
    RequestAsks(objectId, total, |output|);
  }

  /** Opening the key late makes a difference exactly when it cannot be opened: then the hash is still asked for. */
  lemma OrderMatters(crypto: Crypto, p: Package, input: seq<seq<Byte>>)
    requires Transferable(p)
    ensures Opens(crypto, input) ==> EngineOrder(crypto, p, input) == Bootstrap(crypto, p, input)
    ensures !Opens(crypto, input) ==>
      && EngineOrder(crypto, p, input).sent != Bootstrap(crypto, p, input).sent
      && !EngineOrder(crypto, p, input).ending.Finished? && Bootstrap(crypto, p, input).ending == Failed(PskUnusable)
  {
    hide ReadFrom, TransferFrom, AwaitCompletion;
    var (first, sealedPsk) := ReadObject(SEALED_PSK_OBJECT, SEALED_PSK_SIZE, input);
    if sealedPsk.Got? {
      var (second, hash) := ReadObject(PSK_HASH_OBJECT, PSK_HASH_SIZE, sealedPsk.rest);
      ReadAsks(PSK_HASH_OBJECT, PSK_HASH_SIZE, [], sealedPsk.rest);
      ReadNeverFinished(PSK_HASH_OBJECT, PSK_HASH_SIZE, [], sealedPsk.rest);
      if Opens(crypto, input) && hash.Got? {
        var tag := Authenticate(crypto, p, sealedPsk.value, hash.value);
        if tag.Ok? {
          PrefixedTwice(first, second, WriteAppTransfer(p, tag.value, hash.rest));
        }
      }
    }
  }

  lemma {:induction false} ReadNeverFinished(objectId: U32, total: U32, output: seq<Byte>, input: seq<seq<Byte>>)
    requires |output| <= total
    ensures var read := ReadFrom(objectId, total, output, input).1;
      read.Stopped? ==> !read.ending.Finished?
    decreases total - |output|
  {
    hide AwaitCompletion, Request, Accept;
    if |output| < total {
      NeverFinished(PSK_READ, input);
      var reply := AwaitCompletion(PSK_READ, input);
      if reply.Got? {
        var data := Accept(objectId, total, |output|, reply.value);
        if data.Ok? {
          ReadNeverFinished(objectId, total, output + data.value, reply.rest);
        }
      }
    }
  }

  /**
   Fed with the stream less its zero-length transfers, the engine does from start to end exactly what the synchronous
   bootstrap does on the stream itself -- if and only if the sealed key, once read, can be opened.
   */
  lemma EngineMatchesBootstrap(crypto: Crypto, p: Package, input: seq<seq<Byte>>)
    requires Transferable(p) && Valid(crypto, Start(p))
    ensures Drive(crypto, Start(p), NonEmpty(input)) == Bootstrap(crypto, p, input) <==> Opens(crypto, input)
  {
    hide Valid, Drive, EngineOrder, Bootstrap, ReadFrom;
    NonEmptyHasNone(input);
    DriveFromStart(crypto, p, NonEmpty(input));
    OrderMatters(crypto, p, NonEmpty(input));
    BootstrapSkips(crypto, p, input);
    ReadSkips(SEALED_PSK_OBJECT, SEALED_PSK_SIZE, [], input);
  }

  /** What the run does up to the first zero-length transfer decides the whole run. */
  lemma DriveFromStartAnywhere(crypto: Crypto, p: Package, input: seq<seq<Byte>>)
    requires Transferable(p) && Valid(crypto, Start(p))
    ensures var run, t := Drive(crypto, Start(p), input), EngineOrder(crypto, p, Leading(input));
      && run.sent == t.sent
      && run.ending == if t.ending == TimedOut && Leading(input) != input then EMPTY_READ else t.ending
  {
    hide Valid, Drive, EngineOrder;
    LeadingSplit(input);
    var a, b := Leading(input), input[|Leading(input)|..];
    DriveFromStart(crypto, p, a);
    if b != [] {
      DriveExtends(crypto, Start(p), a, b);
      assert a != input;
    } else {
      assert a + b == a;
    }
  }

  /**
   On the stream itself the two agree from start to end if and only if the key can be opened and the bootstrap is over
   before the first zero-length transfer, or there is none.
   */
  lemma EngineMatchesExactly(crypto: Crypto, p: Package, input: seq<seq<Byte>>)
    requires Transferable(p) && Valid(crypto, Start(p))
    ensures Drive(crypto, Start(p), input) == Bootstrap(crypto, p, input) <==>
      && Opens(crypto, Leading(input))
      && (Leading(input) == input || Bootstrap(crypto, p, Leading(input)).ending != TimedOut)
  {
    hide Valid, Drive, EngineOrder, Bootstrap, Opens;
    DriveFromStartAnywhere(crypto, p, input);
    LeadingSplit(input);
    var a, b := Leading(input), input[|Leading(input)|..];
    OrderMatters(crypto, p, a);
    BootstrapExtends(crypto, p, a, b);
    BootstrapExtends(crypto, p, input, []);
  }

  /** In particular they agree whenever the key can be opened and no transfer has length zero. */
  lemma EngineMatchesPlainStreams(crypto: Crypto, p: Package, input: seq<seq<Byte>>)
    requires Transferable(p) && Valid(crypto, Start(p)) && NoEmpty(input) && Opens(crypto, input)
    ensures Drive(crypto, Start(p), input) == Bootstrap(crypto, p, input)
  {
    hide Valid, Drive, Bootstrap, Opens;
    EngineMatchesExactly(crypto, p, input);
    LeadingAll(input);
  }

  lemma {:induction false} LeadingAll(input: seq<seq<Byte>>)
    requires NoEmpty(input)
    ensures Leading(input) == input
  {
    if input != [] {
      assert input[0] in input;
      LeadingAll(input[1..]);
    }
  }

  /** A single zero-length transfer is a stream on which they differ: one reports an error, the other still waits. */
  lemma EmptyTransferDiffers(crypto: Crypto, p: Package)
    requires Transferable(p) && Valid(crypto, Start(p))
    ensures Drive(crypto, Start(p), [[]]).ending == EMPTY_READ && Bootstrap(crypto, p, [[]]).ending == TimedOut
  {
    hide Valid, Drive, Request, Asks;
    var once: seq<seq<Byte>> := [[]];
    DriveFromStartAnywhere(crypto, p, once);
    RequestAsks(SEALED_PSK_OBJECT, SEALED_PSK_SIZE, 0);
    assert once[1..] == [];
    assert AwaitAck(PSK_READ, once) == AwaitAck(PSK_READ, []);
  }

  /** A device that hands out its sealed key in one piece, to an engine that cannot open it, makes them differ. */
  lemma UnopenableKeyDiffers(crypto: Crypto, p: Package)
    requires Transferable(p) && Valid(crypto, Start(p)) && crypto.unseal(Zeros(SEALED_PSK_SIZE)).None?
    ensures var input := Answers(SEALED_PSK_OBJECT, 0, [Zeros(SEALED_PSK_SIZE)]);
      Drive(crypto, Start(p), NonEmpty(input)) != Bootstrap(crypto, p, input)
  {
    hide Valid, Drive, Bootstrap, ReadFrom, Answer, AsksInTurn;
    var pieces := [Zeros(SEALED_PSK_SIZE)];
    var input := Answers(SEALED_PSK_OBJECT, 0, pieces);
    assert pieces[1..] == [] && Join(pieces) == Zeros(SEALED_PSK_SIZE) + [];
    ObjectIsRead(SEALED_PSK_OBJECT, SEALED_PSK_SIZE, [], 0, pieces, []);
    assert input + [] == input && [] + Join(pieces) == Zeros(SEALED_PSK_SIZE);
    EngineMatchesBootstrap(crypto, p, input);
  }

  // ---- what goes out --------------------------------------------------------------------------------------------

  lemma {:induction false} ReadOnlyAsks(objectId: U32, total: U32, output: seq<Byte>, input: seq<seq<Byte>>)
    requires |output| <= total
    ensures forall block <- ReadFrom(objectId, total, output, input).0 :: AsksForKey(block)
    decreases total - |output|
  {
    hide AwaitCompletion, Request, Accept, DecodeA0;
    if |output| < total {
      RequestAsks(objectId, total, |output|);
      var reply := AwaitCompletion(PSK_READ, input);
      if reply.Got? {
        var data := Accept(objectId, total, |output|, reply.value);
        if data.Ok? {
          ReadOnlyAsks(objectId, total, output + data.value, reply.rest);
        }
      }
    }
  }

  /** The two objects as the stream holds them. */
  function ReadKeys(input: seq<seq<Byte>>): Wait<(seq<Byte>, seq<Byte>)> {
    var sealedPsk := ReadObject(0xbb01_0002, 102, input).1;
    if sealedPsk.Stopped? then Stopped(sealedPsk.ending)
    else
      var hash := ReadObject(0xbb02_0001, 32, sealedPsk.rest).1;
      if hash.Stopped? then Stopped(hash.ending) else Got((sealedPsk.value, hash.value), hash.rest)
  }

  /** The objects this very stream holds are read completely and authorise that tag. */
  predicate Unlocks(crypto: Crypto, p: Package, input: seq<seq<Byte>>, tag: Tag) {
    var keys := ReadKeys(input);
    && keys.Got? && |keys.value.0| == 102 && |keys.value.1| == 32
    && Authorises(crypto, p, keys.value.0, keys.value.1, tag)
  }

  /** The blocks of a run: key requests, then firmware blocks of the transfer under an authentic tag, if any. */
  lemma OrderSplits(crypto: Crypto, p: Package, input: seq<seq<Byte>>)
    returns (requests: seq<Block>, tag: Option<Tag>, written: seq<Block>)
    requires Transferable(p)
    ensures var t := EngineOrder(crypto, p, input);
      && t.sent == requests + written && (forall block <- requests :: AsksForKey(block))
      && (tag.None? ==> written == [] && !t.ending.Finished?)
      && (tag.Some? ==> Unlocks(crypto, p, input, tag.value) && written <= TransferBlocks(p, tag.value, 0))
      && (t.ending.Finished? ==> written == TransferBlocks(p, tag.value, 0))
  {
    hide ReadFrom, TransferFrom, TransferBlocks, Authenticate, Authorises, AsksForKey, ChunkCount;
    requests, tag, written := EngineOrder(crypto, p, input).sent, None, [];
    assert requests + written == requests;
    var (first, sealedPsk) := ReadObject(SEALED_PSK_OBJECT, SEALED_PSK_SIZE, input);
    ReadOnlyAsks(SEALED_PSK_OBJECT, SEALED_PSK_SIZE, [], input);
    ReadNeverFinished(SEALED_PSK_OBJECT, SEALED_PSK_SIZE, [], input);
    if sealedPsk.Got? {
      var (second, hash) := ReadObject(PSK_HASH_OBJECT, PSK_HASH_SIZE, sealedPsk.rest);
      ReadOnlyAsks(PSK_HASH_OBJECT, PSK_HASH_SIZE, [], sealedPsk.rest);
      ReadNeverFinished(PSK_HASH_OBJECT, PSK_HASH_SIZE, [], sealedPsk.rest);
      ReadIsComplete(SEALED_PSK_OBJECT, SEALED_PSK_SIZE, [], input);
      if hash.Got? && Authenticate(crypto, p, sealedPsk.value, hash.value).Ok? {
        ReadIsComplete(PSK_HASH_OBJECT, PSK_HASH_SIZE, [], sealedPsk.rest);
        tag := Some(Authenticate(crypto, p, sealedPsk.value, hash.value).value);
        AuthenticatesExactly(crypto, p, sealedPsk.value, hash.value, tag.value);
        requests, written := first + second, WriteAppTransfer(p, tag.value, hash.rest).sent;
        SendsTransferBlocks(p, tag.value, 0, hash.rest);
      }
    }
  }

  lemma ReadIsComplete(objectId: U32, total: U32, output: seq<Byte>, input: seq<seq<Byte>>)
    requires |output| <= total
    ensures ReadFrom(objectId, total, output, input).1.Got? ==> |ReadFrom(objectId, total, output, input).1.value| == total
  {
    hide ReadFrom, AsksInTurn, Carries, Join;
    if ReadFrom(objectId, total, output, input).1.Got? {
      var _, _ := ReadComesFromDevice(objectId, total, output, input);
    }
  }

  /**
   A run that finishes did what the synchronous bootstrap does, with the same result; behind its key requests it sent
   exactly the blocks of the transfer under the tag of the objects it read, and a device that reassembles them holds the whole package and the tag.
   */
  lemma CompletedRunRefines(crypto: Crypto, p: Package, input: seq<seq<Byte>>) returns (requests: seq<Block>, tag: Tag)
    requires Transferable(p) && Valid(crypto, Start(p)) && Drive(crypto, Start(p), input).ending.Finished?
    ensures Drive(crypto, Start(p), input) == Bootstrap(crypto, p, input)
    ensures forall block <- requests :: AsksForKey(block)
    ensures Unlocks(crypto, p, Leading(input), tag)
    ensures Drive(crypto, Start(p), input).sent == requests + TransferBlocks(p, tag, 0)
    ensures var received := Receive(TransferBlocks(p, tag, 0));
      received.Some? && Assemble(received.value, []) == Some((p.bytes, tag))
  {
    hide Drive, Valid, EngineOrder, Bootstrap, Opens, ChunkCount, TransferBlocks, Receive, Assemble, Unlocks, AsksForKey;
    DriveFromStartAnywhere(crypto, p, input);
    EngineMatchesExactly(crypto, p, input);
    OrderMatters(crypto, p, Leading(input));
    var unlocked, written;
    requests, unlocked, written := OrderSplits(crypto, p, Leading(input));
    tag := unlocked.value;
    DeviceHoldsPackage(p, tag);
  }

  /**
   Whatever the device sends, a run sends key requests and then, only once both objects were read from this stream and
   authenticated, the first blocks of the transfer under their tag.
   */
  lemma EveryRunSendsAPrefix(crypto: Crypto, p: Package, input: seq<seq<Byte>>) returns (requests: seq<Block>, written: seq<Block>)
    requires Transferable(p) && Valid(crypto, Start(p))
    ensures Drive(crypto, Start(p), input).sent == requests + written
    ensures forall block <- requests :: AsksForKey(block)
    ensures written == [] || exists tag: Tag :: Unlocks(crypto, p, Leading(input), tag) && written <= TransferBlocks(p, tag, 0)
  {
    hide Drive, Valid, EngineOrder, ChunkCount, TransferBlocks, Unlocks, AsksForKey;
    DriveFromStartAnywhere(crypto, p, input);
    var unlocked;
    requests, unlocked, written := OrderSplits(crypto, p, Leading(input));
  }
}
