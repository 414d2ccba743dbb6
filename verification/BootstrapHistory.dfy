/**
 What the engine has received: nothing of the firmware is written before this very run received both objects completely
 and they authenticated.
 */
module BootstrapHistory {
  import opened Wrappers
  import opened Arithmetic
  import opened Bytes
  import opened Protocol
  import opened Firmware
  import opened Transport
  import opened KeyRead
  import opened BootstrapEngine
  import opened BootstrapSafety

  ghost predicate Before(a: seq<nat>, b: seq<nat>) {
    forall j, k :: 0 <= j < |a| && 0 <= k < |b| ==> a[j] < b[k]
  }

  /** Responses at the given positions of the input carry the pieces of the two objects, one object after the other. */
  ghost predicate KeysAt(seen: seq<seq<Byte>>, sealedAt: seq<nat>, sealedPieces: seq<seq<Byte>>, hashAt: seq<nat>,
                         hashPieces: seq<seq<Byte>>) {
    && Carries(0xbb01_0002, seen, sealedAt, sealedPieces)
    && Carries(0xbb02_0001, seen, hashAt, hashPieces)
    && Before(sealedAt, hashAt)
  }

  /** The input contains, in order, responses that carry exactly these bytes of the two objects. */
  ghost predicate KeysReceived(seen: seq<seq<Byte>>, sealedPsk: seq<Byte>, pskHash: seq<Byte>) {
    exists sealedAt: seq<nat>, sealedPieces: seq<seq<Byte>>, hashAt: seq<nat>, hashPieces: seq<seq<Byte>> ::
      && KeysAt(seen, sealedAt, sealedPieces, hashAt, hashPieces)
      && Join(sealedPieces) == sealedPsk && Join(hashPieces) == pskHash
  }

  /** Both objects were received completely, and together they authorise this package with this tag. */
  ghost predicate Unlocked(crypto: Crypto, package: Package, seen: seq<seq<Byte>>, tag: Tag) {
    exists sealedPsk, pskHash ::
      && |sealedPsk| == 102 && |pskHash| == 32
      && KeysReceived(seen, sealedPsk, pskHash)
      && Authorises(crypto, package, sealedPsk, pskHash, tag)
  }

  /** The engine's state is explained by what it received. */
  ghost predicate Explained(crypto: Crypto, e: Engine, seen: seq<seq<Byte>>) {
    if ReadingSealed(e.stage) || ReadingHash(e.stage) then KeysReceived(seen, e.sealedPsk, e.pskHash)
    else e.f4Tag.Some? && Unlocked(crypto, e.package, seen, e.f4Tag.value)
  }

  // ---- growing histories ----------------------------------------------------------------------------------------

  lemma CarriesMore(objectId: U32, seen: seq<seq<Byte>>, bytes: seq<Byte>, at: seq<nat>, pieces: seq<seq<Byte>>)
    requires Carries(objectId, seen, at, pieces)
    ensures Carries(objectId, seen + [bytes], at, pieces)
  {
    hide CarriedBy;
  }

  lemma CarriesNext(
    objectId: U32, seen: seq<seq<Byte>>, bytes: seq<Byte>, at: seq<nat>, pieces: seq<seq<Byte>>, piece: seq<Byte>)
    requires Carries(objectId, seen, at, pieces) && CarriedBy(objectId, bytes, piece) && 0 < |piece| <= PSK_CHUNK
    ensures Carries(objectId, seen + [bytes], at + [|seen|], pieces + [piece])
  {
    hide CarriedBy;
    var longer, all, ps := seen + [bytes], at + [|seen|], pieces + [piece];
    forall k | 0 <= k < |all|
      ensures all[k] < |longer| && 0 < |ps[k]| <= PSK_CHUNK && CarriedBy(objectId, longer[all[k]], ps[k])
    {
      if k < |at| {
        assert longer[all[k]] == seen[at[k]] && ps[k] == pieces[k];
      } else {
        assert longer[all[k]] == bytes && ps[k] == piece;
      }
    }
  }

  lemma {:induction false} JoinNext(pieces: seq<seq<Byte>>, piece: seq<Byte>)
    ensures Join(pieces + [piece]) == Join(pieces) + piece
    decreases |pieces|
  {
    if pieces == [] {
      assert [piece][1..] == [];
      assert Join([piece]) == piece + Join([]);
    } else {
      assert (pieces + [piece])[1..] == pieces[1..] + [piece];
      JoinNext(pieces[1..], piece);
      assert pieces[0] + (Join(pieces[1..]) + piece) == pieces[0] + Join(pieces[1..]) + piece;
    }
  }

  lemma {:induction false} JoinEmpty(pieces: seq<seq<Byte>>)
    requires Join(pieces) == [] && forall k :: 0 <= k < |pieces| ==> |pieces[k]| > 0
    ensures pieces == []
  {}

  /** Where the received bytes are. */
  lemma KeysOf(seen: seq<seq<Byte>>, sealedPsk: seq<Byte>, pskHash: seq<Byte>)
    returns (a: seq<nat>, p: seq<seq<Byte>>, b: seq<nat>, q: seq<seq<Byte>>)
    requires KeysReceived(seen, sealedPsk, pskHash)
    ensures KeysAt(seen, a, p, b, q) && Join(p) == sealedPsk && Join(q) == pskHash
  {
    hide KeysAt;
    a, p, b, q :| KeysAt(seen, a, p, b, q) && Join(p) == sealedPsk && Join(q) == pskHash;
  }

  lemma ReceivedMore(seen: seq<seq<Byte>>, bytes: seq<Byte>, sealedPsk: seq<Byte>, pskHash: seq<Byte>)
    requires KeysReceived(seen, sealedPsk, pskHash)
    ensures KeysReceived(seen + [bytes], sealedPsk, pskHash)
  {
    hide Carries, Join, Before;
    var a, p, b, q := KeysOf(seen, sealedPsk, pskHash);
    CarriesMore(SEALED_PSK_OBJECT, seen, bytes, a, p);
    CarriesMore(PSK_HASH_OBJECT, seen, bytes, b, q);
    assert KeysAt(seen + [bytes], a, p, b, q);
  }

  lemma ReceivedSealed(seen: seq<seq<Byte>>, bytes: seq<Byte>, sealedPsk: seq<Byte>, piece: seq<Byte>)
    requires KeysReceived(seen, sealedPsk, []) && CarriedBy(SEALED_PSK_OBJECT, bytes, piece) && 0 < |piece| <= PSK_CHUNK
    ensures KeysReceived(seen + [bytes], sealedPsk + piece, [])
  {
    hide CarriedBy, Join;
    var a, p, b, q := KeysOf(seen, sealedPsk, []);
    CarriesNext(SEALED_PSK_OBJECT, seen, bytes, a, p, piece);
    CarriesMore(PSK_HASH_OBJECT, seen, bytes, b, q);
    JoinEmpty(q);
    JoinNext(p, piece);
    assert KeysAt(seen + [bytes], a + [|seen|], p + [piece], b, q);
  }

  lemma ReceivedHash(seen: seq<seq<Byte>>, bytes: seq<Byte>, sealedPsk: seq<Byte>, pskHash: seq<Byte>, piece: seq<Byte>)
    requires KeysReceived(seen, sealedPsk, pskHash) && CarriedBy(PSK_HASH_OBJECT, bytes, piece) && 0 < |piece| <= PSK_CHUNK
    ensures KeysReceived(seen + [bytes], sealedPsk, pskHash + piece)
  {
    hide CarriedBy, Join;
    var a, p, b, q := KeysOf(seen, sealedPsk, pskHash);
    CarriesMore(SEALED_PSK_OBJECT, seen, bytes, a, p);
    CarriesNext(PSK_HASH_OBJECT, seen, bytes, b, q, piece);
    JoinNext(q, piece);
    assert Before(a, b + [|seen|]);
    assert KeysAt(seen + [bytes], a, p, b + [|seen|], q + [piece]);
  }

  lemma NothingReceived()
    ensures KeysReceived([], [], [])
  {
    assert KeysAt([], [], [], [], []);
    assert Join([]) == [];
  }

  // ---- one step -------------------------------------------------------------------------------------------------

  /** What an accepted response appends was carried by it. */
  lemma AppendedIsCarried(bytes: seq<Byte>, packet: Packet, objectId: U32, total: U32, output: seq<Byte>)
    requires DecodeA0(bytes) == Ok(packet) && packet.command == PSK_READ
    requires |output| < total && AppendPskRead(packet, objectId, total, output).Ok?
    ensures var data := Accept(objectId, total, |output|, packet);
      && data.Ok? && AppendPskRead(packet, objectId, total, output) == Ok(output + data.value)
      && CarriedBy(objectId, bytes, data.value) && 0 < |data.value| <= PSK_CHUNK
  {
    hide DecodeA0, Accept, AppendPskRead, PskResponse;
    EngineAccepts(packet, objectId, total, output);
    AcceptedIsCarried(objectId, total, |output|, packet);
  }

  lemma SealedExplained(crypto: Crypto, e: Engine, seen: seq<seq<Byte>>, bytes: seq<Byte>, packet: Packet)
    requires Valid(crypto, e) && e.stage == ReadSealedPskCompletion && Explained(crypto, e, seen)
    requires DecodeA0(bytes) == Ok(packet) && packet.command == PSK_READ
    ensures Explained(crypto, CompleteSealedPsk(e, packet).0, seen + [bytes])
  {
    hide DecodeA0, AppendPskRead, KeysReceived, CarriedBy, F0Frame, BlockCount, ChunkCount;
    ReceivedMore(seen, bytes, e.sealedPsk, e.pskHash);
    if AppendPskRead(packet, SEALED_PSK_OBJECT, SEALED_PSK_SIZE, e.sealedPsk).Ok? {
      AppendedIsCarried(bytes, packet, SEALED_PSK_OBJECT, SEALED_PSK_SIZE, e.sealedPsk);
      ReceivedSealed(seen, bytes, e.sealedPsk, Accept(SEALED_PSK_OBJECT, SEALED_PSK_SIZE, |e.sealedPsk|, packet).value);
    }
  }

  lemma HashExplained(crypto: Crypto, e: Engine, seen: seq<seq<Byte>>, bytes: seq<Byte>, packet: Packet)
    requires Valid(crypto, e) && e.stage == ReadPskHashCompletion && Explained(crypto, e, seen)
    requires DecodeA0(bytes) == Ok(packet) && packet.command == PSK_READ
    ensures Explained(crypto, CompletePskHash(crypto, e, packet).0, seen + [bytes])
  {
    hide DecodeA0, AppendPskRead, KeysReceived, CarriedBy, F0Frame, BlockCount, ChunkCount, Authenticate, Authorises;
    ReceivedMore(seen, bytes, e.sealedPsk, e.pskHash);
    var read := AppendPskRead(packet, PSK_HASH_OBJECT, PSK_HASH_SIZE, e.pskHash);
    if read.Ok? {
      AppendGrows(packet, PSK_HASH_OBJECT, PSK_HASH_SIZE, e.pskHash);
      AppendedIsCarried(bytes, packet, PSK_HASH_OBJECT, PSK_HASH_SIZE, e.pskHash);
      ReceivedHash(seen, bytes, e.sealedPsk, e.pskHash, Accept(PSK_HASH_OBJECT, PSK_HASH_SIZE, |e.pskHash|, packet).value);
      var tag := Authenticate(crypto, e.package, e.sealedPsk, read.value);
      if tag.Ok? {
        AuthenticatesExactly(crypto, e.package, e.sealedPsk, read.value, tag.value);
      }
    }
  }

  lemma AppendGrows(packet: Packet, objectId: U32, total: nat, output: seq<Byte>)
    ensures AppendPskRead(packet, objectId, total, output).Ok? ==> |output| < total
  {
    hide ParsePskRead;
  }

  /** A step that neither appends to an object nor opens the firmware phase. */
  lemma SameKeysExplained(crypto: Crypto, e: Engine, next: Engine, seen: seq<seq<Byte>>, bytes: seq<Byte>)
    requires Explained(crypto, e, seen) && next.package == e.package && next.f4Tag == e.f4Tag
    requires next.sealedPsk == e.sealedPsk && next.pskHash == e.pskHash
    requires (ReadingSealed(e.stage) || ReadingHash(e.stage)) == (ReadingSealed(next.stage) || ReadingHash(next.stage))
    ensures Explained(crypto, next, seen + [bytes])
  {
    hide KeysReceived, Authorises;
    if ReadingSealed(e.stage) || ReadingHash(e.stage) {
      ReceivedMore(seen, bytes, e.sealedPsk, e.pskHash);
    } else {
      var s, h :| |s| == 102 && |h| == 32 && KeysReceived(seen, s, h)
                  && Authorises(crypto, e.package, s, h, e.f4Tag.value);
      ReceivedMore(seen, bytes, s, h);
    }
  }

  /** Every other stage leaves the objects and the tag alone. */
  lemma OtherStagesKeepKeys(crypto: Crypto, e: Engine, bytes: seq<Byte>)
    requires Transferable(e.package)
    requires e.stage != ReadSealedPskCompletion && e.stage != ReadPskHashCompletion
    ensures var next := Step(crypto, e, bytes).0;
      && next.f4Tag == e.f4Tag && next.sealedPsk == e.sealedPsk && next.pskHash == e.pskHash
      && (ReadingSealed(e.stage) || ReadingHash(e.stage)) == (ReadingSealed(next.stage) || ReadingHash(next.stage))
  {
    hide MatchAck, MatchCompletion, CurrentF0Frame, BlockCount, ChunkCount, CompleteSealedPsk, CompletePskHash;
  }

  /** Every step is explained by the history including it. */
  lemma StepExplained(crypto: Crypto, e: Engine, seen: seq<seq<Byte>>, bytes: seq<Byte>)
    requires Valid(crypto, e) && Explained(crypto, e, seen)
    ensures Explained(crypto, Step(crypto, e, bytes).0, seen + [bytes])
  {
    hide Valid, Explained, CompleteSealedPsk, CompletePskHash, DecodeA0;
    ValidTransferable(crypto, e);
    if e.stage == ReadSealedPskCompletion || e.stage == ReadPskHashCompletion {
      var matched := MatchCompletion(bytes, PSK_READ);
      if matched.Ok? && matched.value.Some? {
        if e.stage == ReadSealedPskCompletion {
          SealedExplained(crypto, e, seen, bytes, matched.value.value);
        } else {
          HashExplained(crypto, e, seen, bytes, matched.value.value);
        }
      } else {
        SameKeysExplained(crypto, e, e, seen, bytes);
      }
    } else {
      OtherStagesKeepKeys(crypto, e, bytes);
      hide Step;
      SameKeysExplained(crypto, e, Step(crypto, e, bytes).0, seen, bytes);
    }
  }

  lemma {:induction false} RunExplained(crypto: Crypto, e: Engine, seen: seq<seq<Byte>>, inputs: seq<seq<Byte>>)
    requires Valid(crypto, e) && Explained(crypto, e, seen) && Transferable(e.package)
    ensures Explained(crypto, Run(crypto, e, inputs), seen + inputs)
    decreases |inputs|
  {
    hide Step, Valid, Explained;
    if inputs == [] {
      assert seen + inputs == seen;
    } else {
      StepExplained(crypto, e, seen, inputs[0]);
      StepKeepsValid(crypto, e, inputs[0]);
      RunExplained(crypto, Step(crypto, e, inputs[0]).0, seen + [inputs[0]], inputs[1..]);
      assert seen + [inputs[0]] + inputs[1..] == seen + inputs;
    }
  }

  /** The next action puts a block into the caller's buffer that does anything but ask for key bytes. */
  predicate Writes(e: Engine, capacity: nat)
    requires Transferable(e.package)
  {
    var action := NextAction(e, capacity);
    action.Ok? && action.value.Out? && !AsksForKey(action.value.block)
  }

  /** An action of the key phase that writes asks for key bytes. */
  lemma KeyPhaseOnlyAsks(crypto: Crypto, e: Engine, capacity: nat)
    requires Valid(crypto, e) && (ReadingSealed(e.stage) || ReadingHash(e.stage))
    ensures Transferable(e.package)
    ensures var action := NextAction(e, capacity);
      action.Ok? && action.value.Out? ==> AsksForKey(action.value.block)
  {
    hide PskReadAction, AsksForKey, F0Frame, BlockCount, ChunkCount, Authenticate, Authentic, CurrentF0Frame;
    if e.stage == ReadSealedPskWrite && PskReadAction(SEALED_PSK_OBJECT, SEALED_PSK_SIZE, |e.sealedPsk|, capacity).Ok? {
      ReadActionAsks(SEALED_PSK_OBJECT, SEALED_PSK_SIZE, |e.sealedPsk|, capacity);
    } else if e.stage == ReadPskHashWrite && PskReadAction(PSK_HASH_OBJECT, PSK_HASH_SIZE, |e.pskHash|, capacity).Ok? {
      ReadActionAsks(PSK_HASH_OBJECT, PSK_HASH_SIZE, |e.pskHash|, capacity);
    }
  }

  /**
   Whatever completed transfers a run was fed with: an engine behind the key phase holds a tag, the inputs contain in order
   responses that carried all 102 and then all 32 bytes of the two objects, and these authorise it.  So does
   every engine whose next action writes anything but a request for key bytes.  The chunk counters agree, and a result exists exactly on completion.
   */
  lemma NothingWrittenBeforeAuthentication(crypto: Crypto, package: Package, inputs: seq<seq<Byte>>)
    requires Transferable(package)
    ensures var e := Run(crypto, Start(package), inputs);
      && (!ReadingSealed(e.stage) && !ReadingHash(e.stage) ==>
            e.f4Tag.Some? && Unlocked(crypto, package, inputs, e.f4Tag.value))
      && (forall capacity: nat :: Writes(e, capacity) ==> e.f4Tag.Some? && Unlocked(crypto, package, inputs, e.f4Tag.value))
      && e.f0ChunkIndex == e.f0ChunksSent
      && (e.result.Some? <==> e.stage == Complete)
      && (e.stage == Complete ==> e.result.value.f0ChunksSent == ChunkCount(package))
  {
    hide Run, ChunkCount, Unlocked, KeysReceived;
    StartValid(crypto, package);
    NothingReceived();
    RunKeepsValid(crypto, Start(package), inputs);
    RunExplained(crypto, Start(package), [], inputs);
    assert [] + inputs == inputs;
    var e := Run(crypto, Start(package), inputs);
    hide Valid, NextAction;
    forall capacity: nat | Writes(e, capacity)
      ensures !ReadingSealed(e.stage) && !ReadingHash(e.stage)
    {
      if ReadingSealed(e.stage) || ReadingHash(e.stage) {
        KeyPhaseOnlyAsks(crypto, e, capacity);
      }
    }
  }
}
