/** What waiting for an acknowledgement and for a completion yields on any stream of transfers, and when a check passes. */
module Waiting {
  import opened Wrappers
  import opened Bytes
  import opened Protocol
  import opened Transport

  /** An acknowledgement of `command`: command 0xb0 with two payload bytes, the command and its flags. */
  predicate Acknowledges(data: seq<Byte>, command: Byte, flags: Byte) {
    var packet := DecodeA0(data);
    packet.Ok? && packet.value.command == 0xb0 && packet.value.payload == [command, flags]
  }

  /** What is passed over: nothing at all, the acknowledgement of another command, or a packet that is neither. */
  predicate PassedOver(data: seq<Byte>, command: Byte) {
    var packet := DecodeA0(data);
    || data == []
    || (packet.Ok? && packet.value.command == 0xb0 && |packet.value.payload| == 2 && packet.value.payload[0] != command)
    || (packet.Ok? && packet.value.command != 0xb0 && packet.value.command != command)
  }

  /** Why a wait for an acknowledgement fails. */
  predicate BreaksWait(data: seq<Byte>, command: Byte, error: WireError) {
    var packet := DecodeA0(data);
    && data != []
    && if packet.Err? then error == PacketError(packet.error)
       else if packet.value.command == 0xb0 then
         |packet.value.payload| != 2 && error == MalformedAck(|packet.value.payload|)
       else packet.value.command == command && error == ResponseBeforeAck(command)
  }

  /** The first `k` transfers are passed over. */
  ghost predicate AllPassed(input: seq<seq<Byte>>, command: Byte, k: nat) {
    k <= |input| && forall j :: 0 <= j < k ==> PassedOver(input[j], command)
  }

  lemma PassedNext(input: seq<seq<Byte>>, command: Byte, k: nat)
    requires input != [] && PassedOver(input[0], command)
    ensures AllPassed(input[1..], command, k) <==> AllPassed(input, command, k + 1)
  {
    hide PassedOver;
    if AllPassed(input[1..], command, k) {
      forall j | 0 <= j < k + 1
        ensures PassedOver(input[j], command)
      {
        if j > 0 {
          assert input[j] == input[1..][j - 1];
        }
      }
    }
    if AllPassed(input, command, k + 1) {
      forall j | 0 <= j < k
        ensures PassedOver(input[1..][j], command)
      {
        assert input[1..][j] == input[j + 1];
      }
    }
  }

  lemma EmptyDecodes()
    ensures DecodeA0([]).Err?
  {}

  /**
   Waiting for the acknowledgement of a command: where it ends, and with what.  It reads on over what is passed over, to
   the first transfer that is the acknowledgement or breaks the wait, and times out when there is none.
   */
  lemma {:induction false} AckExactly(command: Byte, input: seq<seq<Byte>>) returns (k: nat)
    ensures AllPassed(input, command, k)
    ensures var r := AwaitAck(command, input);
      && (k == |input| ==> r == Stopped(TimedOut))
      && (k < |input| ==> !PassedOver(input[k], command))
      && (k < |input| && r.Got? ==> Acknowledges(input[k], command, r.value) && r.rest == input[k + 1..])
      && (k < |input| && r.Stopped? ==> r.ending.Failed? && BreaksWait(input[k], command, r.ending.error))
  {
    hide DecodeA0;
    k := 0;
    if input != [] {
      EmptyDecodes();
      if PassedOver(input[0], command) {
        var j := AckExactly(command, input[1..]);
        PassedNext(input, command, j);
        k := j + 1;
        assert k < |input| ==> input[1..][j] == input[k] && input[1..][j + 1..] == input[k + 1..];
      } else {
        TwoBytes(input[0]);
      }
    }
  }

  lemma TwoBytes(data: seq<Byte>)
    ensures var packet := DecodeA0(data);
      packet.Ok? && |packet.value.payload| == 2 ==>
        packet.value.payload == [packet.value.payload[0], packet.value.payload[1]]
  {}

  /** What is passed over while waiting for the completion of a command: nothing at all, and packets of other commands. */
  predicate OtherPacket(data: seq<Byte>, command: Byte) {
    data == [] || (DecodeA0(data).Ok? && DecodeA0(data).value.command != command)
  }

  /** Waiting for the completion: the first transfer that holds a packet of the command, or that does not decode. */
  lemma {:induction false} PacketExactly(command: Byte, input: seq<seq<Byte>>) returns (k: nat)
    ensures k <= |input| && forall j :: 0 <= j < k ==> OtherPacket(input[j], command)
    ensures var r := AwaitPacket(command, input);
      && (k == |input| ==> r == Stopped(TimedOut))
      && (k < |input| ==> !OtherPacket(input[k], command))
      && (k < |input| && r.Got? ==>
            DecodeA0(input[k]) == Ok(r.value) && r.value.command == command && r.rest == input[k + 1..])
      && (k < |input| && r.Stopped? ==> DecodeA0(input[k]).Err? && r.ending == Failed(PacketError(DecodeA0(input[k]).error)))
  {
    hide DecodeA0;
    k := 0;
    if input != [] && OtherPacket(input[0], command) {
      var j := PacketExactly(command, input[1..]);
      k := j + 1;
      forall i | 0 <= i < k
        ensures OtherPacket(input[i], command)
      {
        if i > 0 {
          assert input[i] == input[1..][i - 1];
        }
      }
      assert k < |input| ==> input[1..][j] == input[k] && input[1..][j + 1..] == input[k + 1..];
    }
  }

  /** The check passes exactly when its completion carries a single byte that is not zero, and that byte is the result. */
  lemma CheckPassesExactly(tag: seq<Byte>, chunks: nat, input: seq<seq<Byte>>, result: TransferResult)
    requires |tag| == 32
    ensures CheckTransfer(tag, chunks, input).ending == Finished(result) <==>
      var reply := AwaitCompletion(0xf4, input);
      && reply.Got? && reply.value.payload == [result.firmwareCheckResult]
      && result.firmwareCheckResult != 0 && result.f0ChunksSent == chunks
    ensures CheckTransfer(tag, chunks, input).sent == Blocks(F4Frame(tag))
  {
    hide AwaitCompletion, Blocks, EncodeA0;
    EncodeRoundTrip(FIRMWARE_CHECK, tag);
    NeverFinished(FIRMWARE_CHECK, input);
  }
}
