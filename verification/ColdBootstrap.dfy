/**
 The synchronous bootstrap: read the sealed key, open it, read its hash, compare, and transfer the package under the tag
 derived from the key.
 */
module ColdBootstrap {
  import opened Wrappers
  import opened Bytes
  import opened Protocol
  import opened Firmware
  import opened Transport
  import opened KeyRead
  import opened BootstrapEngine
  import opened GoodixTransport

  /** From the hash on, with the opened key. */
  function CheckAndTransfer(crypto: Crypto, p: Package, psk: seq<Byte>, input: seq<seq<Byte>>): Trace
    requires Transferable(p)
  {
    var (blocks, hash) := ReadObject(PSK_HASH_OBJECT, PSK_HASH_SIZE, input);
    if hash.Stopped? then Trace(blocks, hash.ending)
    else if !crypto.hashMatches(psk, hash.value) then Trace(blocks, Failed(PskHashMismatch))
    else
      var tag := crypto.tag(psk, p.bytes);
      if tag.None? then Trace(blocks, Failed(PskUnusable))
      else Prefixed(blocks, WriteAppTransfer(p, tag.value, hash.rest))
  }

  function Bootstrap(crypto: Crypto, p: Package, input: seq<seq<Byte>>): Trace
    requires Transferable(p)
  {
    var (blocks, sealedPsk) := ReadObject(SEALED_PSK_OBJECT, SEALED_PSK_SIZE, input);
    if sealedPsk.Stopped? then Trace(blocks, sealedPsk.ending)
    else
      var psk := crypto.unseal(sealedPsk.value);
      if psk.None? then Trace(blocks, Failed(PskUnusable))
      else Prefixed(blocks, CheckAndTransfer(crypto, p, psk.value, sealedPsk.rest))
  }

  /** The bootstrap over the device. */
  method BeginColdBootstrap(link: Link, crypto: Crypto, p: Package) returns (ending: Ending)
    requires Transferable(p)
    modifies link
    ensures var t := Bootstrap(crypto, p, old(link.incoming));
      link.sent == old(link.sent) + t.sent && ending == t.ending
  {
    hide ReadObject, WriteAppTransfer;
    ghost var before, first := link.sent, ReadObject(SEALED_PSK_OBJECT, SEALED_PSK_SIZE, link.incoming);
    assert first.1.Got? || first.1.Stopped?;
    var sealedPsk := link.ReadPskObject(SEALED_PSK_OBJECT, SEALED_PSK_SIZE);
    if sealedPsk.Err? {
      return sealedPsk.error;
    }
    var psk := crypto.unseal(sealedPsk.value);
    if psk.None? {
      return Failed(PskUnusable);
    }
    ghost var second := ReadObject(PSK_HASH_OBJECT, PSK_HASH_SIZE, link.incoming);
    assert second.1.Got? || second.1.Stopped?;
    assert before + first.0 + second.0 == before + (first.0 + second.0);
    var storedHash := link.ReadPskObject(PSK_HASH_OBJECT, PSK_HASH_SIZE);
    if storedHash.Err? {
      return storedHash.error;
    }
    if !crypto.hashMatches(psk.value, storedHash.value) {
      return Failed(PskHashMismatch);
    }
    var tag := crypto.tag(psk.value, p.bytes);
    if tag.None? {
      return Failed(PskUnusable);
    }
    ghost var last := WriteAppTransfer(p, tag.value, link.incoming).sent;
    assert before + (first.0 + second.0) + last == before + (first.0 + (second.0 + last));
    ending := link.SendPackage(p, tag.value);
  }
}
