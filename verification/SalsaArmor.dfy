/**
 Packet armor of cipher suites 0 and 1: a Poly1305 tag over the body, keyed per packet from
 Salsa20/12, and under suite 1 the body encrypted with the rest of that keystream.

 Salsa20/12 and Poly1305 are parameters: any functions of the right shape.
 */
module SalsaArmor {
  import opened Wrappers
  import opened Bytes
  import opened Header
  import opened Relay

  type Secret = s: seq<u8> | |s| == 48 witness seq(48, _ => 0)
  type Key = s: seq<u8> | |s| == 32 witness seq(32, _ => 0)
  type Nonce = s: seq<u8> | |s| == 8 witness seq(8, _ => 0)
  type Block = s: seq<u8> | |s| == 16 witness seq(16, _ => 0)

  datatype SalsaPrimitives = SalsaPrimitives(
    keystream: (Key, Nonce, nat) -> u8,
    poly1305: (Key, seq<u8>) -> Block)

  datatype ArmorError = InvalidFormat | MacVerificationFailed

  /** The Poly1305 key takes a whole 64-byte block of the keystream; the body starts after it. */
  const POLY_KEY_LENGTH := 32
  const BODY_KEYSTREAM_OFFSET := 64

  // --- The per-packet key ---

  function MangledKey(secret: Secret, packet: Packet, size: nat): (key: Key)
  {
    seq(32, i requires 0 <= i < 32 =>
      if i < 18 then Xor(secret[i], packet[i])
      else if i == 18 then Xor(secret[i], ClearLowThreeBits(packet[FLAGS_OFFSET]))
      else if i == 19 then Xor(secret[i], size % 0x100)
      else if i == 20 then Xor(secret[i], size / 0x100 % 0x100)
      else secret[i])
  }

  method MangleKey(secret: Secret, packet: array<u8>, size: nat) returns (key: array<u8>)
    requires packet.Length >= MIN_PACKET_LENGTH
    ensures fresh(key) && key[..] == MangledKey(secret, packet[..], size)
  {
    ghost var expected := MangledKey(secret, packet[..], size);
    key := new u8[32](_ => 0);
    for i := 0 to 18
      invariant forall j :: 0 <= j < i ==> key[j] == expected[j]
    {
      key[i] := Xor(secret[i], packet[i]);
    }
    key[18] := Xor(secret[18], ClearLowThreeBits(packet[FLAGS_OFFSET]));
    SizeBytes(size);
    var low := size % 0x1_0000;
    key[19] := Xor(secret[19], low % 0x100);
    key[20] := Xor(secret[20], low / 0x100);
    for i := 21 to 32
      invariant forall j :: 0 <= j < i ==> key[j] == expected[j]
    {
      key[i] := secret[i];
    }
    assert key[..] == expected;
  }

  lemma SizeBytes(size: nat)
    ensures size % 0x1_0000 % 0x100 == size % 0x100
    ensures size % 0x1_0000 / 0x100 == size / 0x100 % 0x100
  {
  }

  /** The key and the secret differ by this. */
  function Mixed(secret: Secret, packet: Packet, size: nat): (mixed: Key) {
    XorSeq(MangledKey(secret, packet, size), secret[..32])
  }

  /**
   What is mixed into the secret: packet ID and addresses, the flags without the hop count, and the low sixteen bits of
   the size, least significant byte first.
   */
  lemma MangledParts(secret: Secret, packet: Packet, size: nat)
    ensures var mixed := Mixed(secret, packet, size);
      && mixed[..18] == packet[..18]
      && mixed[18] == packet[FLAGS_OFFSET] - Hops(packet)
      && mixed[19] as int + 0x100 * mixed[20] as int == size % 0x1_0000
      && forall i :: 21 <= i < 32 ==> mixed[i] == 0
  {
    SizeBytes(size);
    var mixed := Mixed(secret, packet, size);
    forall i | 0 <= i < 18 ensures mixed[i] == packet[i] {
      XorCancelsLeft(packet[i], secret[i]);
    }
    XorCancelsLeft(ClearLowThreeBits(packet[FLAGS_OFFSET]), secret[18]);
    XorCancelsLeft(size % 0x100, secret[19]);
    XorCancelsLeft(size / 0x100 % 0x100, secret[20]);
    forall i | 21 <= i < 32 ensures mixed[i] == 0 {
      XorIsZero(secret[i], secret[i]);
    }
  }

  /** Under one secret, packets share a key only if they agree in all of that. */
  lemma EqualKeys(secret: Secret, a: Packet, m: nat, b: Packet, n: nat)
    ensures MangledKey(secret, a, m) == MangledKey(secret, b, n) <==>
      && PacketId(a) == PacketId(b) && Destination(a) == Destination(b) && Source(a) == Source(b)
      && a[FLAGS_OFFSET] / 8 == b[FLAGS_OFFSET] / 8
      && m % 0x1_0000 == n % 0x1_0000
  {
    hide PacketId;
    SameHead(a, b);
    SizeBytes(m);
    SizeBytes(n);
    if MangledKey(secret, a, m) == MangledKey(secret, b, n) {
      MangledParts(secret, a, m);
      MangledParts(secret, b, n);
      hide MangledKey;
    }
  }

  lemma SameHead(a: Packet, b: Packet)
    ensures a[..18] == b[..18] <==>
      PacketId(a) == PacketId(b) && Destination(a) == Destination(b) && Source(a) == Source(b)
  {
    FromBigEndianRoundTrip(a[0..8]);
    FromBigEndianRoundTrip(b[0..8]);
    assert a[..18] == a[0..8] + a[8..13] + a[13..18];
    assert b[..18] == b[0..8] + b[8..13] + b[13..18];
    assert a[0..8] == a[..18][0..8] && a[8..13] == a[..18][8..13] && a[13..18] == a[..18][13..18];
    assert b[0..8] == b[..18][0..8] && b[8..13] == b[..18][8..13] && b[13..18] == b[..18][13..18];
  }

  // --- The stream cipher ---

  function Keystream(p: SalsaPrimitives, key: Key, nonce: Nonce, from: nat, n: nat): (s: seq<u8>)
    ensures |s| == n
  {
    seq<u8>(n, i requires 0 <= i < n => p.keystream(key, nonce, from + i))
  }

  function XorSeq(a: seq<u8>, b: seq<u8>): (c: seq<u8>)
    requires |a| == |b|
    ensures |c| == |a|
  {
    seq(|a|, i requires 0 <= i < |a| => Xor(a[i], b[i]))
  }

  lemma XorSeqCancels(a: seq<u8>, b: seq<u8>)
    requires |a| == |b|
    ensures XorSeq(XorSeq(a, b), b) == a
  {
    forall i | 0 <= i < |a| ensures XorSeq(XorSeq(a, b), b)[i] == a[i] {
      XorCancels(a[i], b[i]);
    }
  }

  class Salsa12 {
    const primitives: SalsaPrimitives
    const key: Key
    const nonce: Nonce
    var position: nat

    constructor (primitives: SalsaPrimitives, key: Key, nonce: Nonce)
      ensures this.primitives == primitives && this.key == key && this.nonce == nonce && position == 0
    {
      this.primitives, this.key, this.nonce := primitives, key, nonce;
      position := 0;
    }

    /** Exclusive-or bytes `lo` to `hi` of the buffer with the next bytes of the keystream. */
    method ApplyKeystream(buf: array<u8>, lo: nat, hi: nat)
      requires lo <= hi <= buf.Length
      modifies this, buf
      ensures position == old(position) + (hi - lo)
      ensures buf[..lo] == old(buf[..lo]) && buf[hi..] == old(buf[hi..])
      ensures buf[lo..hi] == XorSeq(old(buf[lo..hi]), Keystream(primitives, key, nonce, old(position), hi - lo))
    {
      var start := position;
      for i := lo to hi
        invariant position == start + (i - lo)
        invariant forall j :: 0 <= j < lo || i <= j < buf.Length ==> buf[j] == old(buf[j])
        invariant forall j :: lo <= j < i ==> buf[j] == Xor(old(buf[j]), primitives.keystream(key, nonce, start + (j - lo)))
      {
        buf[i] := Xor(buf[i], primitives.keystream(key, nonce, position));
        position := position + 1;
      }
    }
  }

  method ExtractPolyKey(cipher: Salsa12) returns (polyKey: Key)
    requires cipher.position == 0
    modifies cipher
    ensures polyKey == Keystream(cipher.primitives, cipher.key, cipher.nonce, 0, POLY_KEY_LENGTH)
    ensures cipher.position == BODY_KEYSTREAM_OFFSET
  {
    var buf := new u8[POLY_KEY_LENGTH](_ => 0);
    ghost var zeros := buf[..];
    cipher.ApplyKeystream(buf, 0, POLY_KEY_LENGTH);
    ghost var k := Keystream(cipher.primitives, cipher.key, cipher.nonce, 0, POLY_KEY_LENGTH);
    assert buf[0..POLY_KEY_LENGTH] == buf[..] && zeros[0..POLY_KEY_LENGTH] == zeros;
    forall i | 0 <= i < POLY_KEY_LENGTH ensures XorSeq(zeros, k)[i] == k[i] {
      XorZeroLeft(k[i]);
    }
    polyKey := buf[..];
    var discard := new u8[BODY_KEYSTREAM_OFFSET - POLY_KEY_LENGTH](_ => 0);
    cipher.ApplyKeystream(discard, 0, discard.Length);
  }

  lemma XorZeroLeft(b: u8)
    ensures Xor(0, b) == b
  {
    assert Pow2(8) == 256 by { assert Pow2(4) == 16; }
    XorBitsZeroLeft(b, 8);
  }

  lemma {:induction false} XorBitsZeroLeft(b: nat, n: nat)
    requires b < Pow2(n)
    ensures XorBits(0, b, n) == b
  {
    if n != 0 {
      XorBitsZeroLeft(b / 2, n - 1);
    }
  }

  // --- Armor ---

  /** What armor and dearmor derive from the header: the Poly1305 key and the body's keystream. */
  function PolyKey(p: SalsaPrimitives, secret: Secret, packet: Packet): Key {
    Keystream(p, MangledKey(secret, packet, |packet|), packet[..8], 0, POLY_KEY_LENGTH)
  }

  function Crypted(p: SalsaPrimitives, secret: Secret, packet: Packet, body: seq<u8>): (r: seq<u8>)
    ensures |r| == |body|
  {
    XorSeq(body, Keystream(p, MangledKey(secret, packet, |packet|), packet[..8], BODY_KEYSTREAM_OFFSET, |body|))
  }

  function Mac(p: SalsaPrimitives, polyKey: Key, body: seq<u8>): (mac: seq<u8>)
    ensures |mac| == MAC_LENGTH
  {
    p.poly1305(polyKey, body)[..MAC_LENGTH]
  }

  function Armored(p: SalsaPrimitives, secret: Secret, packet: Packet, encrypt: bool): (r: Packet)
    ensures |r| == |packet|
  {
    var plain := packet[VERB_OFFSET..];
    var body := if encrypt then Crypted(p, secret, packet, plain) else plain;
    packet[..MAC_OFFSET] + Mac(p, PolyKey(p, secret, packet), body) + body
  }

  function Dearmored(p: SalsaPrimitives, secret: Secret, packet: Packet): (r: Option<Packet>)
    ensures r.Some? ==> |r.value| == |packet|
  {
    var body := packet[VERB_OFFSET..];
    if Mac(p, PolyKey(p, secret, packet), body) != packet[MAC_OFFSET..VERB_OFFSET] then None
    else if CipherSuite(packet) == SUITE_POLY1305_SALSA2012 then
      Some(packet[..VERB_OFFSET] + Crypted(p, secret, packet, body))
    else
      Some(packet)
  }

  /**
   Armor byte by byte: the body is combined with the keystream from its second 64-byte block on, the MAC is the front of
   the Poly1305 tag of the armored body under the keystream's first 32 bytes, and everything in front of it is left alone.
   */
  lemma ArmoredBytes(p: SalsaPrimitives, secret: Secret, packet: Packet, polyKey: Key)
    requires forall i :: 0 <= i < 32 ==>
      polyKey[i] == p.keystream(MangledKey(secret, packet, |packet|), packet[..8], i)
    ensures var sent, key := Armored(p, secret, packet, true), MangledKey(secret, packet, |packet|);
      && sent[..MAC_OFFSET] == packet[..MAC_OFFSET]
      && (forall i :: 0 <= i < 8 ==> sent[MAC_OFFSET + i] == p.poly1305(polyKey, sent[VERB_OFFSET..])[i])
      && (forall j :: VERB_OFFSET <= j < |packet| ==>
        sent[j] == Xor(packet[j], p.keystream(key, packet[..8], 64 + (j - VERB_OFFSET))))
  {
    assert PolyKey(p, secret, packet) == polyKey;
    var sent := Armored(p, secret, packet, true);
    var body := Crypted(p, secret, packet, packet[VERB_OFFSET..]);
    assert sent[VERB_OFFSET..] == body;
    assert sent[..MAC_OFFSET] == packet[..MAC_OFFSET];
    assert sent[MAC_OFFSET..VERB_OFFSET] == p.poly1305(polyKey, body)[..8];
    forall i | 0 <= i < 8 ensures sent[MAC_OFFSET + i] == p.poly1305(polyKey, body)[i] {
      assert sent[MAC_OFFSET + i] == sent[MAC_OFFSET..VERB_OFFSET][i];
    }
    hide Armored, PolyKey, MangledKey;
    forall j | VERB_OFFSET <= j < |packet|
      ensures sent[j] == Xor(packet[j], p.keystream(MangledKey(secret, packet, |packet|), packet[..8], 64 + (j - VERB_OFFSET)))
    {
      assert sent[j] == body[j - VERB_OFFSET];
    }
  }

  method ArmorPacket(p: SalsaPrimitives, secret: Secret, packet: array<u8>, encrypt: bool)
    returns (r: Result<(), ArmorError>)
    modifies packet
    ensures r.Ok? <==> packet.Length >= MIN_PACKET_LENGTH
    ensures r.Err? ==> r.error == InvalidFormat && packet[..] == old(packet[..])
    ensures r.Ok? ==> packet[..] == Armored(p, secret, old(packet[..]), encrypt)
  {
    if packet.Length < MIN_PACKET_LENGTH {
      return Err(InvalidFormat);
    }
    var mangled := MangleKey(secret, packet, packet.Length);
    hide MangledKey, CipherSuite;
    var nonce := packet[..8];
    var cipher := new Salsa12(p, mangled[..], nonce);
    var polyKey := ExtractPolyKey(cipher);
    if encrypt {
      ghost var plain := packet[VERB_OFFSET..];
      assert packet[VERB_OFFSET..packet.Length] == plain;
      cipher.ApplyKeystream(packet, VERB_OFFSET, packet.Length);
      assert packet[VERB_OFFSET..] == packet[VERB_OFFSET..packet.Length];
    }
    var mac := Mac(p, polyKey, packet[VERB_OFFSET..]);
    StoreAt(packet, MAC_OFFSET, mac);
    return Ok(());
  }

  /** The tag comparison: every byte is looked at, whether or not one has differed. */
  method IsSameMac(computed: seq<u8>, expected: seq<u8>) returns (same: bool)
    requires |computed| == |expected| == MAC_LENGTH
    ensures same <==> computed == expected
  {
    var differs := false;
    for i := 0 to MAC_LENGTH
      invariant differs <==> exists j :: 0 <= j < i && computed[j] != expected[j]
    {
      XorIsZero(computed[i], expected[i]);
      differs := differs || Xor(computed[i], expected[i]) != 0;
    }
    same := !differs;
  }

  method DearmorPacket(p: SalsaPrimitives, secret: Secret, packet: array<u8>) returns (r: Result<(), ArmorError>)
    modifies packet
    ensures packet.Length < MIN_PACKET_LENGTH <==> r == Err(InvalidFormat)
    ensures r.Err? ==> packet[..] == old(packet[..])
    ensures packet.Length >= MIN_PACKET_LENGTH ==>
      Dearmored(p, secret, old(packet[..])) == if r.Ok? then Some(packet[..]) else None
  {
    if packet.Length < MIN_PACKET_LENGTH {
      return Err(InvalidFormat);
    }
    var savedMac := packet[MAC_OFFSET..VERB_OFFSET];
    var mangled := MangleKey(secret, packet, packet.Length);
    var nonce := packet[..8];
    var cipher := new Salsa12(p, mangled[..], nonce);
    var polyKey := ExtractPolyKey(cipher);
    var valid := IsSameMac(Mac(p, polyKey, packet[VERB_OFFSET..]), savedMac);
    if !valid {
      return Err(MacVerificationFailed);
    }
    var cipherSuite := packet[FLAGS_OFFSET] / 8 % 8;
    if cipherSuite == 1 {
      assert packet[VERB_OFFSET..packet.Length] == packet[VERB_OFFSET..];
      cipher.ApplyKeystream(packet, VERB_OFFSET, packet.Length);
      assert packet[VERB_OFFSET..packet.Length] == packet[VERB_OFFSET..];
      assert packet[..] == packet[..VERB_OFFSET] + packet[VERB_OFFSET..];
    }
    return Ok(());
  }

  // --- Relay transparency ---

  /** The key and the keystream do not depend on the hop count, nor on the MAC or the body. */
  lemma KeysIgnoreHops(p: SalsaPrimitives, secret: Secret, a: Packet, b: Packet, body: seq<u8>)
    requires |a| == |b|
    requires forall i :: 0 <= i < FLAGS_OFFSET ==> a[i] == b[i]
    requires ClearLowThreeBits(a[FLAGS_OFFSET]) == ClearLowThreeBits(b[FLAGS_OFFSET])
    ensures PolyKey(p, secret, a) == PolyKey(p, secret, b)
    ensures Crypted(p, secret, a, body) == Crypted(p, secret, b, body)
  {
    assert MangledKey(secret, a, |a|) == MangledKey(secret, b, |b|);
    assert a[..8] == b[..8];
  }

  /**
   A packet armored, relayed any number of times and dearmored verifies, and its body comes out as
   it went in when the flags say whether it was encrypted; otherwise one layer of keystream stays.
   */
  lemma ArmorSurvivesRelays(p: SalsaPrimitives, secret: Secret, packet: Packet, encrypt: bool, arrived: Packet)
    requires IsSameButHops(Armored(p, secret, packet, encrypt), arrived)
    ensures var r := Dearmored(p, secret, arrived);
      && r.Some?
      && r.value[..VERB_OFFSET] == arrived[..VERB_OFFSET]
      && r.value[VERB_OFFSET..] ==
        if encrypt == (CipherSuite(packet) == SUITE_POLY1305_SALSA2012) then packet[VERB_OFFSET..]
        else Crypted(p, secret, packet, packet[VERB_OFFSET..])
  {
    var sent := Armored(p, secret, packet, encrypt);
    var plain := packet[VERB_OFFSET..];
    KeysIgnoreHops(p, secret, packet, arrived, plain);
    KeysIgnoreHops(p, secret, packet, arrived, Crypted(p, secret, packet, plain));
    var ks := Keystream(p, MangledKey(secret, packet, |packet|), packet[..8], BODY_KEYSTREAM_OFFSET, |plain|);
    XorSeqCancels(plain, ks);
    assert arrived[VERB_OFFSET..] == sent[VERB_OFFSET..];
    assert arrived[MAC_OFFSET..VERB_OFFSET] == sent[MAC_OFFSET..VERB_OFFSET];
  }

  predicate IsArmorOf(p: SalsaPrimitives, secret: Secret, arrived: Packet, plain: Packet) {
    Armored(p, secret, plain, CipherSuite(arrived) == SUITE_POLY1305_SALSA2012) == arrived
  }

  /** A packet verifies exactly if it is what armor makes of some packet. */
  lemma VerifiesExactly(p: SalsaPrimitives, secret: Secret, arrived: Packet)
    ensures Dearmored(p, secret, arrived).Some? <==> exists plain: Packet :: IsArmorOf(p, secret, arrived, plain)
  {
    var encrypt := CipherSuite(arrived) == SUITE_POLY1305_SALSA2012;
    if Dearmored(p, secret, arrived).Some? {
      var plain, body := Dearmored(p, secret, arrived).value, arrived[VERB_OFFSET..];
      KeysIgnoreHops(p, secret, arrived, plain, plain[VERB_OFFSET..]);
      KeysIgnoreHops(p, secret, arrived, plain, body);
      XorSeqCancels(body, Keystream(p, MangledKey(secret, arrived, |arrived|), arrived[..8], BODY_KEYSTREAM_OFFSET, |body|));
      assert arrived == arrived[..MAC_OFFSET] + arrived[MAC_OFFSET..VERB_OFFSET] + body;
      assert IsArmorOf(p, secret, arrived, plain);
    }
    if plain: Packet :| IsArmorOf(p, secret, arrived, plain) {
      ArmorSurvivesRelays(p, secret, plain, encrypt, arrived);
    }
  }

  // --- Field encryption ---

  function FieldNonce(packet: Packet): Nonce {
    packet[..7] + [ClearLowThreeBits(packet[7])]
  }

  function FieldCrypted(p: SalsaPrimitives, secret: Secret, packet: Packet, start: nat, len: nat): (r: Packet)
    requires start + len <= |packet|
    ensures |r| == |packet|
  {
    packet[..start]
    + XorSeq(packet[start..start + len], Keystream(p, secret[..32], FieldNonce(packet), 0, len))
    + packet[start + len..]
  }

  /** The encrypted trailer of a HELLO: the raw secret, no block skipped, the nonce's low bits cleared. */
  method CryptPacketField(p: SalsaPrimitives, secret: Secret, packet: array<u8>, start: nat, len: nat)
    returns (r: Result<(), ArmorError>)
    modifies packet
    ensures r.Ok? <==> packet.Length >= MIN_PACKET_LENGTH && start + len <= packet.Length
    ensures r.Err? ==> r.error == InvalidFormat && packet[..] == old(packet[..])
    ensures r.Ok? ==> packet[..] == FieldCrypted(p, secret, old(packet[..]), start, len)
  {
    if packet.Length < MIN_PACKET_LENGTH || start > packet.Length || start + len > packet.Length {
      return Err(InvalidFormat);
    }
    var nonce := packet[..8];
    nonce := nonce[7 := ClearLowThreeBits(nonce[7])];
    assert nonce == FieldNonce(packet[..]);
    var cipher := new Salsa12(p, secret[..32], nonce);
    cipher.ApplyKeystream(packet, start, start + len);
    assert packet[..] == packet[..start] + packet[start..start + len] + packet[start + len..];
    return Ok(());
  }

  /** Encrypting a field twice restores it, as long as the field lies behind the packet ID. */
  lemma FieldCryptedTwice(p: SalsaPrimitives, secret: Secret, packet: Packet, start: nat, len: nat)
    requires 8 <= start && start + len <= |packet|
    ensures FieldCrypted(p, secret, FieldCrypted(p, secret, packet, start, len), start, len) == packet
  {
    var once := FieldCrypted(p, secret, packet, start, len);
    assert FieldNonce(once) == FieldNonce(packet);
    XorSeqCancels(packet[start..start + len], Keystream(p, secret[..32], FieldNonce(packet), 0, len));
    assert once[start..start + len] ==
      XorSeq(packet[start..start + len], Keystream(p, secret[..32], FieldNonce(packet), 0, len));
  }

  /** The field's bytes are combined with the keystream of the secret itself, from its start on; all others stay. */
  lemma FieldBytes(p: SalsaPrimitives, secret: Secret, packet: Packet, start: nat, len: nat, nonce: Nonce)
    requires start + len <= |packet|
    requires nonce[..7] == packet[..7] && nonce[7] % 8 == 0 && nonce[7] / 8 == packet[7] / 8
    ensures var crypted := FieldCrypted(p, secret, packet, start, len);
      forall i :: 0 <= i < |packet| ==>
        crypted[i] == if start <= i < start + len then Xor(packet[i], p.keystream(secret[..32], nonce, i - start)) else packet[i]
  {
    assert FieldNonce(packet) == nonce by {
      assert nonce == nonce[..7] + [nonce[7]];
    }
  }
}
