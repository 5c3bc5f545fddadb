/**
 Packet armor of cipher suite 3, AES-GMAC-SIV: a GMAC over the additional data and the plain body,
 hidden together with the packet ID by one AES block, and the body encrypted in counter mode from
 that block.

 AES and the multiplication in GHASH's field are parameters; of AES only that decryption inverts
 encryption is ever assumed.
 */
module AesGmacSiv {
  import opened Wrappers
  import opened Bytes
  import opened Header
  import opened Relay
  import opened SalsaArmor

  datatype AesPrimitives = AesPrimitives(
    encrypt: (Key, Block) -> Block,
    decrypt: (Key, Block) -> Block,
    multiply: (Block, Block) -> Block)
  {
    ghost predicate Inverts() {
      forall k: Key, b: Block {:trigger encrypt(k, b)} :: decrypt(k, encrypt(k, b)) == b
    }
  }

  /** Encryption under a key and decryption under it undo each other. */
  ghost predicate IsCipher(p: AesPrimitives) {
    p.Inverts() && forall k: Key, b: Block {:trigger p.decrypt(k, b)} :: p.encrypt(k, p.decrypt(k, b)) == b
  }

  function Zeros(n: nat): (s: seq<u8>)
    ensures |s| == n
  {
    seq(n, _ => 0)
  }

  // --- GHASH ---

  /** The hash state once `data`, zero-padded to whole blocks, has been fed in. */
  function Absorbed(p: AesPrimitives, h: Block, state: Block, data: seq<u8>): (s: Block)
    decreases |data|
  {
    if data == [] then state
    else if |data| < 16 then p.multiply(XorSeq(state, data + Zeros(16 - |data|)), h)
    else Absorbed(p, h, p.multiply(XorSeq(state, data[..16]), h), data[16..])
  }

  class GHash {
    const primitives: AesPrimitives
    const h: Block
    var state: Block

    constructor (primitives: AesPrimitives, h: Block)
      ensures this.primitives == primitives && this.h == h && state == Zeros(16)
    {
      this.primitives, this.h := primitives, h;
      state := Zeros(16);
    }

    method Update(block: Block)
      modifies this
      ensures state == primitives.multiply(XorSeq(old(state), block), h)
    {
      state := primitives.multiply(XorSeq(state, block), h);
    }
  }

  method FeedPadded(ghash: GHash, data: seq<u8>)
    modifies ghash
    ensures ghash.state == Absorbed(ghash.primitives, ghash.h, old(ghash.state), data)
  {
    var fullBlocks := |data| / 16;
    for i := 0 to fullBlocks
      invariant Absorbed(ghash.primitives, ghash.h, ghash.state, data[i * 16..])
        == Absorbed(ghash.primitives, ghash.h, old(ghash.state), data)
    {
      var block := data[i * 16..(i + 1) * 16];
      assert data[i * 16..][..16] == block;
      assert data[i * 16..][16..] == data[(i + 1) * 16..];
      ghash.Update(block);
    }
    var remainder := |data| % 16;
    if remainder > 0 {
      var last := data[fullBlocks * 16..];
      ghash.Update(last + Zeros(16 - remainder));
    }
  }

  // --- GMAC ---

  /** The bit length hashed last: additional data rounded up to whole blocks, the body as it is. */
  function CombinedBits(aad: seq<u8>, data: seq<u8>): nat {
    ((|aad| + 15) / 16 * 16 + |data|) * 8
  }

  function FirstCounterBlock(iv: Nonce): Block {
    iv + [0, 0, 0, 0, 0, 0, 0, 1]
  }

  function Gmac(p: AesPrimitives, k0: Key, iv: Nonce, aad: seq<u8>, data: seq<u8>): (tag: Block)
  {
    var h := p.encrypt(k0, Zeros(16));
    var state := Absorbed(p, h, Absorbed(p, h, Zeros(16), aad), data);
    var lengths := BigEndian(CombinedBits(aad, data), 8) + Zeros(8);
    XorSeq(p.multiply(XorSeq(state, lengths), h), p.encrypt(k0, FirstCounterBlock(iv)))
  }

  function ShortenTag(tag: Block): (mac: seq<u8>)
    ensures |mac| == MAC_LENGTH
  {
    XorSeq(tag[..8], tag[8..])
  }

  /** GHASH of a string of whole blocks, as section 6.4 of NIST SP 800-38D defines it. */
  function Ghash(p: AesPrimitives, h: Block, blocks: seq<u8>): (y: Block)
    requires |blocks| % 16 == 0
  {
    if blocks == [] then Zeros(16)
    else
      var n := |blocks| - 16;
      p.multiply(XorSeq(Ghash(p, h, blocks[..n]), blocks[n..]), h)
  }

  /** Zeros up to the next whole block. */
  function Padded(data: seq<u8>): (blocks: seq<u8>)
    ensures |blocks| % 16 == 0 && data <= blocks && |blocks| < |data| + 16
  {
    data + Zeros((16 - |data| % 16) % 16)
  }

  lemma GhashNext(p: AesPrimitives, h: Block, blocks: seq<u8>, block: Block)
    requires |blocks| % 16 == 0
    ensures Ghash(p, h, blocks + block) == p.multiply(XorSeq(Ghash(p, h, blocks), block), h)
  {
    assert (blocks + block)[..|blocks|] == blocks;
    assert (blocks + block)[|blocks|..] == block;
  }

  lemma PaddedParts(data: seq<u8>)
    ensures data == [] ==> Padded(data) == []
    ensures 0 < |data| < 16 ==> Padded(data) == data + Zeros(16 - |data|)
    ensures |data| >= 16 ==> Padded(data) == data[..16] + Padded(data[16..])
  {
  }

  lemma {:induction false} AbsorbedIsGhash(p: AesPrimitives, h: Block, blocks: seq<u8>, data: seq<u8>)
    requires |blocks| % 16 == 0
    ensures Absorbed(p, h, Ghash(p, h, blocks), data) == Ghash(p, h, blocks + Padded(data))
    decreases |data|
  {
    PaddedParts(data);
    hide Ghash, Padded;
    if data == [] {
      assert blocks + Padded(data) == blocks;
    } else if |data| < 16 {
      GhashNext(p, h, blocks, data + Zeros(16 - |data|));
    } else {
      GhashNext(p, h, blocks, data[..16]);
      AbsorbedIsGhash(p, h, blocks + data[..16], data[16..]);
      assert blocks + Padded(data) == (blocks + data[..16]) + Padded(data[16..]);
    }
  }

  lemma WholeBlocks(a: nat, b: nat)
    requires a % 16 == 0 && b % 16 == 0
    ensures (a + b + 16) % 16 == 0
  {
  }

  /** What is hashed: the padded additional data, the padded body, and the bits in the former and in the bare body. */
  function HashInput(aad: seq<u8>, data: seq<u8>): (blocks: seq<u8>)
    ensures |blocks| % 16 == 0
  {
    var bits := (|Padded(aad)| + |data|) * 8;
    WholeBlocks(|Padded(aad)|, |Padded(data)|);
    Padded(aad) + Padded(data) + (BigEndian(bits, 8) + Zeros(8))
  }

  /** The tag is GHASH of that, masked by the encryption of the IV with the counter one. */
  lemma GmacIsGhash(p: AesPrimitives, k0: Key, iv: Nonce, aad: seq<u8>, data: seq<u8>)
    ensures Gmac(p, k0, iv, aad, data) ==
      XorSeq(Ghash(p, p.encrypt(k0, Zeros(16)), HashInput(aad, data)), p.encrypt(k0, iv + [0, 0, 0, 0, 0, 0, 0, 1]))
  {
    hide BigEndian, Ghash, Padded, Absorbed;
    var h := p.encrypt(k0, Zeros(16));
    GhashOfNothing(p, h);
    assert [] + Padded(aad) == Padded(aad);
    AbsorbedIsGhash(p, h, [], aad);
    AbsorbedIsGhash(p, h, Padded(aad), data);
    PaddedLength(aad);
    var lengths: Block := BigEndian((|Padded(aad)| + |data|) * 8, 8) + Zeros(8);
    GhashNext(p, h, Padded(aad) + Padded(data), lengths);
    assert HashInput(aad, data) == Padded(aad) + Padded(data) + lengths;
  }

  lemma PaddedLength(data: seq<u8>)
    ensures |Padded(data)| == (|data| + 15) / 16 * 16
  {
  }

  lemma GhashOfNothing(p: AesPrimitives, h: Block)
    ensures Ghash(p, h, []) == Zeros(16)
  {
  }

  method GmacCompute(p: AesPrimitives, k0: Key, iv: Nonce, aad: seq<u8>, data: seq<u8>) returns (tag: Block)
    ensures tag == Gmac(p, k0, iv, aad, data)
  {
    var ghash := new GHash(p, p.encrypt(k0, Zeros(16)));
    FeedPadded(ghash, aad);
    FeedPadded(ghash, data);
    var paddedAadLength := if |aad| == 0 then 0 else (|aad| + 15) / 16 * 16;
    var combinedBits := (paddedAadLength + |data|) * 8;
    ghash.Update(BigEndian(combinedBits, 8) + Zeros(8));
    var j0 := p.encrypt(k0, FirstCounterBlock(iv));
    var bytes: seq<u8> := [];
    for i := 0 to 16
      invariant |bytes| == i && forall j :: 0 <= j < i ==> bytes[j] == Xor(ghash.state[j], j0[j])
    {
      bytes := bytes + [Xor(ghash.state[i], j0[i])];
    }
    assert bytes == XorSeq(ghash.state, j0);
    tag := bytes;
  }

  // --- Counter mode ---

  /** Only the last four bytes count, and they wrap without carry. */
  function CounterBlock(nonce: Block, j: nat): (block: Block)
  {
    nonce[..12] + BigEndian(FromBigEndian(nonce[12..]) + j, 4)
  }

  function CtrKeystream(p: AesPrimitives, key: Key, nonce: Block, n: nat): (s: seq<u8>)
    ensures |s| == n
  {
    seq<u8>(n, i requires 0 <= i < n => p.encrypt(key, CounterBlock(nonce, i / 16))[i % 16])
  }

  lemma CounterBlockZero(nonce: Block)
    ensures CounterBlock(nonce, 0) == nonce
  {
    FromBigEndianRoundTrip(nonce[12..]);
  }

  lemma CounterBlockNext(nonce: Block, j: nat)
    ensures CounterBlock(CounterBlock(nonce, j), 1) == CounterBlock(nonce, j + 1)
  {
    var c := FromBigEndian(nonce[12..]) + j;
    var b := CounterBlock(nonce, j);
    assert b[..12] == nonce[..12] && b[12..] == BigEndian(c, 4);
    NextWord(c);
  }

  lemma NextWord(c: nat)
    ensures BigEndian(FromBigEndian(BigEndian(c, 4)) + 1, 4) == BigEndian(c + 1, 4)
  {
    BigEndianRoundTrip(c, 4);
    Pow256Values();
    var r, k := c % 0x1_0000_0000, c / 0x1_0000_0000;
    assert c + 1 == (r + 1) + k * 0x1_0000_0000;
    BigEndianDropsMultiples(r + 1, k);
  }

  lemma BigEndianDropsMultiples(a: nat, k: nat)
    ensures BigEndian(a + k * 0x1_0000_0000, 4) == BigEndian(a, 4)
  {
    var x, y := BigEndian(a + k * 0x1_0000_0000, 4), BigEndian(a, 4);
    Pow256Values();
    var m := 0x1_0000_0000;
    RemainderIsUnique(a + k * m, m, a / m + k, a % m);
    BigEndianRoundTrip(a + k * 0x1_0000_0000, 4);
    BigEndianRoundTrip(a, 4);
    assert FromBigEndian(x) == FromBigEndian(y);
    FromBigEndianRoundTrip(x);
    FromBigEndianRoundTrip(y);
  }

  /** With the counter's top bit cleared, the first 2^31 blocks are consecutive numbers. */
  lemma CounterDoesNotWrap(nonce: Block, j: nat)
    requires nonce[12] < 0x80 && j < 0x8000_0000
    ensures FromBigEndian(nonce[12..]) + j < 0x1_0000_0000
    ensures FromBigEndian(CounterBlock(nonce, j)[12..]) == FromBigEndian(nonce[12..]) + j
  {
    var c := nonce[12..];
    FromBigEndianBound(c);
    TopByteBounds(c);
    Pow256Values();
    assert CounterBlock(nonce, j)[12..] == BigEndian(FromBigEndian(c) + j, 4);
    BigEndianExact(FromBigEndian(c) + j, 4);
  }

  lemma TopByteBounds(c: seq<u8>)
    requires |c| == 4 && c[0] < 0x80
    ensures FromBigEndian(c) < 0x8000_0000
  {
    var a: int, b: int, d: int := c[0], c[1], c[2];
    assert c[..3][..2] == c[..2] && c[..2][..1] == c[..1];
    assert FromBigEndian(c[..1]) == a by { assert c[..1][..0] == []; }
    assert FromBigEndian(c[..2]) == a * 256 + b;
    assert FromBigEndian(c[..3]) == (a * 256 + b) * 256 + d;
  }

  method AesCtrEncrypt(p: AesPrimitives, key: Key, nonceCounter: array<u8>, data: array<u8>, lo: nat)
    requires nonceCounter.Length == 16 && nonceCounter != data && lo <= data.Length
    modifies nonceCounter, data
    ensures data[..lo] == old(data[..lo])
    ensures data[lo..] == XorSeq(old(data[lo..]), CtrKeystream(p, key, old(nonceCounter[..]), data.Length - lo))
  {
    ghost var nonce: Block := nonceCounter[..];
    CounterBlockZero(nonce);
    var pos, blocks := lo, 0;
    while pos < data.Length
      invariant pos == Min(lo + 16 * blocks, data.Length)
      invariant nonceCounter[..] == CounterBlock(nonce, blocks)
      invariant forall j :: 0 <= j < lo || pos <= j < data.Length ==> data[j] == old(data[j])
      invariant forall j :: lo <= j < pos ==>
        data[j] == Xor(old(data[j]), p.encrypt(key, CounterBlock(nonce, (j - lo) / 16))[(j - lo) % 16])
    {
      var block := p.encrypt(key, nonceCounter[..]);
      var end := Min(pos + 16, data.Length);
      XorBlock(data, pos, end, block);
      forall j | pos <= j < end
        ensures data[j] == Xor(old(data[j]), p.encrypt(key, CounterBlock(nonce, (j - lo) / 16))[(j - lo) % 16])
      {
        assert (j - lo) / 16 == blocks && (j - lo) % 16 == j - pos;
      }
      CounterBlockNext(nonce, blocks);
      IncrementCounter(nonceCounter);
      pos, blocks := end, blocks + 1;
    }
  }

  method XorBlock(data: array<u8>, pos: nat, end: nat, block: Block)
    requires pos <= end <= data.Length && end <= pos + 16
    modifies data
    ensures forall j :: 0 <= j < data.Length ==>
      data[j] == if pos <= j < end then Xor(old(data[j]), block[j - pos]) else old(data[j])
  {
    for i := pos to end
      invariant forall j :: 0 <= j < data.Length ==>
        data[j] == if pos <= j < i then Xor(old(data[j]), block[j - pos]) else old(data[j])
    {
      data[i] := Xor(data[i], block[i - pos]);
    }
  }

  method IncrementCounter(nonceCounter: array<u8>)
    requires nonceCounter.Length == 16
    modifies nonceCounter
    ensures nonceCounter[..] == CounterBlock(old(nonceCounter[..]), 1)
  {
    var ctr := FromBigEndian(nonceCounter[12..]);
    StoreAt(nonceCounter, 12, BigEndian(ctr + 1, 4));
  }

  // --- Armor ---

  /** The encrypted [IV | MAC] block with the counter's top bit cleared. */
  function CtrNonce(encryptedTag: Block): Block {
    encryptedTag[12 := encryptedTag[12] % 0x80]
  }

  function EncryptedTag(p: AesPrimitives, k0: Key, k1: Key, packet: Packet, aad: seq<u8>): Block {
    var mac := ShortenTag(Gmac(p, k0, packet[..8], aad, packet[VERB_OFFSET..]));
    p.encrypt(k1, packet[..8] + mac)
  }

  function CtrCrypted(p: AesPrimitives, k1: Key, encryptedTag: Block, body: seq<u8>): (r: seq<u8>)
    ensures |r| == |body|
  {
    XorSeq(body, CtrKeystream(p, k1, CtrNonce(encryptedTag), |body|))
  }

  function WithTag(packet: Packet, tag: Block, body: seq<u8>): (r: Packet)
    requires |body| == |packet| - VERB_OFFSET
    ensures |r| == |packet|
  {
    tag[..8] + packet[8..MAC_OFFSET] + tag[8..] + body
  }

  function TagOf(packet: Packet): Block {
    packet[..8] + packet[MAC_OFFSET..VERB_OFFSET]
  }

  function AesArmored(p: AesPrimitives, k0: Key, k1: Key, packet: Packet, aad: seq<u8>): (r: Packet)
    ensures |r| == |packet|
  {
    var tag := EncryptedTag(p, k0, k1, packet, aad);
    WithTag(packet, tag, CtrCrypted(p, k1, tag, packet[VERB_OFFSET..]))
  }

  /** The packet with its body decrypted in place, and whether the MAC matches. */
  function AesDearmored(p: AesPrimitives, k0: Key, k1: Key, packet: Packet, aad: seq<u8>): (r: (Packet, bool))
    ensures |r.0| == |packet|
  {
    var tag := TagOf(packet);
    var clear := p.decrypt(k1, tag);
    var body := CtrCrypted(p, k1, tag, packet[VERB_OFFSET..]);
    (packet[..VERB_OFFSET] + body, ShortenTag(Gmac(p, k0, clear[..8], aad, body)) == clear[8..])
  }

  datatype AesError = TooShort

  method CryptBody(p: AesPrimitives, k1: Key, encryptedTag: Block, packet: array<u8>)
    requires packet.Length >= MIN_PACKET_LENGTH
    modifies packet
    ensures packet[..] == old(packet[..VERB_OFFSET]) + CtrCrypted(p, k1, encryptedTag, old(packet[VERB_OFFSET..]))
  {
    var nonceCounter := new u8[16](i requires 0 <= i < 16 => encryptedTag[i]);
    nonceCounter[12] := nonceCounter[12] % 0x80;
    assert nonceCounter[..] == CtrNonce(encryptedTag);
    AesCtrEncrypt(p, k1, nonceCounter, packet, VERB_OFFSET);
    assert packet[..] == packet[..VERB_OFFSET] + packet[VERB_OFFSET..];
  }

  lemma TagStored(before: Packet, withMac: Packet, withIv: Packet, mac: seq<u8>, tag: Block)
    requires |mac| == MAC_LENGTH && withMac == before[..MAC_OFFSET] + mac + before[VERB_OFFSET..]
    requires withIv == tag[..8] + withMac[8..]
    ensures withIv[..MAC_OFFSET] + tag[8..] + withIv[VERB_OFFSET..] == WithTag(before, tag, before[VERB_OFFSET..])
  {
    assert withIv[VERB_OFFSET..] == withMac[VERB_OFFSET..] == before[VERB_OFFSET..];
    assert withIv[8..MAC_OFFSET] == withMac[8..MAC_OFFSET] == before[8..MAC_OFFSET];
    assert withIv[..MAC_OFFSET] == tag[..8] + before[8..MAC_OFFSET];
  }

  method ArmorPacket(p: AesPrimitives, k0: Key, k1: Key, packet: array<u8>, aad: seq<u8>)
    returns (r: Result<(), AesError>)
    modifies packet
    ensures r.Ok? <==> packet.Length >= MIN_PACKET_LENGTH
    ensures r.Err? ==> packet[..] == old(packet[..])
    ensures r.Ok? ==> packet[..] == AesArmored(p, k0, k1, old(packet[..]), aad)
  {
    if packet.Length < MIN_PACKET_LENGTH {
      return Err(TooShort);
    }
    ghost var before := packet[..];
    var originalIv := packet[..8];
    var tag := GmacCompute(p, k0, originalIv, aad, packet[VERB_OFFSET..]);
    var mac := ShortenTag(tag);
    StoreAt(packet, MAC_OFFSET, mac);
    ghost var withMac := packet[..];
    assert withMac == before[..MAC_OFFSET] + mac + before[VERB_OFFSET..];
    var encryptedTag := p.encrypt(k1, originalIv + mac);
    StoreAt(packet, 0, encryptedTag[..8]);
    ghost var withIv := packet[..];
    assert withIv == encryptedTag[..8] + withMac[8..];
    StoreAt(packet, MAC_OFFSET, encryptedTag[8..]);
    assert packet[..] == withIv[..MAC_OFFSET] + encryptedTag[8..] + withIv[VERB_OFFSET..];
    TagStored(before, withMac, withIv, mac, encryptedTag);
    hide WithTag, Gmac, ShortenTag, CtrCrypted;
    CryptBody(p, k1, encryptedTag, packet);
    return Ok(());
  }

  method DearmorPacket(p: AesPrimitives, k0: Key, k1: Key, packet: array<u8>, aad: seq<u8>)
    returns (r: Result<bool, AesError>)
    modifies packet
    ensures r.Ok? <==> packet.Length >= MIN_PACKET_LENGTH
    ensures r.Err? ==> packet[..] == old(packet[..])
    ensures r.Ok? ==> (packet[..], r.value) == AesDearmored(p, k0, k1, old(packet[..]), aad)
  {
    if packet.Length < MIN_PACKET_LENGTH {
      return Err(TooShort);
    }
    var encryptedTag: Block := packet[..8] + packet[MAC_OFFSET..VERB_OFFSET];
    var decryptedTag := p.decrypt(k1, encryptedTag);
    var originalIv, originalMac := decryptedTag[..8], decryptedTag[8..];
    CryptBody(p, k1, encryptedTag, packet);
    var tag := GmacCompute(p, k0, originalIv, aad, packet[VERB_OFFSET..]);
    var computedMac := ShortenTag(tag);
    var valid := IsSameMac(computedMac, originalMac);
    return Ok(valid);
  }

  /**
   Armor byte by byte. On the wire the IV and MAC fields are one encrypted block, of the IV and the folded tag; and body
   byte i is combined with the encryption of that block as a counter, its top bit cleared, raised by i / 16.
   */
  lemma ArmoredBytes(p: AesPrimitives, k0: Key, k1: Key, packet: Packet, aad: seq<u8>, mac: Nonce)
    requires var tag := Gmac(p, k0, packet[..8], aad, packet[VERB_OFFSET..]);
      forall i :: 0 <= i < 8 ==> mac[i] == Xor(tag[i], tag[8 + i])
    ensures var sent := AesArmored(p, k0, k1, packet, aad);
      && TagOf(sent) == p.encrypt(k1, packet[..8] + mac)
      && sent[8..MAC_OFFSET] == packet[8..MAC_OFFSET]
  {
    var tag := EncryptedTag(p, k0, k1, packet, aad);
    assert ShortenTag(Gmac(p, k0, packet[..8], aad, packet[VERB_OFFSET..])) == mac;
    SameButHopsItself(AesArmored(p, k0, k1, packet, aad));
    TagSurvives(packet, tag, CtrCrypted(p, k1, tag, packet[VERB_OFFSET..]), AesArmored(p, k0, k1, packet, aad));
  }

  /** The counter block for body byte `i`: the tag with its last four bytes read as a number of 31 bits, and raised. */
  predicate IsCounterFor(b: Block, tag: Block, i: nat) {
    b[..12] == tag[..12] && FromBigEndian(b[12..]) == FromBigEndian(tag[12..]) % 0x8000_0000 + i / 16
  }

  lemma ArmoredBody(p: AesPrimitives, k0: Key, k1: Key, packet: Packet, aad: seq<u8>, i: nat, b: Block)
    requires i < |packet| - VERB_OFFSET && i / 16 < 0x8000_0000
    requires IsCounterFor(b, TagOf(AesArmored(p, k0, k1, packet, aad)), i)
    ensures AesArmored(p, k0, k1, packet, aad)[VERB_OFFSET + i] == Xor(packet[VERB_OFFSET + i], p.encrypt(k1, b)[i % 16])
  {
    var sent := AesArmored(p, k0, k1, packet, aad);
    var tag, body := EncryptedTag(p, k0, k1, packet, aad), packet[VERB_OFFSET..];
    SameButHopsItself(sent);
    TagSurvives(packet, tag, CtrCrypted(p, k1, tag, body), sent);
    CounterIs(b, tag, i);
    assert sent[VERB_OFFSET + i] == sent[VERB_OFFSET..][i] == CtrCrypted(p, k1, tag, body)[i];
  }

  lemma SameButHopsItself(packet: Packet)
    ensures IsSameButHops(packet, packet)
  {
  }

  /** There is one such block, the one counter mode uses. */
  lemma CounterIs(b: Block, tag: Block, i: nat)
    requires i / 16 < 0x8000_0000
    ensures IsCounterFor(b, tag, i) <==> b == CounterBlock(CtrNonce(tag), i / 16)
  {
    hide FromBigEndian, BigEndian;
    var nonce := CtrNonce(tag);
    var c := CounterBlock(nonce, i / 16);
    CounterDoesNotWrap(nonce, i / 16);
    ClearedTopBit(tag[12..]);
    assert nonce[..12] == tag[..12] && nonce[12..] == tag[12..][0 := tag[12] % 0x80];
    assert c[..12] == nonce[..12];
    if IsCounterFor(b, tag, i) {
      FromBigEndianRoundTrip(b[12..]);
      FromBigEndianRoundTrip(c[12..]);
      assert b == b[..12] + b[12..] && c == c[..12] + c[12..];
    }
  }

  lemma ClearedTopBit(c: seq<u8>)
    requires |c| == 4
    ensures FromBigEndian(c[0 := c[0] % 0x80]) == FromBigEndian(c) % 0x8000_0000
  {
    var d := c[0 := c[0] % 0x80];
    FourBytes(c);
    FourBytes(d);
    TopByteBounds(d);
    RemainderIsUnique(FromBigEndian(c), 0x8000_0000, c[0] / 0x80, FromBigEndian(d));
  }

  lemma FourBytes(c: seq<u8>)
    requires |c| == 4
    ensures FromBigEndian(c) == ((c[0] as int * 256 + c[1]) * 256 + c[2]) * 256 + c[3]
  {
    var a: int, b: int, d: int := c[0], c[1], c[2];
    assert c[..3][..2] == c[..2] && c[..2][..1] == c[..1];
    assert FromBigEndian(c[..1]) == a by { assert c[..1][..0] == []; }
    assert FromBigEndian(c[..2]) == a * 256 + b;
    assert FromBigEndian(c[..3]) == (a * 256 + b) * 256 + d;
  }

  // --- Round trip ---

  /** The additional data a node authenticates: addresses and flags, the hop count masked off. */
  function BuildAesAad(packet: Packet): (aad: seq<u8>)
    ensures |aad| == 11
  {
    packet[8..FLAGS_OFFSET] + [ClearLowThreeBits(packet[FLAGS_OFFSET])]
  }

  lemma AadFields(packet: Packet)
    ensures var aad := BuildAesAad(packet);
      aad[..5] == Destination(packet) && aad[5..10] == Source(packet) && aad[10] == packet[FLAGS_OFFSET] - Hops(packet)
  {
    assert BuildAesAad(packet)[..10] == packet[8..18];
    assert packet[8..18][..5] == packet[8..13] && packet[8..18][5..] == packet[13..18];
  }

  /** Armor leaves addresses and flags alone, and dearmor after armor restores the body and verifies. */
  lemma DearmorInvertsArmor(p: AesPrimitives, k0: Key, k1: Key, packet: Packet, aad: seq<u8>, arrived: Packet)
    requires p.Inverts()
    requires IsSameButHops(AesArmored(p, k0, k1, packet, aad), arrived)
    ensures AesArmored(p, k0, k1, packet, aad)[8..MAC_OFFSET] == packet[8..MAC_OFFSET]
    ensures var r := AesDearmored(p, k0, k1, arrived, aad);
      && r.1
      && r.0[..VERB_OFFSET] == arrived[..VERB_OFFSET]
      && r.0[VERB_OFFSET..] == packet[VERB_OFFSET..]
  {
    var sent := AesArmored(p, k0, k1, packet, aad);
    var tag := EncryptedTag(p, k0, k1, packet, aad);
    var plain := packet[VERB_OFFSET..];
    TagSurvives(packet, tag, CtrCrypted(p, k1, tag, plain), arrived);
    XorSeqCancels(plain, CtrKeystream(p, k1, CtrNonce(tag), |plain|));
    var mac := ShortenTag(Gmac(p, k0, packet[..8], aad, plain));
    var clear := packet[..8] + mac;
    assert p.decrypt(k1, tag) == clear;
    assert clear[..8] == packet[..8] && clear[8..] == mac;
  }

  lemma TagSurvives(packet: Packet, tag: Block, body: seq<u8>, arrived: Packet)
    requires |body| == |packet| - VERB_OFFSET
    requires IsSameButHops(WithTag(packet, tag, body), arrived)
    ensures WithTag(packet, tag, body)[8..MAC_OFFSET] == packet[8..MAC_OFFSET]
    ensures TagOf(arrived) == tag
    ensures arrived[VERB_OFFSET..] == body
    ensures BuildAesAad(arrived) == BuildAesAad(packet)
  {
    var sent := WithTag(packet, tag, body);
    assert sent[..8] == tag[..8] && sent[8..MAC_OFFSET] == packet[8..MAC_OFFSET];
    assert sent[MAC_OFFSET..VERB_OFFSET] == tag[8..] && sent[VERB_OFFSET..] == body;
    assert arrived[..8] == sent[..8] && arrived[MAC_OFFSET..VERB_OFFSET] == sent[MAC_OFFSET..VERB_OFFSET];
    assert arrived[VERB_OFFSET..] == sent[VERB_OFFSET..];
    forall i | 8 <= i < FLAGS_OFFSET ensures arrived[i] == packet[i] {
      assert sent[8..MAC_OFFSET][i - 8] == packet[8..MAC_OFFSET][i - 8];
    }
    assert sent[8..MAC_OFFSET][10] == packet[8..MAC_OFFSET][10];
  }

  /** Under the additional data a node builds, relays do not disturb the MAC either. */
  lemma AesArmorSurvivesRelays(p: AesPrimitives, k0: Key, k1: Key, packet: Packet, n: nat)
    requires p.Inverts()
    requires Relayed(AesArmored(p, k0, k1, packet, BuildAesAad(packet)), n).Some?
    ensures var arrived := Relayed(AesArmored(p, k0, k1, packet, BuildAesAad(packet)), n).value;
      var r := AesDearmored(p, k0, k1, arrived, BuildAesAad(arrived));
      && r.1
      && r.0[VERB_OFFSET..] == packet[VERB_OFFSET..]
      && r.0[..VERB_OFFSET] == arrived[..VERB_OFFSET]
      && CipherSuite(arrived) == CipherSuite(packet)
  {
    var aad := BuildAesAad(packet);
    var sent := AesArmored(p, k0, k1, packet, aad);
    var arrived := Relayed(sent, n).value;
    RelayedHops(sent, n);
    var tag := EncryptedTag(p, k0, k1, packet, aad);
    TagSurvives(packet, tag, CtrCrypted(p, k1, tag, packet[VERB_OFFSET..]), arrived);
    DearmorInvertsArmor(p, k0, k1, packet, aad, arrived);
    assert sent[8..MAC_OFFSET][10] == packet[8..MAC_OFFSET][10];
  }

  /** The packet `arrived` would have been before armor, its MAC field aside. */
  function Unarmored(p: AesPrimitives, k0: Key, k1: Key, arrived: Packet, aad: seq<u8>): (plain: Packet)
  {
    p.decrypt(k1, TagOf(arrived))[..8] + AesDearmored(p, k0, k1, arrived, aad).0[8..]
  }

  lemma UnarmoredParts(p: AesPrimitives, k0: Key, k1: Key, arrived: Packet, aad: seq<u8>)
    ensures var plain, tag := Unarmored(p, k0, k1, arrived, aad), TagOf(arrived);
      && plain[..8] == p.decrypt(k1, tag)[..8] && plain[8..MAC_OFFSET] == arrived[8..MAC_OFFSET]
      && plain[VERB_OFFSET..] == CtrCrypted(p, k1, tag, arrived[VERB_OFFSET..])
  {
    hide CtrCrypted, Gmac;
    var r := AesDearmored(p, k0, k1, arrived, aad).0;
    assert r[8..MAC_OFFSET] == arrived[8..MAC_OFFSET];
    assert r[VERB_OFFSET..] == CtrCrypted(p, k1, TagOf(arrived), arrived[VERB_OFFSET..]);
  }

  lemma TagReplaced(plain: Packet, arrived: Packet)
    requires |plain| == |arrived| && plain[8..MAC_OFFSET] == arrived[8..MAC_OFFSET]
    ensures WithTag(plain, TagOf(arrived), arrived[VERB_OFFSET..]) == arrived
  {
    var tag := TagOf(arrived);
    assert tag[..8] == arrived[..8] && tag[8..] == arrived[MAC_OFFSET..VERB_OFFSET];
  }

  lemma VerifiedIsArmored(p: AesPrimitives, k0: Key, k1: Key, arrived: Packet, aad: seq<u8>)
    requires IsCipher(p) && AesDearmored(p, k0, k1, arrived, aad).1
    ensures AesArmored(p, k0, k1, Unarmored(p, k0, k1, arrived, aad), aad) == arrived
  {
    var plain, tag := Unarmored(p, k0, k1, arrived, aad), TagOf(arrived);
    var clear, body := p.decrypt(k1, tag), arrived[VERB_OFFSET..];
    UnarmoredParts(p, k0, k1, arrived, aad);
    TagReplaced(plain, arrived);
    XorSeqCancels(body, CtrKeystream(p, k1, CtrNonce(tag), |body|));
    assert clear == clear[..8] + clear[8..];
    hide Unarmored, WithTag, TagOf, Gmac, ShortenTag, CtrKeystream, CtrNonce;
    assert EncryptedTag(p, k0, k1, plain, aad) == tag;
  }

  /** A packet verifies exactly if it is what armor makes of some packet. */
  lemma VerifiesExactly(p: AesPrimitives, k0: Key, k1: Key, arrived: Packet, aad: seq<u8>)
    requires IsCipher(p)
    ensures AesDearmored(p, k0, k1, arrived, aad).1 <==> exists plain: Packet :: AesArmored(p, k0, k1, plain, aad) == arrived
  {
    if AesDearmored(p, k0, k1, arrived, aad).1 {
      VerifiedIsArmored(p, k0, k1, arrived, aad);
    }
    if plain: Packet :| AesArmored(p, k0, k1, plain, aad) == arrived {
      SameButHopsItself(arrived);
      DearmorInvertsArmor(p, k0, k1, plain, aad, arrived);
    }
  }
}
