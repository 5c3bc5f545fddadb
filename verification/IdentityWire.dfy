/** Public identities on the wire: address, type, two public keys and an empty secret. */
module IdentityWire {
  import opened Wrappers
  import opened Bytes
  import opened InetAddress

  type PublicKeyHalf = s: seq<u8> | |s| == 32 witness seq(32, _ => 0)

  const IDENTITY_TYPE_C25519: u8 := 0
  const IDENTITY_PUBLIC_WIRE_LENGTH := 71

  datatype Identity = Identity(address: Address, dh: PublicKeyHalf, signing: PublicKeyHalf) {
    function Encoded(): (s: seq<u8>)
      ensures |s| == IDENTITY_PUBLIC_WIRE_LENGTH
    {
      address + [IDENTITY_TYPE_C25519] + dh + signing + [0]
    }

    method Serialize(buf: array<u8>, pos: nat) returns (end: nat)
      requires pos + IDENTITY_PUBLIC_WIRE_LENGTH <= buf.Length
      modifies buf
      ensures end == pos + IDENTITY_PUBLIC_WIRE_LENGTH
      ensures Wrote(old(buf[..]), buf[..], pos, Encoded())
    {
      end := Put(buf, pos, address);
      end := PutNext(old(buf[..]), buf, pos, address, end, [IDENTITY_TYPE_C25519]);
      end := PutNext(old(buf[..]), buf, pos, address + [IDENTITY_TYPE_C25519], end, dh);
      end := PutNext(old(buf[..]), buf, pos, address + [IDENTITY_TYPE_C25519] + dh, end, signing);
      end := PutNext(old(buf[..]), buf, pos, address + [IDENTITY_TYPE_C25519] + dh + signing, end, [0]);
    }
  }

  /** All zeros and all ones are reserved. */
  predicate IsUnreserved(address: Address) {
    address != [0, 0, 0, 0, 0] && address != [0xff, 0xff, 0xff, 0xff, 0xff]
  }

  /** The identity `data` begins with, and its length with any secret key that follows. */
  function Decoded(data: seq<u8>): (r: Result<(Identity, nat), ProtocolError>)
    ensures r.Ok? ==> IDENTITY_PUBLIC_WIRE_LENGTH <= r.value.1 <= |data| && IsUnreserved(r.value.0.address)
  {
    if |data| < IDENTITY_PUBLIC_WIRE_LENGTH then Err(TooShort(IDENTITY_PUBLIC_WIRE_LENGTH, |data|))
    else if !IsUnreserved(data[0..5]) then Err(InvalidAddress)
    else if data[5] != IDENTITY_TYPE_C25519 then Err(InvalidPacket)
    else
      var consumed := IDENTITY_PUBLIC_WIRE_LENGTH + data[70];
      if |data| < consumed then Err(TooShort(consumed, |data|))
      else Ok((Identity(data[0..5], data[6..38], data[38..70]), consumed))
  }

  /** Address, key type 0, the key-agreement and the signing half of the public key, and no secret. */
  lemma Layout(id: Identity)
    ensures var s := id.Encoded();
      && |s| == 71 && s[..5] == id.address && s[5] == 0 && s[6..38] == id.dh && s[38..70] == id.signing && s[70] == 0
  {
  }

  /** What is read is what stands there; a secret of the length byte 70 says is skipped. */
  lemma EncodedDecoded(data: seq<u8>)
    ensures Decoded(data).Ok? ==>
      var (id, n) := Decoded(data).value; data[..70] == id.Encoded()[..70] && n == 71 + data[70] as int
  {
    if Decoded(data).Ok? {
      var s := Decoded(data).value.0.Encoded();
      assert data[..70] == data[0..5] + [data[5]] + data[6..38] + data[38..70];
    }
  }

  lemma DecodedEncoded(id: Identity, t: seq<u8>)
    ensures Decoded(id.Encoded() + t) ==
      if IsUnreserved(id.address) then Ok((id, IDENTITY_PUBLIC_WIRE_LENGTH)) else Err(InvalidAddress)
  {
    var s := id.Encoded() + t;
    assert s[0..5] == id.address && s[5] == IDENTITY_TYPE_C25519 && s[70] == 0;
    assert s[6..38] == id.dh && s[38..70] == id.signing;
  }
}
