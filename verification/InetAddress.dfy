/** Endpoints: the physical addresses packets travel between, and their wire format. */
module InetAddress {
  import opened Wrappers
  import opened Bytes

  type Ipv4 = s: seq<u8> | |s| == 4 witness [0, 0, 0, 0]
  type Ipv6 = s: seq<u8> | |s| == 16 witness seq(16, _ => 0)

  datatype SocketAddr = SocketV4(ip4: Ipv4, port: u16) | SocketV6(ip6: Ipv6, port: u16)

  datatype ProtocolError = TooShort(need: nat, got: nat) | InvalidPacket | InvalidAddress

  datatype InetAddress = Null | V4(ip4: Ipv4, port: u16) | V6(ip6: Ipv6, port: u16) {
    function ToSocketAddr(): Option<SocketAddr> {
      match this
      case Null => None
      case V4(ip, port) => Some(SocketV4(ip, port))
      case V6(ip, port) => Some(SocketV6(ip, port))
    }

    function Encoded(): (s: seq<u8>)
      ensures 1 <= |s| <= 19
    {
      match this
      case Null => [0x00]
      case V4(ip, port) => [0x04] + ip + BigEndian(port, 2)
      case V6(ip, port) => [0x06] + ip + BigEndian(port, 2)
    }

    /** Write the address at `pos`; the position behind it. */
    method Serialize(buf: array<u8>, pos: nat) returns (end: nat)
      requires pos + |Encoded()| <= buf.Length
      modifies buf
      ensures end == pos + |Encoded()|
      ensures Wrote(old(buf[..]), buf[..], pos, Encoded())
    {
      match this {
        case Null =>
          end := Put(buf, pos, [0x00]);
        case V4(ip, port) =>
          end := PutTagged(buf, pos, 0x04, ip, port);
        case V6(ip, port) =>
          end := PutTagged(buf, pos, 0x06, ip, port);
      }
    }
  }

  method PutTagged(buf: array<u8>, pos: nat, tag: u8, ip: seq<u8>, port: u16) returns (end: nat)
    requires pos + |ip| + 3 <= buf.Length
    modifies buf
    ensures end == pos + |ip| + 3
    ensures Wrote(old(buf[..]), buf[..], pos, [tag] + ip + BigEndian(port, 2))
  {
    end := Put(buf, pos, [tag]);
    end := PutNext(old(buf[..]), buf, pos, [tag], end, ip);
    end := PutNext(old(buf[..]), buf, pos, [tag] + ip, end, BigEndian(port, 2));
  }

  function ReadU16(s: seq<u8>): (n: u16)
    requires |s| == 2
  {
    Pow256Values();
    FromBigEndianBound(s);
    FromBigEndian(s)
  }

  /** The address `data` begins with and its length. */
  function Decoded(data: seq<u8>): (r: Result<(InetAddress, nat), ProtocolError>)
    ensures r.Ok? ==> 1 <= r.value.1 <= |data|
  {
    if data == [] then Err(TooShort(1, 0))
    else if data[0] == 0x00 then Ok((Null, 1))
    else if data[0] == 0x04 then
      if |data| < 7 then Err(TooShort(7, |data|))
      else Ok((V4(data[1..5], ReadU16(data[5..7])), 7))
    else if data[0] == 0x06 then
      if |data| < 19 then Err(TooShort(19, |data|))
      else Ok((V6(data[1..17], ReadU16(data[17..19])), 19))
    else Err(InvalidPacket)
  }

  /** A tag, 0, 4 or 6; the address; and the port, most significant byte first. */
  lemma Layout(a: InetAddress)
    ensures var s, n := a.Encoded(), |a.Encoded()|;
      && (a.Null? ==> s == [0])
      && (a.V4? ==> n == 7 && s[0] == 4 && s[1..5] == a.ip4)
      && (a.V6? ==> n == 19 && s[0] == 6 && s[1..17] == a.ip6)
      && (!a.Null? ==> a.port == 0x100 * s[n - 2] as int + s[n - 1])
  {
    if !a.Null? {
      assert BigEndian(a.port / 0x100, 1) == [a.port / 0x100];
      assert BigEndian(a.port, 2) == [a.port / 0x100, a.port % 0x100];
    }
  }

  /** An address is read back, whatever follows it. */
  lemma DecodedEncoded(a: InetAddress, t: seq<u8>)
    ensures Decoded(a.Encoded() + t) == Ok((a, |a.Encoded()|))
  {
    var s := a.Encoded() + t;
    if !a.Null? {
      Pow256Values();
      BigEndianExact(a.port, 2);
      var n := |a.Encoded()|;
      assert s[n - 2..n] == BigEndian(a.port, 2);
      if a.V4? {
        assert s[1..5] == a.ip4;
      } else {
        assert s[1..17] == a.ip6;
      }
    }
  }

  /** And no other bytes are read as that address. */
  lemma EncodedDecoded(data: seq<u8>)
    ensures Decoded(data).Ok? ==> data[..Decoded(data).value.1] == Decoded(data).value.0.Encoded()
  {
    if Decoded(data).Ok? && data[0] != 0 {
      var n := Decoded(data).value.1;
      FromBigEndianRoundTrip(data[n - 2..n]);
      assert data[..n] == [data[0]] + data[1..n - 2] + data[n - 2..n];
    }
  }
}
