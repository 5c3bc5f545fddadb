/** The hop count a relay raises in a packet it forwards. */
module Relay {
  import opened Wrappers
  import opened Bytes
  import opened Header

  /** The same packet but for the hop count: everything a relay must not change. */
  predicate IsSameButHops(before: Packet, after: Packet) {
    && |after| == |before|
    && (forall i :: 0 <= i < |before| && i != FLAGS_OFFSET ==> after[i] == before[i])
    && ClearLowThreeBits(after[FLAGS_OFFSET]) == ClearLowThreeBits(before[FLAGS_OFFSET])
  }

  function WithOneMoreHop(packet: seq<u8>): Option<seq<u8>> {
    if |packet| < 19 || LowThreeBits(packet[FLAGS_OFFSET]) >= RELAY_MAX_HOPS then None
    else Some(packet[FLAGS_OFFSET := ClearLowThreeBits(packet[FLAGS_OFFSET]) + LowThreeBits(packet[FLAGS_OFFSET]) + 1])
  }

  method IncrementHops(packet: array<u8>) returns (ok: bool)
    modifies packet
    ensures ok <==> old(packet.Length >= 19 && LowThreeBits(packet[FLAGS_OFFSET]) < RELAY_MAX_HOPS)
    ensures !ok ==> packet[..] == old(packet[..])
    ensures ok ==> Some(packet[..]) == WithOneMoreHop(old(packet[..]))
  {
    if packet.Length < 19 {
      return false;
    }
    var flags := packet[FLAGS_OFFSET];
    var hops := LowThreeBits(flags);
    if hops >= RELAY_MAX_HOPS {
      return false;
    }
    packet[FLAGS_OFFSET] := ClearLowThreeBits(flags) + (hops + 1);
    return true;
  }

  /** The packet after `n` relays, if all of them forward it. */
  function Relayed(packet: Packet, n: nat): (r: Option<Packet>)
    ensures r.Some? ==> |r.value| == |packet|
  {
    if n == 0 then Some(packet)
    else
      var before := Relayed(packet, n - 1);
      if before.None? then None else WithOneMoreHop(before.value)
  }

  /** Relaying fails exactly when the hop limit is passed, and changes nothing but the hop count. */
  lemma {:induction false} RelayedHops(packet: Packet, n: nat)
    ensures Relayed(packet, n).Some? <==> n == 0 || Hops(packet) + n <= RELAY_MAX_HOPS
    ensures Relayed(packet, n).Some? ==>
      && IsSameButHops(packet, Relayed(packet, n).value)
      && Hops(Relayed(packet, n).value) == Hops(packet) + n
      && CipherSuite(Relayed(packet, n).value) == CipherSuite(packet)
  {
    if n != 0 {
      RelayedHops(packet, n - 1);
    }
  }

  /** A packet sent with hop count zero is forwarded at most three times. */
  lemma AtMostThreeHops(packet: Packet, n: nat)
    requires Hops(packet) == 0
    ensures Relayed(packet, n).Some? <==> n <= 3
  {
    RelayedHops(packet, n);
  }
}
