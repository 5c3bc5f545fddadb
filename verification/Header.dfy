/**
 Packet and fragment header fields.

 A packet is [IV:8][destination:5][source:5][flags:1][MAC:8][verb:1] and its payload; the flags
 byte is FFCCCHHH. A fragment is [packet ID:8][destination:5][0xff][total:4|number:4][hops:1]
 and a slice of the packet.
 */
module Header {
  import opened Bytes

  const MIN_PACKET_LENGTH := 28
  const MIN_FRAGMENT_LENGTH := 16
  const MAX_PACKET_FRAGMENTS := 7
  const FRAGMENT_INDICATOR: u8 := 0xff
  const RELAY_MAX_HOPS: u8 := 3

  const FLAGS_OFFSET := 18
  const MAC_OFFSET := 19
  const MAC_LENGTH := 8
  const VERB_OFFSET := 27
  const PAYLOAD_OFFSET := 28

  const SUITE_POLY1305_NONE: u8 := 0
  const SUITE_POLY1305_SALSA2012: u8 := 1
  const SUITE_AES_GMAC_SIV: u8 := 3

  type Packet = p: seq<u8> | |p| >= MIN_PACKET_LENGTH
    witness seq(MIN_PACKET_LENGTH, _ => 0)

  function PacketId(packet: Packet): (id: u64) {
    Pow256Values();
    FromBigEndianBound(packet[0..8]);
    FromBigEndian(packet[0..8])
  }

  function Destination(packet: Packet): Address {
    packet[8..13]
  }

  function Source(packet: Packet): Address {
    packet[13..18]
  }

  function CipherSuite(packet: Packet): (suite: u8) {
    packet[FLAGS_OFFSET] / 8 % 8
  }

  function Hops(packet: Packet): (hops: u8) {
    LowThreeBits(packet[FLAGS_OFFSET])
  }

  /** The low five bits of the verb byte. */
  function VerbId(packet: Packet): (verb: u8) {
    packet[VERB_OFFSET] % 32
  }

  /** The top bit of the verb byte. */
  predicate IsCompressed(packet: Packet) {
    packet[VERB_OFFSET] >= 0x80
  }

  // --- Fragments ---

  predicate IsFragment(data: seq<u8>) {
    |data| >= MIN_FRAGMENT_LENGTH && data[13] == FRAGMENT_INDICATOR
  }

  type RawFragment = f: seq<u8> | |f| >= MIN_FRAGMENT_LENGTH
    witness seq(MIN_FRAGMENT_LENGTH, _ => 0)

  function FragmentPacketId(fragment: RawFragment): (id: u64) {
    Pow256Values();
    FromBigEndianBound(fragment[0..8]);
    FromBigEndian(fragment[0..8])
  }

  function TotalFragments(fragment: RawFragment): (total: u8) {
    fragment[14] / 16
  }

  function FragmentNumber(fragment: RawFragment): (number: u8) {
    fragment[14] % 16
  }
}
