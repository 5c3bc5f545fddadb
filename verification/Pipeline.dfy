/** The send pipeline of virtual-network frames: build, armor and split; reassemble, relay and hand over. */
module Pipeline {
  import opened Wrappers
  import opened Bytes
  import opened Header
  import opened InetAddress
  import opened Fragment
  import opened FragmentRuns
  import opened Relay
  import opened SalsaArmor
  import opened NodeRuns
  import opened PendingPackets
  import AesGmacSiv
  import Node

  /** The verbs are numbered in five bits; the upper three of the verb byte are flags. */
  type Verb = v: u8 | v < 32

  datatype Message = Message(id: u64, ours: Address, dest: Address, verb: Verb, payload: seq<u8>)

  function Zeros8(): (s: seq<u8>)
    ensures |s| == 8
  {
    [0, 0, 0, 0, 0, 0, 0, 0]
  }

  function Head(m: Message): (s: seq<u8>)
    ensures |s| == FLAGS_OFFSET
  {
    BigEndian(m.id, 8) + m.dest + m.ours
  }

  /** A packet before armoring: hop count zero, suite 1, no MAC yet. */
  function PlainPacket(m: Message): (r: Packet)
    ensures |r| == PAYLOAD_OFFSET + |m.payload|
  {
    Head(m) + [8 * SUITE_POLY1305_SALSA2012] + Zeros8() + [m.verb] + m.payload
  }

  function SentPacket(p: SalsaPrimitives, secret: Secret, m: Message): Packet {
    Armored(p, secret, PlainPacket(m), true)
  }

  method BuildEncryptedVerbPacket(p: SalsaPrimitives, m: Message, secret: Secret) returns (r: Option<seq<u8>>)
    ensures r == Some(SentPacket(p, secret, m))
  {
    var suite: seq<u8>, verb: seq<u8> := [8 * SUITE_POLY1305_SALSA2012], [m.verb];
    var buf := new u8[28 + |m.payload|](_ => 0);
    hide Wrote, BigEndian, Armored;
    ghost var empty: seq<u8>, head: seq<u8> := buf[..], Head(m);
    var pos := Put(buf, 0, BigEndian(m.id, 8));
    pos := PutNext(empty, buf, 0, BigEndian(m.id, 8), pos, m.dest);
    pos := PutNext(empty, buf, 0, BigEndian(m.id, 8) + m.dest, pos, m.ours);
    pos := PutNext(empty, buf, 0, head, pos, suite);
    pos := PutNext(empty, buf, 0, head + suite, pos, Zeros8());
    pos := PutNext(empty, buf, 0, head + suite + Zeros8(), pos, verb);
    pos := PutNext(empty, buf, 0, head + suite + Zeros8() + verb, pos, m.payload);
    WroteAll(empty, buf[..], PlainPacket(m));
    var armored := ArmorPacket(p, secret, buf, true);
    return if armored.Ok? then Some(buf[..]) else None;
  }

  lemma WroteAll(before: seq<u8>, after: seq<u8>, bytes: seq<u8>)
    requires Wrote(before, after, 0, bytes) && |bytes| == |before|
    ensures after == bytes
  {
  }

  /** The pieces, each to be sent to `address`. */
  function Addressed(pieces: seq<seq<u8>>, address: SocketAddr): (r: seq<(seq<u8>, SocketAddr)>)
    ensures |r| == |pieces|
    ensures forall i :: 0 <= i < |r| ==> r[i] == (pieces[i], address)
  {
    seq(|pieces|, i requires 0 <= i < |pieces| => (pieces[i], address))
  }

  /** The sends queued for a packet: as it is if it is short enough, or split; none if it cannot be split. */
  ghost predicate AreSendsOf(sends: seq<(seq<u8>, SocketAddr)>, packet: seq<u8>, address: SocketAddr, mtu: nat) {
    if |packet| <= mtu then sends == Addressed([packet], address)
    else if !CanFragment(packet, mtu) then sends == []
    else exists fragments: seq<RawFragment> :: IsSplit(fragments, packet, mtu) && sends == Addressed(fragments, address)
  }

  method PushFragmentedSend(actions: seq<(seq<u8>, SocketAddr)>, packet: seq<u8>, address: SocketAddr, mtu: nat)
    returns (r: seq<(seq<u8>, SocketAddr)>)
    ensures actions <= r && AreSendsOf(r[|actions|..], packet, address, mtu)
  {
    r := actions;
    assert r[|actions|..] == [];
    var fragments := FragmentPacket(packet, mtu);
    if fragments.Some? {
      r := SendEach(actions, fragments.value, address);
      assert r[|actions|..] == Addressed(fragments.value, address);
    }
  }

  method SendEach(actions: seq<(seq<u8>, SocketAddr)>, pieces: seq<seq<u8>>, address: SocketAddr)
    returns (r: seq<(seq<u8>, SocketAddr)>)
    ensures r == actions + Addressed(pieces, address)
  {
    r := actions;
    for i := 0 to |pieces|
      invariant r == actions + Addressed(pieces[..i], address)
    {
      assert Addressed(pieces[..i + 1], address) == Addressed(pieces[..i], address) + [(pieces[i], address)];
      r := r + [(pieces[i], address)];
    }
    assert pieces[..|pieces|] == pieces;
  }

  // --- Opening ---

  /** The packet is from `ours` to `dest` and carries the message's verb and payload. */
  predicate IsCopyOf(packet: Packet, m: Message) {
    && PacketId(packet) == m.id && Source(packet) == m.ours && Destination(packet) == m.dest
    && packet[VERB_OFFSET] == m.verb && packet[PAYLOAD_OFFSET..] == m.payload
  }

  predicate OpensTo(p: SalsaPrimitives, secret: Secret, arrived: Packet, m: Message) {
    var r := Dearmored(p, secret, arrived);
    r.Some? && IsCopyOf(r.value, m)
  }

  /** What the plain packet says in its clear part stays there when it is armored. */
  lemma SentHead(p: SalsaPrimitives, secret: Secret, m: Message)
    ensures var sent := SentPacket(p, secret, m);
      && sent[..FLAGS_OFFSET] == Head(m) && sent[FLAGS_OFFSET] == 8 * SUITE_POLY1305_SALSA2012
      && PlainPacket(m)[FLAGS_OFFSET] == 8 * SUITE_POLY1305_SALSA2012
      && PlainPacket(m)[VERB_OFFSET..] == [m.verb] + m.payload
  {
    var plain := PlainPacket(m);
    assert plain[..FLAGS_OFFSET] == Head(m);
    assert plain[VERB_OFFSET..] == [m.verb] + m.payload;
  }

  lemma HeadFields(m: Message, packet: Packet)
    requires packet[..FLAGS_OFFSET] == Head(m)
    ensures PacketId(packet) == m.id && Destination(packet) == m.dest && Source(packet) == m.ours
    ensures packet[13] == m.ours[0]
  {
    var head := Head(m);
    assert packet[0..8] == head[0..8] == BigEndian(m.id, 8);
    assert packet[8..13] == head[8..13] == m.dest;
    assert packet[13..18] == head[13..18] == m.ours;
    assert packet[13] == packet[13..18][0];
    Pow256Values();
    BigEndianExact(m.id, 8);
  }

  /** A packet that differs from the sent one in its hop count only is still addressed, and opens to what was sent. */
  lemma ArrivedOpens(p: SalsaPrimitives, secret: Secret, m: Message, arrived: Packet)
    requires IsSameButHops(SentPacket(p, secret, m), arrived)
    ensures OpensTo(p, secret, arrived, m)
    ensures arrived[..FLAGS_OFFSET] == Head(m) && CipherSuite(arrived) == SUITE_POLY1305_SALSA2012
  {
    var plain, sent := PlainPacket(m), SentPacket(p, secret, m);
    hide Dearmored, Armored, PlainPacket, Crypted;
    SentHead(p, secret, m);
    ArmorSurvivesRelays(p, secret, plain, true, arrived);
    var r := Dearmored(p, secret, arrived).value;
    assert CipherSuite(plain) == SUITE_POLY1305_SALSA2012;
    assert r[VERB_OFFSET..] == [m.verb] + m.payload;
    assert r[VERB_OFFSET] == r[VERB_OFFSET..][0];
    assert r[PAYLOAD_OFFSET..] == r[VERB_OFFSET..][1..] == m.payload;
    assert r[..FLAGS_OFFSET] == r[..VERB_OFFSET][..FLAGS_OFFSET] == arrived[..FLAGS_OFFSET] == sent[..FLAGS_OFFSET];
    HeadFields(m, r);
  }

  // --- Receiving ---

  /** The receiver shares the secret with the sender. */
  predicate SharesSecret(peers: Node.Peers, secret: Secret, m: Message) {
    m.ours in peers && peers[m.ours].sharedSecret == Some(secret)
  }

  /** The receive path takes `data` for a packet of its own and opens it to the message. */
  ghost predicate IsAccepted<S>(env: Node.Environment<S>, peers: Node.Peers, data: seq<u8>, m: Message) {
    && !IsFragment(data) && |data| >= MIN_PACKET_LENGTH && Destination(data) == m.dest && Source(data) == m.ours
    && match Node.Opened(env, peers, data)
      case None => false
      case Some((packet, verbId)) => verbId == m.verb && IsCopyOf(packet, m)
  }

  /** A packet carrying the message was acted on, under its verb. */
  ghost predicate IsHandedOver<S(!new)>(
    env: Node.Environment<S>, v: Node.View<S>, v': Node.View<S>, m: Message, from: SocketAddr, now: u64)
  {
    exists packet: Packet :: IsCopyOf(packet, m) && Node.IsHandled(env, m.dest, v, v', m.ours, packet, m.verb, from, now)
  }

  /**
   An arrived packet is taken for a packet, and not for a fragment, exactly when the sender's address does not begin
   with the fragment indicator; and then it is accepted as the message.
   */
  lemma ArrivedIsAccepted<S>(env: Node.Environment<S>, peers: Node.Peers, secret: Secret, m: Message, arrived: Packet)
    requires IsSameButHops(SentPacket(env.salsa, secret, m), arrived) && SharesSecret(peers, secret, m)
    ensures IsFragment(arrived) <==> m.ours[0] == FRAGMENT_INDICATOR
    ensures IsAccepted(env, peers, arrived, m) <==> m.ours[0] != FRAGMENT_INDICATOR
  {
    hide SentPacket, IsSameButHops, Dearmored;
    ArrivedOpens(env.salsa, secret, m, arrived);
    HeadFields(m, arrived);
  }

  lemma AcceptedIsHandedOver<S(!new)>(
    env: Node.Environment<S>, v: Node.View<S>, v': Node.View<S>, data: Packet, m: Message, from: SocketAddr, now: u64,
    waits: bool)
    requires IsAccepted(env, v.peers, data, m)
    requires Node.IsReceived(env, m.dest, v, v', data, from, now, waits)
    ensures IsHandedOver(env, v, v', m, from, now)
  {
    hide Node.IsHandled, Node.Opened, IsCopyOf;
    var (packet, _) := Node.Opened(env, v.peers, data).value;
    assert IsCopyOf(packet, m) && Node.IsHandled(env, m.dest, v, v', m.ours, packet, m.verb, from, now);
  }

  /** A node that is not the destination forwards the packet with one more hop, or drops it at the limit. */
  lemma RelayPassesOn<S(!new)>(
    env: Node.Environment<S>, address: Address, v: Node.View<S>, v': Node.View<S>, sent: Packet, i: nat,
    from: SocketAddr, now: u64, waits: bool)
    requires Relayed(sent, i).Some? && Destination(Relayed(sent, i).value) != address
    requires Node.IsReceived(env, address, v, v', Relayed(sent, i).value, from, now, waits)
    ensures match Relayed(sent, i + 1)
      case None => v' == v
      case Some(next) =>
        var (state, more) := env.forward(v.state, v.peers, next, now);
        v' == v.(state := state, actions := v.actions + more, emitted := v.emitted + more)
  {
    if Relayed(sent, i + 1).None? {
      assert v.actions + [] == v.actions && v.emitted + [] == v.emitted;
    }
  }

  /** `n` relays pass the packet on, every one of them taking it for a packet and not for a fragment. */
  predicate IsPassedOn(sent: Packet, n: nat) {
    forall i | 0 <= i <= n :: Relayed(sent, i).Some? && !IsFragment(Relayed(sent, i).value)
  }

  /** After `n` relays the receiver accepts the packet as the message. */
  ghost predicate IsDelivered<S>(env: Node.Environment<S>, peers: Node.Peers, sent: Packet, n: nat, m: Message) {
    IsPassedOn(sent, n) && IsAccepted(env, peers, Relayed(sent, n).value, m)
  }

  /** A sent packet gets through at most three relays, and only from an address that does not look like a fragment. */
  lemma SentIsDelivered<S>(env: Node.Environment<S>, peers: Node.Peers, secret: Secret, m: Message, n: nat)
    requires SharesSecret(peers, secret, m)
    ensures IsDelivered(env, peers, SentPacket(env.salsa, secret, m), n, m) <==> n <= 3 && m.ours[0] != FRAGMENT_INDICATOR
  {
    hide SentPacket, Relayed, IsSameButHops, IsAccepted;
    var sent := SentPacket(env.salsa, secret, m);
    SentHead(env.salsa, secret, m);
    RelayedHops(sent, n);
    if n <= 3 {
      forall i: nat | i <= n
        ensures Relayed(sent, i).Some? && (IsFragment(Relayed(sent, i).value) <==> m.ours[0] == FRAGMENT_INDICATOR)
        ensures IsAccepted(env, peers, Relayed(sent, i).value, m) <==> m.ours[0] != FRAGMENT_INDICATOR
      {
        RelayedHops(sent, i);
        ArrivedIsAccepted(env, peers, secret, m, Relayed(sent, i).value);
      }
    }
  }

  // --- All cipher suites ---

  /** The packet as a peer that shares its keys with the receiver armors it, under the suite its flags name. */
  ghost predicate IsArmored<S>(env: Node.Environment<S>, peer: Node.KnownPeer, packet: Packet, sent: Packet) {
    match CipherSuite(packet)
    case 0 => peer.sharedSecret.Some? && sent == Armored(env.salsa, peer.sharedSecret.value, packet, false)
    case 1 => peer.sharedSecret.Some? && sent == Armored(env.salsa, peer.sharedSecret.value, packet, true)
    case 3 =>
      && env.aes.Inverts() && peer.aesKeys.Some?
      && var (k0, k1) := peer.aesKeys.value;
        sent == AesGmacSiv.AesArmored(env.aes, k0, k1, packet, AesGmacSiv.BuildAesAad(packet))
    case _ => false
  }

  /** A packet's plain body behind the header it arrived with. */
  function WithBody(arrived: Packet, packet: Packet): (r: Packet) {
    arrived[..VERB_OFFSET] + packet[VERB_OFFSET..]
  }

  /** A verified packet is acted on: as it is, or, if its verb's top bit is set, as what it decompresses to, if anything. */
  ghost predicate IsActedOn<S(!new)>(
    env: Node.Environment<S>, v: Node.View<S>, v': Node.View<S>, clear: Packet, from: SocketAddr, now: u64)
  {
    if clear[VERB_OFFSET] < 0x80 then
      Node.IsHandled(env, Destination(clear), v, v', Source(clear), clear, clear[VERB_OFFSET] % 32, from, now)
    else
      match env.decompress(clear)
      case None => v' == v
      case Some(inflated) => Node.IsHandled(env, Destination(clear), v, v', Source(clear), inflated, inflated[VERB_OFFSET] % 32, from, now)
  }

  lemma SalsaOpens<S>(env: Node.Environment<S>, peers: Node.Peers, packet: Packet, sent: Packet, arrived: Packet)
    requires Source(packet) in peers && IsArmored(env, peers[Source(packet)], packet, sent) && IsSameButHops(sent, arrived)
    requires CipherSuite(packet) <= 1
    ensures SalsaArmor.Dearmored(env.salsa, peers[Source(packet)].sharedSecret.value, arrived) ==
      Some(WithBody(arrived, packet))
    ensures SameClearPart(packet, arrived)
  {
    var secret, encrypt := peers[Source(packet)].sharedSecret.value, CipherSuite(packet) == 1;
    ArmorSurvivesRelays(env.salsa, secret, packet, encrypt, arrived);
    var r := Dearmored(env.salsa, secret, arrived).value;
    assert r == r[..VERB_OFFSET] + r[VERB_OFFSET..];
    assert sent[..MAC_OFFSET] == packet[..MAC_OFFSET];
    ClearPart(packet, sent, arrived);
  }

  /** Addresses and flags, the hop count aside. */
  predicate SameClearPart(packet: Packet, arrived: Packet) {
    && Destination(arrived) == Destination(packet) && Source(arrived) == Source(packet)
    && CipherSuite(arrived) == CipherSuite(packet)
  }

  lemma ClearPart(packet: Packet, sent: Packet, arrived: Packet)
    requires sent[8..MAC_OFFSET] == packet[8..MAC_OFFSET] && IsSameButHops(sent, arrived)
    ensures SameClearPart(packet, arrived)
  {
    forall i | 8 <= i < MAC_OFFSET ensures sent[i] == packet[i] {
      assert sent[i] == sent[8..MAC_OFFSET][i - 8] == packet[8..MAC_OFFSET][i - 8];
    }
  }

  lemma AesOpens<S>(env: Node.Environment<S>, peers: Node.Peers, packet: Packet, sent: Packet, n: nat)
    requires Source(packet) in peers && IsArmored(env, peers[Source(packet)], packet, sent)
    requires CipherSuite(packet) == 3 && Relayed(sent, n).Some?
    ensures var arrived := Relayed(sent, n).value;
      var (k0, k1) := peers[Source(packet)].aesKeys.value;
      && AesGmacSiv.AesDearmored(env.aes, k0, k1, arrived, AesGmacSiv.BuildAesAad(arrived)) == (WithBody(arrived, packet), true)
      && SameClearPart(packet, arrived)
  {
    var arrived := Relayed(sent, n).value;
    var (k0, k1) := peers[Source(packet)].aesKeys.value;
    RelayedHops(sent, n);
    AesGmacSiv.AesArmorSurvivesRelays(env.aes, k0, k1, packet, n);
    AesGmacSiv.SameButHopsItself(sent);
    AesGmacSiv.DearmorInvertsArmor(env.aes, k0, k1, packet, AesGmacSiv.BuildAesAad(packet), sent);
    var r := AesGmacSiv.AesDearmored(env.aes, k0, k1, arrived, AesGmacSiv.BuildAesAad(arrived)).0;
    assert r == r[..VERB_OFFSET] + r[VERB_OFFSET..];
    ClearPart(packet, sent, arrived);
  }

  /**
   Under each suite, what a known peer armored, with the keys it shares with the receiver and in the receiver's order, is
   verified after any number of relays and acted on: its plain body, under its own verb. Only a HELLO under suite 0 is
   not verified here.
   */
  lemma ArmoredIsActedOn<S(!new)>(
    env: Node.Environment<S>, v: Node.View<S>, v': Node.View<S>, packet: Packet, sent: Packet, n: nat,
    from: SocketAddr, now: u64)
    requires Source(packet) in v.peers && IsArmored(env, v.peers[Source(packet)], packet, sent)
    requires CipherSuite(packet) != 0 || VerbId(packet) != Node.VERB_HELLO
    requires Relayed(sent, n).Some?
    requires Node.IsReceived(env, Destination(packet), v, v', Relayed(sent, n).value, from, now, false)
    ensures IsActedOn(env, v, v', WithBody(Relayed(sent, n).value, packet), from, now)
  {
    var arrived := Relayed(sent, n).value;
    ArmoredVerifies(env, v.peers, packet, sent, n);
    hide Node.Dearmor, Node.IsHandled, Node.IsReceived, IsArmored, Relayed;
    VerifiedIsActedOn(env, v, v', arrived, WithBody(arrived, packet), from, now);
  }

  lemma VerifiedIsActedOn<S(!new)>(
    env: Node.Environment<S>, v: Node.View<S>, v': Node.View<S>, arrived: Packet, clear: Packet, from: SocketAddr, now: u64)
    requires Node.Dearmor(env, v.peers, arrived) == (true, clear) && clear[..VERB_OFFSET] == arrived[..VERB_OFFSET]
    requires Node.IsReceived(env, Destination(arrived), v, v', arrived, from, now, false)
    ensures IsActedOn(env, v, v', clear, from, now)
  {
    hide Node.Dearmor, Node.IsHandled;
    assert Source(clear) == Source(arrived) && Destination(clear) == Destination(arrived) by {
      assert clear[8..13] == clear[..VERB_OFFSET][8..13] && clear[13..18] == clear[..VERB_OFFSET][13..18];
    }
  }

  lemma ArmoredVerifies<S>(env: Node.Environment<S>, peers: Node.Peers, packet: Packet, sent: Packet, n: nat)
    requires Source(packet) in peers && IsArmored(env, peers[Source(packet)], packet, sent) && Relayed(sent, n).Some?
    requires CipherSuite(packet) != 0 || VerbId(packet) != Node.VERB_HELLO
    ensures Node.Dearmor(env, peers, Relayed(sent, n).value) == (true, WithBody(Relayed(sent, n).value, packet))
    ensures SameClearPart(packet, Relayed(sent, n).value)
  {
    var arrived := Relayed(sent, n).value;
    RelayedHops(sent, n);
    if CipherSuite(packet) == 3 {
      AesOpens(env, peers, packet, sent, n);
      hide Dearmored, AesGmacSiv.AesDearmored, IsArmored, Relayed;
    } else {
      SalsaOpens(env, peers, packet, sent, arrived);
      assert CipherSuite(packet) == 0 ==> arrived[VERB_OFFSET] == packet[VERB_OFFSET];
      hide Dearmored, AesGmacSiv.AesDearmored, IsArmored, Relayed;
    }
  }

  /** What was armored by a peer that was unknown when it arrived is acted on when it is replayed, the peer being known. */
  lemma WaitingIsActedOn<S(!new)>(
    env: Node.Environment<S>, v: Node.View<S>, v': Node.View<S>, packet: Packet, sent: Packet, n: nat,
    p: PendingPacket, now: u64)
    requires Source(packet) in v.peers && IsArmored(env, v.peers[Source(packet)], packet, sent) && CipherSuite(packet) != 0
    requires Relayed(sent, n).Some? && p.data == Relayed(sent, n).value
    requires Node.IsReplayedOne(env, Destination(packet), p, v, v', now)
    ensures v.actions <= v'.actions
    ensures IsActedOn(env, v.(actions := [], replayed := v.replayed + [p]), v'.(actions := v'.actions[|v.actions|..]),
                      WithBody(p.data, packet), p.from, Max(now, p.receivedAt))
  {
    hide IsActedOn, IsArmored, Relayed, Node.IsReceived, WithBody;
    ArmoredIsActedOn(env, v.(actions := [], replayed := v.replayed + [p]), v'.(actions := v'.actions[|v.actions|..]),
                     packet, sent, n, p.from, Max(now, p.receivedAt));
  }

  // --- End to end ---

  /** The pieces of the message's packet, received among any other traffic that does not drop it. */
  ghost predicate IsReceivedInPieces(
    p: SalsaPrimitives, secret: Secret, m: Message, mtu: nat, fragments: seq<RawFragment>,
    initial: Pending, maxPending: nat, arrivals: seq<Arrival>)
  {
    && IsSplit(fragments, SentPacket(p, secret, m), mtu)
    && IsDeliveryOf(SentPacket(p, secret, m), fragments, initial, maxPending, EventsOf(initial, maxPending, arrivals))
  }

  /** With arrival `k`, for the first time, every piece has arrived. */
  ghost predicate IsLastPiece(
    m: Message, fragments: seq<RawFragment>, initial: Pending, maxPending: nat, arrivals: seq<Arrival>, k: nat)
  {
    && k < |arrivals| && IsPieceOf(arrivals, k, m.id)
    && Numbers(EventsOf(initial, maxPending, arrivals[..k]), m.id) != AllNumbers(|fragments|)
    && Numbers(EventsUpTo(initial, maxPending, arrivals, k), m.id) == AllNumbers(|fragments|)
  }

  /** The last piece comes to the sent packet exactly when the sender's address does not begin with the indicator. */
  lemma PiecesComeToPacket(
    p: SalsaPrimitives, secret: Secret, m: Message, mtu: nat, fragments: seq<RawFragment>,
    initial: Pending, maxPending: nat, arrivals: seq<Arrival>, k: nat)
    requires IsReceivedInPieces(p, secret, m, mtu, fragments, initial, maxPending, arrivals)
    requires IsLastPiece(m, fragments, initial, maxPending, arrivals, k)
    ensures GotAt(initial, maxPending, arrivals, k) == Some(SentPacket(p, secret, m)) <==> m.ours[0] != FRAGMENT_INDICATOR
  {
    var sent := SentPacket(p, secret, m);
    hide SentPacket, IsDeliveryOf, EventsOf, EventsUpTo, Numbers, AllNumbers, BufferAfter, Node.Reassembled;
    SentHead(p, secret, m);
    HeadFields(m, sent);
    if m.ours[0] != FRAGMENT_INDICATOR {
      NodeReassembles(sent, mtu, fragments, initial, maxPending, arrivals, k);
    }
  }

  /**
   The whole pipeline: a node receives the pieces of a sent packet in any order, repeated and mixed with any other
   traffic. The last one comes to the packet, and relayed `n` times the packet is delivered exactly if `n` is at most
   three, in both cases provided that the sender's address does not begin with the fragment indicator; and a receiver
   then hands the message to its handlers.
   */
  lemma PayloadArrives<S(!new)>(
    env: Node.Environment<S>, secret: Secret, m: Message, mtu: nat, fragments: seq<RawFragment>,
    initial: Pending, maxPending: nat, arrivals: seq<Arrival>, k: nat, n: nat,
    v: Node.View<S>, v': Node.View<S>, from: SocketAddr, now: u64, waits: bool)
    requires IsReceivedInPieces(env.salsa, secret, m, mtu, fragments, initial, maxPending, arrivals)
    requires IsLastPiece(m, fragments, initial, maxPending, arrivals, k)
    requires SharesSecret(v.peers, secret, m)
    ensures var got, sent := GotAt(initial, maxPending, arrivals, k), SentPacket(env.salsa, secret, m);
      && (got == Some(sent) <==> m.ours[0] != FRAGMENT_INDICATOR)
      && (IsDelivered(env, v.peers, sent, n, m) <==> n <= 3 && m.ours[0] != FRAGMENT_INDICATOR)
      && (IsDelivered(env, v.peers, sent, n, m) ==>
        Node.IsReceived(env, m.dest, v, v', Relayed(sent, n).value, from, now, waits) ==> IsHandedOver(env, v, v', m, from, now))
  {
    var sent := SentPacket(env.salsa, secret, m);
    PiecesComeToPacket(env.salsa, secret, m, mtu, fragments, initial, maxPending, arrivals, k);
    hide SentPacket, Relayed, IsAccepted, Node.IsReceived, IsHandedOver, GotAt;
    SentIsDelivered(env, v.peers, secret, m, n);
    if IsDelivered(env, v.peers, sent, n, m) {
      var arrived := Relayed(sent, n).value;
      if Node.IsReceived(env, m.dest, v, v', arrived, from, now, waits) {
        AcceptedIsHandedOver(env, v, v', arrived, m, from, now, waits);
      }
    }
  }

  /** Without relays in between the very reception of the last piece hands the message over. */
  lemma LastPieceHandsOver<S(!new)>(
    env: Node.Environment<S>, secret: Secret, m: Message, mtu: nat, fragments: seq<RawFragment>,
    initial: Pending, maxPending: nat, arrivals: seq<Arrival>, k: nat,
    v: Node.View<S>, v': Node.View<S>, output: seq<Node.Action>)
    requires IsReceivedInPieces(env.salsa, secret, m, mtu, fragments, initial, maxPending, arrivals)
    requires IsLastPiece(m, fragments, initial, maxPending, arrivals, k) && m.ours[0] != FRAGMENT_INDICATOR
    requires SharesSecret(v.peers, secret, m)
    requires IsArrival(env, m.dest, v, v', arrivals[k], GotAt(initial, maxPending, arrivals, k), output)
    ensures IsHandedOver(env, v.(actions := []), v'.(actions := output), m, arrivals[k].from, arrivals[k].now)
  {
    var got, from, now := GotAt(initial, maxPending, arrivals, k), arrivals[k].from, arrivals[k].now;
    var u, u' := v.(actions := []), v'.(actions := output);
    var waits: bool :| Node.IsReception(env, m.dest, u, u', got, from, now, waits);
    PayloadArrives(env, secret, m, mtu, fragments, initial, maxPending, arrivals, k, 0, u, u', from, now, waits);
  }
}
