/**
 The node's receive path. It re-enters itself in two ways: a reassembled packet is received again,
 and a WHOIS answer replays the packets that waited for the identity it brings.

 Cryptographic primitives, decompression, payload decoding and the handlers of single verbs are
 parameters. The handlers may change any state of their own (networks, subscriptions, counters, ...), change or add
 peers and emit actions, but forget no peer.
 */
module Node {
  import opened Wrappers
  import opened Bytes
  import opened Header
  import opened InetAddress
  import opened Fragment
  import opened Relay
  import opened PendingPackets
  import SalsaArmor
  import AesGmacSiv
  import IdentityWire

  const VERB_HELLO: u8 := 0x01
  const VERB_OK: u8 := 0x03

  datatype Action =
    | SendTo(data: seq<u8>, address: SocketAddr)
    | WhoisNeeded(addresses: seq<Address>)
    | Notify(kind: nat, data: seq<u8>)

  /** What receiving asks of a peer. */
  datatype KnownPeer = KnownPeer(
    sharedSecret: Option<SalsaArmor.Secret>,
    aesKeys: Option<(SalsaArmor.Key, SalsaArmor.Key)>,
    paths: seq<SocketAddr>)
  {
    /** Promoting or adding a path: its address is known afterwards. */
    function WithPath(from: SocketAddr): KnownPeer {
      if from in paths then this else this.(paths := paths + [from])
    }
  }

  type Peers = map<Address, KnownPeer>

  type Identity = IdentityWire.Identity

  /** What the receive path calls; `S` is whatever state the handlers keep. */
  datatype Environment<!S> = Environment(
    salsa: SalsaArmor.SalsaPrimitives,
    aes: AesGmacSiv.AesPrimitives,
    decompress: Packet -> Option<Packet>,
    /** The identities of an OK(WHOIS); none for any other OK. */
    whoisAnswer: Packet -> Option<seq<Identity>>,
    isGenuine: (Peers, Identity) -> bool,
    newPeer: Identity -> KnownPeer,
    /** The HELLO for a newly learned peer, if a root can carry it. */
    greet: (S, Peers, Identity, u64) -> (S, Option<Action>),
    forward: (S, Peers, Packet, u64) -> (S, seq<Action>),
    handle: (S, Peers, u8, Packet, SocketAddr, u64) -> (S, Peers, seq<Action>))

  // --- Verifying and decrypting ---

  function SalsaDearmor<S>(env: Environment<S>, peers: Peers, data: Packet): (bool, Packet) {
    var source := Source(data);
    if source in peers && peers[source].sharedSecret.Some? then
      match SalsaArmor.Dearmored(env.salsa, peers[source].sharedSecret.value, data)
      case Some(clear) => (true, clear)
      case None => (false, data)
    else
      (false, data)
  }

  /** Whether the packet verified, and the packet as it is afterwards. */
  function Dearmor<S>(env: Environment<S>, peers: Peers, data: Packet): (r: (bool, Packet))
    ensures Source(data) !in peers ==> r == (false, data)
  {
    var source, suite := Source(data), CipherSuite(data);
    if suite == SUITE_POLY1305_NONE then
      if VerbId(data) == VERB_HELLO then (false, data) else SalsaDearmor(env, peers, data)
    else if suite == SUITE_POLY1305_SALSA2012 then
      SalsaDearmor(env, peers, data)
    else if suite == SUITE_AES_GMAC_SIV && source in peers && peers[source].aesKeys.Some? then
      var (k0, k1) := peers[source].aesKeys.value;
      var (clear, ok) := AesGmacSiv.AesDearmored(env.aes, k0, k1, data, AesGmacSiv.BuildAesAad(data));
      (ok, clear)
    else
      (false, data)
  }

  /** The packet to act on and its verb; none when the packet is dropped or has to wait. */
  function Opened<S>(env: Environment<S>, peers: Peers, data: Packet): Option<(Packet, u8)> {
    var (dearmored, clear) := Dearmor(env, peers, data);
    if !dearmored then
      if CipherSuite(data) == SUITE_POLY1305_NONE then Some((data, VerbId(data))) else None
    else if IsCompressed(clear) then
      match env.decompress(clear)
      case None => None
      case Some(inflated) => Some((inflated, VerbId(inflated)))
    else
      Some((clear, VerbId(clear)))
  }

  /** The MAC is the one the secret shared with the source gives. */
  predicate HasMac<S>(env: Environment<S>, peers: Peers, data: Packet) {
    && Source(data) in peers && peers[Source(data)].sharedSecret.Some?
    && SalsaArmor.Dearmored(env.salsa, peers[Source(data)].sharedSecret.value, data).Some?
  }

  /**
   A packet is acted on without having been verified exactly if it says it is not encrypted, and is a HELLO or lacks the
   MAC; and then it is acted on as it stands, under whatever verb it names.
   */
  lemma ActedOnUnverified<S>(env: Environment<S>, peers: Peers, data: Packet)
    ensures !Dearmor(env, peers, data).0 && Opened(env, peers, data).Some? <==>
      CipherSuite(data) == SUITE_POLY1305_NONE && (VerbId(data) == VERB_HELLO || !HasMac(env, peers, data))
    ensures !Dearmor(env, peers, data).0 && Opened(env, peers, data).Some? ==>
      Opened(env, peers, data) == Some((data, VerbId(data)))
  {
    hide SalsaArmor.Dearmored;
  }

  /**
   A packet is verified exactly if some packet comes out as this one when armored, under its suite, with the keys shared
   with its source; a packet of an unknown suite never is, and neither is a HELLO under suite 0.
   */
  lemma VerifiedExactly<S>(env: Environment<S>, peers: Peers, data: Packet)
    requires AesGmacSiv.IsCipher(env.aes)
    ensures Dearmor(env, peers, data).0 <==>
      && Source(data) in peers
      && var peer := peers[Source(data)];
      match CipherSuite(data)
      case 0 =>
        && VerbId(data) != VERB_HELLO && peer.sharedSecret.Some?
        && exists plain: Packet :: SalsaArmor.IsArmorOf(env.salsa, peer.sharedSecret.value, data, plain)
      case 1 =>
        && peer.sharedSecret.Some?
        && exists plain: Packet :: SalsaArmor.IsArmorOf(env.salsa, peer.sharedSecret.value, data, plain)
      case 3 =>
        && peer.aesKeys.Some?
        && exists plain: Packet ::
          AesGmacSiv.AesArmored(env.aes, peer.aesKeys.value.0, peer.aesKeys.value.1, plain, AesGmacSiv.BuildAesAad(data)) == data
      case _ => false
  {
    if Source(data) in peers {
      var peer := peers[Source(data)];
      hide SalsaArmor.Dearmored, SalsaArmor.IsArmorOf, AesGmacSiv.AesDearmored, AesGmacSiv.AesArmored;
      if peer.sharedSecret.Some? {
        SalsaArmor.VerifiesExactly(env.salsa, peer.sharedSecret.value, data);
      }
      if peer.aesKeys.Some? {
        var (k0, k1) := peer.aesKeys.value;
        AesGmacSiv.VerifiesExactly(env.aes, k0, k1, data, AesGmacSiv.BuildAesAad(data));
      }
    }
  }

  function WhoisAnswer<S>(env: Environment<S>, packet: Packet, verbId: u8): Option<seq<Identity>> {
    if verbId == VERB_OK then env.whoisAnswer(packet) else None
  }

  /** The source's path is noted before its packet is acted on. */
  function Noted(peers: Peers, source: Address, from: SocketAddr): Peers {
    if source in peers then peers[source := peers[source].WithPath(from)] else peers
  }

  /** A packet for someone else is forwarded with one more hop, or dropped at the hop limit. */
  function Forwarded<S>(env: Environment<S>, state: S, peers: Peers, data: Packet, now: u64): (S, seq<Action>) {
    match WithOneMoreHop(data)
    case Some(hopped) => env.forward(state, peers, hopped, now)
    case None => (state, [])
  }

  // --- Termination ---

  /** What a fragment's handling can still cost: its bytes and those held for other fragments. */
  ghost function FragmentBudget(data: seq<u8>, pending: Pending): (n: nat) {
    if IsFragment(data) then 1 + |data| + StoredBytes(pending) else 0
  }

  /** The buffer with one fragment more, and what that completes. */
  ghost function Inserted(pending: Pending, maxPending: nat, data: seq<u8>, now: u64): (r: (Pending, Option<seq<u8>>))
    requires IsFragment(data)
  {
    InsertResult(pending, maxPending, FragmentPacketId(data), FragmentNumber(data), TotalFragments(data),
                 data[MIN_FRAGMENT_LENGTH..], now)
  }

  /** A reassembled packet that is itself a fragment leaves at least 16 bytes less to handle. */
  lemma ReentryShrinks(pending: Pending, maxPending: nat, data: seq<u8>, now: u64)
    requires IsFragment(data)
    ensures var r := Inserted(pending, maxPending, data, now);
      r.1.Some? ==> FragmentBudget(r.1.value, r.0) + MIN_FRAGMENT_LENGTH <= FragmentBudget(data, pending)
  {
    InsertConservesBytes(pending, maxPending, FragmentPacketId(data), FragmentNumber(data),
                         TotalFragments(data), data[MIN_FRAGMENT_LENGTH..], now);
  }

  /**
   What receiving `data` makes of the reassembly buffer, and the packet it comes to in the end: `data` itself, or what
   the fragment completes, which may be a fragment again.
   */
  ghost function Reassembled(pending: Pending, maxPending: nat, data: seq<u8>, now: u64): (r: (Pending, Option<seq<u8>>))
    ensures r.1.Some? ==> !IsFragment(r.1.value)
    decreases FragmentBudget(data, pending)
  {
    if !IsFragment(data) then (pending, Some(data))
    else if |data| <= MIN_FRAGMENT_LENGTH then (pending, None)
    else
      var (next, completed) := Inserted(pending, maxPending, data, now);
      match completed
      case None => (next, None)
      case Some(packet) =>
        ReentryShrinks(pending, maxPending, data, now);
        Reassembled(next, maxPending, packet, now)
  }

  // --- What is emitted ---

  /** The pending actions grew by exactly what was emitted meanwhile, in that order. */
  ghost predicate Emits(actions: seq<Action>, emitted: seq<Action>, actions': seq<Action>, emitted': seq<Action>) {
    emitted <= emitted' && actions' == actions + emitted'[|emitted|..]
  }

  /** The part of a node's state the receive path is judged by. */
  datatype View<S> = View(
    state: S, peers: Peers, queue: Queue, replayed: Queue, actions: seq<Action>, emitted: seq<Action>)

  /** No peer is forgotten, packets only leave the queue by being replayed, and no action is lost. */
  ghost predicate IsStep<S>(v: View<S>, v': View<S>) {
    && v.peers.Keys <= v'.peers.Keys
    && IsReplay(v.queue, v.replayed, v'.queue, v'.replayed)
    && Emits(v.actions, v.emitted, v'.actions, v'.emitted)
  }

  lemma StepTrans<S>(u: View<S>, v: View<S>, w: View<S>)
    requires IsStep(u, v) && IsStep(v, w)
    ensures IsStep(u, w)
  {
    ReplayTrans(u.queue, u.replayed, v.queue, v.replayed, w.queue, w.replayed);
    EmitsTrans(u, v, w);
  }

  lemma IsStepFrom<S>(v: View<S>, v': View<S>)
    requires v.peers.Keys <= v'.peers.Keys
    requires IsReplay(v.queue, v.replayed, v'.queue, v'.replayed)
    requires Emits(v.actions, v.emitted, v'.actions, v'.emitted)
    ensures IsStep(v, v')
  {
  }

  lemma NothingEmitted<S>(v: View<S>)
    ensures Emits(v.actions, v.emitted, v.actions, v.emitted)
  {
  }

  lemma StepShrinks<S>(v: View<S>, v': View<S>)
    requires IsStep(v, v')
    ensures |v'.queue| <= |v.queue|
  {
  }

  lemma EmitsTrans<S>(u: View<S>, v: View<S>, w: View<S>)
    requires Emits(u.actions, u.emitted, v.actions, v.emitted) && Emits(v.actions, v.emitted, w.actions, w.emitted)
    ensures Emits(u.actions, u.emitted, w.actions, w.emitted)
  {
    assert w.emitted[|u.emitted|..] == v.emitted[|u.emitted|..] + w.emitted[|v.emitted|..];
  }

  lemma QuietStep<S>(v: View<S>, v': View<S>)
    requires v.peers.Keys <= v'.peers.Keys && v'.queue == v.queue && v'.replayed == v.replayed
    requires Emits(v.actions, v.emitted, v'.actions, v'.emitted)
    ensures IsStep(v, v')
  {
    ReplayNothing(v.queue, v.replayed);
  }

  /** An identity that is accepted whoever is known already. */
  ghost predicate IsAlwaysGenuine<S>(env: Environment<S>, id: Identity) {
    forall peers: Peers :: env.isGenuine(peers, id)
  }

  /** Every such identity of a WHOIS answer is known afterwards, and nothing waits for it any more. */
  ghost predicate AreLearned<S>(env: Environment<S>, identities: seq<Identity>, v: View<S>) {
    forall id :: id in identities && IsAlwaysGenuine(env, id) ==> id.address in v.peers && Of(v.queue, id.address) == []
  }

  predicate AreAllForged<S>(env: Environment<S>, identities: seq<Identity>, peers: Peers) {
    forall i :: 0 <= i < |identities| ==> !env.isGenuine(peers, identities[i])
  }

  /** A genuine identity is made a peer, unless its address is known already, and greeted. */
  function Introduced<S>(env: Environment<S>, id: Identity, v: View<S>, now: u64): (u: View<S>)
    ensures u.queue == v.queue
  {
    var peers := if id.address in v.peers then v.peers else v.peers[id.address := env.newPeer(id)];
    var (state, hello) := env.greet(v.state, peers, id, now);
    var more := if hello.Some? then [hello.value] else [];
    v.(state := state, peers := peers, actions := v.actions + more, emitted := v.emitted + more)
  }

  /** A packet that waited is received, no earlier than it was first; the actions queued so far stay in front of its own. */
  ghost predicate IsReplayedOne<S(!new)>(
    env: Environment<S>, address: Address, p: PendingPacket, v: View<S>, v': View<S>, now: u64)
    decreases |v.queue|, 7, 0
  {
    && v.actions <= v'.actions
    && IsReceived(env, address, v.(actions := [], replayed := v.replayed + [p]), v'.(actions := v'.actions[|v.actions|..]),
                  p.data, p.from, Max(now, p.receivedAt), false)
  }

  /** Packets that waited are received one after the other. */
  ghost predicate IsReplayedAll<S(!new)>(
    env: Environment<S>, address: Address, batch: Queue, v: View<S>, v': View<S>, now: u64)
    decreases |v.queue|, 8, |batch|
  {
    if batch == [] then v' == v
    else
      var n := |batch| - 1;
      exists u: View<S> ::
        && |u.queue| <= |v.queue|
        && IsReplayedAll(env, address, batch[..n], v, u, now) && IsReplayedOne(env, address, batch[n], u, v', now)
  }

  /** What waited for `source` leaves the queue and is received, in the order it waited in. */
  ghost predicate IsReplayedFor<S(!new)>(
    env: Environment<S>, address: Address, source: Address, v: View<S>, v': View<S>, now: u64)
    decreases |v.queue|, 1, 0
  {
    PartitionSize(v.queue, source);
    var batch, u := Of(v.queue, source), v.(queue := Without(v.queue, source));
    if batch == [] then v' == u else IsReplayedAll(env, address, batch, u, v', now)
  }

  /** One identity's turn: a genuine one is learned, and what waited for it replayed; any other is skipped. */
  ghost predicate IsTurn<S(!new)>(
    env: Environment<S>, address: Address, id: Identity, v: View<S>, v': View<S>, now: u64)
    decreases |v.queue|, 2, 0
  {
    if env.isGenuine(v.peers, id) then
      && IsStep(v, v') && id.address in v'.peers && Of(v'.queue, id.address) == []
      && IsReplayedFor(env, address, id.address, Introduced(env, id, v, now), v', now)
    else v' == v
  }

  /** What becomes of a WHOIS answer: its identities have their turns, each judged by the peers known by then. */
  ghost predicate IsAnswered<S(!new)>(
    env: Environment<S>, address: Address, identities: seq<Identity>, v: View<S>, v': View<S>, now: u64)
    decreases |v.queue|, 3, |identities|
  {
    if identities == [] then v' == v
    else
      var n := |identities| - 1;
      exists u: View<S> ::
        && |u.queue| <= |v.queue|
        && IsAnswered(env, address, identities[..n], v, u, now) && IsTurn(env, address, identities[n], u, v', now)
  }

  /** What becomes of a verified packet addressed to this node. */
  ghost predicate IsHandled<S(!new)>(
    env: Environment<S>, address: Address, v: View<S>, v': View<S>, source: Address, packet: Packet, verbId: u8,
    from: SocketAddr, now: u64)
    decreases |v.queue|, 4, 0
  {
    var noted := Noted(v.peers, source, from);
    match WhoisAnswer(env, packet, verbId)
    case None =>
      var (state, changed, more) := env.handle(v.state, noted, verbId, packet, from, now);
      v' == v.(state := state, peers := noted + changed, actions := v.actions + more, emitted := v.emitted + more)
    case Some(identities) =>
      IsAnswered(env, address, identities, v.(peers := noted), v', now)
  }

  /** What becomes of a packet addressed to this node. */
  ghost predicate IsOutcome<S(!new)>(
    env: Environment<S>, address: Address, v: View<S>, v': View<S>, data: Packet, from: SocketAddr, now: u64, waits: bool)
    decreases |v.queue|, 5, 0
  {
    match Opened(env, v.peers, data)
    case None =>
      && v'.state == v.state && v'.peers == v.peers && v'.replayed == v.replayed
      && (if waits then
            && v'.actions == v.actions + [WhoisNeeded([Source(data)])]
            && v'.emitted == v.emitted + [WhoisNeeded([Source(data)])]
            && v'.queue == Enqueued(v.queue, PendingPacket(Source(data), from, PacketId(data), now, data), now)
          else
            v'.actions == v.actions && v'.emitted == v.emitted && v'.queue == v.queue)
    case Some((packet, verbId)) =>
      IsHandled(env, address, v, v', Source(data), packet, verbId, from, now)
  }

  /** What becomes of a packet that is no fragment. */
  ghost predicate IsReceived<S(!new)>(
    env: Environment<S>, address: Address, v: View<S>, v': View<S>, data: seq<u8>, from: SocketAddr, now: u64, waits: bool)
    decreases |v.queue|, 6, 0
  {
    if |data| < MIN_PACKET_LENGTH then v' == v
    else if Destination(data) != address then
      var (state, more) := Forwarded(env, v.state, v.peers, data, now);
      v' == v.(state := state, actions := v.actions + more, emitted := v.emitted + more)
    else
      IsOutcome(env, address, v, v', data, from, now, waits)
  }

  /**
   A packet for this node that does not verify: unencrypted by its own account, it is acted on all the same; otherwise
   no handler sees it.
   */
  lemma UnverifiedOutcome<S(!new)>(
    env: Environment<S>, address: Address, v: View<S>, v': View<S>, data: Packet, from: SocketAddr, now: u64, waits: bool)
    requires IsReceived(env, address, v, v', data, from, now, waits)
    requires Destination(data) == address && !Dearmor(env, v.peers, data).0
    ensures if CipherSuite(data) == SUITE_POLY1305_NONE
      then IsHandled(env, address, v, v', Source(data), data, VerbId(data), from, now)
      else v'.state == v.state && v'.peers == v.peers && v'.replayed == v.replayed
  {
    hide Dearmor, IsHandled;
  }

  /** `noted` is `peers` with a path from `source` that is known to be `from`; everything else is as it was. */
  predicate IsNoted(peers: Peers, noted: Peers, source: Address, from: SocketAddr) {
    && noted.Keys == peers.Keys
    && (forall a :: a in peers && a != source ==> noted[a] == peers[a])
    && (source in peers ==>
      && from in noted[source].paths && peers[source].paths <= noted[source].paths
      && noted[source].sharedSecret == peers[source].sharedSecret && noted[source].aesKeys == peers[source].aesKeys)
  }

  /** A handled packet is an OK with a WHOIS answer, or its handler's, who is called with the source's path noted. */
  lemma HandledByVerb<S(!new)>(
    env: Environment<S>, address: Address, v: View<S>, v': View<S>, source: Address, packet: Packet, verbId: u8,
    from: SocketAddr, now: u64)
    requires IsHandled(env, address, v, v', source, packet, verbId, from, now)
    ensures exists noted: Peers ::
      && IsNoted(v.peers, noted, source, from)
      && if verbId == 3 && env.whoisAnswer(packet).Some? then
        IsAnswered(env, address, env.whoisAnswer(packet).value, v.(peers := noted), v', now)
      else
        var (state, changed, more) := env.handle(v.state, noted, verbId, packet, from, now);
        && v'.state == state && v'.peers == noted + changed && v'.queue == v.queue && v'.replayed == v.replayed
        && v'.actions == v.actions + more && v'.emitted == v.emitted + more
  {
    hide IsAnswered;
    assert IsNoted(v.peers, Noted(v.peers, source, from), source, from);
  }

  /** A genuine identity's address has a peer before anything that waited for it is replayed, and a new one is greeted. */
  lemma IntroducedFirst<S(!new)>(
    env: Environment<S>, address: Address, id: Identity, v: View<S>, v': View<S>, now: u64)
    requires IsTurn(env, address, id, v, v', now) && env.isGenuine(v.peers, id)
    ensures exists u: View<S> ::
      && IsReplayedFor(env, address, id.address, u, v', now)
      && u.queue == v.queue && u.replayed == v.replayed
      && u.peers.Keys == v.peers.Keys + {id.address}
      && (forall a :: a in v.peers ==> u.peers[a] == v.peers[a])
      && (id.address !in v.peers ==> u.peers[id.address] == env.newPeer(id))
      && var (state, hello) := env.greet(v.state, u.peers, id, now);
        u.state == state && u.actions == v.actions + if hello == None then [] else [hello.value]
  {
    hide IsReplayedFor, IsStep;
    assert IsReplayedFor(env, address, id.address, Introduced(env, id, v, now), v', now);
  }

  /** What becomes of a datagram that comes to the packet `got`; nothing when it only leaves a fragment behind. */
  ghost predicate IsReception<S(!new)>(
    env: Environment<S>, address: Address, v: View<S>, v': View<S>, got: Option<seq<u8>>, from: SocketAddr, now: u64,
    waits: bool)
  {
    match got
    case None => v' == v
    case Some(packet) => IsReceived(env, address, v, v', packet, from, now, waits)
  }

  lemma LearnedStays<S>(env: Environment<S>, identities: seq<Identity>, v: View<S>, v': View<S>)
    requires AreLearned(env, identities, v) && IsStep(v, v')
    ensures AreLearned(env, identities, v')
  {
    forall id | id in identities && IsAlwaysGenuine(env, id) ensures Of(v'.queue, id.address) == [] {
      assert Of(v'.replayed[|v.replayed|..], id.address) + Of(v'.queue, id.address) == Of(v.queue, id.address);
    }
  }

  lemma NothingAnswered<S(!new)>(env: Environment<S>, address: Address, v: View<S>, now: u64)
    ensures IsAnswered(env, address, [], v, v, now)
  {
  }

  lemma AnsweredNext<S(!new)>(
    env: Environment<S>, address: Address, identities: seq<Identity>, i: nat, v: View<S>, u: View<S>, v': View<S>, now: u64)
    requires i < |identities| && |u.queue| <= |v.queue|
    requires IsAnswered(env, address, identities[..i], v, u, now) && IsTurn(env, address, identities[i], u, v', now)
    ensures IsAnswered(env, address, identities[..i + 1], v, v', now)
  {
    hide IsTurn, IsStep;
    var more := identities[..i + 1];
    assert more[..i] == identities[..i] && more[i] == identities[i];
    assert IsAnswered(env, address, more[..|more| - 1], v, u, now) && IsTurn(env, address, more[|more| - 1], u, v', now);
  }

  lemma NothingReplayed<S(!new)>(env: Environment<S>, address: Address, v: View<S>, now: u64)
    ensures IsReplayedAll(env, address, [], v, v, now)
  {
  }

  lemma ReplayedNext<S(!new)>(
    env: Environment<S>, address: Address, batch: Queue, i: nat, v: View<S>, u: View<S>, v': View<S>, now: u64)
    requires i < |batch| && |u.queue| <= |v.queue|
    requires IsReplayedAll(env, address, batch[..i], v, u, now) && IsReplayedOne(env, address, batch[i], u, v', now)
    ensures IsReplayedAll(env, address, batch[..i + 1], v, v', now)
  {
    var more := batch[..i + 1];
    assert more[..i] == batch[..i] && more[i] == batch[i];
    hide IsReplayedOne;
    assert IsReplayedAll(env, address, more[..|more| - 1], v, u, now) && IsReplayedOne(env, address, more[|more| - 1], u, v', now);
  }

  lemma ReplayedWhole<S(!new)>(
    env: Environment<S>, address: Address, source: Address, v: View<S>, taken: View<S>, batch: Queue, v': View<S>, now: u64)
    requires batch == Of(v.queue, source) && taken == v.(queue := Without(v.queue, source))
    requires IsReplayedAll(env, address, batch[..|batch|], taken, v', now)
    ensures IsReplayedFor(env, address, source, v, v', now)
  {
    assert batch[..|batch|] == batch;
    hide IsReplayedOne;
  }

  /** An answer loses nothing, and the identities that are genuine whoever is known are all learned. */
  lemma {:induction false} AnswerLearns<S(!new)>(
    env: Environment<S>, address: Address, identities: seq<Identity>, v: View<S>, v': View<S>, now: u64)
    requires IsAnswered(env, address, identities, v, v', now)
    ensures IsStep(v, v') && AreLearned(env, identities, v')
    decreases |identities|
  {
    hide IsTurn, IsStep, AreLearned;
    if identities == [] {
      QuietStep(v, v');
      NothingLearned(env, v');
    } else {
      var n := |identities| - 1;
      var u: View<S> :| |u.queue| <= |v.queue| && IsAnswered(env, address, identities[..n], v, u, now)
        && IsTurn(env, address, identities[n], u, v', now);
      AnswerLearns(env, address, identities[..n], v, u, now);
      TurnLearns(env, address, identities[..n], identities[n], v, u, v', now);
      assert identities == identities[..n] + [identities[n]];
    }
  }

  lemma NothingLearned<S>(env: Environment<S>, v: View<S>)
    ensures AreLearned(env, [], v)
  {
  }

  lemma TurnLearns<S(!new)>(
    env: Environment<S>, address: Address, identities: seq<Identity>, id: Identity, v: View<S>, u: View<S>, v': View<S>,
    now: u64)
    requires IsStep(v, u) && AreLearned(env, identities, u) && IsTurn(env, address, id, u, v', now)
    ensures IsStep(v, v') && AreLearned(env, identities + [id], v')
  {
    hide IsReplayedFor, IsStep;
    if env.isGenuine(u.peers, id) {
      StepTrans(v, u, v');
      LearnedStays(env, identities, u, v');
    }
  }

  /** An answer without a genuine identity changes nothing. */
  lemma {:induction false} ForgedAnswer<S(!new)>(
    env: Environment<S>, address: Address, identities: seq<Identity>, v: View<S>, v': View<S>, now: u64)
    requires IsAnswered(env, address, identities, v, v', now) && AreAllForged(env, identities, v.peers)
    ensures v' == v
    decreases |identities|
  {
    if identities != [] {
      var n := |identities| - 1;
      var u: View<S> :| |u.queue| <= |v.queue| && IsAnswered(env, address, identities[..n], v, u, now)
        && IsTurn(env, address, identities[n], u, v', now);
      ForgedAnswer(env, address, identities[..n], v, u, now);
    }
  }

  /** Or one packet joined the queue, with the expiry and eviction that entails, and none was replayed. */
  ghost predicate IsReplayOrQueued(queue: Queue, log: Queue, queue': Queue, log': Queue) {
    || IsReplay(queue, log, queue', log')
    || (log' == log && exists p: PendingPacket :: queue' == Enqueued(queue, p, p.receivedAt))
  }

  class Node<S(!new)> {
    const env: Environment<S>
    const address: Address
    const reassembly: ReassemblyBuffer
    /** What the handlers keep. */
    var state: S
    var peers: Peers
    var roots: seq<Address>
    var actions: seq<Action>
    var pendingEncrypted: Queue
    /** Every action ever queued, in order. */
    ghost var emitted: seq<Action>
    /** Every waiting packet ever replayed, in order. */
    ghost var replayed: Queue

    ghost predicate Valid()
      reads this, reassembly
    {
      reassembly.Valid() && QueueInvariant(pendingEncrypted)
    }

    ghost function Now(): View<S>
      reads this
    {
      View(state, peers, pendingEncrypted, replayed, actions, emitted)
    }

    constructor (env: Environment<S>, address: Address, state: S)
      ensures Valid() && fresh(reassembly) && this.state == state
      ensures pendingEncrypted == [] && actions == [] && emitted == [] && replayed == []
    {
      this.env, this.address, this.state := env, address, state;
      reassembly := new ReassemblyBuffer(256);
      peers, roots, actions, pendingEncrypted := map[], [], [], [];
      emitted, replayed := [], [];
    }

    method PushActions(more: seq<Action>)
      modifies this`actions, this`emitted
      ensures actions == old(actions) + more && emitted == old(emitted) + more
      ensures Emits(old(actions), old(emitted), actions, emitted)
    {
      actions := actions + more;
      emitted := emitted + more;
    }

    predicate IsRootPath(from: SocketAddr)
      reads this
    {
      exists root :: root in roots && root in peers && from in peers[root].paths
    }

    /** The packets that wait for a WHOIS: encrypted, for us, from an unknown source by way of a root. */
    predicate MustWait(data: seq<u8>, from: SocketAddr)
      reads this
    {
      && !IsFragment(data)
      && |data| >= MIN_PACKET_LENGTH
      && Destination(data) == address
      && CipherSuite(data) != SUITE_POLY1305_NONE
      && Source(data) !in peers
      && IsRootPath(from)
    }

    lemma WaitsExactly(data: Packet, from: SocketAddr)
      ensures MustWait(data, from) <==>
        && data[13] != 0xff && data[8..13] == address && data[18] / 8 % 8 != 0 && data[13..18] !in peers
        && exists i :: 0 <= i < |roots| && roots[i] in peers && from in peers[roots[i]].paths
    {
      if i :| 0 <= i < |roots| && roots[i] in peers && from in peers[roots[i]].paths {
        assert roots[i] in roots;
      }
    }

    method QueuePendingEncryptedPacket(p: PendingPacket)
      requires Valid() && p.IsWellFormed()
      modifies this`pendingEncrypted
      ensures Valid()
      ensures pendingEncrypted == Enqueued(old(pendingEncrypted), p, p.receivedAt)
    {
      EnqueueKeepsInvariant(pendingEncrypted, p, p.receivedAt);
      pendingEncrypted := Unexpired(pendingEncrypted, p.receivedAt);
      if HoldsCopy(pendingEncrypted, p) {
        return;
      }
      if |pendingEncrypted| >= PENDING_ENCRYPTED_PACKET_LIMIT {
        pendingEncrypted := pendingEncrypted[1..];
      }
      pendingEncrypted := pendingEncrypted + [p];
    }

    /** Take the packets from `source` out of the queue. */
    method TakeFrom(source: Address) returns (batch: Queue)
      requires Valid()
      modifies this`pendingEncrypted
      ensures Valid()
      ensures batch == Of(old(pendingEncrypted), source)
      ensures pendingEncrypted == Without(old(pendingEncrypted), source)
    {
      WithoutKeepsInvariant(pendingEncrypted, source);
      pendingEncrypted, batch := Partition(pendingEncrypted, source);
    }

    method ReplayPendingEncryptedPacketsFor(source: Address, now: u64)
      requires Valid() && source in peers
      modifies this, reassembly
      ensures Valid() && reassembly.pending == old(reassembly.pending)
      ensures IsStep(old(Now()), Now())
      ensures Of(pendingEncrypted, source) == []
      ensures IsReplayedFor(env, address, source, old(Now()), Now(), now)
      decreases 0, |pendingEncrypted|, 0
    {
      hide IsReplayedAll, IsReplayedOne, IsReplayedFor, IsPartialReplay, IsReplay, Emits;
      BatchIsWellFormed(pendingEncrypted, source);
      ReplayBegins(pendingEncrypted, replayed, source);
      var batch := TakeFrom(source);
      ghost var taken := Now();
      NothingReplayed(env, address, taken, now);
      NothingEmitted(taken);
      for i := 0 to |batch|
        invariant Valid() && reassembly.pending == old(reassembly.pending)
        invariant old(peers).Keys <= peers.Keys && |pendingEncrypted| <= |taken.queue|
        invariant Emits(old(actions), old(emitted), actions, emitted)
        invariant IsPartialReplay(old(pendingEncrypted), old(replayed), source, batch[i..], pendingEncrypted, replayed)
        invariant IsReplayedAll(env, address, batch[..i], taken, Now(), now)
      {
        assert batch[i..][1..] == batch[i + 1..] && batch[i] in batch;
        ghost var before := Now();
        ReplayOne(batch[i], now);
        ReplayContinues(old(pendingEncrypted), old(replayed), source, batch[i..],
                        before.queue, before.replayed, pendingEncrypted, replayed);
        EmitsTrans(old(Now()), before, Now());
        ReplayedNext(env, address, batch, i, taken, before, Now(), now);
      }
      ReplayEnds(old(pendingEncrypted), old(replayed), source, pendingEncrypted, replayed);
      ReplayedWhole(env, address, source, old(Now()), taken, batch, Now(), now);
      IsStepFrom(old(Now()), Now());
    }

    /** Receive a packet that waited; the actions queued so far are kept in front of its own. */
    method ReplayOne(buffered: PendingPacket, now: u64)
      requires Valid() && buffered.IsWellFormed() && buffered.source in peers
      modifies this, reassembly
      ensures Valid() && reassembly.pending == old(reassembly.pending)
      ensures old(peers).Keys <= peers.Keys
      ensures IsReplay(old(pendingEncrypted), old(replayed) + [buffered], pendingEncrypted, replayed)
      ensures Emits(old(actions), old(emitted), actions, emitted)
      ensures IsReplayedOne(env, address, buffered, old(Now()), Now(), now)
      decreases 0, |pendingEncrypted|, 7
    {
      var preserved := actions;
      actions := [];
      replayed := replayed + [buffered];
      var replayedActions, _ := ReceivePacket(buffered.data, buffered.from, Max(now, buffered.receivedAt));
      actions := preserved + replayedActions;
    }

    /** Learn a genuine identity, greet it, and replay what waited for it. */
    method Learn(id: Identity, now: u64)
      requires Valid()
      modifies this, reassembly
      ensures Valid() && reassembly.pending == old(reassembly.pending)
      ensures IsStep(old(Now()), Now())
      ensures id.address in peers && Of(pendingEncrypted, id.address) == []
      ensures IsReplayedFor(env, address, id.address, Introduced(env, id, old(Now()), now), Now(), now)
      decreases 0, |pendingEncrypted|, 1
    {
      if id.address !in peers {
        peers := peers[id.address := env.newPeer(id)];
      }
      var (next, hello) := env.greet(state, peers, id, now);
      state := next;
      PushActions(if hello.Some? then [hello.value] else []);
      QuietStep(old(Now()), Now());
      ghost var greeted := Now();
      assert greeted == Introduced(env, id, old(Now()), now);
      ReplayPendingEncryptedPacketsFor(id.address, now);
      StepTrans(old(Now()), greeted, Now());
    }

    /** OK(WHOIS): take the identities one by one, skipping those that are not genuine. */
    method HandleWhoisAnswer(identities: seq<Identity>, now: u64)
      requires Valid()
      modifies this, reassembly
      ensures Valid() && reassembly.pending == old(reassembly.pending)
      ensures IsStep(old(Now()), Now()) && IsAnswered(env, address, identities, old(Now()), Now(), now)
      decreases 0, |pendingEncrypted|, 2
    {
      hide IsStep, IsAnswered;
      QuietStep(Now(), Now());
      NothingAnswered(env, address, Now(), now);
      for i := 0 to |identities|
        invariant Valid() && reassembly.pending == old(reassembly.pending)
        invariant IsStep(old(Now()), Now())
        invariant IsAnswered(env, address, identities[..i], old(Now()), Now(), now)
      {
        ghost var before := Now();
        StepShrinks(old(Now()), before);
        if env.isGenuine(peers, identities[i]) {
          Learn(identities[i], now);
          StepTrans(old(Now()), before, Now());
        }
        AnsweredNext(env, address, identities, i, old(Now()), before, Now(), now);
      }
      assert identities[..|identities|] == identities;
    }

    /** Act on a packet that is for us and has been verified, or needs no verification. */
    method Dispatch(packet: Packet, source: Address, verbId: u8, from: SocketAddr, now: u64)
      requires Valid()
      modifies this, reassembly
      ensures Valid() && reassembly.pending == old(reassembly.pending)
      ensures IsStep(old(Now()), Now())
      ensures IsHandled(env, address, old(Now()), Now(), source, packet, verbId, from, now)
      decreases 0, |pendingEncrypted|, 3
    {
      peers := Noted(peers, source, from);
      QuietStep(old(Now()), Now());
      ghost var noted := Now();
      match WhoisAnswer(env, packet, verbId) {
        case Some(identities) =>
          HandleWhoisAnswer(identities, now);
        case None =>
          var (next, changed, more) := env.handle(state, peers, verbId, packet, from, now);
          state, peers := next, peers + changed;
          PushActions(more);
          QuietStep(noted, Now());
      }
      StepTrans(old(Now()), noted, Now());
    }

    method HandleRelay(data: Packet, now: u64)
      requires Valid()
      modifies this`state, this`actions, this`emitted
      ensures Valid()
      ensures var (next, more) := Forwarded(env, old(state), peers, data, now);
        state == next && actions == old(actions) + more && emitted == old(emitted) + more
    {
      var hopped := WithOneMoreHop(data);
      match hopped {
        case Some(packet) =>
          var (next, more) := env.forward(state, peers, packet, now);
          state := next;
          PushActions(more);
        case None =>
      }
    }

    /** Keep a fragment, and receive the packet it completes, if any; `got` is the packet this comes to in the end. */
    method HandleFragment(data: seq<u8>, from: SocketAddr, now: u64) returns (ghost got: Option<seq<u8>>)
      requires Valid() && IsFragment(data) && actions == []
      modifies this, reassembly
      ensures Valid()
      ensures (reassembly.pending, got) == Reassembled(old(reassembly.pending), reassembly.maxPending, data, now)
      ensures IsReception(env, address, old(Now()), Now(), got, from, now, got.Some? && old(MustWait(got.value, from)))
      ensures old(peers).Keys <= peers.Keys
      ensures emitted == old(emitted) + actions
      ensures IsReplayOrQueued(old(pendingEncrypted), old(replayed), pendingEncrypted, replayed)
      decreases FragmentBudget(data, reassembly.pending), |pendingEncrypted|, 5
    {
      hide Inserted, IsReceived;
      ReplayNothing(pendingEncrypted, replayed);
      if |data| <= MIN_FRAGMENT_LENGTH {
        return None;
      }
      ReentryShrinks(reassembly.pending, reassembly.maxPending, data, now);
      var assembled := Reassemble(data, now);
      got := None;
      if assembled.Some? {
        var nested;
        nested, got := ReceivePacket(assembled.value, from, now);
        ghost var after := Now().(actions := nested);
        actions := actions + nested;
        assert Now() == after;
      }
    }

    method Reassemble(data: seq<u8>, now: u64) returns (assembled: Option<seq<u8>>)
      requires Valid() && IsFragment(data)
      modifies reassembly
      ensures Valid()
      ensures (reassembly.pending, assembled) == Inserted(old(reassembly.pending), reassembly.maxPending, data, now)
    {
      assembled := reassembly.Insert(FragmentPacketId(data), FragmentNumber(data), TotalFragments(data),
                                     data[MIN_FRAGMENT_LENGTH..], now);
    }

    /**
     Receive a packet, or a fragment and the packet it completes. The reassembly buffer and the packet this comes to in
     the end, `got`, are those of the specification; what becomes of that packet is as its addresses, armor and verb say;
     and what is returned is exactly what was queued on the way, in order.
     */
    method ReceivePacket(data: seq<u8>, from: SocketAddr, now: u64)
      returns (result: seq<Action>, ghost got: Option<seq<u8>>)
      requires Valid()
      modifies this, reassembly
      ensures Valid()
      ensures (reassembly.pending, got) == Reassembled(old(reassembly.pending), reassembly.maxPending, data, now)
      ensures IsReception(env, address, old(Now()).(actions := []), Now().(actions := result), got, from, now,
                          got.Some? && old(MustWait(got.value, from)))
      ensures old(peers).Keys <= peers.Keys
      ensures actions == [] && emitted == old(emitted) + result
      ensures !IsFragment(data) && !old(MustWait(data, from)) ==>
        IsReplay(old(pendingEncrypted), old(replayed), pendingEncrypted, replayed)
      ensures IsReplayOrQueued(old(pendingEncrypted), old(replayed), pendingEncrypted, replayed)
      decreases FragmentBudget(data, reassembly.pending), |pendingEncrypted|, 6
    {
      hide IsOutcome, IsReplay, Forwarded, Inserted;
      actions := [];
      ReplayNothing(pendingEncrypted, replayed);
      if IsFragment(data) {
        got := HandleFragment(data, from, now);
      } else {
        got := Some(data);
        if |data| >= MIN_PACKET_LENGTH {
          if Destination(data) != address {
            HandleRelay(data, now);
          } else {
            ReceiveOwn(data, from, now);
          }
        }
      }
      result := Take();
    }

    /** A packet addressed to this node: verify, decrypt, decompress and act on it, or let it wait. */
    method ReceiveOwn(data: Packet, from: SocketAddr, now: u64)
      requires Valid() && !IsFragment(data) && Destination(data) == address
      modifies this, reassembly
      ensures Valid() && reassembly.pending == old(reassembly.pending)
      ensures IsOutcome(env, address, old(Now()), Now(), data, from, now, old(MustWait(data, from)))
      ensures old(peers).Keys <= peers.Keys
      ensures Emits(old(actions), old(emitted), actions, emitted)
      ensures !old(MustWait(data, from)) ==> IsReplay(old(pendingEncrypted), old(replayed), pendingEncrypted, replayed)
      ensures IsReplayOrQueued(old(pendingEncrypted), old(replayed), pendingEncrypted, replayed)
      decreases 0, |pendingEncrypted|, 4
    {
      QuietStep(Now(), Now());
      var source, suite := Source(data), CipherSuite(data);
      var (dearmored, clear) := Dearmor(env, peers, data);
      if !dearmored && suite != SUITE_POLY1305_NONE {
        if source !in peers && IsRootPath(from) {
          var waiting := PendingPacket(source, from, PacketId(data), now, data);
          QueuePendingEncryptedPacket(waiting);
          PushActions([WhoisNeeded([source])]);
        }
        return;
      }
      var packet := if dearmored then clear else data;
      if dearmored && IsCompressed(packet) {
        var inflated := env.decompress(packet);
        if inflated.None? {
          return;
        }
        packet := inflated.value;
      }
      var verbId := if dearmored then VerbId(packet) else VerbId(data);
      Dispatch(packet, source, verbId, from, now);
    }

    method Take() returns (taken: seq<Action>)
      modifies this`actions
      ensures actions == [] && taken == old(actions)
    {
      taken := actions;
      actions := [];
    }
  }
}
