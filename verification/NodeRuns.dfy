/** Whole runs of a node: datagrams received one after the other, with sweeps of the reassembly buffer in between. */
module NodeRuns {
  import opened Wrappers
  import opened Bytes
  import opened Header
  import opened InetAddress
  import opened Fragment
  import opened FragmentRuns
  import Node

  datatype Arrival =
    | Datagram(data: seq<u8>, from: SocketAddr, now: u64)
    | Sweep(now: u64, timeout: nat)

  /** The buffer after one arrival, and the packet the arrival comes to. */
  ghost function Arrived(pending: Pending, maxPending: nat, a: Arrival): (Pending, Option<seq<u8>>) {
    match a
    case Datagram(data, _, now) => Node.Reassembled(pending, maxPending, data, now)
    case Sweep(now, timeout) => (NotStale(pending, now, timeout), None)
  }

  /** The reassembly buffer after a run. */
  ghost function BufferAfter(initial: Pending, maxPending: nat, arrivals: seq<Arrival>): Pending
  {
    if arrivals == [] then initial
    else Arrived(BufferAfter(initial, maxPending, arrivals[..|arrivals| - 1]), maxPending, arrivals[|arrivals| - 1]).0
  }

  /** The packet arrival `k` comes to. */
  ghost function GotAt(initial: Pending, maxPending: nat, arrivals: seq<Arrival>, k: nat): Option<seq<u8>>
    requires k < |arrivals|
  {
    Arrived(BufferAfter(initial, maxPending, arrivals[..k]), maxPending, arrivals[k]).1
  }

  // --- The events of a run ---

  /** The insertions one datagram makes: its own, and those of the fragments it completes. */
  ghost function Insertions(pending: Pending, maxPending: nat, data: seq<u8>, now: u64): (events: seq<Event>)
    decreases Node.FragmentBudget(data, pending)
  {
    if !IsFragment(data) || |data| <= MIN_FRAGMENT_LENGTH then []
    else
      var (next, completed) := Node.Inserted(pending, maxPending, data, now);
      match completed
      case None => [Received(data, now)]
      case Some(packet) =>
        Node.ReentryShrinks(pending, maxPending, data, now);
        [Received(data, now)] + Insertions(next, maxPending, packet, now)
  }

  ghost function EventsOf(initial: Pending, maxPending: nat, arrivals: seq<Arrival>): (events: seq<Event>)
  {
    if arrivals == [] then []
    else
      var front := arrivals[..|arrivals| - 1];
      EventsOf(initial, maxPending, front) +
      match arrivals[|arrivals| - 1]
      case Datagram(data, _, now) => Insertions(BufferAfter(initial, maxPending, front), maxPending, data, now)
      case Sweep(now, timeout) => [Evict(now, timeout)]
  }

  lemma {:induction false} AfterConcat(initial: Pending, maxPending: nat, a: seq<Event>, b: seq<Event>)
    ensures After(initial, maxPending, a + b) == After(After(initial, maxPending, a), maxPending, b)
  {
    if b == [] {
      assert a + b == a;
    } else {
      var n := |b| - 1;
      AfterConcat(initial, maxPending, a, b[..n]);
      assert (a + b)[..|a + b| - 1] == a + b[..n];
    }
  }

  lemma AfterOne(pending: Pending, maxPending: nat, e: Event)
    ensures After(pending, maxPending, [e]) == Step(pending, maxPending, e).0
  {
    assert [e][..0] == [];
  }

  /** The insertions of a datagram do to the buffer what receiving it does. */
  lemma {:induction false} InsertionsReach(pending: Pending, maxPending: nat, data: seq<u8>, now: u64)
    ensures After(pending, maxPending, Insertions(pending, maxPending, data, now)) ==
      Node.Reassembled(pending, maxPending, data, now).0
    decreases Node.FragmentBudget(data, pending)
  {
    if IsFragment(data) && |data| > MIN_FRAGMENT_LENGTH {
      var (next, completed) := Node.Inserted(pending, maxPending, data, now);
      AfterOne(pending, maxPending, Received(data, now));
      if completed.Some? {
        Node.ReentryShrinks(pending, maxPending, data, now);
        InsertionsReach(next, maxPending, completed.value, now);
        AfterConcat(pending, maxPending, [Received(data, now)], Insertions(next, maxPending, completed.value, now));
      }
    }
  }

  /** So a run of the node is a run of its buffer. */
  lemma {:induction false} BufferIsAfter(initial: Pending, maxPending: nat, arrivals: seq<Arrival>)
    ensures BufferAfter(initial, maxPending, arrivals) == After(initial, maxPending, EventsOf(initial, maxPending, arrivals))
  {
    if arrivals != [] {
      var front, last := arrivals[..|arrivals| - 1], arrivals[|arrivals| - 1];
      var before, events := BufferAfter(initial, maxPending, front), EventsOf(initial, maxPending, front);
      BufferIsAfter(initial, maxPending, front);
      match last {
        case Datagram(data, _, now) =>
          InsertionsReach(before, maxPending, data, now);
          AfterConcat(initial, maxPending, events, Insertions(before, maxPending, data, now));
        case Sweep(now, timeout) =>
          AfterOne(before, maxPending, Evict(now, timeout));
          AfterConcat(initial, maxPending, events, [Evict(now, timeout)]);
      }
    }
  }

  /** What a run has inserted so far stays at the front of what it inserts later. */
  lemma {:induction false} EventsGrow(initial: Pending, maxPending: nat, arrivals: seq<Arrival>, k: nat)
    requires k <= |arrivals|
    ensures EventsOf(initial, maxPending, arrivals[..k]) <= EventsOf(initial, maxPending, arrivals)
    decreases |arrivals|
  {
    if k < |arrivals| {
      EventsGrow(initial, maxPending, arrivals[..|arrivals| - 1], k);
      assert arrivals[..|arrivals| - 1][..k] == arrivals[..k];
    } else {
      assert arrivals[..k] == arrivals;
    }
  }

  // --- Reassembly over runs of the node ---

  /** Arrival `k` is a fragment of packet `id` with something in it. */
  predicate IsPieceOf(arrivals: seq<Arrival>, k: nat, id: u64)
    requires k < |arrivals|
  {
    && arrivals[k].Datagram? && IsFragment(arrivals[k].data)
    && |arrivals[k].data| > MIN_FRAGMENT_LENGTH && FragmentPacketId(arrivals[k].data) == id
  }

  /** The insertions up to and including arrival `k`'s own. */
  ghost function EventsUpTo(initial: Pending, maxPending: nat, arrivals: seq<Arrival>, k: nat): seq<Event>
    requires k < |arrivals| && arrivals[k].Datagram? && IsFragment(arrivals[k].data)
  {
    EventsOf(initial, maxPending, arrivals[..k]) + [Received(arrivals[k].data, arrivals[k].now)]
  }

  lemma OwnEvent(initial: Pending, maxPending: nat, arrivals: seq<Arrival>, k: nat, id: u64)
    requires k < |arrivals| && IsPieceOf(arrivals, k, id)
    ensures EventsUpTo(initial, maxPending, arrivals, k) <= EventsOf(initial, maxPending, arrivals)
  {
    EventsGrow(initial, maxPending, arrivals, k + 1);
    assert arrivals[..k + 1][..k] == arrivals[..k];
    var own := Insertions(BufferAfter(initial, maxPending, arrivals[..k]), maxPending, arrivals[k].data, arrivals[k].now);
    assert own[0] == Received(arrivals[k].data, arrivals[k].now);
  }

  /** What the buffer hands out at the node's arrival `k` is what it hands out at that event of its own run. */
  lemma InsertedAt(initial: Pending, maxPending: nat, arrivals: seq<Arrival>, k: nat, id: u64)
    requires k < |arrivals| && IsPieceOf(arrivals, k, id)
    ensures var events, n := EventsOf(initial, maxPending, arrivals), |EventsOf(initial, maxPending, arrivals[..k])|;
      && n < |events| && events[n].IsFor(id)
      && events[..n] == EventsOf(initial, maxPending, arrivals[..k])
      && events[..n + 1] == EventsUpTo(initial, maxPending, arrivals, k)
      && Output(initial, maxPending, events, n) ==
        Node.Inserted(BufferAfter(initial, maxPending, arrivals[..k]), maxPending, arrivals[k].data, arrivals[k].now).1
  {
    OwnEvent(initial, maxPending, arrivals, k, id);
    BufferIsAfter(initial, maxPending, arrivals[..k]);
    hide EventsOf, BufferAfter, After, InsertResult;
    var events, n := EventsOf(initial, maxPending, arrivals), |EventsOf(initial, maxPending, arrivals[..k])|;
    var upTo := EventsUpTo(initial, maxPending, arrivals, k);
    assert events[..n + 1] == upTo && upTo[..n] == EventsOf(initial, maxPending, arrivals[..k]);
    assert events[n] == upTo[n] && events[..n] == upTo[..n];
  }

  /** A fragment that completes a packet which is no fragment comes to that packet. */
  lemma ComesToCompleted(pending: Pending, maxPending: nat, data: seq<u8>, now: u64)
    requires IsFragment(data) && |data| > MIN_FRAGMENT_LENGTH
    ensures var completed := Node.Inserted(pending, maxPending, data, now).1;
      (completed.Some? ==> !IsFragment(completed.value)) ==> Node.Reassembled(pending, maxPending, data, now).1 == completed
  {
    hide Node.Inserted;
  }

  /**
   Reassembly undoes splitting over runs of the node: pieces received in any order, repeated, and mixed with any other
   datagrams and sweeps that do not drop the packet, come to nothing until all have arrived, and then to the packet.
   */
  lemma NodeReassembles(
    packet: Packet, mtu: nat, fragments: seq<RawFragment>, initial: Pending, maxPending: nat, arrivals: seq<Arrival>, k: nat)
    requires IsSplit(fragments, packet, mtu) && !IsFragment(packet)
    requires IsDeliveryOf(packet, fragments, initial, maxPending, EventsOf(initial, maxPending, arrivals))
    requires k < |arrivals| && IsPieceOf(arrivals, k, PacketId(packet))
    requires Numbers(EventsOf(initial, maxPending, arrivals[..k]), PacketId(packet)) != AllNumbers(|fragments|)
    ensures GotAt(initial, maxPending, arrivals, k) ==
      if Numbers(EventsUpTo(initial, maxPending, arrivals, k), PacketId(packet)) == AllNumbers(|fragments|)
      then Some(packet) else None
  {
    hide EventsOf, EventsUpTo, BufferAfter, IsDeliveryOf, Numbers, Output, Node.Inserted, AllNumbers, Node.Reassembled;
    var n := |EventsOf(initial, maxPending, arrivals[..k])|;
    InsertedAt(initial, maxPending, arrivals, k, PacketId(packet));
    ComesToCompleted(BufferAfter(initial, maxPending, arrivals[..k]), maxPending, arrivals[k].data, arrivals[k].now);
    FragmentsReassemble(packet, mtu, fragments, initial, maxPending, EventsOf(initial, maxPending, arrivals), n);
  }

  // --- The node ---

  /** Receive what arrives, one after the other. */
  method ReceiveAll<S(!new)>(node: Node.Node<S>, arrivals: seq<Arrival>)
    returns (outputs: seq<seq<Node.Action>>, ghost got: seq<Option<seq<u8>>>, ghost views: seq<Node.View<S>>)
    requires node.Valid()
    modifies node, node.reassembly
    ensures node.Valid()
    ensures node.reassembly.pending == BufferAfter(old(node.reassembly.pending), node.reassembly.maxPending, arrivals)
    ensures |views| > 0 && views[0] == old(node.Now()) && views[|views| - 1] == node.Now()
    ensures IsTrace(node.env, node.address, old(node.reassembly.pending), node.reassembly.maxPending, arrivals, |arrivals|,
                    outputs, got, views)
  {
    ghost var initial, maxPending := node.reassembly.pending, node.reassembly.maxPending;
    hide BufferAfter, GotAt, IsArrival, IsTrace, Arrived;
    BufferBegins(initial, maxPending, arrivals);
    outputs, got, views := [], [], [node.Now()];
    TraceBegins(node.env, node.address, initial, maxPending, arrivals, node.Now());
    for i := 0 to |arrivals|
      invariant node.Valid()
      invariant node.reassembly.pending == BufferAfter(initial, maxPending, arrivals[..i])
      invariant |views| > 0 && views[0] == old(node.Now()) && views[|views| - 1] == node.Now()
      invariant IsTrace(node.env, node.address, initial, maxPending, arrivals, i, outputs, got, views)
    {
      BufferContinues(initial, maxPending, arrivals, i);
      var output;
      ghost var packet;
      output, packet := ReceiveOne(node, arrivals[i]);
      TraceContinues(node.env, node.address, initial, maxPending, arrivals, i, outputs, got, views, output, packet, node.Now());
      outputs, got, views := outputs + [output], got + [packet], views + [node.Now()];
    }
    assert arrivals[..|arrivals|] == arrivals;
  }

  /**
   The first `n` arrivals, one after the other: each comes to the packet of the specification, and takes the node from
   one view to the next.
   */
  ghost predicate IsTrace<S(!new)>(
    env: Node.Environment<S>, address: Address, initial: Pending, maxPending: nat, arrivals: seq<Arrival>, n: nat,
    outputs: seq<seq<Node.Action>>, got: seq<Option<seq<u8>>>, views: seq<Node.View<S>>)
  {
    && n <= |arrivals| && |outputs| == |got| == n && |views| == n + 1
    && forall k :: 0 <= k < n ==>
      && got[k] == GotAt(initial, maxPending, arrivals, k)
      && IsArrival(env, address, views[k], views[k + 1], arrivals[k], got[k], outputs[k])
  }

  lemma TraceBegins<S(!new)>(
    env: Node.Environment<S>, address: Address, initial: Pending, maxPending: nat, arrivals: seq<Arrival>, v: Node.View<S>)
    ensures IsTrace(env, address, initial, maxPending, arrivals, 0, [], [], [v])
  {
  }

  lemma TraceContinues<S(!new)>(
    env: Node.Environment<S>, address: Address, initial: Pending, maxPending: nat, arrivals: seq<Arrival>, n: nat,
    outputs: seq<seq<Node.Action>>, got: seq<Option<seq<u8>>>, views: seq<Node.View<S>>,
    output: seq<Node.Action>, packet: Option<seq<u8>>, v: Node.View<S>)
    requires n < |arrivals| && IsTrace(env, address, initial, maxPending, arrivals, n, outputs, got, views)
    requires packet == GotAt(initial, maxPending, arrivals, n)
    requires IsArrival(env, address, views[n], v, arrivals[n], packet, output)
    ensures IsTrace(env, address, initial, maxPending, arrivals, n + 1, outputs + [output], got + [packet], views + [v])
  {
    hide IsArrival, GotAt;
  }

  method ReceiveOne<S(!new)>(node: Node.Node<S>, a: Arrival) returns (output: seq<Node.Action>, ghost got: Option<seq<u8>>)
    requires node.Valid()
    modifies node, node.reassembly
    ensures node.Valid()
    ensures (node.reassembly.pending, got) == Arrived(old(node.reassembly.pending), node.reassembly.maxPending, a)
    ensures IsArrival(node.env, node.address, old(node.Now()), node.Now(), a, got, output)
  {
    match a {
      case Datagram(data, from, now) =>
        output, got := node.ReceivePacket(data, from, now);
      case Sweep(now, timeout) =>
        node.reassembly.EvictStale(now, timeout);
        output, got := [], None;
    }
  }

  lemma BufferBegins(initial: Pending, maxPending: nat, arrivals: seq<Arrival>)
    ensures BufferAfter(initial, maxPending, arrivals[..0]) == initial
  {
  }

  lemma BufferContinues(initial: Pending, maxPending: nat, arrivals: seq<Arrival>, i: nat)
    requires i < |arrivals|
    ensures (BufferAfter(initial, maxPending, arrivals[..i + 1]), GotAt(initial, maxPending, arrivals, i)) ==
      Arrived(BufferAfter(initial, maxPending, arrivals[..i]), maxPending, arrivals[i])
  {
    assert arrivals[..i + 1][..i] == arrivals[..i];
  }

  /** What one arrival does to the rest of the node: the packet it comes to is received, and its actions handed out. */
  ghost predicate IsArrival<S(!new)>(
    env: Node.Environment<S>, address: Address, v: Node.View<S>, v': Node.View<S>, a: Arrival, got: Option<seq<u8>>,
    output: seq<Node.Action>)
  {
    match a
    case Sweep(_, _) => v' == v && output == []
    case Datagram(_, from, now) =>
      && v'.actions == []
      && exists waits: bool ::
        Node.IsReception(env, address, v.(actions := []), v'.(actions := output), got, from, now, waits)
  }
}
