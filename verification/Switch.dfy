/** Routing: directly to the peer, through a root, or not at all. */
module Switch {
  import opened Wrappers
  import opened Bytes
  import opened Header
  import opened InetAddress
  import opened Peer
  import opened Topology
  import Relay

  datatype RouteDecision = Direct(address: SocketAddr) | Relayed(root: SocketAddr, dest: Address) | Drop

  /** The best alive path to `dest`, if it is direct. */
  ghost predicate IsDirectRoute(t: Topology, dest: Address, now: u64, address: SocketAddr)
    reads t, t.peers.Values
  {
    && dest in t.peers
    && exists i :: IsBest(t.peers[dest].paths, now, i) && t.peers[dest].paths[i].isDirect && t.peers[dest].paths[i].address == address
  }

  ghost predicate HasDirectRoute(t: Topology, dest: Address, now: u64)
    reads t, t.peers.Values
  {
    dest in t.peers && exists i :: IsBest(t.peers[dest].paths, now, i) && t.peers[dest].paths[i].isDirect
  }

  /** The best alive path to a root, or else the first path it has. */
  ghost predicate IsRootPath(paths: seq<Path>, now: u64, address: SocketAddr) {
    if exists i :: 0 <= i < |paths| && paths[i].IsAlive(now)
    then exists i :: IsBest(paths, now, i) && paths[i].address == address
    else paths != [] && paths[0].address == address
  }

  lemma ChosenIsUnique(paths: seq<Path>, now: u64, i: int, j: int)
    requires IsBest(paths, now, i) && IsBest(paths, now, j)
    ensures i == j
  {
  }

  /**
   A direct best path is used; otherwise the first root relays; and only without a path to it the packet is dropped.
   In particular a direct path of low latency is used whatever relay paths exist.
   */
  method Route(t: Topology, dest: Address, now: u64) returns (decision: RouteDecision)
    requires t.Valid()
    ensures decision.Direct? <==> HasDirectRoute(t, dest, now)
    ensures decision.Direct? ==> IsDirectRoute(t, dest, now, decision.address)
    ensures decision.Relayed? ==>
      && decision.dest == dest && t.roots != []
      && IsRootPath(t.peers[t.roots[0]].paths, now, decision.root)
    ensures decision.Drop? ==> t.roots == [] || t.peers[t.roots[0]].paths == []
    ensures dest in t.peers && HasDirect(t.peers[dest].paths, now, DIRECT_LATENCY) ==> decision.Direct?
  {
    if dest in t.peers {
      var best := t.peers[dest].BestPath(now);
      if best.Some? && best.value.isDirect {
        return Direct(best.value.address);
      }
      assert !HasDirectRoute(t, dest, now) by {
        NotDirect(t.peers[dest].paths, now, best);
      }
    }
    var root := t.GetRoot();
    if root.Some? {
      var best := root.value.BestPath(now);
      if best.Some? {
        return Relayed(best.value.address, dest);
      }
      if root.value.paths != [] {
        return Relayed(root.value.paths[0].address, dest);
      }
    }
    return Drop;
  }

  lemma NotDirect(paths: seq<Path>, now: u64, best: Option<Path>)
    requires IsChosen(paths, now, best) && (best.Some? ==> !best.value.isDirect)
    ensures forall i :: IsBest(paths, now, i) ==> !paths[i].isDirect
  {
    forall i | IsBest(paths, now, i)
      ensures !paths[i].isDirect
    {
      var j :| IsBest(paths, now, j) && paths[j] == best.value;
      ChosenIsUnique(paths, now, i, j);
    }
  }

  /** Forward a packet for another node: one hop more, to where it is routed, unless the hop limit is reached. */
  method HandleRelay(t: Topology, data: array<u8>, now: u64) returns (sent: Option<(seq<u8>, SocketAddr)>)
    requires t.Valid() && data.Length >= MIN_PACKET_LENGTH
    modifies data
    ensures sent.Some? ==>
      && Some(sent.value.0) == Relay.WithOneMoreHop(old(data[..]))
      && (HasDirectRoute(t, Destination(old(data[..])), now) ==> IsDirectRoute(t, Destination(old(data[..])), now, sent.value.1))
      && (!HasDirectRoute(t, Destination(old(data[..])), now) ==>
        t.roots != [] && IsRootPath(t.peers[t.roots[0]].paths, now, sent.value.1))
    ensures sent.None? ==>
      || Relay.WithOneMoreHop(old(data[..])).None?
      || (!HasDirectRoute(t, Destination(old(data[..])), now) && (t.roots == [] || t.peers[t.roots[0]].paths == []))
  {
    ghost var before := data[..];
    var ok := Relay.IncrementHops(data);
    if !ok {
      return None;
    }
    assert Destination(data[..]) == Destination(before);
    var decision := Route(t, Destination(data[..]), now);
    match decision {
      case Direct(address) => return Some((data[..], address));
      case Relayed(root, _) => return Some((data[..], root));
      case Drop => return None;
    }
  }
}
