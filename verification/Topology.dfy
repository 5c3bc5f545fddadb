/** The peer table and the list of root servers, which caches the roots of the planet and all loaded moons. */
module Topology {
  import opened Wrappers
  import opened Bytes
  import opened InetAddress
  import opened Peer
  import opened World
  import IdentityWire

  function RootAddresses(roots: seq<WorldRoot>): (r: seq<Address>)
    ensures |r| == |roots|
    ensures forall i :: 0 <= i < |roots| ==> r[i] == roots[i].identity.address
  {
    seq(|roots|, i requires 0 <= i < |roots| => roots[i].identity.address)
  }

  predicate IsRootOf(w: World, a: Address) {
    a in RootAddresses(w.roots)
  }

  /** Is `a` a root of the planet or of one of the moons? */
  predicate IsWorldRoot(planet: Option<World>, moons: seq<World>, a: Address) {
    || (planet.Some? && IsRootOf(planet.value, a))
    || exists m :: m in moons && IsRootOf(m, a)
  }

  /** The root list is the union of the planet's and the moons' roots, each once. */
  ghost predicate IsUnion(roots: seq<Address>, planet: Option<World>, moons: seq<World>) {
    && HasNoDuplicates(roots)
    && forall a: Address :: a in roots <==> IsWorldRoot(planet, moons, a)
  }

  // --- Adding and removing roots ---

  function Merged(roots: seq<Address>, more: seq<Address>): (r: seq<Address>)
    ensures forall a :: a in r <==> a in roots || a in more
    ensures HasNoDuplicates(roots) ==> HasNoDuplicates(r)
  {
    if more == [] then roots
    else
      var front, last := Merged(roots, more[..|more| - 1]), more[|more| - 1];
      if last in front then front else front + [last]
  }

  function Kept(roots: seq<Address>, keep: Address -> bool): (r: seq<Address>)
  {
    if roots == [] then []
    else
      var n := |roots| - 1;
      Kept(roots[..n], keep) + if keep(roots[n]) then [roots[n]] else []
  }

  lemma {:induction false} KeptContents(roots: seq<Address>, keep: Address -> bool)
    ensures forall a :: a in Kept(roots, keep) <==> a in roots && keep(a)
    ensures HasNoDuplicates(roots) ==> HasNoDuplicates(Kept(roots, keep))
  {
    if roots != [] {
      KeptContents(roots[..|roots| - 1], keep);
    }
  }

  /** The roots known already stay in front; the new ones follow in the order they are listed in. */
  lemma {:induction false} MergedInOrder(roots: seq<Address>, more: seq<Address>)
    ensures roots <= Merged(roots, more) && IsSubsequence(Merged(roots, more)[|roots|..], more)
  {
    if more == [] {
      assert roots[|roots|..] == more;
      SubsequenceOfItself(more);
    } else {
      hide IsSubsequence;
      var n := |more| - 1;
      MergedInOrder(roots, more[..n]);
      var front := Merged(roots, more[..n]);
      SubsequenceGrows(front[|roots|..], more[..n], more[n]);
      assert (front + [more[n]])[|roots|..] == front[|roots|..] + [more[n]];
      assert more == more[..n] + [more[n]];
    }
  }

  /** What an unloaded moon leaves: its own roots go, unless the planet or another moon has them. */
  function StaysWithout(gone: seq<Address>, planet: Option<World>, moons: seq<World>): Address -> bool {
    a => a !in gone || IsWorldRoot(planet, moons, a)
  }

  /** Adding roots and removing the new ones again gives back the list, in its order. */
  lemma {:induction false} MergedThenKept(roots: seq<Address>, more: seq<Address>, keep: Address -> bool)
    requires forall a :: a in roots ==> keep(a)
    requires forall a :: a in more && a !in roots ==> !keep(a)
    ensures Kept(Merged(roots, more), keep) == roots
  {
    if more == [] {
      KeptAll(roots, keep);
    } else {
      var front, last := Merged(roots, more[..|more| - 1]), more[|more| - 1];
      MergedThenKept(roots, more[..|more| - 1], keep);
      if last !in front {
        assert (front + [last])[..|front|] == front;
      }
    }
  }

  lemma {:induction false} KeptAll(roots: seq<Address>, keep: Address -> bool)
    requires forall a :: a in roots ==> keep(a)
    ensures Kept(roots, keep) == roots
  {
    if roots != [] {
      var n := |roots| - 1;
      KeptAll(roots[..n], keep);
      assert roots == roots[..n] + [roots[n]];
    }
  }

  /** The roots after unloading a moon that was loaded as the last one are what they were before loading it. */
  lemma UnloadUndoesLoad(roots: seq<Address>, planet: Option<World>, moons: seq<World>, moon: World)
    requires IsUnion(roots, planet, moons)
    ensures Kept(Merged(roots, RootAddresses(moon.roots)), StaysWithout(RootAddresses(moon.roots), planet, moons)) == roots
  {
    MergedThenKept(roots, RootAddresses(moon.roots), StaysWithout(RootAddresses(moon.roots), planet, moons));
  }

  lemma UnionWithMoon(roots: seq<Address>, planet: Option<World>, moons: seq<World>, moon: World)
    requires IsUnion(roots, planet, moons)
    ensures IsUnion(Merged(roots, RootAddresses(moon.roots)), planet, moons + [moon])
  {
    forall a: Address
      ensures IsWorldRoot(planet, moons + [moon], a) <==> IsWorldRoot(planet, moons, a) || IsRootOf(moon, a)
    {
      assert moon in moons + [moon];
    }
  }

  lemma UnionWithoutMoon(roots: seq<Address>, planet: Option<World>, moons: seq<World>, i: nat)
    requires i < |moons| && IsUnion(roots, planet, moons)
    ensures var rest := moons[..i] + moons[i + 1..];
      IsUnion(Kept(roots, StaysWithout(RootAddresses(moons[i].roots), planet, rest)), planet, rest)
  {
    var rest := moons[..i] + moons[i + 1..];
    KeptContents(roots, StaysWithout(RootAddresses(moons[i].roots), planet, rest));
    assert moons == moons[..i] + [moons[i]] + moons[i + 1..];
    forall a: Address
      ensures IsWorldRoot(planet, moons, a) <==> IsWorldRoot(planet, rest, a) || IsRootOf(moons[i], a)
    {
      assert forall m :: m in moons <==> m in rest || m == moons[i];
    }
  }

  // --- The paths of a new root peer ---

  /** The addresses a root can be reached at, each once, in the order of its first mention. */
  function PathAddresses(endpoints: seq<InetAddress>): (r: seq<SocketAddr>)
    ensures forall a :: a in r <==> exists e :: e in endpoints && e.ToSocketAddr() == Some(a)
  {
    if endpoints == [] then []
    else
      var front, last := PathAddresses(endpoints[..|endpoints| - 1]), endpoints[|endpoints| - 1].ToSocketAddr();
      assert endpoints == endpoints[..|endpoints| - 1] + [endpoints[|endpoints| - 1]];
      if last.None? || last.value in front then front else front + [last.value]
  }

  /** The paths of a root read from a world file: direct, and not heard from since the clock's origin. */
  predicate HasRootPaths(paths: seq<Path>, endpoints: seq<InetAddress>) {
    && |paths| == |PathAddresses(endpoints)|
    && forall i :: 0 <= i < |paths| ==> paths[i] == NewPath(PathAddresses(endpoints)[i], 0)
  }

  method RootPeer(root: WorldRoot) returns (peer: Peer)
    ensures fresh(peer) && IsRootPeer(peer, root) && peer.identity == root.identity
  {
    peer := new Peer(root.identity, true);
    var endpoints := root.endpoints;
    for i := 0 to |endpoints|
      invariant fresh(peer) && peer.Valid() && peer.state == Unknown
      invariant HasRootPaths(peer.paths, endpoints[..i])
    {
      assert endpoints[..i + 1][..i] == endpoints[..i];
      ghost var known := PathAddresses(endpoints[..i]);
      var address := endpoints[i].ToSocketAddr();
      if address.Some? {
        assert address.value in known <==> Knows(peer.paths, address.value) by {
          assert forall j :: 0 <= j < |known| ==> known[j] == peer.paths[j].address;
        }
        peer.AddPath(address.value, true, 0);
      }
    }
    assert endpoints[..|endpoints|] == endpoints;
  }

  // --- The topology ---

  class Topology {
    var peers: map<Address, Peer>
    var roots: seq<Address>
    var planet: Option<World>
    var moons: seq<World>

    ghost predicate Valid()
      reads this
    {
      && IsUnion(roots, planet, moons)
      && (forall a :: a in roots ==> a in peers)
      && HasPeersByAddress(peers)
    }

    constructor ()
      ensures Valid() && peers == map[] && roots == [] && planet == None && moons == []
    {
      peers := map[];
      roots := [];
      planet := None;
      moons := [];
    }

    /** List every root of a world, and give it a new peer with the world's endpoints. */
    method LoadRoots(worldRoots: seq<WorldRoot>)
      requires HasPeersByAddress(peers)
      modifies this`roots, this`peers
      ensures IsLoaded(old(roots), old(peers), roots, peers, worldRoots)
    {
      hide IsLoaded, IsRootPeer;
      assert worldRoots[..0] == [] && worldRoots[..|worldRoots|] == worldRoots;
      NothingLoaded(roots, peers);
      for i := 0 to |worldRoots|
        invariant IsLoaded(old(roots), old(peers), roots, peers, worldRoots[..i])
      {
        ghost var rootsBefore, peersBefore := roots, peers;
        var peer := AddRoot(worldRoots[i]);
        LoadedStep(old(roots), old(peers), rootsBefore, peersBefore, worldRoots, i, peer);
      }
    }

    method AddRoot(root: WorldRoot) returns (peer: Peer)
      modifies this`roots, this`peers
      ensures var a := root.identity.address;
        && roots == (if a in old(roots) then old(roots) else old(roots) + [a])
        && peers == old(peers)[a := peer]
      ensures fresh(peer) && peer.identity == root.identity && IsRootPeer(peer, root)
    {
      var address := root.identity.address;
      if address !in roots {
        roots := roots + [address];
      }
      peer := RootPeer(root);
      peers := peers[address := peer];
    }

    /**
     The first planet makes the root list its roots. A later planet leaves the roots of the one it replaces in the list,
     so the list stays the union exactly when none of them is lost.
     */
    method LoadPlanet(world: World)
      requires Valid()
      modifies this`roots, this`peers, this`planet
      ensures planet == Some(world) && IsLoaded(old(roots), old(peers), roots, peers, world.roots)
      ensures Valid() <==>
        old(planet).Some? ==> forall a :: IsRootOf(old(planet).value, a) ==> IsWorldRoot(planet, moons, a)
    {
      hide IsRootPeer, Merged, HasRootPeers;
      LoadRoots(world.roots);
      UnionWithPlanet(old(roots), planet, moons, world);
      planet := Some(world);
    }

    /**
     A moon that is not signed with its own key is rejected, and changes nothing; a moon that has a key but whose signed
     portion overruns the verification buffer panics (None) before anything is changed.
     */
    method LoadMoon(moon: World, v: Verifier) returns (ok: Option<bool>)
      requires Valid()
      modifies this`roots, this`peers, this`moons
      ensures Valid()
      ensures ok == if Overruns(moon, v) then None else Some(IsGenuine(moon, v))
      ensures ok != Some(true) ==> unchanged(this)
      ensures ok == Some(true) ==>
        moons == old(moons) + [moon] && IsLoaded(old(roots), old(peers), roots, peers, moon.roots)
    {
      hide IsRootPeer, HasRootPeers, IsUnion, SignedPortion;
      ok := VerifySignature(moon, v);
      if ok != Some(true) {
        return;
      }
      LoadRoots(moon.roots);
      UnionWithMoon(old(roots), planet, moons, moon);
      moons := moons + [moon];
    }

    /** The first moon with the ID goes, and with it the roots no other world has; every peer stays. */
    method UnloadMoon(moonId: u64) returns (found: bool)
      requires Valid()
      modifies this`roots, this`moons
      ensures Valid()
      ensures found <==> exists i :: 0 <= i < |old(moons)| && old(moons)[i].id == moonId
      ensures !found ==> unchanged(this)
      ensures found ==> exists i :: IsFirstMoon(old(moons), moonId, i) && IsUnloaded(old(roots), old(moons), i)
    {
      var i := 0;
      while i < |moons| && moons[i].id != moonId
        invariant 0 <= i <= |moons|
        invariant forall j :: 0 <= j < i ==> moons[j].id != moonId
      {
        i := i + 1;
      }
      if i == |moons| {
        return false;
      }
      hide IsUnion;
      var moon := moons[i];
      UnionWithoutMoon(roots, planet, moons, i);
      moons := moons[..i] + moons[i + 1..];
      RemoveRoots(RootAddresses(moon.roots));
      assert IsFirstMoon(old(moons), moonId, i) && IsUnloaded(old(roots), old(moons), i);
      return true;
    }

    /** The roots and moons after unloading the moon at position `i`. */
    ghost predicate IsUnloaded(before: seq<Address>, moonsBefore: seq<World>, i: nat)
      requires i < |moonsBefore|
      reads this
    {
      && moons == moonsBefore[..i] + moonsBefore[i + 1..]
      && roots == Kept(before, StaysWithout(RootAddresses(moonsBefore[i].roots), planet, moons))
    }

    method RemoveRoots(gone: seq<Address>)
      modifies this`roots
      ensures roots == Kept(old(roots), StaysWithout(gone, planet, moons))
    {
      KeptAll(roots, StaysWithout(gone[..0], planet, moons));
      for i := 0 to |gone|
        invariant roots == Kept(old(roots), StaysWithout(gone[..i], planet, moons))
      {
        var address := gone[i];
        RemoveOne(old(roots), gone, i, planet, moons);
        if !IsWorldRoot(planet, moons, address) {
          roots := Kept(roots, a => a != address);
        }
      }
      assert gone[..|gone|] == gone;
    }

    /** Loading a moon with an unused ID, and unloading it if it was accepted, restores the root list in its order. */
    method LoadAndUnload(moon: World, v: Verifier)
      requires Valid() && forall m :: m in moons ==> m.id != moon.id
      modifies this`roots, this`peers, this`moons
      ensures Valid() && roots == old(roots) && moons == old(moons)
    {
      hide IsUnion, IsGenuine, SignedPortion, Merged, Kept;
      UnloadUndoesLoad(roots, planet, moons, moon);
      ghost var n := |moons|;
      var ok := LoadMoon(moon, v);
      if ok == Some(true) {
        assert moons[n] == moon && forall j :: 0 <= j < n ==> moons[j] in old(moons);
        var found := UnloadMoon(moon.id);
        assert (old(moons) + [moon])[..n] + (old(moons) + [moon])[n + 1..] == old(moons);
      }
    }

    /** The first root that has a peer. */
    method GetRoot() returns (root: Option<Peer>)
      ensures Valid() ==> root == if roots == [] then None else Some(peers[roots[0]])
    {
      for i := 0 to |roots|
        invariant forall j :: 0 <= j < i ==> roots[j] !in peers
      {
        if roots[i] in peers {
          return Some(peers[roots[i]]);
        }
      }
      return None;
    }

    /** The peer of the first root: the same one, as every root has a peer. */
    method GetRootMut() returns (root: Option<Peer>)
      ensures Valid() ==> root == if roots == [] then None else Some(peers[roots[0]])
    {
      if roots != [] && roots[0] in peers {
        return Some(peers[roots[0]]);
      }
      return None;
    }

    /** A learned identity never replaces a peer. */
    method AddPeer(identity: IdentityWire.Identity)
      requires Valid()
      modifies this`peers
      ensures Valid()
      ensures identity.address in old(peers) ==> peers == old(peers)
      ensures identity.address !in old(peers) ==>
        && identity.address in peers && fresh(peers[identity.address])
        && peers == old(peers)[identity.address := peers[identity.address]]
        && peers[identity.address].identity == identity && !peers[identity.address].isRoot
    {
      if identity.address !in peers {
        var peer := new Peer(identity, false);
        peers := peers[identity.address := peer];
      }
    }
  }

  predicate IsFirstMoon(moons: seq<World>, moonId: u64, i: int) {
    0 <= i < |moons| && moons[i].id == moonId && forall j :: 0 <= j < i ==> moons[j].id != moonId
  }

  lemma UnionWithPlanet(roots: seq<Address>, planet: Option<World>, moons: seq<World>, world: World)
    requires IsUnion(roots, planet, moons)
    ensures IsUnion(Merged(roots, RootAddresses(world.roots)), Some(world), moons) <==>
      planet.Some? ==> forall a :: IsRootOf(planet.value, a) ==> IsWorldRoot(Some(world), moons, a)
  {
  }

  /** A second planet with another root: the first one's root stays in the list, which is no longer the union. */
  lemma SecondPlanetLeavesRoots(first: World, second: World, a: Address, b: Address)
    requires RootAddresses(first.roots) == [a] && RootAddresses(second.roots) == [b] && a != b
    ensures IsUnion(Merged([], RootAddresses(first.roots)), Some(first), [])
    ensures var roots := Merged(Merged([], RootAddresses(first.roots)), RootAddresses(second.roots));
      roots == [a, b] && !IsUnion(roots, Some(second), [])
  {
    assert [a][..0] == [] && [b][..0] == [];
    assert Merged([], [a]) == [] + [a] == [a];
    assert Merged([a], [b]) == [a] + [b] == [a, b];
    assert a in [a, b] && !IsWorldRoot(Some(second), [], a);
  }

  lemma RemoveOne(roots: seq<Address>, gone: seq<Address>, i: nat, planet: Option<World>, moons: seq<World>)
    requires i < |gone|
    ensures var before := Kept(roots, StaysWithout(gone[..i], planet, moons));
      Kept(roots, StaysWithout(gone[..i + 1], planet, moons)) ==
        if IsWorldRoot(planet, moons, gone[i]) then before else Kept(before, a => a != gone[i])
  {
    var keep, now := StaysWithout(gone[..i], planet, moons), StaysWithout(gone[..i + 1], planet, moons);
    assert gone[..i + 1] == gone[..i] + [gone[i]];
    hide IsWorldRoot;
    if IsWorldRoot(planet, moons, gone[i]) {
      KeptAlike(roots, keep, now);
    } else {
      KeptTwice(roots, keep, a => a != gone[i], now);
    }
  }

  lemma {:induction false} KeptAlike(roots: seq<Address>, f: Address -> bool, g: Address -> bool)
    requires forall a :: f(a) == g(a)
    ensures Kept(roots, f) == Kept(roots, g)
  {
    if roots != [] {
      KeptAlike(roots[..|roots| - 1], f, g);
    }
  }

  lemma {:induction false} KeptTwice(roots: seq<Address>, f: Address -> bool, g: Address -> bool, both: Address -> bool)
    requires forall a :: both(a) == (f(a) && g(a))
    ensures Kept(Kept(roots, f), g) == Kept(roots, both)
  {
    if roots != [] {
      var n := |roots| - 1;
      KeptTwice(roots[..n], f, g, both);
      KeptLastTwice(roots[..n], roots[n], f, g, both);
      assert roots == roots[..n] + [roots[n]];
    }
  }

  lemma KeptLastTwice(roots: seq<Address>, a: Address, f: Address -> bool, g: Address -> bool, both: Address -> bool)
    requires Kept(Kept(roots, f), g) == Kept(roots, both) && both(a) == (f(a) && g(a))
    ensures Kept(Kept(roots + [a], f), g) == Kept(roots + [a], both)
  {
    hide Kept;
    KeptLast(roots, a, f);
    KeptLast(roots, a, both);
    KeptLast(Kept(roots, f), a, g);
    assert forall s: seq<Address> :: s + [] == s;
  }

  lemma KeptLast(roots: seq<Address>, a: Address, keep: Address -> bool)
    ensures Kept(roots + [a], keep) == Kept(roots, keep) + if keep(a) then [a] else []
  {
    assert (roots + [a])[..|roots|] == roots;
  }

  /** The root list and the peers after loading the roots of a world. */
  ghost predicate IsLoaded(
    rootsBefore: seq<Address>, peersBefore: map<Address, Peer>,
    roots: seq<Address>, peers: map<Address, Peer>, worldRoots: seq<WorldRoot>)
    reads peers.Values
  {
    && roots == Merged(rootsBefore, RootAddresses(worldRoots))
    && HasRootPeers(peers, worldRoots)
    && HasPeersByAddress(peers)
    && IsExtended(peersBefore, peers, RootAddresses(worldRoots))
  }

  lemma NothingLoaded(roots: seq<Address>, peers: map<Address, Peer>)
    requires HasPeersByAddress(peers)
    ensures IsLoaded(roots, peers, roots, peers, [])
  {
  }

  lemma LoadedStep(
    rootsBefore: seq<Address>, peersBefore: map<Address, Peer>,
    roots: seq<Address>, peers: map<Address, Peer>, worldRoots: seq<WorldRoot>, i: nat, peer: Peer)
    requires i < |worldRoots| && IsLoaded(rootsBefore, peersBefore, roots, peers, worldRoots[..i])
    requires IsRootPeer(peer, worldRoots[i]) && peer.identity == worldRoots[i].identity
    ensures var a := worldRoots[i].identity.address;
      IsLoaded(rootsBefore, peersBefore, if a in roots then roots else roots + [a], peers[a := peer], worldRoots[..i + 1])
  {
    hide Merged, IsRootPeer, HasRootPeers, IsExtended, EntryOf;
    MergedOne(rootsBefore, worldRoots, i);
    RootPeersStep(peers, worldRoots, i, peer);
    ExtendedStep(peersBefore, peers, RootAddresses(worldRoots[..i]), worldRoots[i].identity.address, peer);
  }

  lemma MergedOne(roots: seq<Address>, worldRoots: seq<WorldRoot>, i: nat)
    requires i < |worldRoots|
    ensures RootAddresses(worldRoots[..i + 1]) == RootAddresses(worldRoots[..i]) + [worldRoots[i].identity.address]
    ensures var front := Merged(roots, RootAddresses(worldRoots[..i]));
      Merged(roots, RootAddresses(worldRoots[..i + 1])) ==
        if worldRoots[i].identity.address in front then front else front + [worldRoots[i].identity.address]
  {
    var more := RootAddresses(worldRoots[..i + 1]);
    assert more[..i] == RootAddresses(worldRoots[..i]);
  }

  /** The entry of a world that a root's peer is made from: the last one with its address. */
  function EntryOf(worldRoots: seq<WorldRoot>, a: Address): (r: WorldRoot)
    requires a in RootAddresses(worldRoots)
  {
    var n := |worldRoots| - 1;
    if worldRoots[n].identity.address == a then worldRoots[n]
    else
      assert RootAddresses(worldRoots[..n]) == RootAddresses(worldRoots)[..n];
      EntryOf(worldRoots[..n], a)
  }

  predicate HasPeersByAddress(peers: map<Address, Peer>)
  {
    forall a :: a in peers ==> peers[a].identity.address == a
  }

  predicate HasRootPeers(peers: map<Address, Peer>, worldRoots: seq<WorldRoot>)
    reads peers.Values
  {
    forall a :: a in RootAddresses(worldRoots) ==> a in peers && IsRootPeer(peers[a], EntryOf(worldRoots, a))
  }

  predicate IsRootPeer(peer: Peer, root: WorldRoot)
    reads peer
  {
    && peer.Valid() && peer.identity == root.identity && peer.isRoot
    && peer.state == Unknown && HasRootPaths(peer.paths, root.endpoints)
  }

  lemma RootPeersStep(peers: map<Address, Peer>, worldRoots: seq<WorldRoot>, i: nat, peer: Peer)
    requires i < |worldRoots| && HasRootPeers(peers, worldRoots[..i]) && IsRootPeer(peer, worldRoots[i])
    ensures HasRootPeers(peers[worldRoots[i].identity.address := peer], worldRoots[..i + 1])
  {
    var address, after := worldRoots[i].identity.address, worldRoots[..i + 1];
    assert after[..i] == worldRoots[..i];
    assert RootAddresses(after) == RootAddresses(worldRoots[..i]) + [address];
    forall a | a in RootAddresses(after)
      ensures a in peers[address := peer] && IsRootPeer(peers[address := peer][a], EntryOf(after, a))
    {
      hide IsRootPeer;
      if a == address {
        assert EntryOf(after, a) == worldRoots[i];
      } else {
        assert a in RootAddresses(worldRoots[..i]);
        assert EntryOf(after, a) == EntryOf(worldRoots[..i], a);
      }
    }
  }

  lemma ExtendedStep(before: map<Address, Peer>, mid: map<Address, Peer>, addresses: seq<Address>, a: Address, peer: Peer)
    requires IsExtended(before, mid, addresses)
    ensures IsExtended(before, mid[a := peer], addresses + [a])
  {
  }

  /** Peers are added, or replaced, for exactly the addresses given. */
  ghost predicate IsExtended(before: map<Address, Peer>, after: map<Address, Peer>, addresses: seq<Address>) {
    && (forall a :: a in after <==> a in before || a in addresses)
    && (forall a :: a in before && a !in addresses ==> after[a] == before[a])
  }
}
