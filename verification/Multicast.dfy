/** Multicast subscriptions: nested vectors that refine a map from group to subscriber to time. */
module Multicast {
  import opened Wrappers
  import opened Bytes

  datatype GroupKey = GroupKey(networkId: u64, mac: Mac, adi: u32)

  datatype Subscriber = Subscriber(address: Address, subscribedAt: u64)

  datatype Group = Group(key: GroupKey, subscribers: seq<Subscriber>)

  /** When each address subscribed to a group. */
  type Times = map<Address, u64>

  type Index = map<GroupKey, Times>

  /** When `address` subscribed to `key`, if it did. */
  function At(index: Index, key: GroupKey, address: Address): Option<u64> {
    if key in index && address in index[key] then Some(index[key][address]) else None
  }

  // --- The operations on the map ---

  function TimesIn(index: Index, key: GroupKey): Times {
    if key in index then index[key] else map[]
  }

  function Subscribed(index: Index, key: GroupKey, address: Address, now: u64): Index {
    index[key := TimesIn(index, key)[address := now]]
  }

  function SubscribedAll(index: Index, keys: seq<GroupKey>, address: Address, now: u64): Index {
    if keys == [] then index
    else Subscribed(SubscribedAll(index, keys[..|keys| - 1], address, now), keys[|keys| - 1], address, now)
  }

  function Left(times: Times, key: GroupKey, drop: (GroupKey, Subscriber) -> bool): Times {
    map a | a in times && !drop(key, Subscriber(a, times[a])) :: times[a]
  }

  /** The subscriptions that are not dropped; a group without any disappears. */
  function Removed(index: Index, drop: (GroupKey, Subscriber) -> bool): Index {
    map k | k in index && Left(index[k], k, drop) != map[] :: Left(index[k], k, drop)
  }

  function DropUnadvertised(networkId: u64, address: Address, keys: seq<GroupKey>): (GroupKey, Subscriber) -> bool {
    (k: GroupKey, s: Subscriber) => k.networkId == networkId && k !in keys && s.address == address
  }

  function Replaced(index: Index, networkId: u64, address: Address, keys: seq<GroupKey>, now: u64): Index {
    SubscribedAll(Removed(index, DropUnadvertised(networkId, address, keys)), keys, address, now)
  }

  /** The advertised groups of one network, in the order advertised. */
  function OfNetwork(keys: seq<GroupKey>, networkId: u64): (r: seq<GroupKey>)
    ensures forall k :: k in r <==> k in keys && k.networkId == networkId
  {
    if keys == [] then []
    else
      var last := keys[|keys| - 1];
      OfNetwork(keys[..|keys| - 1], networkId) + if last.networkId == networkId then [last] else []
  }

  function Liked(index: Index, sender: Address, keys: seq<GroupKey>, networkIds: seq<u64>, now: u64): Index {
    if networkIds == [] then index
    else
      var n := networkIds[|networkIds| - 1];
      Replaced(Liked(index, sender, keys, networkIds[..|networkIds| - 1], now), n, sender, OfNetwork(keys, n), now)
  }

  // --- What the operations mean ---

  lemma {:induction false} SubscribedAllAt(index: Index, keys: seq<GroupKey>, address: Address, now: u64, k: GroupKey, a: Address)
    ensures At(SubscribedAll(index, keys, address, now), k, a) ==
      if a == address && k in keys then Some(now) else At(index, k, a)
  {
    if keys != [] {
      var n := |keys| - 1;
      SubscribedAllAt(index, keys[..n], address, now, k, a);
      assert keys == keys[..n] + [keys[n]];
    }
  }

  lemma RemovedAt(index: Index, drop: (GroupKey, Subscriber) -> bool, k: GroupKey, a: Address)
    ensures At(Removed(index, drop), k, a) ==
      if At(index, k, a).Some? && !drop(k, Subscriber(a, At(index, k, a).value)) then At(index, k, a) else None
  {
    if k in index && a in Left(index[k], k, drop) {
      assert Left(index[k], k, drop) != map[];
    }
  }

  /** One network's snapshot replaces the sender's groups there, and nothing else. */
  lemma ReplacedAt(index: Index, networkId: u64, address: Address, keys: seq<GroupKey>, now: u64, k: GroupKey, a: Address)
    ensures At(Replaced(index, networkId, address, keys, now), k, a) ==
      if a != address then At(index, k, a)
      else if k in keys then Some(now)
      else if k.networkId == networkId then None
      else At(index, k, a)
  {
    var drop := DropUnadvertised(networkId, address, keys);
    RemovedAt(index, drop, k, a);
    SubscribedAllAt(Removed(index, drop), keys, address, now, k, a);
  }

  lemma {:induction false} LikedAt(
    index: Index, sender: Address, keys: seq<GroupKey>, networkIds: seq<u64>, now: u64, k: GroupKey, a: Address)
    ensures At(Liked(index, sender, keys, networkIds, now), k, a) ==
      if a != sender || k.networkId !in networkIds then At(index, k, a)
      else if k in keys then Some(now)
      else None
  {
    if networkIds != [] {
      var m := |networkIds| - 1;
      var n := networkIds[m];
      LikedAt(index, sender, keys, networkIds[..m], now, k, a);
      ReplacedAt(Liked(index, sender, keys, networkIds[..m], now), n, sender, OfNetwork(keys, n), now, k, a);
      assert networkIds == networkIds[..m] + [n];
    }
  }

  /** Does `keys` mention the network of `k`? */
  predicate Mentions(keys: seq<GroupKey>, networkId: u64) {
    exists i :: 0 <= i < |keys| && keys[i].networkId == networkId
  }

  predicate IsMentioned(networkIds: seq<u64>, keys: seq<GroupKey>) {
    forall n: u64 :: n in networkIds <==> Mentions(keys, n)
  }

  /**
   After an advertisement the sender is in exactly the advertised groups of every network mentioned in it;
   its groups on other networks, and all other senders, are as before.
   */
  ghost predicate IsAdvertised(before: Index, after: Index, sender: Address, keys: seq<GroupKey>, now: u64) {
    forall k: GroupKey, a: Address ::
      At(after, k, a) ==
        if a != sender || !Mentions(keys, k.networkId) then At(before, k, a)
        else if k in keys then Some(now)
        else None
  }

  lemma LikedIsAdvertised(index: Index, sender: Address, keys: seq<GroupKey>, networkIds: seq<u64>, now: u64)
    requires IsMentioned(networkIds, keys)
    ensures IsAdvertised(index, Liked(index, sender, keys, networkIds, now), sender, keys, now)
  {
    forall k: GroupKey, a: Address
      ensures At(Liked(index, sender, keys, networkIds, now), k, a) ==
        if a != sender || !Mentions(keys, k.networkId) then At(index, k, a)
        else if k in keys then Some(now)
        else None
    {
      LikedAt(index, sender, keys, networkIds, now, k, a);
    }
  }

  /** The groups an address is in on a network. */
  ghost predicate Views(index: Index, networkId: u64, address: Address, k: GroupKey) {
    k.networkId == networkId && At(index, k, address).Some?
  }

  ghost predicate SameView(a: Index, b: Index, networkId: u64, address: Address) {
    forall k :: Views(a, networkId, address, k) <==> Views(b, networkId, address, k)
  }

  ghost predicate HasNoView(index: Index, networkId: u64, address: Address) {
    forall k :: !Views(index, networkId, address, k)
  }

  /** The advertisement a member builds lists exactly its groups on the network. */
  ghost predicate IsAdvertisement(mine: Index, networkId: u64, address: Address, keys: seq<GroupKey>) {
    forall k :: k in keys <==> Views(mine, networkId, address, k)
  }

  /**
   A receiver of a member's own advertisement sees the member in exactly the member's groups of that network,
   unless there are none: an empty advertisement mentions no network, so it withdraws nothing. The program sends none
   for a network it has no group on, so an empty message comes only from another sender; and that a member has left its
   last group is noticed by expiry alone.
   */
  lemma AdvertisementDelivers(mine: Index, theirs: Index, after: Index, networkId: u64, address: Address, keys: seq<GroupKey>, now: u64)
    requires IsAdvertisement(mine, networkId, address, keys)
    requires IsAdvertised(theirs, after, address, keys, now)
    ensures SameView(mine, after, networkId, address) <==>
      !HasNoView(mine, networkId, address) || HasNoView(theirs, networkId, address)
  {
    if HasNoView(mine, networkId, address) {
      assert forall i :: 0 <= i < |keys| ==> keys[i] in keys;
      assert !Mentions(keys, networkId);
      assert forall k :: Views(after, networkId, address, k) <==> Views(theirs, networkId, address, k);
    } else {
      var k0 :| Views(mine, networkId, address, k0);
      assert k0 in keys;
      assert Mentions(keys, networkId);
    }
  }

  // --- The vectors ---

  ghost predicate HasUniqueAddresses(subscribers: seq<Subscriber>) {
    forall i, j :: 0 <= i < j < |subscribers| ==> subscribers[i].address != subscribers[j].address
  }

  ghost predicate ListsTimes(subscribers: seq<Subscriber>, times: Times) {
    && HasUniqueAddresses(subscribers)
    && (forall s :: s in subscribers ==> s.address in times && times[s.address] == s.subscribedAt)
    && (forall a :: a in times ==> Subscriber(a, times[a]) in subscribers)
  }

  ghost predicate HasKey(groups: seq<Group>, k: GroupKey) {
    exists i :: 0 <= i < |groups| && groups[i].key == k
  }

  ghost predicate ListsGroup(g: Group, index: Index) {
    g.key in index && g.subscribers != [] && ListsTimes(g.subscribers, index[g.key])
  }

  ghost predicate HasUniqueKeys(groups: seq<Group>) {
    forall i, j :: 0 <= i < j < |groups| ==> groups[i].key != groups[j].key
  }

  /** Group keys are unique, no group is empty, no address repeats in a group, and nothing is missing. */
  ghost predicate ListsIndex(groups: seq<Group>, index: Index) {
    && HasUniqueKeys(groups)
    && (forall i :: 0 <= i < |groups| ==> ListsGroup(groups[i], index))
    && (forall k :: k in index ==> HasKey(groups, k))
  }

  lemma SubscriberUpdated(subscribers: seq<Subscriber>, times: Times, j: nat, address: Address, now: u64)
    requires ListsTimes(subscribers, times) && j < |subscribers| && subscribers[j].address == address
    ensures ListsTimes(subscribers[j := Subscriber(address, now)], times[address := now])
  {
    var r, t := subscribers[j := Subscriber(address, now)], times[address := now];
    forall a | a in t
      ensures Subscriber(a, t[a]) in r
    {
      if a == address {
        assert r[j] == Subscriber(a, t[a]);
      } else {
        var i :| 0 <= i < |subscribers| && subscribers[i] == Subscriber(a, times[a]);
        assert r[i] == Subscriber(a, t[a]);
      }
    }
  }

  lemma SubscriberAppended(subscribers: seq<Subscriber>, times: Times, address: Address, now: u64)
    requires ListsTimes(subscribers, times) && forall s :: s in subscribers ==> s.address != address
    ensures ListsTimes(subscribers + [Subscriber(address, now)], times[address := now])
  {
  }

  lemma GroupUpdated(groups: seq<Group>, index: Index, i: nat, g: Group, times: Times)
    requires ListsIndex(groups, index) && i < |groups| && groups[i].key == g.key
    requires g.subscribers != [] && ListsTimes(g.subscribers, times)
    ensures ListsIndex(groups[i := g], index[g.key := times])
  {
    var r := groups[i := g];
    forall k | k in index[g.key := times]
      ensures HasKey(r, k)
    {
      if k == g.key {
        assert r[i].key == k;
      } else {
        var j :| 0 <= j < |groups| && groups[j].key == k;
        assert r[j].key == k;
      }
    }
  }

  lemma GroupAppended(groups: seq<Group>, index: Index, g: Group, times: Times)
    requires ListsIndex(groups, index) && !HasKey(groups, g.key)
    requires g.subscribers != [] && ListsTimes(g.subscribers, times)
    ensures ListsIndex(groups + [g], index[g.key := times])
  {
    var r := groups + [g];
    assert r[|groups|] == g;
    forall k | k in index[g.key := times]
      ensures HasKey(r, k)
    {
      if k != g.key {
        var j :| 0 <= j < |groups| && groups[j].key == k;
        assert r[j].key == k;
      }
    }
  }

  /** The subscribers of a group that are not dropped, in order. */
  function Retained(subscribers: seq<Subscriber>, key: GroupKey, drop: (GroupKey, Subscriber) -> bool): (r: seq<Subscriber>)
    ensures forall s :: s in r <==> s in subscribers && !drop(key, s)
  {
    if subscribers == [] then []
    else
      var n := |subscribers| - 1;
      Retained(subscribers[..n], key, drop) + if drop(key, subscribers[n]) then [] else [subscribers[n]]
  }

  lemma {:induction false} RetainedUnique(subscribers: seq<Subscriber>, key: GroupKey, drop: (GroupKey, Subscriber) -> bool)
    requires HasUniqueAddresses(subscribers)
    ensures HasUniqueAddresses(Retained(subscribers, key, drop))
  {
    if subscribers != [] {
      var n := |subscribers| - 1;
      var front := Retained(subscribers[..n], key, drop);
      RetainedUnique(subscribers[..n], key, drop);
      forall i | 0 <= i < |front|
        ensures front[i].address != subscribers[n].address
      {
        assert front[i] in front;
        var m :| 0 <= m < n && subscribers[m] == front[i];
      }
    }
  }

  lemma RetainedLists(subscribers: seq<Subscriber>, times: Times, key: GroupKey, drop: (GroupKey, Subscriber) -> bool)
    requires ListsTimes(subscribers, times)
    ensures ListsTimes(Retained(subscribers, key, drop), Left(times, key, drop))
    ensures Retained(subscribers, key, drop) == [] <==> Left(times, key, drop) == map[]
  {
    RetainedUnique(subscribers, key, drop);
    var r, left := Retained(subscribers, key, drop), Left(times, key, drop);
    if r != [] {
      assert r[0] in r && r[0].address in left;
    }
  }

  lemma {:induction false} RetainedInOrder(subscribers: seq<Subscriber>, key: GroupKey, drop: (GroupKey, Subscriber) -> bool)
    ensures IsSubsequence(Retained(subscribers, key, drop), subscribers)
  {
    if subscribers == [] {
      SubsequenceOfItself(subscribers);
    } else {
      hide IsSubsequence;
      var n := |subscribers| - 1;
      var front := Retained(subscribers[..n], key, drop);
      RetainedInOrder(subscribers[..n], key, drop);
      SubsequenceGrows(front, subscribers[..n], subscribers[n]);
      assert subscribers == subscribers[..n] + [subscribers[n]];
      assert front + [] == front;
    }
  }

  function RetainedGroup(g: Group, drop: (GroupKey, Subscriber) -> bool): Group {
    Group(g.key, Retained(g.subscribers, g.key, drop))
  }

  ghost predicate IsRetainedFrom(g: Group, groups: seq<Group>, drop: (GroupKey, Subscriber) -> bool) {
    exists i :: 0 <= i < |groups| && g == RetainedGroup(groups[i], drop)
  }

  /** The groups that are not empty after dropping, in order. */
  function RetainedGroups(groups: seq<Group>, drop: (GroupKey, Subscriber) -> bool): (r: seq<Group>) {
    if groups == [] then []
    else
      var kept := RetainedGroup(groups[|groups| - 1], drop);
      RetainedGroups(groups[..|groups| - 1], drop) + if kept.subscribers == [] then [] else [kept]
  }

  lemma {:induction false} RetainedGroupsSource(groups: seq<Group>, drop: (GroupKey, Subscriber) -> bool, g: Group)
    requires g in RetainedGroups(groups, drop)
    ensures g.subscribers != [] && IsRetainedFrom(g, groups, drop)
  {
    if groups != [] {
      var n := |groups| - 1;
      hide RetainedGroup;
      if g in RetainedGroups(groups[..n], drop) {
        RetainedGroupsSource(groups[..n], drop, g);
        var i :| 0 <= i < n && g == RetainedGroup(groups[..n][i], drop);
        assert g == RetainedGroup(groups[i], drop);
      }
    }
  }

  lemma {:induction false} RetainedGroupsKeep(groups: seq<Group>, drop: (GroupKey, Subscriber) -> bool, i: nat)
    requires i < |groups| && RetainedGroup(groups[i], drop).subscribers != []
    ensures RetainedGroup(groups[i], drop) in RetainedGroups(groups, drop)
  {
    var n := |groups| - 1;
    hide RetainedGroup;
    if i < n {
      RetainedGroupsKeep(groups[..n], drop, i);
    }
  }

  lemma {:induction false} RetainedGroupsUnique(groups: seq<Group>, drop: (GroupKey, Subscriber) -> bool)
    requires HasUniqueKeys(groups)
    ensures HasUniqueKeys(RetainedGroups(groups, drop))
  {
    if groups != [] {
      var n := |groups| - 1;
      var front := RetainedGroups(groups[..n], drop);
      RetainedGroupsUnique(groups[..n], drop);
      forall i | 0 <= i < |front|
        ensures front[i].key != groups[n].key
      {
        RetainedGroupsSource(groups[..n], drop, front[i]);
        var m :| 0 <= m < n && front[i] == RetainedGroup(groups[..n][m], drop);
        assert groups[m].key != groups[n].key;
      }
    }
  }

  lemma RetainedGroupsList(groups: seq<Group>, index: Index, drop: (GroupKey, Subscriber) -> bool)
    requires ListsIndex(groups, index)
    ensures ListsIndex(RetainedGroups(groups, drop), Removed(index, drop))
  {
    RetainedGroupsUnique(groups, drop);
    var r, left := RetainedGroups(groups, drop), Removed(index, drop);
    forall i | 0 <= i < |r|
      ensures ListsGroup(r[i], left)
    {
      RetainedGroupsSource(groups, drop, r[i]);
      var m :| 0 <= m < |groups| && r[i] == RetainedGroup(groups[m], drop);
      RetainedGroupLists(groups[m], index, drop);
    }
    forall k | k in left
      ensures HasKey(r, k)
    {
      var m :| 0 <= m < |groups| && groups[m].key == k;
      RetainedGroupLists(groups[m], index, drop);
      RetainedGroupsKeep(groups, drop, m);
    }
  }

  lemma RetainedGroupLists(g: Group, index: Index, drop: (GroupKey, Subscriber) -> bool)
    requires ListsGroup(g, index)
    ensures RetainedGroup(g, drop).subscribers != [] <==> g.key in Removed(index, drop)
    ensures g.key in Removed(index, drop) ==> ListsGroup(RetainedGroup(g, drop), Removed(index, drop))
  {
    RetainedLists(g.subscribers, index[g.key], g.key, drop);
  }

  function Addresses(subscribers: seq<Subscriber>): (r: seq<Address>)
    ensures |r| == |subscribers|
    ensures forall i :: 0 <= i < |r| ==> r[i] == subscribers[i].address
  {
    seq(|subscribers|, i requires 0 <= i < |subscribers| => subscribers[i].address)
  }

  // --- The order of subscribers ---

  /** The subscribers of a group, in the order they are kept in. */
  function SubscribersOf(groups: seq<Group>, key: GroupKey): (r: seq<Subscriber>) {
    if groups == [] then []
    else if groups[0].key == key then groups[0].subscribers
    else SubscribersOf(groups[1..], key)
  }

  predicate IsFirstWith(groups: seq<Group>, key: GroupKey, i: nat) {
    && i <= |groups|
    && (i < |groups| ==> groups[i].key == key)
    && (forall j :: 0 <= j < i ==> groups[j].key != key)
  }

  lemma {:induction false} SubscribersAt(groups: seq<Group>, key: GroupKey, i: nat)
    requires IsFirstWith(groups, key, i)
    ensures SubscribersOf(groups, key) == if i < |groups| then groups[i].subscribers else []
  {
    if i != 0 {
      SubscribersAt(groups[1..], key, i - 1);
    }
  }

  /** Replacing a group's subscribers, or adding a new group, leaves those of other groups alone. */
  lemma {:induction false} SubscribersReplaced(groups: seq<Group>, g: Group, i: nat, k: GroupKey)
    requires IsFirstWith(groups, g.key, i)
    ensures var after := if i < |groups| then groups[i := g] else groups + [g];
      SubscribersOf(after, k) == if k == g.key then g.subscribers else SubscribersOf(groups, k)
  {
    var after := if i < |groups| then groups[i := g] else groups + [g];
    if groups == [] {
      assert after == [g];
    } else if i == 0 {
      assert after[1..] == groups[1..];
    } else {
      SubscribersReplaced(groups[1..], g, i - 1, k);
      assert after[1..] == if i < |groups| then groups[1..][i - 1 := g] else groups[1..] + [g];
    }
  }

  lemma RetainedSubscribers(groups: seq<Group>, drop: (GroupKey, Subscriber) -> bool, k: GroupKey)
    requires HasUniqueKeys(groups)
    ensures SubscribersOf(RetainedGroups(groups, drop), k) == Retained(SubscribersOf(groups, k), k, drop)
  {
    hide RetainedGroups, Retained, SubscribersOf, HasUniqueKeys;
    var i, j := FirstWith(groups, k), FirstWith(RetainedGroups(groups, drop), k);
    SubscribersAt(groups, k, i);
    SubscribersAt(RetainedGroups(groups, drop), k, j);
    RetainedAtFirst(groups, drop, k, i, j);
  }

  function FirstWith(groups: seq<Group>, key: GroupKey): (i: nat)
    ensures IsFirstWith(groups, key, i)
  {
    if groups == [] || groups[0].key == key then 0 else FirstWith(groups[1..], key) + 1
  }

  lemma RetainedAtFirst(groups: seq<Group>, drop: (GroupKey, Subscriber) -> bool, k: GroupKey, i: nat, j: nat)
    requires HasUniqueKeys(groups)
    requires IsFirstWith(groups, k, i) && IsFirstWith(RetainedGroups(groups, drop), k, j)
    ensures var r, was := RetainedGroups(groups, drop), if i < |groups| then groups[i].subscribers else [];
      (if j < |r| then r[j].subscribers else []) == Retained(was, k, drop)
  {
    var r := RetainedGroups(groups, drop);
    if j < |r| {
      RetainedGroupsSource(groups, drop, r[j]);
      var m :| 0 <= m < |groups| && r[j] == RetainedGroup(groups[m], drop);
      assert groups[m].key == k && m == i;
    } else if i < |groups| && Retained(groups[i].subscribers, k, drop) != [] {
      RetainedGroupsKeep(groups, drop, i);
    }
  }

  /** A subscriber already listed keeps its place; a new one comes last. */
  predicate IsListedLast(before: seq<Subscriber>, after: seq<Subscriber>, address: Address) {
    Addresses(after) == Addresses(before) + if address in Addresses(before) then [] else [address]
  }

  /** Of each group's subscribers some may be gone; the others are in the order they were. */
  ghost predicate KeepsOrder(before: seq<Group>, after: seq<Group>) {
    forall k :: IsSubsequence(SubscribersOf(after, k), SubscribersOf(before, k))
  }

  lemma RemovalKeepsOrder(before: seq<Group>, after: seq<Group>, drop: (GroupKey, Subscriber) -> bool)
    requires forall k :: SubscribersOf(after, k) == Retained(SubscribersOf(before, k), k, drop)
    ensures KeepsOrder(before, after)
  {
    hide IsSubsequence, SubscribersOf, Retained;
    forall k
      ensures IsSubsequence(SubscribersOf(after, k), SubscribersOf(before, k))
    {
      RetainedInOrder(SubscribersOf(before, k), k, drop);
    }
  }

  /** The addresses but one, in order. */
  function Others(addresses: seq<Address>, address: Address): (r: seq<Address>) {
    if addresses == [] then []
    else
      var n := |addresses| - 1;
      Others(addresses[..n], address) + if addresses[n] == address then [] else [addresses[n]]
  }

  /** All subscribers but one stay where they are among each other. */
  predicate OthersKeepOrder(before: seq<Subscriber>, after: seq<Subscriber>, address: Address) {
    Others(Addresses(after), address) == Others(Addresses(before), address)
  }

  lemma OthersLast(addresses: seq<Address>, last: Address, address: Address)
    ensures Others(addresses + [last], address) ==
      Others(addresses, address) + if last == address then [] else [last]
  {
    assert (addresses + [last])[..|addresses|] == addresses;
  }

  lemma OthersListed(first: seq<Subscriber>, before: seq<Subscriber>, after: seq<Subscriber>, address: Address)
    requires OthersKeepOrder(first, before, address) && IsListedLast(before, after, address)
    ensures OthersKeepOrder(first, after, address)
  {
    OthersLast(Addresses(before), address, address);
    assert Addresses(before) + [] == Addresses(before);
    assert Others(Addresses(before), address) + [] == Others(Addresses(before), address);
  }

  /** Dropping no one but `address` keeps the others. */
  lemma {:induction false} OthersRetained(
    subscribers: seq<Subscriber>, key: GroupKey, drop: (GroupKey, Subscriber) -> bool, address: Address)
    requires forall s :: drop(key, s) ==> s.address == address
    ensures OthersKeepOrder(subscribers, Retained(subscribers, key, drop), address)
  {
    if subscribers != [] {
      var n := |subscribers| - 1;
      var front, last := Retained(subscribers[..n], key, drop), subscribers[n];
      OthersRetained(subscribers[..n], key, drop, address);
      assert Retained(subscribers, key, drop) == front + if drop(key, last) then [] else [last];
      assert subscribers == subscribers[..n] + [last] && front + [] == front;
      hide Others, Retained;
      OthersAppended(subscribers[..n], last, address);
      OthersAppended(front, last, address);
    }
  }

  lemma OthersAppended(subscribers: seq<Subscriber>, last: Subscriber, address: Address)
    ensures Others(Addresses(subscribers + [last]), address) ==
      if last.address == address then Others(Addresses(subscribers), address)
      else Others(Addresses(subscribers), address) + [last.address]
  {
    assert Addresses(subscribers + [last]) == Addresses(subscribers) + [last.address];
    OthersLast(Addresses(subscribers), last.address, address);
    assert Others(Addresses(subscribers), address) + [] == Others(Addresses(subscribers), address);
  }

  class MulticastManager {
    var subscriptions: seq<Group>
    /** The map the vectors stand for. */
    ghost var index: Index

    ghost predicate Valid()
      reads this
    {
      ListsIndex(subscriptions, index)
    }

    constructor ()
      ensures Valid() && index == map[]
    {
      subscriptions := [];
      index := map[];
    }

    method FindGroup(key: GroupKey) returns (i: nat)
      ensures IsFirstWith(subscriptions, key, i)
      ensures i == |subscriptions| ==> !HasKey(subscriptions, key)
    {
      i := 0;
      while i < |subscriptions| && subscriptions[i].key != key
        invariant 0 <= i <= |subscriptions|
        invariant forall j :: 0 <= j < i ==> subscriptions[j].key != key
      {
        i := i + 1;
      }
    }

    method Subscribe(key: GroupKey, address: Address, now: u64)
      requires Valid()
      modifies this
      ensures Valid() && index == Subscribed(old(index), key, address, now)
      ensures IsListedLast(SubscribersOf(old(subscriptions), key), SubscribersOf(subscriptions, key), address)
      ensures forall k :: k != key ==> SubscribersOf(subscriptions, k) == SubscribersOf(old(subscriptions), k)
    {
      var i := FindGroup(key);
      SubscribersAt(subscriptions, key, i);
      ghost var updatedTo: seq<Subscriber>;
      if i == |subscriptions| {
        updatedTo := [] + [Subscriber(address, now)];
        SubscriberAppended([], map[], address, now);
        GroupAppended(subscriptions, index, Group(key, [] + [Subscriber(address, now)]), map[][address := now]);
        assert key !in index;
        subscriptions := subscriptions + [Group(key, [] + [Subscriber(address, now)])];
      } else {
        var subscribers := subscriptions[i].subscribers;
        assert ListsGroup(subscriptions[i], index);
        var updated := UpdateSubscriber(subscribers, address, now, index[key]);
        updatedTo := updated;
        GroupUpdated(subscriptions, index, i, Group(key, updated), index[key][address := now]);
        subscriptions := subscriptions[i := Group(key, updated)];
      }
      index := Subscribed(index, key, address, now);
      forall k
        ensures SubscribersOf(subscriptions, k) == if k == key then updatedTo else SubscribersOf(old(subscriptions), k)
      {
        SubscribersReplaced(old(subscriptions), Group(key, updatedTo), i, k);
      }
    }

    static method UpdateSubscriber(subscribers: seq<Subscriber>, address: Address, now: u64, ghost times: Times)
      returns (r: seq<Subscriber>)
      requires ListsTimes(subscribers, times)
      ensures r != [] && ListsTimes(r, times[address := now]) && IsListedLast(subscribers, r, address)
    {
      for j := 0 to |subscribers|
        invariant forall m :: 0 <= m < j ==> subscribers[m].address != address
      {
        if subscribers[j].address == address {
          SubscriberUpdated(subscribers, times, j, address, now);
          assert Addresses(subscribers)[j] == address;
          return subscribers[j := Subscriber(address, now)];
        }
      }
      SubscriberAppended(subscribers, times, address, now);
      return subscribers + [Subscriber(address, now)];
    }

    /** Retain what is not dropped, group by group, and then the groups that are not empty. */
    method Remove(drop: (GroupKey, Subscriber) -> bool)
      requires Valid()
      modifies this
      ensures Valid() && index == Removed(old(index), drop)
      ensures forall k :: SubscribersOf(subscriptions, k) == Retained(SubscribersOf(old(subscriptions), k), k, drop)
    {
      assert HasUniqueKeys(subscriptions);
      hide ListsIndex, Removed, Retained, SubscribersOf, HasUniqueKeys, RetainedGroups;
      var kept := RetainGroups(subscriptions, drop);
      RetainedGroupsList(subscriptions, index, drop);
      forall k
        ensures SubscribersOf(kept, k) == Retained(SubscribersOf(subscriptions, k), k, drop)
      {
        RetainedSubscribers(subscriptions, drop, k);
      }
      subscriptions := kept;
      index := Removed(index, drop);
    }

    static method RetainGroups(groups: seq<Group>, drop: (GroupKey, Subscriber) -> bool) returns (kept: seq<Group>)
      ensures kept == RetainedGroups(groups, drop)
    {
      kept := [];
      for i := 0 to |groups|
        invariant kept == RetainedGroups(groups[..i], drop)
      {
        var g := groups[i];
        var left := RetainSubscribers(g.subscribers, g.key, drop);
        assert groups[..i + 1][..i] == groups[..i];
        assert RetainedGroup(g, drop) == Group(g.key, left);
        if left != [] {
          kept := kept + [Group(g.key, left)];
        }
      }
      assert groups[..|groups|] == groups;
    }

    static method RetainSubscribers(subscribers: seq<Subscriber>, key: GroupKey, drop: (GroupKey, Subscriber) -> bool)
      returns (r: seq<Subscriber>)
      ensures r == Retained(subscribers, key, drop)
    {
      r := [];
      for i := 0 to |subscribers|
        invariant r == Retained(subscribers[..i], key, drop)
      {
        assert subscribers[..i + 1][..i] == subscribers[..i];
        if !drop(key, subscribers[i]) {
          r := r + [subscribers[i]];
        }
      }
      assert subscribers[..|subscribers|] == subscribers;
    }

    method ReplaceSubscriptions(networkId: u64, address: Address, keys: seq<GroupKey>, now: u64)
      requires Valid()
      modifies this
      ensures Valid() && index == Replaced(old(index), networkId, address, keys, now)
      ensures forall k :: OthersKeepOrder(SubscribersOf(old(subscriptions), k), SubscribersOf(subscriptions, k), address)
    {
      hide SubscribersOf, OthersKeepOrder;
      var drop := DropUnadvertised(networkId, address, keys);
      Remove(drop);
      ghost var removed := index;
      forall k
        ensures OthersKeepOrder(SubscribersOf(old(subscriptions), k), SubscribersOf(subscriptions, k), address)
      {
        OthersRetained(SubscribersOf(old(subscriptions), k), k, drop, address);
      }
      for i := 0 to |keys|
        invariant Valid() && index == SubscribedAll(removed, keys[..i], address, now)
        invariant forall k :: OthersKeepOrder(SubscribersOf(old(subscriptions), k), SubscribersOf(subscriptions, k), address)
      {
        ghost var before := subscriptions;
        Subscribe(keys[i], address, now);
        OthersListed(SubscribersOf(old(subscriptions), keys[i]), SubscribersOf(before, keys[i]),
                     SubscribersOf(subscriptions, keys[i]), address);
        assert keys[..i + 1][..i] == keys[..i];
      }
      assert keys[..|keys|] == keys;
    }

    method UnsubscribeAll(address: Address)
      requires Valid()
      modifies this
      ensures Valid() && forall k, a :: At(index, k, a) == if a == address then None else At(old(index), k, a)
      ensures KeepsOrder(old(subscriptions), subscriptions)
    {
      var drop := (k: GroupKey, s: Subscriber) => s.address == address;
      ghost var before := index;
      Remove(drop);
      forall k, a
        ensures At(index, k, a) == if a == address then None else At(before, k, a)
      {
        RemovedAt(before, drop, k, a);
      }
      RemovalKeepsOrder(old(subscriptions), subscriptions, drop);
    }

    method ExpireOld(now: u64, maxAge: u64)
      requires Valid()
      modifies this
      ensures Valid()
      ensures forall k, a ::
        At(index, k, a) ==
          (var was := At(old(index), k, a);
           if was.Some? && SaturatingSub(now, was.value) <= maxAge then was else None)
      ensures KeepsOrder(old(subscriptions), subscriptions)
    {
      var drop := (k: GroupKey, s: Subscriber) => SaturatingSub(now, s.subscribedAt) > maxAge;
      ghost var before := index;
      Remove(drop);
      forall k, a
        ensures At(index, k, a) ==
          (var was := At(before, k, a);
           if was.Some? && SaturatingSub(now, was.value) <= maxAge then was else None)
      {
        RemovedAt(before, drop, k, a);
      }
      RemovalKeepsOrder(old(subscriptions), subscriptions, drop);
    }

    /** Up to `limit` subscribers other than `exclude`: as many as there are, none twice, no one else, in their order. */
    method GetReplicationTargets(key: GroupKey, exclude: Option<Address>, limit: nat) returns (r: seq<Address>)
      requires Valid()
      ensures AreUpTo(r, limit, Targets(index, key, exclude))
      ensures r <= Addresses(Retained(SubscribersOf(subscriptions, key), key, DropAddress(exclude)))
    {
      hide AreUpTo, Targets, SubscribersOf, Retained;
      var i := FindGroup(key);
      SubscribersAt(subscriptions, key, i);
      if i == |subscriptions| {
        NoTargets(index, key, exclude, limit);
        return [];
      }
      assert ListsGroup(subscriptions[i], index);
      TargetsListed(subscriptions[i].subscribers, index, key, exclude, limit);
      var drop := DropAddress(exclude);
      var left := RetainSubscribers(subscriptions[i].subscribers, key, drop);
      r := Addresses(left)[..Min(limit, |left|)];
    }

    /** The keys of one subscriber's groups on a network, each once. */
    method BuildMulticastLike(networkId: u64, address: Address) returns (keys: seq<GroupKey>)
      requires Valid()
      ensures IsAdvertisement(index, networkId, address, keys)
      ensures HasNoDuplicates(keys)
    {
      keys := [];
      for i := 0 to |subscriptions|
        invariant forall k :: k in keys <==> HasKey(subscriptions[..i], k) && Views(index, networkId, address, k)
        invariant HasNoDuplicates(keys)
      {
        var g := subscriptions[i];
        assert ListsGroup(g, index);
        KeyOfNext(subscriptions, i);
        var found := HasSubscriber(g.subscribers, address);
        assert found <==> address in index[g.key];
        if g.key.networkId == networkId && found {
          assert g.key !in keys;
          keys := keys + [g.key];
        }
      }
      assert subscriptions[..|subscriptions|] == subscriptions;
      forall k
        ensures k in keys <==> Views(index, networkId, address, k)
      {
        assert k in index ==> HasKey(subscriptions, k);
      }
    }
  }

  function DropAddress(exclude: Option<Address>): (GroupKey, Subscriber) -> bool {
    (k: GroupKey, s: Subscriber) => exclude == Some(s.address)
  }

  /** Addresses of a set, none twice: all of them, or as many as allowed. */
  predicate AreUpTo(r: seq<Address>, limit: nat, targets: set<Address>) {
    |r| == Min(limit, |targets|) && HasNoDuplicates(r) && forall i :: 0 <= i < |r| ==> r[i] in targets
  }

  lemma NoTargets(index: Index, key: GroupKey, exclude: Option<Address>, limit: nat)
    requires key !in index
    ensures AreUpTo([], limit, Targets(index, key, exclude))
  {
    assert Targets(index, key, exclude) == {};
  }

  lemma TargetsListed(subscribers: seq<Subscriber>, index: Index, key: GroupKey, exclude: Option<Address>, limit: nat)
    requires key in index && ListsTimes(subscribers, index[key])
    ensures var left := Retained(subscribers, key, DropAddress(exclude));
      AreUpTo(Addresses(left)[..Min(limit, |left|)], limit, Targets(index, key, exclude))
  {
    var drop := DropAddress(exclude);
    var left, times := Retained(subscribers, key, drop), Left(index[key], key, drop);
    RetainedLists(subscribers, index[key], key, drop);
    ListedSize(left, times);
    assert times.Keys == Targets(index, key, exclude);
    ListedAreUpTo(left, times, limit);
  }

  lemma ListedAreUpTo(subscribers: seq<Subscriber>, times: Times, limit: nat)
    requires ListsTimes(subscribers, times) && |times.Keys| == |subscribers|
    ensures AreUpTo(Addresses(subscribers)[..Min(limit, |subscribers|)], limit, times.Keys)
  {
    assert forall i :: 0 <= i < |subscribers| ==> subscribers[i] in subscribers;
  }

  ghost function Targets(index: Index, key: GroupKey, exclude: Option<Address>): set<Address> {
    set a | key in index && a in index[key] && exclude != Some(a)
  }

  lemma KeyOfNext(groups: seq<Group>, i: nat)
    requires HasUniqueKeys(groups) && i < |groups|
    ensures !HasKey(groups[..i], groups[i].key)
    ensures forall k :: HasKey(groups[..i + 1], k) <==> HasKey(groups[..i], k) || k == groups[i].key
  {
    assert groups[..i + 1] == groups[..i] + [groups[i]];
    forall k
      ensures HasKey(groups[..i + 1], k) <==> HasKey(groups[..i], k) || k == groups[i].key
    {
      if HasKey(groups[..i], k) {
        var j :| 0 <= j < i && groups[..i][j].key == k;
        assert groups[..i + 1][j].key == k;
      }
      if k == groups[i].key {
        assert groups[..i + 1][i].key == k;
      }
      if HasKey(groups[..i + 1], k) && k != groups[i].key {
        var j :| 0 <= j < i + 1 && groups[..i + 1][j].key == k;
        assert groups[..i][j].key == k;
      }
    }
  }

  method HasSubscriber(subscribers: seq<Subscriber>, address: Address) returns (found: bool)
    ensures found <==> exists s :: s in subscribers && s.address == address
  {
    for i := 0 to |subscribers|
      invariant forall j :: 0 <= j < i ==> subscribers[j].address != address
    {
      if subscribers[i].address == address {
        assert subscribers[i] in subscribers;
        return true;
      }
    }
    return false;
  }

  ghost function AddressSet(subscribers: seq<Subscriber>): (r: set<Address>)
    ensures forall a :: a in r <==> exists s :: s in subscribers && s.address == a
  {
    set s | s in subscribers :: s.address
  }

  lemma {:induction false} UniqueSize(subscribers: seq<Subscriber>)
    requires HasUniqueAddresses(subscribers)
    ensures |AddressSet(subscribers)| == |subscribers|
    decreases |subscribers|
  {
    if subscribers != [] {
      var n := |subscribers| - 1;
      var front, last := subscribers[..n], subscribers[n];
      UniqueSize(front);
      assert subscribers == front + [last];
      assert AddressSet(subscribers) == AddressSet(front) + {last.address};
      assert last.address !in AddressSet(front);
    }
  }

  lemma ListedSize(subscribers: seq<Subscriber>, times: Times)
    requires ListsTimes(subscribers, times)
    ensures |times.Keys| == |subscribers|
  {
    UniqueSize(subscribers);
    assert times.Keys == AddressSet(subscribers);
  }

  /** MULTICAST_LIKE: the groups of each network mentioned, one network after the other. */
  method HandleMulticastLike(manager: MulticastManager, sender: Address, like: Option<seq<GroupKey>>, now: u64)
    requires manager.Valid()
    modifies manager
    ensures manager.Valid()
    ensures like.None? ==> manager.index == old(manager.index)
    ensures like.Some? ==> IsAdvertised(old(manager.index), manager.index, sender, like.value, now)
  {
    if like.None? {
      return;
    }
    var keys := like.value;
    var networkIds := NetworkIdsOf(keys);
    ghost var before := manager.index;
    for i := 0 to |networkIds|
      invariant manager.Valid() && manager.index == Liked(before, sender, keys, networkIds[..i], now)
    {
      var n := networkIds[i];
      var mine := KeysOfNetwork(keys, n);
      manager.ReplaceSubscriptions(n, sender, mine, now);
      assert networkIds[..i + 1][..i] == networkIds[..i];
    }
    assert networkIds[..|networkIds|] == networkIds;
    LikedIsAdvertised(before, sender, keys, networkIds, now);
  }

  method NetworkIdsOf(keys: seq<GroupKey>) returns (networkIds: seq<u64>)
    ensures IsMentioned(networkIds, keys)
  {
    networkIds := [];
    for i := 0 to |keys|
      invariant forall n :: n in networkIds <==> exists j :: 0 <= j < i && keys[j].networkId == n
    {
      if keys[i].networkId !in networkIds {
        networkIds := networkIds + [keys[i].networkId];
      }
    }
  }

  method KeysOfNetwork(keys: seq<GroupKey>, networkId: u64) returns (r: seq<GroupKey>)
    ensures r == OfNetwork(keys, networkId)
  {
    r := [];
    for i := 0 to |keys|
      invariant r == OfNetwork(keys[..i], networkId)
    {
      assert keys[..i + 1][..i] == keys[..i];
      if keys[i].networkId == networkId {
        r := r + [keys[i]];
      }
    }
    assert keys[..|keys|] == keys;
  }
}
