/**
 Whole runs of the reassembly buffer: fragments of many packets arriving in any order, repeated
 and interleaved, with stale entries evicted in between.
 */
module FragmentRuns {
  import opened Wrappers
  import opened Bytes
  import opened Header
  import opened Fragment

  datatype Event =
    | Arrive(packetId: u64, number: u8, total: u8, data: seq<u8>, now: u64)
    | Evict(now: u64, timeout: nat)
  {
    predicate IsFor(id: u64) {
      Arrive? && packetId == id
    }
  }

  ghost function Step(pending: Pending, maxPending: nat, e: Event): (Pending, Option<seq<u8>>) {
    match e
    case Arrive(id, number, total, data, now) => InsertResult(pending, maxPending, id, number, total, data, now)
    case Evict(now, timeout) => (NotStale(pending, now, timeout), None)
  }

  ghost function After(initial: Pending, maxPending: nat, events: seq<Event>): (pending: Pending)
  {
    if events == [] then initial
    else Step(After(initial, maxPending, events[..|events| - 1]), maxPending, events[|events| - 1]).0
  }

  /** What event `k` of the run hands to its caller. */
  ghost function Output(initial: Pending, maxPending: nat, events: seq<Event>, k: nat): Option<seq<u8>>
    requires k < |events|
  {
    Step(After(initial, maxPending, events[..k]), maxPending, events[k]).1
  }

  /** The buffer's invariant holds in every state of every run, whatever the fragments claim. */
  lemma {:induction false} RunKeepsInvariant(initial: Pending, maxPending: nat, events: seq<Event>)
    requires PendingInvariant(initial, maxPending)
    ensures PendingInvariant(After(initial, maxPending, events), maxPending)
  {
    if events != [] {
      var before, e := After(initial, maxPending, events[..|events| - 1]), events[|events| - 1];
      RunKeepsInvariant(initial, maxPending, events[..|events| - 1]);
      match e
      case Arrive(id, number, total, data, now) =>
        InsertKeepsInvariant(before, maxPending, id, number, total, data, now);
      case Evict(now, timeout) =>
        NotStaleSmaller(before, now, timeout);
    }
  }

  // --- One packet among many ---

  function AllNumbers(n: nat): (s: set<nat>)
    ensures |s| == n
    ensures forall i: nat :: i in s <==> i < n
  {
    if n == 0 then {} else AllNumbers(n - 1) + {n - 1}
  }

  /** The fragment numbers of packet `id` among the events. */
  function Numbers(events: seq<Event>, id: u64): (s: set<nat>)
  {
    if events == [] then {}
    else
      var e := events[|events| - 1];
      Numbers(events[..|events| - 1], id) + if e.IsFor(id) then {e.number as nat} else {}
  }

  /** The same, starting over each time all `n` have arrived. */
  function Seen(events: seq<Event>, id: u64, n: nat): (s: set<nat>)
  {
    if events == [] then {}
    else
      var e := events[|events| - 1];
      var before := Seen(events[..|events| - 1], id, n);
      if !e.IsFor(id) then before
      else if before + {e.number as nat} == AllNumbers(n) then {}
      else before + {e.number as nat}
  }

  /** Until the first time all numbers have arrived, none has been forgotten. */
  lemma {:induction false} SeenUntilComplete(events: seq<Event>, id: u64, n: nat)
    requires !(AllNumbers(n) <= Numbers(events, id))
    ensures Seen(events, id, n) == Numbers(events, id)
  {
    if events != [] {
      SeenUntilComplete(events[..|events| - 1], id, n);
    }
  }

  /** The event is for another packet, or carries the piece its number says. */
  predicate Carries(e: Event, id: u64, pieces: seq<seq<u8>>) {
    e.IsFor(id) ==> e.total == |pieces| && e.number < |pieces| && e.data == pieces[e.number]
  }

  /** Another event takes the unfinished packet out: by evicting it for room, or by sweeping it out as stale. */
  ghost predicate Drops(before: Pending, maxPending: nat, e: Event, id: u64) {
    && id in before
    && match e
      case Arrive(other, number, total, _, _) =>
        IsAcceptable(number, total) && other !in before && |before| >= maxPending && Oldest(before) == id
      case Evict(now, timeout) => SaturatingSub(now, before[id].createdAt) >= timeout
  }

  /** Nothing drops packet `id` before it is complete. */
  ghost predicate IsUndisturbed(initial: Pending, maxPending: nat, events: seq<Event>, id: u64) {
    forall k :: 0 <= k < |events| ==> !Drops(After(initial, maxPending, events[..k]), maxPending, events[k], id)
  }

  /** Pieces of packet `id` among any other traffic. */
  ghost predicate IsDelivery(initial: Pending, maxPending: nat, events: seq<Event>, id: u64, pieces: seq<seq<u8>>) {
    && 1 <= |pieces| <= MAX_PACKET_FRAGMENTS
    && id !in initial
    && (forall e :: e in events ==> Carries(e, id, pieces))
    && IsUndisturbed(initial, maxPending, events, id)
  }

  /** The buffer holds exactly the pieces of packet `id` numbered in `seen`. */
  ghost predicate Tracks(pending: Pending, id: u64, pieces: seq<seq<u8>>, seen: set<nat>) {
    if seen == {} then id !in pending
    else
      && id in pending
      && Holds(pending[id], pieces, seen)
      && seen != AllNumbers(|pieces|)
  }

  ghost predicate Holds(slot: FragmentSlot, pieces: seq<seq<u8>>, seen: set<nat>) {
    && seen <= AllNumbers(|pieces|)
    && slot.totalExpected == |pieces|
    && slot.receivedCount == |seen|
    && forall i :: 0 <= i < MAX_PACKET_FRAGMENTS ==>
      slot.fragments[i] == if i in seen then Some(pieces[i]) else None
  }

  lemma StoreHolds(slot: FragmentSlot, pieces: seq<seq<u8>>, seen: set<nat>, number: nat)
    requires Holds(slot, pieces, seen) && number < |pieces| <= MAX_PACKET_FRAGMENTS
    ensures Holds(Store(slot, number, pieces[number]), pieces, seen + {number})
  {
    if number in seen {
      assert seen + {number} == seen;
    }
  }

  lemma {:induction false} AssembleIsJoin(fragments: seq<Option<seq<u8>>>, pieces: seq<seq<u8>>, n: nat)
    requires n <= |pieces| && n <= |fragments|
    requires forall i :: 0 <= i < n ==> fragments[i] == Some(pieces[i])
    ensures Assemble(fragments, n) == Join(pieces[..n])
  {
    if n != 0 {
      AssembleIsJoin(fragments, pieces, n - 1);
      assert pieces[..n][..n - 1] == pieces[..n - 1];
    }
  }

  /** A piece of the packet arrives: the packet comes out exactly when it was the last one missing. */
  lemma PieceArrives(pending: Pending, maxPending: nat, e: Event, id: u64, pieces: seq<seq<u8>>, seen: set<nat>)
    requires 1 <= |pieces| <= MAX_PACKET_FRAGMENTS
    requires Tracks(pending, id, pieces, seen) && e.IsFor(id) && Carries(e, id, pieces)
    ensures var (after, out) := Step(pending, maxPending, e);
      var more := seen + {e.number as nat};
      if more == AllNumbers(|pieces|) then
        out == Some(Join(pieces)) && Tracks(after, id, pieces, {})
      else
        out == None && Tracks(after, id, pieces, more)
  {
    hide Join, Assemble, AllNumbers, Holds;
    var room := MakeRoom(pending, maxPending, id);
    var slot := SlotFor(room, id, e.total, e.now);
    StoreHolds(slot, pieces, seen, e.number);
    HoldsDecides(Store(slot, e.number, e.data), pieces, seen + {e.number as nat});
  }

  lemma HoldsDecides(slot: FragmentSlot, pieces: seq<seq<u8>>, seen: set<nat>)
    requires Holds(slot, pieces, seen)
    ensures slot.receivedCount >= slot.totalExpected <==> seen == AllNumbers(|pieces|)
    ensures seen == AllNumbers(|pieces|) ==> Assemble(slot.fragments, slot.totalExpected) == Join(pieces)
  {
    SubsetSize(seen, AllNumbers(|pieces|));
    if seen == AllNumbers(|pieces|) {
      AssembleIsJoin(slot.fragments, pieces, |pieces|);
      assert pieces[..|pieces|] == pieces;
    }
  }

  /** Any other event that does not drop the packet leaves its pieces where they are. */
  lemma OthersPass(pending: Pending, maxPending: nat, e: Event, id: u64, pieces: seq<seq<u8>>, seen: set<nat>)
    requires Tracks(pending, id, pieces, seen) && !e.IsFor(id) && !Drops(pending, maxPending, e, id)
    ensures Tracks(Step(pending, maxPending, e).0, id, pieces, seen)
  {
  }

  lemma {:induction false} DeliveryIsTracked(
    initial: Pending, maxPending: nat, events: seq<Event>, id: u64, pieces: seq<seq<u8>>)
    requires IsDelivery(initial, maxPending, events, id, pieces)
    ensures Tracks(After(initial, maxPending, events), id, pieces, Seen(events, id, |pieces|))
  {
    if events != [] {
      hide Tracks, Drops;
      var n := |events| - 1;
      var front, e := events[..n], events[n];
      DeliveryPrefix(initial, maxPending, events, id, pieces, n);
      DeliveryIsTracked(initial, maxPending, front, id, pieces);
      var before := After(initial, maxPending, front);
      assert e in events;
      if e.IsFor(id) {
        PieceArrives(before, maxPending, e, id, pieces, Seen(front, id, |pieces|));
      } else {
        OthersPass(before, maxPending, e, id, pieces, Seen(front, id, |pieces|));
      }
    } else {
      assert Seen(events, id, |pieces|) == {};
    }
  }

  lemma DeliveryPrefix(initial: Pending, maxPending: nat, events: seq<Event>, id: u64, pieces: seq<seq<u8>>, k: nat)
    requires IsDelivery(initial, maxPending, events, id, pieces) && k <= |events|
    ensures IsDelivery(initial, maxPending, events[..k], id, pieces)
  {
    UndisturbedPrefix(initial, maxPending, events, id, k);
  }

  lemma UndisturbedPrefix(initial: Pending, maxPending: nat, events: seq<Event>, id: u64, k: nat)
    requires IsUndisturbed(initial, maxPending, events, id) && k <= |events|
    ensures IsUndisturbed(initial, maxPending, events[..k], id)
  {
    hide Drops;
    assert forall j :: 0 <= j < k ==> events[..k][..j] == events[..j];
  }

  /**
   Reassembly undoes splitting: whatever the order, the repetitions and the other traffic, each
   arrival of a piece yields nothing unless it is the last one missing, and then the packet.
   */
  lemma ReassemblyDelivers(
    initial: Pending, maxPending: nat, events: seq<Event>, id: u64, pieces: seq<seq<u8>>, k: nat)
    requires IsDelivery(initial, maxPending, events, id, pieces)
    requires k < |events| && events[k].IsFor(id)
    ensures Output(initial, maxPending, events, k) ==
      if Seen(events[..k], id, |pieces|) + {events[k].number as nat} == AllNumbers(|pieces|)
      then Some(Join(pieces)) else None
  {
    DeliveryPrefix(initial, maxPending, events, id, pieces, k);
    DeliveryIsTracked(initial, maxPending, events[..k], id, pieces);
    assert events[k] in events;
    PieceArrives(After(initial, maxPending, events[..k]), maxPending, events[k], id, pieces, Seen(events[..k], id, |pieces|));
  }

  // --- When nothing is dropped ---

  function Ids(events: seq<Event>): (s: set<u64>) {
    set e | e in events && e.Arrive? :: e.packetId
  }

  /** No event reaches packet `id` before `first` or sweeps out what was created at `first`. */
  predicate InTime(e: Event, id: u64, first: u64) {
    match e
    case Arrive(_, _, _, _, now) => e.IsFor(id) ==> now >= first
    case Evict(now, timeout) => SaturatingSub(now, first) < timeout
  }

  lemma IdsOfPrefix(events: seq<Event>, k: nat)
    requires k <= |events|
    ensures Ids(events[..k]) <= Ids(events)
  {
  }

  lemma {:induction false} KeysStayWithin(initial: Pending, maxPending: nat, events: seq<Event>)
    ensures After(initial, maxPending, events).Keys <= initial.Keys + Ids(events)
  {
    if events != [] {
      var front, e := events[..|events| - 1], events[|events| - 1];
      KeysStayWithin(initial, maxPending, front);
      IdsOfPrefix(events, |events| - 1);
      assert e.Arrive? ==> e.packetId in Ids(events);
      var before := After(initial, maxPending, front);
      assert Step(before, maxPending, e).0.Keys <= before.Keys + if e.Arrive? then {e.packetId} else {};
    }
  }

  lemma {:induction false} CreatedSince(initial: Pending, maxPending: nat, events: seq<Event>, id: u64, first: u64)
    requires id !in initial && forall e :: e in events ==> InTime(e, id, first)
    ensures var after := After(initial, maxPending, events);
      id in after ==> after[id].createdAt >= first
  {
    if events != [] {
      CreatedSince(initial, maxPending, events[..|events| - 1], id, first);
      assert events[|events| - 1] in events;
    }
  }

  /** A buffer with room for every packet of the run, swept no sooner than the timeout allows, drops nothing. */
  lemma RoomyIsUndisturbed(initial: Pending, maxPending: nat, events: seq<Event>, id: u64, first: u64)
    requires id !in initial && |initial.Keys + Ids(events)| <= maxPending
    requires forall e :: e in events ==> InTime(e, id, first)
    ensures IsUndisturbed(initial, maxPending, events, id)
  {
    forall k | 0 <= k < |events|
      ensures !Drops(After(initial, maxPending, events[..k]), maxPending, events[k], id)
    {
      var before, e := After(initial, maxPending, events[..k]), events[k];
      assert e in events;
      CreatedSince(initial, maxPending, events[..k], id, first);
      if e.Arrive? && e.packetId !in before {
        KeysStayWithin(initial, maxPending, events[..k]);
        IdsOfPrefix(events, k);
        RoomFor(before, maxPending, initial.Keys + Ids(events), e.packetId);
      }
    }
  }

  lemma RoomFor(before: Pending, maxPending: nat, all: set<u64>, id: u64)
    requires before.Keys <= all && id in all && id !in before
    requires |all| <= maxPending
    ensures |before| < maxPending
  {
    SubsetSize(before.Keys + {id}, all);
  }

  // --- From the wire ---

  function Received(fragment: RawFragment, now: u64): Event {
    Arrive(FragmentPacketId(fragment), FragmentNumber(fragment), TotalFragments(fragment),
           fragment[MIN_FRAGMENT_LENGTH..], now)
  }

  predicate ComesFrom(e: Event, fragments: seq<RawFragment>) {
    e.Arrive? && exists i :: 0 <= i < |fragments| && e == Received(fragments[i], e.now)
  }

  lemma FragmentCarries(packet: Packet, mtu: nat, fragments: seq<RawFragment>, e: Event)
    requires IsSplit(fragments, packet, mtu) && ComesFrom(e, fragments)
    ensures Carries(e, PacketId(packet), Payloads(fragments))
  {
    var i :| 0 <= i < |fragments| && e == Received(fragments[i], e.now);
    assert IsFragmentOf(fragments[i], packet, i, |fragments|);
  }

  /** Delivery of the fragments of `packet`, as they come off the wire, among any other traffic. */
  ghost predicate IsDeliveryOf(
    packet: Packet, fragments: seq<RawFragment>, initial: Pending, maxPending: nat, events: seq<Event>)
  {
    && PacketId(packet) !in initial
    && (forall e :: e in events && e.IsFor(PacketId(packet)) ==> ComesFrom(e, fragments))
    && IsUndisturbed(initial, maxPending, events, PacketId(packet))
  }

  lemma DeliveryOfFragments(
    packet: Packet, mtu: nat, fragments: seq<RawFragment>, initial: Pending, maxPending: nat, events: seq<Event>)
    requires IsSplit(fragments, packet, mtu)
    requires IsDeliveryOf(packet, fragments, initial, maxPending, events)
    ensures IsDelivery(initial, maxPending, events, PacketId(packet), Payloads(fragments))
  {
    forall e | e in events
      ensures Carries(e, PacketId(packet), Payloads(fragments))
    {
      if e.IsFor(PacketId(packet)) {
        FragmentCarries(packet, mtu, fragments, e);
      }
    }
  }

  /**
   The fragments of a packet, delivered in any order, give the packet back when every number has
   arrived for the first time and nothing before that.
   */
  lemma FragmentsReassemble(
    packet: Packet, mtu: nat, fragments: seq<RawFragment>, initial: Pending, maxPending: nat, events: seq<Event>, k: nat)
    requires IsSplit(fragments, packet, mtu)
    requires IsDeliveryOf(packet, fragments, initial, maxPending, events)
    requires k < |events| && events[k].IsFor(PacketId(packet))
    requires Numbers(events[..k], PacketId(packet)) != AllNumbers(|fragments|)
    ensures Output(initial, maxPending, events, k) ==
      if Numbers(events[..k + 1], PacketId(packet)) == AllNumbers(|fragments|) then Some(packet) else None
  {
    DeliveryOfFragments(packet, mtu, fragments, initial, maxPending, events);
    FirstCompletion(initial, maxPending, events, PacketId(packet), Payloads(fragments), k);
  }

  lemma FirstCompletion(
    initial: Pending, maxPending: nat, events: seq<Event>, id: u64, pieces: seq<seq<u8>>, k: nat)
    requires IsDelivery(initial, maxPending, events, id, pieces)
    requires k < |events| && events[k].IsFor(id)
    requires Numbers(events[..k], id) != AllNumbers(|pieces|)
    ensures Output(initial, maxPending, events, k) ==
      if Numbers(events[..k + 1], id) == AllNumbers(|pieces|) then Some(Join(pieces)) else None
  {
    ReassemblyDelivers(initial, maxPending, events, id, pieces, k);
    NumbersWithin(events[..k], id, pieces);
    SeenUntilComplete(events[..k], id, |pieces|);
    NumbersStep(events, id, k);
  }

  lemma NumbersStep(events: seq<Event>, id: u64, k: nat)
    requires k < |events| && events[k].IsFor(id)
    ensures Numbers(events[..k + 1], id) == Numbers(events[..k], id) + {events[k].number as nat}
  {
    assert events[..k + 1][..k] == events[..k];
  }

  lemma {:induction false} NumbersWithin(events: seq<Event>, id: u64, pieces: seq<seq<u8>>)
    requires forall e :: e in events ==> Carries(e, id, pieces)
    ensures Numbers(events, id) <= AllNumbers(|pieces|)
  {
    if events != [] {
      assert events[|events| - 1] in events;
      NumbersWithin(events[..|events| - 1], id, pieces);
    }
  }

  // --- The plainest run ---

  function InOrder(fragments: seq<RawFragment>, now: u64): (events: seq<Event>)
    ensures |events| == |fragments|
    ensures forall i :: 0 <= i < |events| ==> events[i] == Received(fragments[i], now)
  {
    seq(|fragments|, i requires 0 <= i < |fragments| => Received(fragments[i], now))
  }

  lemma {:induction false} NumbersInOrder(packet: Packet, mtu: nat, fragments: seq<RawFragment>, now: u64, k: nat)
    requires IsSplit(fragments, packet, mtu) && k <= |fragments|
    ensures Numbers(InOrder(fragments, now)[..k], PacketId(packet)) == AllNumbers(k)
  {
    if k != 0 {
      var events := InOrder(fragments, now);
      NumbersInOrder(packet, mtu, fragments, now, k - 1);
      assert IsFragmentOf(fragments[k - 1], packet, k - 1, |fragments|);
      NumbersStep(events, PacketId(packet), k - 1);
    }
  }

  /** Sent in order to an empty buffer, the pieces give the packet with the last one. */
  lemma InOrderDelivers(packet: Packet, mtu: nat, fragments: seq<RawFragment>, maxPending: nat, now: u64, k: nat)
    requires IsSplit(fragments, packet, mtu) && maxPending >= 1 && k < |fragments|
    ensures IsDeliveryOf(packet, fragments, map[], maxPending, InOrder(fragments, now))
    ensures Output(map[], maxPending, InOrder(fragments, now), k) == if k == |fragments| - 1 then Some(packet) else None
  {
    hide IsDeliveryOf, Numbers, Output, AllNumbers;
    var id, events := PacketId(packet), InOrder(fragments, now);
    IsInOrderDelivery(packet, mtu, fragments, maxPending, now);
    assert IsFragmentOf(fragments[k], packet, k, |fragments|);
    NumbersInOrder(packet, mtu, fragments, now, k);
    NumbersInOrder(packet, mtu, fragments, now, k + 1);
    assert k !in AllNumbers(k) && k in AllNumbers(k + 1) && |fragments| - 1 in AllNumbers(|fragments|);
    FragmentsReassemble(packet, mtu, fragments, map[], maxPending, events, k);
  }

  lemma IsInOrderDelivery(packet: Packet, mtu: nat, fragments: seq<RawFragment>, maxPending: nat, now: u64)
    requires IsSplit(fragments, packet, mtu) && maxPending >= 1
    ensures IsDeliveryOf(packet, fragments, map[], maxPending, InOrder(fragments, now))
  {
    var id, events := PacketId(packet), InOrder(fragments, now);
    forall e | e in events
      ensures e.IsFor(id) && InTime(e, id, now) && ComesFrom(e, fragments)
    {
      var i :| 0 <= i < |events| && events[i] == e;
      assert IsFragmentOf(fragments[i], packet, i, |fragments|);
    }
    var initial: Pending := map[];
    assert Ids(events) <= {id};
    SubsetSize(initial.Keys + Ids(events), {id});
    RoomyIsUndisturbed(initial, maxPending, events, id, now);
  }
}
