/**
 Splitting a packet into fragments, and the bounded buffer that puts it together again.
 */
module Fragment {
  import opened Wrappers
  import opened Bytes
  import opened Header

  // --- Splitting ---

  function Join(pieces: seq<seq<u8>>): (s: seq<u8>)
  {
    if pieces == [] then [] else Join(pieces[..|pieces| - 1]) + pieces[|pieces| - 1]
  }

  function FragmentCount(length: nat, mtu: nat): (n: nat)
    requires mtu > MIN_FRAGMENT_LENGTH
  {
    (length + (mtu - MIN_FRAGMENT_LENGTH) - 1) / (mtu - MIN_FRAGMENT_LENGTH)
  }

  /** The packets `FragmentPacket` accepts: short enough already, or a whole header in at most seven pieces. */
  predicate CanFragment(packet: seq<u8>, mtu: nat) {
    || |packet| <= mtu
    || (&& mtu > MIN_FRAGMENT_LENGTH
        && |packet| >= MIN_PACKET_LENGTH
        && FragmentCount(|packet|, mtu) <= MAX_PACKET_FRAGMENTS)
  }

  /** A fragment on the wire that decodes to piece `number` of `total` of `packet`. */
  predicate IsFragmentOf(fragment: seq<u8>, packet: Packet, number: nat, total: nat) {
    && IsFragment(fragment)
    && FragmentPacketId(fragment) == PacketId(packet)
    && fragment[8..13] == Destination(packet)
    && FragmentNumber(fragment) == number
    && TotalFragments(fragment) == total
    && fragment[15] == Hops(packet)
    && |fragment| > MIN_FRAGMENT_LENGTH
  }

  /** Where a fragment says what. */
  lemma FragmentLayout(fragment: seq<u8>, packet: Packet, number: nat, total: nat)
    requires IsFragmentOf(fragment, packet, number, total) && number < 16
    ensures fragment[..8] == packet[..8] && fragment[8..13] == packet[8..13]
    ensures fragment[13] == 0xff && fragment[14] == 16 * total + number && fragment[15] == packet[18] % 8
  {
    FromBigEndianRoundTrip(fragment[0..8]);
    FromBigEndianRoundTrip(packet[0..8]);
    assert fragment[..8] == fragment[0..8] && packet[..8] == packet[0..8];
  }

  function Payloads(fragments: seq<RawFragment>): (pieces: seq<seq<u8>>)
    ensures |pieces| == |fragments|
  {
    seq(|fragments|, i requires 0 <= i < |fragments| => fragments[i][MIN_FRAGMENT_LENGTH..])
  }

  /** The fragments a receiver can put together to `packet`, each at most `mtu` bytes. */
  predicate IsSplit(fragments: seq<RawFragment>, packet: Packet, mtu: nat) {
    && 2 <= |fragments| <= MAX_PACKET_FRAGMENTS
    && (forall i :: 0 <= i < |fragments| ==>
      IsFragmentOf(fragments[i], packet, i, |fragments|) && |fragments[i]| <= mtu)
    && (forall i :: 0 <= i < |fragments| - 1 ==> |fragments[i]| == mtu)
    && Join(Payloads(fragments)) == packet
  }

  lemma PayloadsAppend(fragments: seq<RawFragment>, fragment: RawFragment)
    ensures Join(Payloads(fragments + [fragment])) == Join(Payloads(fragments)) + fragment[MIN_FRAGMENT_LENGTH..]
  {
    var p := Payloads(fragments + [fragment]);
    assert p[..|p| - 1] == Payloads(fragments);
  }

  /** `n` pieces of `size` bytes cover `length` bytes, and `n - 1` do not. */
  lemma FragmentCountCovers(length: nat, mtu: nat)
    requires mtu > MIN_FRAGMENT_LENGTH && length > mtu
    ensures var size, n := mtu - MIN_FRAGMENT_LENGTH, FragmentCount(length, mtu);
      n >= 2 && (n - 1) * size < length <= n * size
  {
    var size, n := mtu - MIN_FRAGMENT_LENGTH, FragmentCount(length, mtu);
    var r := (length + size - 1) % size;
    assert length + size - 1 == size * n + r;
    assert (n - 1) * size == n * size - size;
    AtMostOne(n, size);
  }

  lemma AtMostOne(n: nat, size: nat)
    ensures n <= 1 ==> n * size <= size
  {
  }

  function EncodeFragment(packet: Packet, number: nat, total: nat, payload: seq<u8>): (fragment: RawFragment)
    requires number < total <= MAX_PACKET_FRAGMENTS && payload != []
    ensures IsFragmentOf(fragment, packet, number, total)
    ensures |fragment| == MIN_FRAGMENT_LENGTH + |payload| && fragment[MIN_FRAGMENT_LENGTH..] == payload
  {
    var idAndDestination := BigEndian(PacketId(packet), 8) + Destination(packet);
    var header := idAndDestination + [FRAGMENT_INDICATOR, total * 16 + number, Hops(packet)];
    var fragment := header + payload;
    FromBigEndianRoundTrip(packet[0..8]);
    assert idAndDestination[0..8] == packet[0..8] && idAndDestination[8..13] == Destination(packet);
    assert header[0..8] == idAndDestination[0..8] && header[8..13] == idAndDestination[8..13];
    assert fragment[0..8] == header[0..8] && fragment[8..13] == header[8..13];
    assert fragment[14] == total * 16 + number;
    assert fragment[MIN_FRAGMENT_LENGTH..] == payload;
    fragment
  }

  method FragmentPacket(packet: seq<u8>, mtu: nat) returns (r: Option<seq<seq<u8>>>)
    ensures r.Some? <==> CanFragment(packet, mtu)
    ensures r.Some? && |packet| <= mtu ==> r.value == [packet]
    ensures r.Some? && |packet| > mtu ==>
      (forall f :: f in r.value ==> |f| >= MIN_FRAGMENT_LENGTH) && IsSplit(r.value, packet, mtu)
  {
    if |packet| <= mtu {
      return Some([packet]);
    }
    if mtu <= MIN_FRAGMENT_LENGTH {
      return None;
    }
    if |packet| < MIN_PACKET_LENGTH {
      return None;
    }
    var maxPayload := mtu - MIN_FRAGMENT_LENGTH;
    var totalFragments := FragmentCount(|packet|, mtu);
    FragmentCountCovers(|packet|, mtu);
    if totalFragments > MAX_PACKET_FRAGMENTS {
      return None;
    }
    var fragments: seq<RawFragment> := [];
    var start := 0;
    for number := 0 to totalFragments
      invariant start == Min(number * maxPayload, |packet|)
      invariant IsSplitSoFar(fragments, packet, mtu, number, totalFragments, start)
    {
      StartsInside(number, totalFragments, maxPayload, |packet|);
      var end := Min(start + maxPayload, |packet|);
      var fragment := EncodeFragment(packet, number, totalFragments, packet[start..end]);
      SplitFurther(fragments, fragment, packet, mtu, number, totalFragments, start, end);
      fragments := fragments + [fragment];
      start := end;
    }
    assert packet[..|packet|] == packet;
    return Some(fragments);
  }

  /** The first `number` of `total` fragments, carrying the first `start` bytes. */
  predicate IsSplitSoFar(fragments: seq<RawFragment>, packet: Packet, mtu: nat, number: nat, total: nat, start: nat) {
    && |fragments| == number <= total
    && start <= |packet|
    && (forall i :: 0 <= i < number ==> IsFragmentOf(fragments[i], packet, i, total) && |fragments[i]| <= mtu)
    && (forall i :: 0 <= i < Min(number, total - 1) ==> |fragments[i]| == mtu)
    && Join(Payloads(fragments)) == packet[..start]
  }

  lemma SplitFurther(fragments: seq<RawFragment>, fragment: RawFragment,
                     packet: Packet, mtu: nat, number: nat, total: nat, start: nat, end: nat)
    requires IsSplitSoFar(fragments, packet, mtu, number, total, start) && number < total
    requires start <= end <= |packet|
    requires IsFragmentOf(fragment, packet, number, total) && |fragment| <= mtu
    requires number < total - 1 ==> |fragment| == mtu
    requires fragment[MIN_FRAGMENT_LENGTH..] == packet[start..end]
    ensures IsSplitSoFar(fragments + [fragment], packet, mtu, number + 1, total, end)
  {
    PayloadsAppend(fragments, fragment);
    assert packet[..start] + packet[start..end] == packet[..end];
  }

  lemma StartsInside(number: nat, total: nat, size: nat, length: nat)
    requires number < total && (total - 1) * size < length
    ensures number * size < length
    ensures number < total - 1 ==> number * size + size <= length
    ensures (number + 1) * size == number * size + size
  {
    assert (total - 1) * size == number * size + (total - 1 - number) * size;
    if number < total - 1 {
      assert (total - 1 - number) * size == (total - 2 - number) * size + size;
    }
  }

  // --- The reassembly buffer ---

  type FragmentArray = a: seq<Option<seq<u8>>> | |a| == MAX_PACKET_FRAGMENTS
    witness seq(MAX_PACKET_FRAGMENTS, _ => None)

  /** How many fragments a packet may come in. */
  type PieceCount = n: nat | 1 <= n <= MAX_PACKET_FRAGMENTS
    witness 1

  datatype FragmentSlot = FragmentSlot(
    fragments: FragmentArray,
    totalExpected: PieceCount,
    receivedCount: nat,
    createdAt: u64)

  type Pending = map<u64, FragmentSlot>

  function EmptySlot(total: PieceCount, now: u64): FragmentSlot {
    FragmentSlot(seq(MAX_PACKET_FRAGMENTS, _ => None), total, 0, now)
  }

  /** The first copy of a fragment is kept; later copies change nothing. */
  function Store(slot: FragmentSlot, number: nat, data: seq<u8>): FragmentSlot
    requires number < MAX_PACKET_FRAGMENTS
  {
    if slot.fragments[number].None? then
      slot.(fragments := slot.fragments[number := Some(data)], receivedCount := slot.receivedCount + 1)
    else
      slot
  }

  function Contents(fragment: Option<seq<u8>>): seq<u8> {
    if fragment.Some? then fragment.value else []
  }

  /** The stored fragments among the first `n`, in index order. */
  function Assemble(fragments: seq<Option<seq<u8>>>, n: nat): (s: seq<u8>)
    requires n <= |fragments|
  {
    if n == 0 then [] else Assemble(fragments, n - 1) + Contents(fragments[n - 1])
  }

  /** Least creation time, the least ID breaking ties: the entry `min_by_key` finds in ID order. */
  predicate IsOldest(pending: Pending, id: u64) {
    && id in pending
    && forall other :: other in pending ==>
      || pending[id].createdAt < pending[other].createdAt
      || (pending[id].createdAt == pending[other].createdAt && id <= other)
  }

  lemma {:induction false} OldestExists(pending: Pending)
    requires pending != map[]
    ensures exists id :: IsOldest(pending, id)
    decreases |pending|
  {
    var k :| k in pending;
    var rest := pending - {k};
    assert forall other :: other in pending ==> other == k || other in rest;
    if rest == map[] {
      assert IsOldest(pending, k);
    } else {
      RemoveSize(pending, k);
      OldestExists(rest);
      var o :| IsOldest(rest, o);
      if pending[k].createdAt < pending[o].createdAt || (pending[k].createdAt == pending[o].createdAt && k <= o) {
        assert IsOldest(pending, k);
      } else {
        assert IsOldest(pending, o);
      }
    }
  }

  ghost function Oldest(pending: Pending): (id: u64)
    requires pending != map[]
    ensures IsOldest(pending, id)
  {
    OldestExists(pending);
    var id :| IsOldest(pending, id);
    id
  }

  /** What is pending once there is room for `packetId`. */
  ghost function MakeRoom(pending: Pending, maxPending: nat, packetId: u64): Pending {
    if packetId !in pending && |pending| >= maxPending && pending != map[] then
      pending - {Oldest(pending)}
    else
      pending
  }

  predicate IsAcceptable(number: nat, total: nat) {
    1 <= total <= MAX_PACKET_FRAGMENTS && number < total
  }

  ghost function InsertResult(pending: Pending, maxPending: nat,
                              packetId: u64, number: nat, total: nat, data: seq<u8>, now: u64)
    : (r: (Pending, Option<seq<u8>>))
  {
    if !IsAcceptable(number, total) then
      (pending, None)
    else
      var room := MakeRoom(pending, maxPending, packetId);
      Settle(room, packetId, Store(SlotFor(room, packetId, total, now), number, data))
  }

  function SlotFor(pending: Pending, packetId: u64, total: PieceCount, now: u64): FragmentSlot {
    if packetId in pending then pending[packetId] else EmptySlot(total, now)
  }

  /** A complete slot leaves the buffer as the assembled packet; an incomplete one stays. */
  function Settle(pending: Pending, packetId: u64, slot: FragmentSlot): (Pending, Option<seq<u8>>) {
    if slot.receivedCount >= slot.totalExpected then
      (pending - {packetId}, Some(Assemble(slot.fragments, slot.totalExpected)))
    else
      (pending[packetId := slot], None)
  }

  function NotStale(pending: Pending, now: u64, timeout: nat): Pending {
    map id | id in pending && SaturatingSub(now, pending[id].createdAt) < timeout :: pending[id]
  }

  // --- What every run keeps ---

  function CountFilled(fragments: seq<Option<seq<u8>>>): (n: nat)
    ensures n <= |fragments|
  {
    if fragments == [] then 0
    else CountFilled(fragments[1..]) + if fragments[0].Some? then 1 else 0
  }

  predicate SlotInvariant(slot: FragmentSlot) {
    1 <= slot.receivedCount == CountFilled(slot.fragments) < slot.totalExpected <= MAX_PACKET_FRAGMENTS
  }

  predicate PendingInvariant(pending: Pending, maxPending: nat) {
    && (forall id :: id in pending ==> SlotInvariant(pending[id]))
    && |pending| <= Max(1, maxPending)
  }

  lemma {:induction false} CountFilledNone(n: nat)
    ensures CountFilled(seq(n, _ => None)) == 0
  {
    if n != 0 {
      assert seq(n, _ => None)[1..] == seq<Option<seq<u8>>>(n - 1, _ => None);
      CountFilledNone(n - 1);
    }
  }

  lemma {:induction false} CountFilledUpdate(fragments: seq<Option<seq<u8>>>, i: nat, data: seq<u8>)
    requires i < |fragments| && fragments[i].None?
    ensures CountFilled(fragments[i := Some(data)]) == CountFilled(fragments) + 1
  {
    if i == 0 {
      assert fragments[i := Some(data)][1..] == fragments[1..];
    } else {
      assert fragments[i := Some(data)][1..] == fragments[1..][i - 1 := Some(data)];
      CountFilledUpdate(fragments[1..], i - 1, data);
    }
  }

  /** Storing a fragment keeps the count right, whatever total the fragment claims. */
  lemma StoreCounts(slot: FragmentSlot, number: nat, data: seq<u8>)
    requires number < MAX_PACKET_FRAGMENTS
    requires slot.receivedCount == CountFilled(slot.fragments)
    ensures var after := Store(slot, number, data);
      after.receivedCount == CountFilled(after.fragments) && after.receivedCount >= 1
    ensures Store(slot, number, data).totalExpected == slot.totalExpected
  {
    if slot.fragments[number].None? {
      CountFilledUpdate(slot.fragments, number, data);
    } else {
      CountFilledPositive(slot.fragments, number);
    }
  }

  lemma {:induction false} CountFilledPositive(fragments: seq<Option<seq<u8>>>, i: nat)
    requires i < |fragments| && fragments[i].Some?
    ensures CountFilled(fragments) >= 1
  {
    if i != 0 {
      CountFilledPositive(fragments[1..], i - 1);
    }
  }

  lemma PendingReplaced(pending: Pending, maxPending: nat, id: u64, slot: FragmentSlot)
    requires PendingInvariant(pending, maxPending) && SlotInvariant(slot)
    requires id in pending || |pending| < Max(1, maxPending)
    ensures PendingInvariant(pending[id := slot], maxPending)
  {
    assert pending[id := slot].Keys == pending.Keys + {id};
  }

  lemma PendingRemoved(pending: Pending, maxPending: nat, id: u64)
    requires PendingInvariant(pending, maxPending)
    ensures PendingInvariant(pending - {id}, maxPending)
    ensures id in pending ==> |pending - {id}| < |pending|
  {
    if id in pending {
      RemoveSize(pending, id);
    } else {
      assert pending - {id} == pending;
    }
  }

  /** Kept by every insertion, whatever totals the fragments claim. */
  lemma InsertKeepsInvariant(pending: Pending, maxPending: nat,
                             packetId: u64, number: nat, total: nat, data: seq<u8>, now: u64)
    requires PendingInvariant(pending, maxPending)
    ensures PendingInvariant(InsertResult(pending, maxPending, packetId, number, total, data, now).0, maxPending)
  {
    if IsAcceptable(number, total) {
      var room := MakeRoom(pending, maxPending, packetId);
      if room != pending {
        PendingRemoved(pending, maxPending, Oldest(pending));
      }
      var slot := SlotFor(room, packetId, total, now);
      EmptySlotCounts(total, now);
      StoreCounts(slot, number, data);
      SettleKeepsInvariant(room, maxPending, packetId, Store(slot, number, data));
    }
  }

  lemma SettleKeepsInvariant(pending: Pending, maxPending: nat, id: u64, slot: FragmentSlot)
    requires PendingInvariant(pending, maxPending)
    requires id in pending || |pending| < Max(1, maxPending)
    requires 1 <= slot.receivedCount == CountFilled(slot.fragments)
    ensures PendingInvariant(Settle(pending, id, slot).0, maxPending)
  {
    if slot.receivedCount >= slot.totalExpected {
      PendingRemoved(pending, maxPending, id);
    } else {
      PendingReplaced(pending, maxPending, id, slot);
    }
  }

  lemma EmptySlotCounts(total: PieceCount, now: u64)
    ensures EmptySlot(total, now).receivedCount == CountFilled(EmptySlot(total, now).fragments)
  {
    CountFilledNone(MAX_PACKET_FRAGMENTS);
  }

  /** An eviction for room removes one entry, created no later than any other. */
  lemma EvictionTakesOldest(pending: Pending, maxPending: nat,
                            packetId: u64, number: nat, total: nat, data: seq<u8>, now: u64, gone: u64)
    requires gone in pending && gone != packetId
    requires gone !in InsertResult(pending, maxPending, packetId, number, total, data, now).0
    ensures packetId !in pending && |pending| >= maxPending
    ensures forall other :: other in pending ==> pending[gone].createdAt <= pending[other].createdAt
    ensures forall other :: other in pending && other != gone ==>
      var after := InsertResult(pending, maxPending, packetId, number, total, data, now).0;
      other in after && after[other] == pending[other]
  {
    var room := MakeRoom(pending, maxPending, packetId);
    assert room == pending - {Oldest(pending)};
  }

  // --- Stored bytes ---

  function SlotBytes(slot: FragmentSlot): (n: nat) {
    |Assemble(slot.fragments, MAX_PACKET_FRAGMENTS)|
  }

  ghost function StoredBytes(pending: Pending): (n: nat)
    decreases |pending|
  {
    if pending == map[] then 0
    else
      var k :| k in pending;
      RemoveSize(pending, k);
      SlotBytes(pending[k]) + StoredBytes(pending - {k})
  }

  lemma {:induction false} StoredBytesWithout(pending: Pending, id: u64)
    requires id in pending
    ensures StoredBytes(pending) == SlotBytes(pending[id]) + StoredBytes(pending - {id})
    decreases |pending|
  {
    var k :| k in pending && StoredBytes(pending) == SlotBytes(pending[k]) + StoredBytes(pending - {k});
    if k != id {
      RemoveSize(pending, k);
      RemoveSize(pending, id);
      StoredBytesWithout(pending - {k}, id);
      StoredBytesWithout(pending - {id}, k);
      assert pending - {k} - {id} == pending - {id} - {k};
    }
  }

  lemma {:induction false} AssembleUpdate(fragments: seq<Option<seq<u8>>>, n: nat, i: nat, data: seq<u8>)
    requires n <= |fragments| && i < |fragments| && fragments[i].None?
    ensures |Assemble(fragments[i := Some(data)], n)| == |Assemble(fragments, n)| + if i < n then |data| else 0
  {
    if n != 0 {
      AssembleUpdate(fragments, n - 1, i, data);
    }
  }

  lemma {:induction false} AssembleMonotone(fragments: seq<Option<seq<u8>>>, m: nat, n: nat)
    requires m <= n <= |fragments|
    ensures |Assemble(fragments, m)| <= |Assemble(fragments, n)|
  {
    if m < n {
      AssembleMonotone(fragments, m, n - 1);
    }
  }

  lemma {:induction false} AssembleNone(n: nat, m: nat)
    requires m <= n
    ensures Assemble(seq(n, _ => None), m) == []
  {
    if m != 0 {
      AssembleNone(n, m - 1);
    }
  }

  lemma StoreBytes(slot: FragmentSlot, number: nat, data: seq<u8>)
    requires number < MAX_PACKET_FRAGMENTS
    ensures SlotBytes(Store(slot, number, data)) <= SlotBytes(slot) + |data|
  {
    if slot.fragments[number].None? {
      AssembleUpdate(slot.fragments, MAX_PACKET_FRAGMENTS, number, data);
    }
  }

  lemma EmptySlotBytes(total: PieceCount, now: u64)
    ensures SlotBytes(EmptySlot(total, now)) == 0
  {
    AssembleNone(MAX_PACKET_FRAGMENTS, MAX_PACKET_FRAGMENTS);
  }

  lemma StoredBytesReplaced(pending: Pending, id: u64, slot: FragmentSlot)
    ensures StoredBytes(pending[id := slot]) == SlotBytes(slot) + StoredBytes(pending - {id})
    ensures StoredBytes(pending) == StoredBytes(pending - {id}) + if id in pending then SlotBytes(pending[id]) else 0
  {
    StoredBytesWithout(pending[id := slot], id);
    UpdateTwice(pending, id, slot, slot);
    if id in pending {
      StoredBytesWithout(pending, id);
    } else {
      assert pending - {id} == pending;
    }
  }

  /** Bytes handed out and bytes kept never exceed bytes held and bytes received. */
  lemma InsertConservesBytes(pending: Pending, maxPending: nat,
                             packetId: u64, number: nat, total: nat, data: seq<u8>, now: u64)
    ensures var r := InsertResult(pending, maxPending, packetId, number, total, data, now);
      StoredBytes(r.0) + (if r.1.Some? then |r.1.value| else 0) <= StoredBytes(pending) + |data|
  {
    if IsAcceptable(number, total) {
      var room := MakeRoom(pending, maxPending, packetId);
      if room != pending {
        StoredBytesWithout(pending, Oldest(pending));
      }
      EmptySlotBytes(total, now);
      var slot := SlotFor(room, packetId, total, now);
      StoreBytes(slot, number, data);
      slot := Store(slot, number, data);
      StoredBytesReplaced(room, packetId, slot);
      AssembleMonotone(slot.fragments, slot.totalExpected, MAX_PACKET_FRAGMENTS);
    }
  }

  method AssembleSlot(slot: FragmentSlot) returns (assembled: seq<u8>)
    ensures assembled == Assemble(slot.fragments, slot.totalExpected)
  {
    assembled := [];
    for i := 0 to slot.totalExpected
      invariant assembled == Assemble(slot.fragments, i)
    {
      if slot.fragments[i].Some? {
        assembled := assembled + slot.fragments[i].value;
      } else {
        assert assembled + [] == assembled;
      }
    }
  }

  class ReassemblyBuffer {
    var pending: Pending
    const maxPending: nat

    ghost predicate Valid()
      reads this
    {
      PendingInvariant(pending, maxPending)
    }

    constructor (maxPending: nat)
      ensures Valid() && pending == map[] && this.maxPending == maxPending
    {
      this.pending := map[];
      this.maxPending := maxPending;
    }

    method Insert(packetId: u64, number: u8, total: u8, data: seq<u8>, now: u64)
      returns (r: Option<seq<u8>>)
      requires Valid()
      modifies this
      ensures Valid()
      ensures (pending, r) == InsertResult(old(pending), maxPending, packetId, number, total, data, now)
    {
      InsertKeepsInvariant(pending, maxPending, packetId, number, total, data, now);
      if total == 0 || total > MAX_PACKET_FRAGMENTS || number >= total {
        return None;
      }
      if packetId !in pending && |pending| >= maxPending {
        if pending != map[] {
          OldestExists(pending);
          var oldestId: u64 :| oldestId in pending && IsOldest(pending, oldestId);
          assert oldestId == Oldest(pending);
          pending := pending - {oldestId};
        }
      }
      var slot := SlotFor(pending, packetId, total, now);
      slot := Store(slot, number, data);
      if slot.receivedCount >= slot.totalExpected {
        pending := pending - {packetId};
        var assembled := AssembleSlot(slot);
        return Some(assembled);
      } else {
        pending := pending[packetId := slot];
        return None;
      }
    }

    method EvictStale(now: u64, timeout: nat)
      requires Valid()
      modifies this
      ensures Valid()
      ensures pending == NotStale(old(pending), now, timeout)
      ensures forall id :: id in pending <==>
        id in old(pending) && timeout > 0 && now - old(pending)[id].createdAt < timeout
      ensures forall id :: id in pending ==> pending[id] == old(pending)[id]
    {
      NotStaleSmaller(pending, now, timeout);
      pending := map id | id in pending && SaturatingSub(now, pending[id].createdAt) < timeout :: pending[id];
    }
  }

  lemma NotStaleSmaller(pending: Pending, now: u64, timeout: nat)
    ensures |NotStale(pending, now, timeout)| <= |pending|
    ensures NotStale(pending, now, timeout).Keys <= pending.Keys
  {
    SubsetSize(NotStale(pending, now, timeout).Keys, pending.Keys);
  }
}
