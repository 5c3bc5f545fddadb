/**
 What the reassembly buffer holds, said by the arrivals that put it there: from the one that opened the entry, at that
 arrival's time, each number's first copy counts, whatever totals, contents and numbers later copies bring.
 */
module FragmentHistory {
  import opened Wrappers
  import opened Bytes
  import opened Header
  import opened Fragment
  import opened FragmentRuns

  /** Event `k` opened packet `id`, which has been pending ever since, up to event `m`. */
  ghost predicate IsOpenedBy(initial: Pending, maxPending: nat, events: seq<Event>, id: u64, k: nat, m: nat) {
    && k <= m <= |events| && k < |events|
    && events[k].IsFor(id)
    && id !in After(initial, maxPending, events[..k])
    && forall j :: k < j <= m ==> id in After(initial, maxPending, events[..j])
  }

  /** The event brings fragment `number` of packet `id`. */
  predicate Brings(e: Event, id: u64, number: nat) {
    e.IsFor(id) && IsAcceptable(e.number, e.total) && e.number == number
  }

  /** What the first of the events to bring fragment `number` of packet `id` carries. */
  function FirstCopy(events: seq<Event>, id: u64, number: nat): (data: Option<seq<u8>>)
  {
    if events == [] then None
    else
      var before, e := FirstCopy(events[..|events| - 1], id, number), events[|events| - 1];
      if before.None? && Brings(e, id, number) then Some(e.data) else before
  }

  function FirstCopies(events: seq<Event>, id: u64): (fragments: FragmentArray) {
    seq(MAX_PACKET_FRAGMENTS, i requires 0 <= i < MAX_PACKET_FRAGMENTS => FirstCopy(events, id, i))
  }

  /** The first copies of fragments 0 to `n`, a missing one being empty. */
  function InOrderOfNumber(events: seq<Event>, id: u64, n: nat): (pieces: seq<seq<u8>>)
    ensures |pieces| == n
  {
    seq(n, i requires 0 <= i < n => Contents(FirstCopy(events, id, i)))
  }

  /** The numbers of packet `id` that the events bring. */
  function Brought(events: seq<Event>, id: u64): (s: set<nat>) {
    set i: nat | i < MAX_PACKET_FRAGMENTS && FirstCopy(events, id, i).Some? :: i
  }

  /** The slot holds what `events` brought, and is as old as the first of them. */
  ghost predicate IsSlotOf(slot: FragmentSlot, events: seq<Event>, id: u64) {
    && events != [] && events[0].IsFor(id)
    && slot.fragments == FirstCopies(events, id)
    && slot.receivedCount == |Brought(events, id)|
    && slot.totalExpected == events[0].total
    && slot.createdAt == events[0].now
  }

  lemma CopyNext(events: seq<Event>, e: Event, id: u64, number: nat)
    ensures FirstCopy(events + [e], id, number) ==
      if FirstCopy(events, id, number).None? && Brings(e, id, number) then Some(e.data) else FirstCopy(events, id, number)
  {
    assert (events + [e])[..|events|] == events;
  }

  lemma BroughtNext(events: seq<Event>, e: Event, id: u64)
    ensures Brought(events + [e], id) ==
      if e.IsFor(id) && IsAcceptable(e.number, e.total) then Brought(events, id) + {e.number as nat} else Brought(events, id)
  {
    forall i: nat
      ensures i in Brought(events + [e], id) <==> i in Brought(events, id) || (i < MAX_PACKET_FRAGMENTS && Brings(e, id, i))
    {
      CopyNext(events, e, id, i);
    }
  }

  /** The first arrival opens an entry at its own time and with its own total. */
  lemma SlotOpens(e: Event, id: u64)
    requires e.IsFor(id) && IsAcceptable(e.number, e.total)
    ensures IsSlotOf(Store(EmptySlot(e.total, e.now), e.number, e.data), [e], id)
  {
    hide FirstCopy;
    assert [] + [e] == [e];
    assert Brought([], id) == {} by { NothingBrought(id); }
    BroughtNext([], e, id);
    forall i: nat | i < MAX_PACKET_FRAGMENTS
      ensures FirstCopy([e], id, i) == if i == e.number then Some(e.data) else None
    {
      NothingBrought(id);
      CopyNext([], e, id, i);
    }
  }

  lemma NothingBrought(id: u64)
    ensures forall i: nat :: FirstCopy([], id, i) == None
  {
  }

  /** A further arrival counts only if no copy of its number was there. */
  lemma SlotGrows(slot: FragmentSlot, events: seq<Event>, e: Event, id: u64)
    requires IsSlotOf(slot, events, id) && e.IsFor(id) && IsAcceptable(e.number, e.total)
    ensures IsSlotOf(Store(slot, e.number, e.data), events + [e], id)
  {
    hide FirstCopy;
    BroughtNext(events, e, id);
    assert slot.fragments[e.number].Some? <==> e.number as nat in Brought(events, id);
    var after := Store(slot, e.number, e.data);
    forall i: nat | i < MAX_PACKET_FRAGMENTS
      ensures FirstCopy(events + [e], id, i) == after.fragments[i]
    {
      CopyNext(events, e, id, i);
    }
    assert after.fragments == FirstCopies(events + [e], id);
  }

  lemma SlotStays(slot: FragmentSlot, events: seq<Event>, e: Event, id: u64)
    requires IsSlotOf(slot, events, id) && !(e.IsFor(id) && IsAcceptable(e.number, e.total))
    ensures IsSlotOf(slot, events + [e], id)
  {
    hide FirstCopy;
    BroughtNext(events, e, id);
    forall i: nat | i < MAX_PACKET_FRAGMENTS
      ensures FirstCopy(events + [e], id, i) == slot.fragments[i]
    {
      CopyNext(events, e, id, i);
    }
    assert slot.fragments == FirstCopies(events + [e], id);
  }

  lemma AfterNext(initial: Pending, maxPending: nat, events: seq<Event>, m: nat)
    requires m < |events|
    ensures After(initial, maxPending, events[..m + 1]) ==
      Step(After(initial, maxPending, events[..m]), maxPending, events[m]).0
  {
    assert events[..m + 1][..m] == events[..m];
  }

  /** An entry that is there before and after an event is the old one, with the event's fragment if it brings one. */
  lemma SlotAfter(pending: Pending, maxPending: nat, e: Event, id: u64)
    requires id in Step(pending, maxPending, e).0
    ensures id !in pending ==> e.IsFor(id)
    ensures var slot := Step(pending, maxPending, e).0[id];
      if e.IsFor(id) && id !in pending then
        IsAcceptable(e.number, e.total) && slot == Store(EmptySlot(e.total, e.now), e.number, e.data)
      else if e.IsFor(id) && IsAcceptable(e.number, e.total) then
        slot == Store(pending[id], e.number, e.data)
      else
        slot == pending[id]
  {
  }

  /**
   What is pending is the history since its opening: each number's first copy, counted once, under the total and the
   time of the arrival that opened it.
   */
  lemma {:induction false} HeldIsHistory(initial: Pending, maxPending: nat, events: seq<Event>, id: u64, k: nat, m: nat)
    requires IsOpenedBy(initial, maxPending, events, id, k, m) && k < m
    ensures id in After(initial, maxPending, events[..m])
    ensures IsSlotOf(After(initial, maxPending, events[..m])[id], events[k..m], id)
    decreases m
  {
    hide IsSlotOf, Step, After;
    var before, h := After(initial, maxPending, events[..m - 1]), events[k..m - 1];
    AfterNext(initial, maxPending, events, m - 1);
    assert events[k..m] == h + [events[m - 1]];
    if k < m - 1 {
      HeldIsHistory(initial, maxPending, events, id, k, m - 1);
    }
    SlotNext(before, maxPending, events[m - 1], id, h);
  }

  lemma SlotNext(pending: Pending, maxPending: nat, e: Event, id: u64, events: seq<Event>)
    requires id in Step(pending, maxPending, e).0
    requires if id in pending then IsSlotOf(pending[id], events, id) else events == []
    ensures IsSlotOf(Step(pending, maxPending, e).0[id], events + [e], id)
  {
    SlotAfter(pending, maxPending, e, id);
    hide Store, EmptySlot, IsSlotOf, Step;
    if id !in pending {
      assert events + [e] == [e];
      SlotOpens(e, id);
    } else if e.IsFor(id) && IsAcceptable(e.number, e.total) {
      SlotGrows(pending[id], events, e, id);
    } else {
      SlotStays(pending[id], events, e, id);
    }
  }

  /** In a run from an empty buffer every entry was opened by one of the arrivals. */
  lemma {:induction false} EveryEntryWasOpened(maxPending: nat, events: seq<Event>, id: u64, m: nat)
    requires m <= |events| && id in After(map[], maxPending, events[..m])
    ensures exists k: nat :: k < m && IsOpenedBy(map[], maxPending, events, id, k, m)
    decreases m
  {
    if m != 0 {
      hide After, Step;
      var before, e := After(map[], maxPending, events[..m - 1]), events[m - 1];
      AfterNext(map[], maxPending, events, m - 1);
      SlotAfter(before, maxPending, e, id);
      if id in before {
        EveryEntryWasOpened(maxPending, events, id, m - 1);
        var k: nat :| k < m - 1 && IsOpenedBy(map[], maxPending, events, id, k, m - 1);
        assert IsOpenedBy(map[], maxPending, events, id, k, m);
      } else {
        assert IsOpenedBy(map[], maxPending, events, id, m - 1, m);
      }
    }
  }

  /** A sweep takes an entry exactly when the timeout has passed since the arrival that opened it, and leaves it alone otherwise. */
  lemma SweepByHistory(initial: Pending, maxPending: nat, events: seq<Event>, id: u64, k: nat, m: nat)
    requires IsOpenedBy(initial, maxPending, events, id, k, m) && k < m < |events| && events[m].Evict?
    ensures var before, after := After(initial, maxPending, events[..m]), After(initial, maxPending, events[..m + 1]);
      && (id in after <==> events[m].now - events[k].now < events[m].timeout && events[m].timeout > 0)
      && (id in after ==> after[id] == before[id])
  {
    HeldIsHistory(initial, maxPending, events, id, k, m);
    AfterNext(initial, maxPending, events, m);
    hide After, FirstCopies, Brought;
  }

  /** An arrival of another packet that takes an entry takes the one whose opening arrival came first. */
  lemma EvictionByHistory(
    initial: Pending, maxPending: nat, events: seq<Event>, m: nat, gone: u64, k: nat, other: u64, j: nat)
    requires m < |events| && events[m].Arrive? && !events[m].IsFor(gone)
    requires IsOpenedBy(initial, maxPending, events, gone, k, m) && k < m
    requires gone !in After(initial, maxPending, events[..m + 1])
    requires IsOpenedBy(initial, maxPending, events, other, j, m) && j < m
    ensures events[k].now <= events[j].now
    ensures events[k].now == events[j].now ==> gone <= other
    ensures other != gone ==> other in After(initial, maxPending, events[..m + 1])
    ensures events[m].packetId !in After(initial, maxPending, events[..m])
    ensures |After(initial, maxPending, events[..m])| >= maxPending
  {
    HeldIsHistory(initial, maxPending, events, gone, k, m);
    HeldIsHistory(initial, maxPending, events, other, j, m);
    AfterNext(initial, maxPending, events, m);
    hide After, IsOpenedBy, FirstCopies, Brought;
    EvictedIsOldest(After(initial, maxPending, events[..m]), maxPending, events[m], gone);
  }

  lemma EvictedIsOldest(pending: Pending, maxPending: nat, e: Event, gone: u64)
    requires e.Arrive? && !e.IsFor(gone) && gone in pending
    requires gone !in Step(pending, maxPending, e).0
    ensures IsOldest(pending, gone) && e.packetId !in pending && |pending| >= maxPending
    ensures forall other :: other in pending && other != gone ==> other in Step(pending, maxPending, e).0
  {
  }

  /**
   An arrival completes its packet exactly when it brings the number of different fragments up to the total its opening
   arrival named; then the first copies come out in the order of their numbers, and the entry is gone.
   */
  lemma CompletionByHistory(initial: Pending, maxPending: nat, events: seq<Event>, id: u64, k: nat, m: nat)
    requires IsOpenedBy(initial, maxPending, events, id, k, m) && m < |events|
    requires events[m].IsFor(id) && events[m].number < events[m].total <= MAX_PACKET_FRAGMENTS
    ensures var h, out := events[k..m + 1], Output(initial, maxPending, events, m);
      && events[k].total <= MAX_PACKET_FRAGMENTS
      && (out.Some? <==> |Brought(h, id)| >= events[k].total)
      && (out.Some? <==> id !in After(initial, maxPending, events[..m + 1]))
      && (out.Some? ==> out.value == Join(InOrderOfNumber(h, id, events[k].total)))
  {
    hide After, IsOldest;
    var before, e := After(initial, maxPending, events[..m]), events[m];
    AfterNext(initial, maxPending, events, m);
    var slot := SlotFor(MakeRoom(before, maxPending, id), id, e.total, e.now);
    var h := events[k..m + 1];
    hide Store, EmptySlot, FirstCopies, Brought, Assemble, Join, InOrderOfNumber;
    if k == m {
      assert h == [e];
      SlotOpens(e, id);
    } else {
      assert h == events[k..m] + [e];
      HeldIsHistory(initial, maxPending, events, id, k, m);
      SlotGrows(slot, events[k..m], e, id);
    }
    CopiesAssemble(h, id, events[k].total);
  }

  /** A fragment that claims no fragments, more than seven, or a number outside its total is ignored. */
  lemma RefusedIsIgnored(initial: Pending, maxPending: nat, events: seq<Event>, m: nat)
    requires m < |events| && events[m].Arrive?
    requires events[m].total > MAX_PACKET_FRAGMENTS || events[m].number >= events[m].total
    ensures Output(initial, maxPending, events, m) == None
    ensures After(initial, maxPending, events[..m + 1]) == After(initial, maxPending, events[..m])
  {
    AfterNext(initial, maxPending, events, m);
  }

  lemma {:induction false} CopiesAssemble(events: seq<Event>, id: u64, n: nat)
    requires n <= MAX_PACKET_FRAGMENTS
    ensures Assemble(FirstCopies(events, id), n) == Join(InOrderOfNumber(events, id, n))
  {
    if n != 0 {
      CopiesAssemble(events, id, n - 1);
      assert InOrderOfNumber(events, id, n)[..n - 1] == InOrderOfNumber(events, id, n - 1);
    }
  }
}
