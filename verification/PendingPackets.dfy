/** Encrypted packets waiting for the identity of their source. */
module PendingPackets {
  import opened Wrappers
  import opened Bytes
  import opened Header
  import opened InetAddress

  const PENDING_ENCRYPTED_PACKET_LIMIT := 32
  const PENDING_ENCRYPTED_PACKET_TTL_MS := 30_000

  datatype PendingPacket = PendingPacket(
    source: Address,
    from: SocketAddr,
    packetId: u64,
    receivedAt: u64,
    data: Packet)
  {
    predicate IsCopyOf(other: PendingPacket) {
      source == other.source && from == other.from && packetId == other.packetId
    }

    /** A packet only waits when it is no fragment and names the source it waits for. */
    predicate IsWellFormed() {
      !IsFragment(data) && Source(data) == source
    }
  }

  type Queue = seq<PendingPacket>

  predicate QueueInvariant(queue: Queue) {
    && |queue| <= PENDING_ENCRYPTED_PACKET_LIMIT
    && (forall i :: 0 <= i < |queue| ==> queue[i].IsWellFormed())
    && (forall i, j :: 0 <= i < j < |queue| ==> !queue[i].IsCopyOf(queue[j]))
  }

  function Unexpired(queue: Queue, now: u64): (kept: Queue)
  {
    if queue == [] then []
    else
      var p := queue[|queue| - 1];
      var kept := Unexpired(queue[..|queue| - 1], now);
      if SaturatingSub(now, p.receivedAt) <= PENDING_ENCRYPTED_PACKET_TTL_MS then kept + [p] else kept
  }

  predicate HoldsCopy(queue: Queue, p: PendingPacket) {
    exists i :: 0 <= i < |queue| && queue[i].IsCopyOf(p)
  }

  function Enqueued(queue: Queue, p: PendingPacket, now: u64): (after: Queue)
  {
    var kept := Unexpired(queue, now);
    if HoldsCopy(kept, p) then kept
    else if |kept| >= PENDING_ENCRYPTED_PACKET_LIMIT then kept[1..] + [p]
    else kept + [p]
  }

  lemma {:induction false} UnexpiredKeepsInvariant(queue: Queue, now: u64)
    requires QueueInvariant(queue)
    ensures QueueInvariant(Unexpired(queue, now)) && |Unexpired(queue, now)| <= |queue|
    ensures forall p :: p in Unexpired(queue, now) ==>
      p in queue && SaturatingSub(now, p.receivedAt) <= PENDING_ENCRYPTED_PACKET_TTL_MS
  {
    if queue != [] {
      var front, p := queue[..|queue| - 1], queue[|queue| - 1];
      UnexpiredKeepsInvariant(front, now);
      var kept := Unexpired(front, now);
      forall i | 0 <= i < |kept| ensures !kept[i].IsCopyOf(p) {
        assert kept[i] in front;
      }
    }
  }

  /** Queueing keeps the list short and free of copies. */
  lemma EnqueueKeepsInvariant(queue: Queue, p: PendingPacket, now: u64)
    requires QueueInvariant(queue) && p.IsWellFormed()
    ensures QueueInvariant(Enqueued(queue, p, now))
    ensures HoldsCopy(Enqueued(queue, p, now), p)
  {
    UnexpiredKeepsInvariant(queue, now);
    var after := Enqueued(queue, p, now);
    if !HoldsCopy(Unexpired(queue, now), p) {
      assert after[|after| - 1].IsCopyOf(p);
    }
  }

  /** The packet has not waited longer than a queue keeps it. */
  predicate IsInTime(q: PendingPacket, now: u64) {
    now - q.receivedAt <= PENDING_ENCRYPTED_PACKET_TTL_MS
  }

  /** Thirty-two packets wait that are all in time, and no copy of `p` is among them. */
  predicate IsFull(queue: Queue, p: PendingPacket, now: u64) {
    && |queue| == PENDING_ENCRYPTED_PACKET_LIMIT
    && (forall i :: 0 <= i < |queue| ==> IsInTime(queue[i], now) && !queue[i].IsCopyOf(p))
  }

  lemma {:induction false} UnexpiredInOrder(queue: Queue, now: u64)
    ensures IsSubsequence(Unexpired(queue, now), queue)
    ensures |Unexpired(queue, now)| <= |queue|
  {
    if queue == [] {
      SubsequenceOfItself(queue);
    } else {
      hide IsSubsequence;
      var front, p := queue[..|queue| - 1], queue[|queue| - 1];
      UnexpiredInOrder(front, now);
      SubsequenceGrows(Unexpired(front, now), front, p);
      assert queue == front + [p];
    }
  }

  lemma {:induction false} UnexpiredElements(queue: Queue, now: u64)
    ensures forall q :: q in Unexpired(queue, now) <==> q in queue && IsInTime(q, now)
  {
    if queue != [] {
      var front, p := queue[..|queue| - 1], queue[|queue| - 1];
      var kept := Unexpired(front, now);
      UnexpiredElements(front, now);
      assert queue == front + [p];
      assert Unexpired(queue, now) == if IsInTime(p, now) then kept + [p] else kept;
      hide Unexpired;
    }
  }

  predicate AreAllInTime(queue: Queue, now: u64) {
    forall i :: 0 <= i < |queue| ==> IsInTime(queue[i], now)
  }

  lemma {:induction false} AllUnexpired(queue: Queue, now: u64)
    requires AreAllInTime(queue, now)
    ensures Unexpired(queue, now) == queue
  {
    if queue != [] {
      AllUnexpired(queue[..|queue| - 1], now);
    }
  }

  lemma {:induction false} SomeExpired(queue: Queue, now: u64, i: nat)
    requires i < |queue| && !IsInTime(queue[i], now)
    ensures |Unexpired(queue, now)| < |queue|
  {
    var front := queue[..|queue| - 1];
    UnexpiredInOrder(front, now);
    hide IsSubsequence;
    if i < |front| {
      SomeExpired(front, now, i);
    }
  }

  /** A copy of `p` waits in time. */
  predicate HasWaitingCopy(queue: Queue, p: PendingPacket, now: u64) {
    exists i :: 0 <= i < |queue| && IsInTime(queue[i], now) && queue[i].IsCopyOf(p)
  }

  lemma CopyAmongUnexpired(queue: Queue, p: PendingPacket, now: u64)
    ensures HoldsCopy(Unexpired(queue, now), p) <==> HasWaitingCopy(queue, p, now)
  {
    UnexpiredElements(queue, now);
    var kept := Unexpired(queue, now);
    if HasWaitingCopy(queue, p, now) {
      var k :| 0 <= k < |queue| && IsInTime(queue[k], now) && queue[k].IsCopyOf(p);
      assert queue[k] in kept;
    }
  }

  /**
   Queueing adds the packet behind the others, in the order they were, unless a copy of it waits. It forgets the packets
   that have waited too long and, if there is no room left, the first one; every other packet stays.
   */
  lemma EnqueueKeepsOthers(queue: Queue, p: PendingPacket, now: u64)
    requires QueueInvariant(queue)
    ensures var after, more := Enqueued(queue, p, now), if HasWaitingCopy(queue, p, now) then [] else [p];
      exists stay: Queue :: after == stay + more && IsSubsequence(stay, queue)
        && forall q :: q in stay <==> q in queue && IsInTime(q, now) && !(IsFull(queue, p, now) && q == queue[0])
  {
    hide IsSubsequence, Unexpired, HasWaitingCopy;
    var kept := Unexpired(queue, now);
    UnexpiredInOrder(queue, now);
    UnexpiredElements(queue, now);
    CopyAmongUnexpired(queue, p, now);
    FullWhen(queue, p, now);
    if HoldsCopy(kept, p) {
      assert kept == kept + [];
    } else if |kept| >= PENDING_ENCRYPTED_PACKET_LIMIT {
      SubsequenceTail(kept, queue);
      TailElements(queue);
      assert Enqueued(queue, p, now) == kept[1..] + [p];
    }
  }

  lemma FullWhen(queue: Queue, p: PendingPacket, now: u64)
    requires QueueInvariant(queue)
    ensures IsFull(queue, p, now) <==>
      |Unexpired(queue, now)| >= PENDING_ENCRYPTED_PACKET_LIMIT && !HasWaitingCopy(queue, p, now)
    ensures IsFull(queue, p, now) ==> Unexpired(queue, now) == queue
  {
    UnexpiredInOrder(queue, now);
    hide Unexpired, IsSubsequence, IsInTime, PendingPacket.IsCopyOf, PendingPacket.IsWellFormed;
    if AreAllInTime(queue, now) {
      AllUnexpired(queue, now);
    } else {
      var i :| 0 <= i < |queue| && !IsInTime(queue[i], now);
      SomeExpired(queue, now, i);
    }
  }

  lemma TailElements(queue: Queue)
    requires QueueInvariant(queue) && queue != []
    ensures forall q :: q in queue[1..] <==> q in queue && q != queue[0]
  {
    forall q | q in queue && q != queue[0] ensures q in queue[1..] {
      var i :| 0 <= i < |queue| && queue[i] == q;
      assert queue[1..][i - 1] == q;
    }
    assert queue[0].IsCopyOf(queue[0]);
  }

  // --- By source ---

  /** The packets from `source`, in order. */
  function Of(queue: Queue, source: Address): (s: Queue)
  {
    if queue == [] then []
    else
      var p := queue[|queue| - 1];
      var s := Of(queue[..|queue| - 1], source);
      if p.source == source then s + [p] else s
  }

  function Without(queue: Queue, source: Address): (s: Queue)
  {
    if queue == [] then []
    else
      var p := queue[|queue| - 1];
      var s := Without(queue[..|queue| - 1], source);
      if p.source == source then s else s + [p]
  }

  lemma {:induction false} OfConcat(a: Queue, b: Queue, source: Address)
    ensures Of(a + b, source) == Of(a, source) + Of(b, source)
  {
    if b == [] {
      assert a + b == a;
    } else {
      assert (a + b)[..|a + b| - 1] == a + b[..|b| - 1];
      OfConcat(a, b[..|b| - 1], source);
    }
  }

  lemma OfAppend(queue: Queue, p: PendingPacket, a: Address)
    ensures Of(queue + [p], a) == if p.source == a then Of(queue, a) + [p] else Of(queue, a)
  {
    assert (queue + [p])[..|queue|] == queue;
  }

  lemma {:induction false} OfWithout(queue: Queue, source: Address, a: Address)
    ensures Of(Without(queue, source), a) == if a == source then [] else Of(queue, a)
  {
    if queue != [] {
      var front, p := queue[..|queue| - 1], queue[|queue| - 1];
      OfWithout(front, source, a);
      OfAppend(Without(front, source), p, a);
    }
  }

  lemma {:induction false} OfOf(queue: Queue, source: Address, a: Address)
    ensures Of(Of(queue, source), a) == if a == source then Of(queue, source) else []
  {
    if queue != [] {
      var front, p := queue[..|queue| - 1], queue[|queue| - 1];
      OfOf(front, source, a);
      OfAppend(Of(front, source), p, a);
    }
  }

  lemma {:induction false} PartitionSize(queue: Queue, source: Address)
    ensures |Without(queue, source)| + |Of(queue, source)| == |queue|
  {
    if queue != [] {
      PartitionSize(queue[..|queue| - 1], source);
    }
  }

  lemma {:induction false} PartitionElements(queue: Queue, source: Address)
    ensures forall p :: p in Without(queue, source) ==> p in queue
    ensures forall p :: p in Of(queue, source) ==> p in queue && p.source == source
  {
    if queue != [] {
      PartitionElements(queue[..|queue| - 1], source);
    }
  }

  lemma BatchIsWellFormed(queue: Queue, source: Address)
    requires QueueInvariant(queue)
    ensures forall p :: p in Of(queue, source) ==> p.IsWellFormed() && p.source == source
  {
    PartitionElements(queue, source);
  }

  lemma PartitionStep(queue: Queue, k: nat, source: Address)
    requires k < |queue|
    ensures var p := queue[k];
      && Of(queue[..k + 1], source) == (if p.source == source then Of(queue[..k], source) + [p] else Of(queue[..k], source))
      && Without(queue[..k + 1], source) ==
        (if p.source == source then Without(queue[..k], source) else Without(queue[..k], source) + [p])
  {
    assert queue[..k + 1][..k] == queue[..k];
  }

  /** Dropping or keeping the first of `rest` when it stands behind `kept`. */
  lemma SplitStep(kept: Queue, rest: Queue)
    requires rest != []
    ensures (kept + rest)[|kept|] == rest[0]
    ensures (kept + rest)[..|kept|] + (kept + rest)[|kept| + 1..] == kept + rest[1..]
    ensures (kept + [rest[0]]) + rest[1..] == kept + rest
  {
  }

  /** Remove the packets from `source` one by one, collecting them. */
  method Partition(queue: Queue, source: Address) returns (rest: Queue, batch: Queue)
    ensures rest == Without(queue, source) && batch == Of(queue, source)
  {
    var index := 0;
    rest, batch := queue, [];
    ghost var kept: Queue, tail: Queue, done := [], queue, 0;
    while index < |rest|
      invariant done <= |queue| && tail == queue[done..]
      invariant rest == kept + tail && index == |kept|
      invariant kept == Without(queue[..done], source) && batch == Of(queue[..done], source)
      decreases |rest| - index
    {
      PartitionStep(queue, done, source);
      SplitStep(kept, tail);
      assert tail[0] == queue[done] && tail[1..] == queue[done + 1..];
      if rest[index].source == source {
        batch := batch + [rest[index]];
        rest := rest[..index] + rest[index + 1..];
      } else {
        kept := kept + [rest[index]];
        index := index + 1;
      }
      tail := tail[1..];
      done := done + 1;
    }
    assert queue[..|queue|] == queue;
  }

  lemma {:induction false} WithoutKeepsInvariant(queue: Queue, source: Address)
    requires QueueInvariant(queue)
    ensures QueueInvariant(Without(queue, source))
  {
    if queue != [] {
      var front, p := queue[..|queue| - 1], queue[|queue| - 1];
      WithoutKeepsInvariant(front, source);
      PartitionElements(front, source);
      PartitionSize(front, source);
      var kept := Without(front, source);
      forall i | 0 <= i < |kept| ensures !kept[i].IsCopyOf(p) {
        assert kept[i] in front;
      }
    }
  }

  // --- Replay conserves packets ---

  /**
   Going from `queue` and `log` to `queue'` and `log'`, every packet that left the queue was
   replayed once, and the packets of each source were replayed in the order they waited in.
   */
  ghost predicate IsReplay(queue: Queue, log: Queue, queue': Queue, log': Queue) {
    && log <= log'
    && |queue'| + (|log'| - |log|) == |queue|
    && forall a: Address :: Of(log'[|log|..], a) + Of(queue', a) == Of(queue, a)
  }

  lemma ReplayNothing(queue: Queue, log: Queue)
    ensures IsReplay(queue, log, queue, log)
  {
    assert log[|log|..] == [];
    forall a: Address ensures Of(log[|log|..], a) + Of(queue, a) == Of(queue, a) {
      assert Of([], a) == [];
    }
  }

  lemma ReplayTrans(q0: Queue, l0: Queue, q1: Queue, l1: Queue, q2: Queue, l2: Queue)
    requires IsReplay(q0, l0, q1, l1) && IsReplay(q1, l1, q2, l2)
    ensures IsReplay(q0, l0, q2, l2)
  {
    assert l2[|l0|..] == l1[|l0|..] + l2[|l1|..];
    forall a: Address ensures Of(l2[|l0|..], a) + Of(q2, a) == Of(q0, a) {
      OfConcat(l1[|l0|..], l2[|l1|..], a);
      assert Of(l2[|l1|..], a) + Of(q2, a) == Of(q1, a);
      assert Of(l1[|l0|..], a) + Of(q1, a) == Of(q0, a);
      assert Of(l2[|l0|..], a) + Of(q2, a) == Of(l1[|l0|..], a) + (Of(l2[|l1|..], a) + Of(q2, a));
    }
  }

  /** Midway through a replay: `batch`, all from `source`, has left the queue but is not replayed yet. */
  ghost predicate IsPartialReplay(queue: Queue, log: Queue, source: Address, batch: Queue, queue': Queue, log': Queue) {
    && log <= log'
    && |queue'| + (|log'| - |log|) + |batch| == |queue|
    && Of(queue', source) == []
    && Of(batch, source) == batch
    && forall a: Address :: Of(log'[|log|..], a) + (Of(batch, a) + Of(queue', a)) == Of(queue, a)
  }

  lemma ReplayBegins(queue: Queue, log: Queue, source: Address)
    ensures IsPartialReplay(queue, log, source, Of(queue, source), Without(queue, source), log)
  {
    PartitionSize(queue, source);
    OfWithout(queue, source, source);
    OfOf(queue, source, source);
    assert log[|log|..] == [];
    forall a: Address
      ensures Of(log[|log|..], a) + (Of(Of(queue, source), a) + Of(Without(queue, source), a)) == Of(queue, a)
    {
      OfWithout(queue, source, a);
      OfOf(queue, source, a);
      assert Of([], a) == [];
    }
  }

  lemma OfFirst(batch: Queue, a: Address)
    requires batch != []
    ensures Of(batch, a) == if batch[0].source == a then [batch[0]] + Of(batch[1..], a) else Of(batch[1..], a)
  {
    OfConcat([batch[0]], batch[1..], a);
    assert [batch[0]] + batch[1..] == batch;
    assert [batch[0]][..0] == [];
    assert Of([batch[0]], a) == if batch[0].source == a then [batch[0]] else [];
  }

  /** The first packet of the batch is logged and received, which may replay further packets. */
  lemma ReplayContinues(queue: Queue, log: Queue, source: Address, batch: Queue,
                        queue1: Queue, log1: Queue, queue2: Queue, log2: Queue)
    requires IsPartialReplay(queue, log, source, batch, queue1, log1)
    requires batch != [] && batch[0].source == source
    requires IsReplay(queue1, log1 + [batch[0]], queue2, log2)
    ensures IsPartialReplay(queue, log, source, batch[1..], queue2, log2)
  {
    OfFirst(batch, source);
    assert batch == [batch[0]] + batch[1..];
    assert Of(log2[|log1 + [batch[0]]|..], source) + Of(queue2, source) == Of(queue1, source);
    forall a: Address ensures Of(log2[|log|..], a) + (Of(batch[1..], a) + Of(queue2, a)) == Of(queue, a) {
      ReplayContinuesFor(queue, log, source, batch, queue1, log1, queue2, log2, a);
    }
  }

  lemma ReplayContinuesFor(queue: Queue, log: Queue, source: Address, batch: Queue,
                           queue1: Queue, log1: Queue, queue2: Queue, log2: Queue, a: Address)
    requires IsPartialReplay(queue, log, source, batch, queue1, log1)
    requires batch != [] && batch[0].source == source
    requires IsReplay(queue1, log1 + [batch[0]], queue2, log2)
    ensures Of(log2[|log|..], a) + (Of(batch[1..], a) + Of(queue2, a)) == Of(queue, a)
  {
    var nested := log2[|log1| + 1..];
    LogGrows(log, log1, batch[0], log2, a);
    OfFirst(batch, a);
    assert log2[|log1 + [batch[0]]|..] == nested;
    var x, y := Of(log1[|log|..], a), Of(nested, a);
    assert y + Of(queue2, a) == Of(queue1, a);
    assert x + (Of(batch, a) + Of(queue1, a)) == Of(queue, a);
    if a == source {
      assert y == [] && Of(queue2, a) == [];
      Regroup(x, [batch[0]], Of(batch[1..], a), [], []);
    } else {
      OfOtherIsEmpty(batch, source, a);
      Regroup(x, [], [], y, Of(queue2, a));
    }
  }

  lemma LogGrows(log: Queue, log1: Queue, p: PendingPacket, log2: Queue, a: Address)
    requires log <= log1 && log1 + [p] <= log2
    ensures Of(log2[|log|..], a) ==
      Of(log1[|log|..], a) + (if p.source == a then [p] else []) + Of(log2[|log1| + 1..], a)
  {
    var nested := log2[|log1| + 1..];
    assert log2[|log|..] == log1[|log|..] + [p] + nested;
    OfConcat(log1[|log|..] + [p], nested, a);
    OfAppend(log1[|log|..], p, a);
    assert Of(log1[|log|..], a) + [] == Of(log1[|log|..], a);
  }

  lemma Regroup<T>(x: seq<T>, p: seq<T>, rest: seq<T>, y: seq<T>, q: seq<T>)
    requires rest == [] || y == []
    ensures (x + p + y) + (rest + q) == x + ((p + rest) + (y + q))
  {
  }

  lemma OfOtherIsEmpty(batch: Queue, source: Address, a: Address)
    requires batch != [] && Of(batch, source) == batch && a != source
    ensures Of(batch, a) == [] && Of(batch[1..], a) == []
  {
    OfOf(batch, source, a);
    OfFirst(batch, a);
  }

  lemma ReplayEnds(queue: Queue, log: Queue, source: Address, queue': Queue, log': Queue)
    requires IsPartialReplay(queue, log, source, [], queue', log')
    ensures IsReplay(queue, log, queue', log') && Of(queue', source) == []
  {
    forall a: Address ensures Of(log'[|log|..], a) + Of(queue', a) == Of(queue, a) {
      assert Of([], a) + Of(queue', a) == Of(queue', a);
    }
  }
}
