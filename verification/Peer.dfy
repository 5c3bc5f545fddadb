/** Remote peers: the paths to them, and the retry state of a session. */
module Peer {
  import opened Wrappers
  import opened Bytes
  import opened InetAddress
  import IdentityWire

  const PEER_PATH_EXPIRATION := 243_000
  const PATH_HELLO_RATE_LIMIT := 1_000
  const HELLO_RETRY_BACKOFF_MAX := 30_000
  const RELAY_PENALTY := 10_000
  const PEER_PING_PERIOD := 60_000

  /** The latency up to which a direct path beats every relay path, whatever their ages. */
  const DIRECT_LATENCY := 9_757

  // --- Paths ---

  datatype Path = Path(address: SocketAddr, lastSend: u64, lastReceive: u64, latency: u32, isDirect: bool) {
    predicate IsAlive(now: u64) {
      SaturatingSub(now, lastReceive) < PEER_PATH_EXPIRATION
    }

    function QualityScore(now: u64): (score: u32) {
      if !IsAlive(now) then U32_MAX
      else
        var age: u32 := SaturatingSub(now, lastReceive);
        SaturatingAdd(SaturatingAdd(latency, if isDirect then 0 else RELAY_PENALTY), age / 1000)
    }
  }

  function NewPath(address: SocketAddr, now: u64): Path {
    Path(address, 0, now, 0, true)
  }

  function SaturatingAdd(a: u32, b: u32): u32 {
    Min(a + b, U32_MAX)
  }

  /** The alive path of least score, the first of several. */
  ghost predicate IsBest(paths: seq<Path>, now: u64, i: int) {
    && 0 <= i < |paths| && paths[i].IsAlive(now)
    && (forall j :: 0 <= j < |paths| && paths[j].IsAlive(now) ==> paths[i].QualityScore(now) <= paths[j].QualityScore(now))
    && (forall j :: 0 <= j < i && paths[j].IsAlive(now) ==> paths[i].QualityScore(now) < paths[j].QualityScore(now))
  }

  ghost predicate IsChosen(paths: seq<Path>, now: u64, best: Option<Path>) {
    match best
    case None => forall j :: 0 <= j < |paths| ==> !paths[j].IsAlive(now)
    case Some(path) => exists i :: IsBest(paths, now, i) && paths[i] == path
  }

  /** There is an alive direct path of latency at most `latency`. */
  ghost predicate HasDirect(paths: seq<Path>, now: u64, latency: nat) {
    exists i :: 0 <= i < |paths| && paths[i].IsAlive(now) && paths[i].isDirect && paths[i].latency <= latency
  }

  /** Direct paths win over relay paths up to the latency bound: age costs at most 242 points, a relay 10,000. */
  lemma DirectBeatsRelay(paths: seq<Path>, now: u64, best: Option<Path>)
    requires IsChosen(paths, now, best) && HasDirect(paths, now, DIRECT_LATENCY)
    ensures best.Some? && best.value.isDirect
  {
    var d :| 0 <= d < |paths| && paths[d].IsAlive(now) && paths[d].isDirect && paths[d].latency <= DIRECT_LATENCY;
    assert paths[d].QualityScore(now) < RELAY_PENALTY;
    var i :| IsBest(paths, now, i) && paths[i] == best.value;
  }

  /** What the chosen path has over every other alive one, unless that one's latency is near the 32-bit limit. */
  predicate IsNoWorse(best: Path, other: Path, now: u64) {
    && (best.isDirect == other.isDirect && best.lastReceive == other.lastReceive ==> best.latency <= other.latency)
    && (best.isDirect == other.isDirect && best.latency == other.latency ==>
      now - best.lastReceive < Max(now - other.lastReceive, 0) + 1000)
    && (best.lastReceive == other.lastReceive && other.isDirect && !best.isDirect ==>
      best.latency + RELAY_PENALTY <= other.latency)
    && (best.lastReceive == other.lastReceive && !other.isDirect && best.isDirect ==>
      best.latency <= other.latency + RELAY_PENALTY)
  }

  /**
   Of paths heard from at the same time the one of less latency is chosen, a relay counting for ten seconds more; of
   paths of the same latency the one heard from later, to the second. A chosen path was heard from within 243 seconds.
   */
  lemma ChosenIsNoWorse(paths: seq<Path>, now: u64, best: Path, j: nat)
    requires IsChosen(paths, now, Some(best))
    requires j < |paths| && now - paths[j].lastReceive < 243_000 && paths[j].latency < U32_MAX - RELAY_PENALTY - 242
    ensures IsNoWorse(best, paths[j], now) && now - best.lastReceive < 243_000
  {
    var i :| IsBest(paths, now, i) && paths[i] == best;
    assert paths[j].IsAlive(now) && paths[i].QualityScore(now) <= paths[j].QualityScore(now);
    ScoreIs(paths[i], now);
    ScoreIs(paths[j], now);
    hide IsBest;
  }

  lemma ScoreIs(path: Path, now: u64)
    requires path.IsAlive(now)
    ensures path.QualityScore(now) ==
      Min(path.latency as int + (if path.isDirect then 0 else RELAY_PENALTY) + Max(now - path.lastReceive, 0) / 1000, U32_MAX)
  {
  }

  /** One millisecond more, and a fresh relay path listed first is preferred to an old direct one. */
  lemma RelayMayWin(relay: SocketAddr, direct: SocketAddr)
    ensures var now := PEER_PATH_EXPIRATION;
      var paths := [NewPath(relay, now).(isDirect := false), NewPath(direct, 1).(latency := DIRECT_LATENCY + 1)];
      HasDirect(paths, now, DIRECT_LATENCY + 1) && IsChosen(paths, now, Some(paths[0])) && !paths[0].isDirect
  {
    var now := PEER_PATH_EXPIRATION;
    var paths := [NewPath(relay, now).(isDirect := false), NewPath(direct, 1).(latency := DIRECT_LATENCY + 1)];
    assert paths[0].QualityScore(now) == 10_000 == paths[1].QualityScore(now);
    assert IsBest(paths, now, 0);
    assert paths[1].isDirect;
  }

  // --- The retry state ---

  datatype PeerState =
    | Unknown
    | HelloSent(sentAt: u64, packetId: u64, retryBackoff: u64)
    | Active(sharedSecret: seq<u8>, latency: u32, lastReceive: u64, lastSend: u64)
    | Stale(lastActive: u64, retryBackoff: u64, nextRetryAt: u64)

  function Clamp(n: nat, low: nat, high: nat): nat
    requires low <= high
  {
    Max(low, Min(n, high))
  }

  /** The state after sending a HELLO. */
  function HelloSentTo(state: PeerState, packetId: u64, now: u64): PeerState {
    match state
    case Active(_, _, _, _) => state.(lastSend := now)
    case HelloSent(_, _, backoff) =>
      HelloSent(now, packetId, Clamp(Min(2 * backoff, U64_MAX), PATH_HELLO_RATE_LIMIT, HELLO_RETRY_BACKOFF_MAX))
    case Stale(_, backoff, _) => HelloSent(now, packetId, Clamp(backoff, PATH_HELLO_RATE_LIMIT, HELLO_RETRY_BACKOFF_MAX))
    case Unknown => HelloSent(now, packetId, PATH_HELLO_RATE_LIMIT)
  }

  predicate HasBackoffInRange(state: PeerState) {
    state.HelloSent? || state.Stale? ==> PATH_HELLO_RATE_LIMIT <= state.retryBackoff <= HELLO_RETRY_BACKOFF_MAX
  }

  function AfterHellos(state: PeerState, sends: seq<(u64, u64)>): PeerState {
    if sends == [] then state
    else
      var last := sends[|sends| - 1];
      HelloSentTo(AfterHellos(state, sends[..|sends| - 1]), last.0, last.1)
  }

  /** A backoff doubled with every send, up to the limit. */
  function Doubled(backoff: nat, sends: nat): nat {
    Min(backoff * Pow2(sends), HELLO_RETRY_BACKOFF_MAX)
  }

  lemma DoubledNext(backoff: nat, sends: nat)
    requires backoff >= PATH_HELLO_RATE_LIMIT
    ensures Doubled(backoff, sends) >= PATH_HELLO_RATE_LIMIT
    ensures Doubled(backoff, sends + 1) == Min(2 * Doubled(backoff, sends), HELLO_RETRY_BACKOFF_MAX)
    ensures Doubled(backoff, 0) == Min(backoff, HELLO_RETRY_BACKOFF_MAX)
  {
    Product(backoff, Pow2(sends));
  }

  lemma Product(b: nat, p: nat)
    requires p >= 1
    ensures b * p >= b && b * (2 * p) == 2 * (b * p)
  {
    assert b * p == b + b * (p - 1);
  }

  /** Exponential backoff: unanswered HELLOs are retried after 1, 2, 4, 8, 16 and from then on 30 seconds. */
  lemma {:induction false} BackoffDoubles(sentAt: u64, packetId: u64, sends: seq<(u64, u64)>)
    ensures var state := AfterHellos(HelloSent(sentAt, packetId, PATH_HELLO_RATE_LIMIT), sends);
      && state.HelloSent?
      && state.retryBackoff == Doubled(1_000, |sends|)
      && (sends != [] ==> (state.packetId, state.sentAt) == sends[|sends| - 1])
  {
    if sends != [] {
      BackoffDoubles(sentAt, packetId, sends[..|sends| - 1]);
    }
  }

  /** A first contact starts with the shortest backoff, a reconnection with the one the stale session was left with. */
  lemma {:induction false} BackoffStartsOver(state: PeerState, sends: seq<(u64, u64)>)
    requires (state.Unknown? || state.Stale?) && HasBackoffInRange(state)
    requires sends != []
    ensures var after := AfterHellos(state, sends);
      && after.HelloSent?
      && after.retryBackoff == Doubled(if state.Stale? then state.retryBackoff else 1_000, |sends| - 1)
      && (after.packetId, after.sentAt) == sends[|sends| - 1]
  {
    hide Doubled;
    if |sends| == 1 {
      assert sends[..0] == [];
      DoubledNext(1_000, 0);
      DoubledNext(if state.Stale? then state.retryBackoff else 1_000, 0);
    } else {
      BackoffStartsOver(state, sends[..|sends| - 1]);
      DoubledNext(if state.Stale? then state.retryBackoff else 1_000, |sends| - 2);
    }
  }

  /** A HELLO never ends an active session. */
  lemma {:induction false} ActiveStays(state: PeerState, sends: seq<(u64, u64)>)
    requires state.Active? && sends != []
    ensures AfterHellos(state, sends) == state.(lastSend := sends[|sends| - 1].1)
  {
    if |sends| > 1 {
      ActiveStays(state, sends[..|sends| - 1]);
    } else {
      assert sends[..0] == [];
    }
  }

  /** Does a peer in this state need a HELLO: a ping, a retry or a reconnection? */
  predicate IsHelloDue(state: PeerState, now: u64) {
    match state
    case Active(_, _, _, lastSend) => SaturatingSub(now, lastSend) >= PEER_PING_PERIOD
    case HelloSent(sentAt, _, backoff) => SaturatingSub(now, sentAt) >= backoff
    case Stale(_, _, nextRetryAt) => now >= nextRetryAt
    case Unknown => false
  }

  /** HELLOs that wait until they are due: `(packet ID, time)` pairs. */
  predicate AreDue(state: PeerState, sends: seq<(u64, u64)>) {
    forall i :: 0 <= i < |sends| ==> IsHelloDue(AfterHellos(state, sends[..i]), sends[i].1)
  }

  /** The time send `i` has to wait for: the one before it, or the one that led to the present state. */
  function Before(sentAt: u64, sends: seq<(u64, u64)>, i: nat): u64
    requires i < |sends|
  {
    if i == 0 then sentAt else sends[i - 1].1
  }

  /** Retries are due exactly when each comes 1, 2, 4, 8, 16 and from then on 30 seconds after the one before it. */
  lemma RetriesSpread(sentAt: u64, packetId: u64, sends: seq<(u64, u64)>)
    ensures AreDue(HelloSent(sentAt, packetId, PATH_HELLO_RATE_LIMIT), sends) <==>
      forall i :: 0 <= i < |sends| ==> sends[i].1 >= Before(sentAt, sends, i) + Doubled(1_000, i)
  {
    var start := HelloSent(sentAt, packetId, PATH_HELLO_RATE_LIMIT);
    forall i | 0 <= i < |sends|
      ensures IsHelloDue(AfterHellos(start, sends[..i]), sends[i].1) <==>
        sends[i].1 >= Before(sentAt, sends, i) + Doubled(1_000, i)
    {
      BackoffDoubles(sentAt, packetId, sends[..i]);
      assert 1_000 * Pow2(i) > 0;
      if i > 0 {
        assert sends[..i][i - 1] == sends[i - 1];
      }
    }
  }

  /** In an active session they are due exactly when each comes a minute after the one before it. */
  lemma PingsSpread(state: PeerState, sends: seq<(u64, u64)>)
    requires state.Active?
    ensures AreDue(state, sends) <==>
      forall i :: 0 <= i < |sends| ==> sends[i].1 >= Before(state.lastSend, sends, i) + 60_000
  {
    forall i | 0 <= i < |sends|
      ensures IsHelloDue(AfterHellos(state, sends[..i]), sends[i].1) <==>
        sends[i].1 >= Before(state.lastSend, sends, i) + 60_000
    {
      if i > 0 {
        ActiveStays(state, sends[..i]);
      }
    }
  }

  // --- The list of paths ---

  predicate HasDistinctAddresses(paths: seq<Path>) {
    forall i, j :: 0 <= i < j < |paths| ==> paths[i].address != paths[j].address
  }

  predicate Knows(paths: seq<Path>, address: SocketAddr) {
    exists i :: 0 <= i < |paths| && paths[i].address == address
  }

  /** `after` is `before` with the path to `address` replaced by, or extended by, `path`. */
  predicate IsRefreshed(before: seq<Path>, after: seq<Path>, address: SocketAddr, isDirect: bool, now: u64) {
    if Knows(before, address) then
      && |after| == |before|
      && forall i :: 0 <= i < |before| ==>
        after[i] == if before[i].address == address then before[i].(lastReceive := now, isDirect := isDirect) else before[i]
    else
      after == before + [NewPath(address, now).(isDirect := isDirect)]
  }

  class Peer {
    const identity: IdentityWire.Identity
    const isRoot: bool
    var state: PeerState
    var paths: seq<Path>

    predicate Valid()
      reads this
    {
      HasDistinctAddresses(paths) && HasBackoffInRange(state)
    }

    constructor (identity: IdentityWire.Identity, isRoot: bool)
      ensures Valid() && this.identity == identity && this.isRoot == isRoot && state == Unknown && paths == []
    {
      this.identity := identity;
      this.isRoot := isRoot;
      state := Unknown;
      paths := [];
    }

    method OnHelloSent(packetId: u64, now: u64)
      requires Valid()
      modifies this`state
      ensures Valid() && state == HelloSentTo(old(state), packetId, now)
    {
      match state {
        case Active(_, _, _, _) =>
          state := state.(lastSend := now);
        case HelloSent(_, _, backoff) =>
          var doubled := Min(2 * backoff, U64_MAX);
          state := HelloSent(now, packetId, Clamp(doubled, PATH_HELLO_RATE_LIMIT, HELLO_RETRY_BACKOFF_MAX));
        case Stale(_, backoff, _) =>
          state := HelloSent(now, packetId, Clamp(backoff, PATH_HELLO_RATE_LIMIT, HELLO_RETRY_BACKOFF_MAX));
        case Unknown =>
          state := HelloSent(now, packetId, PATH_HELLO_RATE_LIMIT);
      }
    }

    /** A silent session is retried at once, and with the shortest backoff. */
    method MarkStale(now: u64)
      requires Valid()
      modifies this`state
      ensures Valid()
      ensures state == if old(state).Active? then Stale(old(state).lastReceive, PATH_HELLO_RATE_LIMIT, now) else old(state)
    {
      if state.Active? {
        state := Stale(state.lastReceive, PATH_HELLO_RATE_LIMIT, now);
      }
    }

    method EstablishSession(sharedSecret: seq<u8>, latency: u32, now: u64)
      requires Valid()
      modifies this`state
      ensures Valid() && state == Active(sharedSecret, latency, now, now)
    {
      state := Active(sharedSecret, latency, now, now);
    }

    method FindPath(address: SocketAddr) returns (i: nat)
      ensures i <= |paths|
      ensures i < |paths| ==> paths[i].address == address
      ensures i == |paths| <==> !Knows(paths, address)
    {
      i := 0;
      while i < |paths| && paths[i].address != address
        invariant 0 <= i <= |paths|
        invariant forall j :: 0 <= j < i ==> paths[j].address != address
      {
        i := i + 1;
      }
    }

    method AddPath(address: SocketAddr, isDirect: bool, now: u64)
      requires Valid()
      modifies this`paths
      ensures Valid() && IsRefreshed(old(paths), paths, address, isDirect, now)
    {
      var i := FindPath(address);
      if i < |paths| {
        paths := paths[i := paths[i].(lastReceive := now, isDirect := isDirect)];
      } else {
        var path := NewPath(address, now).(isDirect := isDirect);
        paths := paths + [path];
      }
    }

    method PromotePath(address: SocketAddr, now: u64)
      requires Valid()
      modifies this`paths
      ensures Valid() && IsRefreshed(old(paths), paths, address, true, now)
    {
      var i := FindPath(address);
      if i < |paths| {
        paths := paths[i := paths[i].(isDirect := true, lastReceive := now)];
      } else {
        AddPath(address, true, now);
      }
    }

    method BestPath(now: u64) returns (best: Option<Path>)
      ensures IsChosen(paths, now, best)
      ensures HasDirect(paths, now, DIRECT_LATENCY) ==> best.Some? && best.value.isDirect
    {
      best := None;
      ghost var at := 0;
      for i := 0 to |paths|
        invariant best.None? ==> forall j :: 0 <= j < i ==> !paths[j].IsAlive(now)
        invariant best.Some? ==> at < i && paths[at] == best.value && IsBest(paths[..i], now, at)
      {
        assert forall j :: 0 <= j < i ==> paths[..i + 1][j] == paths[..i][j];
        if paths[i].IsAlive(now) && (best.None? || paths[i].QualityScore(now) < best.value.QualityScore(now)) {
          best := Some(paths[i]);
          at := i;
        }
      }
      assert paths[..|paths|] == paths;
      if HasDirect(paths, now, DIRECT_LATENCY) {
        DirectBeatsRelay(paths, now, best);
      }
    }
  }
}
