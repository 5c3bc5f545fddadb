/** Asking network controllers for configurations, and how often. */
module ConfigRequests {
  import opened Wrappers
  import opened Bytes

  const CONFIG_REQUEST_INTERVAL := 30_000
  const UNKNOWN_DESTINATION_INTERVAL := 5_000
  const WHOIS_RETRY_INTERVAL := 10_000
  const COM_REFRESH_MARGIN_CAP := 60_000

  /** The timestamp qualifier of a certificate of membership. */
  datatype Lifetime = Lifetime(value: u64, maxDelta: u64)

  datatype Com = Com(lifetime: Option<Lifetime>)

  datatype Membership = Membership(networkId: u64, com: Option<Com>, pending: bool, lastRequest: u64)

  /** What the topology knows of a controller: no path at all, no session, no key, or all there is to send. */
  datatype Reach = NoRoute | NoSession | NoSecret | Ready

  datatype Action = Request(networkId: u64) | Whois(address: Address)

  function ControllerOf(networkId: u64): Address {
    BigEndian(networkId / 0x100_0000, 5)
  }

  /** A missing certificate, and one in the last part of its lifetime, is due to be fetched. */
  predicate IsRefreshDue(com: Option<Com>, now: u64) {
    match com
    case None => true
    case Some(Com(None)) => false
    case Some(Com(Some(q))) =>
      var margin := Max(1_000, Min(q.maxDelta / 4, COM_REFRESH_MARGIN_CAP));
      now >= Min(q.value + SaturatingSub(q.maxDelta, margin), U64_MAX)
  }

  /** A network's controller is named by the top forty bits of its ID. */
  lemma ControllerIsPrefix(networkId: u64)
    ensures FromBigEndian(ControllerOf(networkId)) == networkId / 0x100_0000
  {
    Pow256Values();
    assert Pow256(5) == 0x100_0000_0000;
    BigEndianExact(networkId / 0x100_0000, 5);
  }

  /**
   A certificate valid up to `maxDelta` past its timestamp is due before it ends: a quarter of that before, but not more
   than a minute and not less than a second, unless all of it is less than a second. The end of time counts as its end.
   */
  lemma RefreshTimes(q: Lifetime, now: u64)
    ensures IsRefreshDue(Some(Com(Some(q))), now) <==>
      if now == U64_MAX then true
      else if q.maxDelta >= 240_000 then now >= q.value + q.maxDelta - 60_000
      else if q.maxDelta >= 4_000 then now >= q.value + q.maxDelta - q.maxDelta / 4
      else if q.maxDelta >= 1_000 then now >= q.value + q.maxDelta - 1_000
      else now >= q.value
    ensures IsRefreshDue(None, now) && !IsRefreshDue(Some(Com(None)), now)
  {
  }

  predicate IsWanted(m: Membership, now: u64) {
    IsRefreshDue(m.com, now) || m.pending
  }

  predicate IsLimited(m: Membership, now: u64) {
    m.lastRequest != 0 && SaturatingSub(now, m.lastRequest) < CONFIG_REQUEST_INTERVAL
  }

  predicate IsDue(m: Membership, now: u64) {
    IsWanted(m, now) && !IsLimited(m, now)
  }

  // --- What happens to one membership ---

  datatype Event =
    | Queue(now: u64, reach: Address -> Reach)
    | Unknown(networkId: u64, now: u64)
    | Configured(networkId: u64, com: Option<Com>)
    | Credentials(networkId: u64, issued: Com)
    /** A network that is already joined is joined once more: its configuration is asked for anew. */
    | Rejoin(networkId: u64)

  predicate Sends(m: Membership, e: Event) {
    e.Queue? && IsDue(m, e.now) && e.reach(ControllerOf(m.networkId)) == Ready
  }

  function Flagged(m: Membership, now: u64): Membership {
    if IsWanted(m, now) then m.(pending := true) else m
  }

  function After(m: Membership, e: Event): Membership {
    match e
    case Queue(now, reach) =>
      if Sends(m, e) then Flagged(m, now).(lastRequest := now) else Flagged(m, now)
    case Unknown(networkId, now) =>
      if networkId != m.networkId then m
      else if SaturatingSub(now, m.lastRequest) >= UNKNOWN_DESTINATION_INTERVAL then m.(pending := true, lastRequest := 0)
      else m.(pending := true)
    case Configured(networkId, com) =>
      if networkId != m.networkId then m
      else m.(pending := false, com := if com.Some? then com else m.com)
    case Credentials(networkId, com) =>
      if networkId != m.networkId then m else m.(pending := false, lastRequest := 0, com := Some(com))
    case Rejoin(networkId) =>
      if networkId != m.networkId then m else m.(pending := true, lastRequest := 0)
  }

  function AfterAll(m: Membership, events: seq<Event>): (r: Membership)
    ensures r.networkId == m.networkId
  {
    if events == [] then m else After(AfterAll(m, events[..|events| - 1]), events[|events| - 1])
  }

  // --- The rate limit over whole runs ---

  predicate HasClock(e: Event) {
    e.Queue? || e.Unknown?
  }

  /** The clock starts after zero and never goes back. */
  predicate IsClocked(events: seq<Event>) {
    && (forall i :: 0 <= i < |events| && HasClock(events[i]) ==> events[i].now > 0)
    && (forall i, j :: 0 <= i < j < |events| && HasClock(events[i]) && HasClock(events[j]) ==> events[i].now <= events[j].now)
  }

  predicate SendsAt(m: Membership, events: seq<Event>, i: nat)
    requires i < |events|
  {
    Sends(AfterAll(m, events[..i]), events[i])
  }

  predicate MentionsUnknown(m: Membership, events: seq<Event>, i: nat, j: nat)
    requires i <= j <= |events|
  {
    exists k :: i <= k < j && events[k].Unknown? && events[k].networkId == m.networkId
  }

  /** A certificate arriving on its own and a repeated join make the time of the last request forgotten. */
  predicate Forgets(m: Membership, e: Event) {
    (e.Credentials? || e.Rejoin?) && e.networkId == m.networkId
  }

  predicate NeverForgets(m: Membership, events: seq<Event>, i: nat, j: nat)
    requires i <= j <= |events|
  {
    forall k :: i <= k < j ==> !Forgets(m, events[k])
  }

  lemma AfterOneMore(m: Membership, events: seq<Event>, k: nat)
    requires k < |events|
    ensures AfterAll(m, events[..k + 1]) == After(AfterAll(m, events[..k]), events[k])
  {
    assert events[..k + 1][..k] == events[..k];
  }

  /**
   What is remembered of a request sent by event `i`, before event `j` and without another request in between:
   its time, or that an unknown destination came up at least five seconds after it.
   */
  ghost predicate Remembers(m: Membership, events: seq<Event>, i: nat, j: nat)
    requires i < j <= |events| && HasClock(events[i])
  {
    var last := AfterAll(m, events[..j]).lastRequest;
    || last == events[i].now
    || (last == 0 && exists k :: i < k < j && IsReset(m, events, i, j, k))
  }

  ghost predicate IsReset(m: Membership, events: seq<Event>, i: nat, j: nat, k: int)
    requires i < j <= |events| && HasClock(events[i])
  {
    i < k < j && events[k].Unknown? && events[k].networkId == m.networkId
    && events[k].now >= events[i].now + UNKNOWN_DESTINATION_INTERVAL
  }

  lemma {:induction false} RequestRemembered(m: Membership, events: seq<Event>, i: nat, j: nat)
    requires i < j <= |events| && IsClocked(events) && SendsAt(m, events, i)
    requires NeverForgets(m, events, i, j)
    requires forall k :: i < k < j ==> !SendsAt(m, events, k)
    ensures Remembers(m, events, i, j)
    decreases j
  {
    AfterOneMore(m, events, j - 1);
    if j > i + 1 {
      RequestRemembered(m, events, i, j - 1);
      RememberedStep(m, events, i, j - 1);
    }
  }

  lemma RememberedStep(m: Membership, events: seq<Event>, i: nat, j: nat)
    requires i < j < |events| && IsClocked(events) && HasClock(events[i])
    requires Remembers(m, events, i, j) && !SendsAt(m, events, j)
    requires !Forgets(m, events[j])
    ensures Remembers(m, events, i, j + 1)
  {
    AfterOneMore(m, events, j);
    var was, now := AfterAll(m, events[..j]).lastRequest, AfterAll(m, events[..j + 1]).lastRequest;
    if was != events[i].now {
      var k :| i < k < j && IsReset(m, events, i, j, k);
      assert IsReset(m, events, i, j + 1, k);
    } else if now != was {
      assert IsReset(m, events, i, j + 1, j);
    }
  }

  /** Two requests of one network, nothing sent in between. */
  lemma ConsecutiveRequests(m: Membership, events: seq<Event>, i: nat, j: nat)
    requires i < j < |events| && IsClocked(events) && SendsAt(m, events, i) && SendsAt(m, events, j)
    requires NeverForgets(m, events, i, j)
    requires forall k :: i < k < j ==> !SendsAt(m, events, k)
    ensures events[j].now >= events[i].now + UNKNOWN_DESTINATION_INTERVAL
    ensures !MentionsUnknown(m, events, i, j) ==> events[j].now >= events[i].now + CONFIG_REQUEST_INTERVAL
  {
    RequestRemembered(m, events, i, j);
    var last := AfterAll(m, events[..j]).lastRequest;
    if last != events[i].now {
      var k :| i < k < j && IsReset(m, events, i, j, k);
    }
  }

  /**
   The rate limit: any two requests of one network are at least five seconds apart, and at least thirty unless an
   unknown destination comes up in between, as long as no certificate arrives on its own and the network is not joined
   once more.
   */
  lemma {:induction false} RequestsAreLimited(m: Membership, events: seq<Event>, i: nat, j: nat)
    requires i < j < |events| && IsClocked(events) && SendsAt(m, events, i) && SendsAt(m, events, j)
    requires NeverForgets(m, events, i, j)
    ensures events[j].now >= events[i].now + UNKNOWN_DESTINATION_INTERVAL
    ensures !MentionsUnknown(m, events, i, j) ==> events[j].now >= events[i].now + CONFIG_REQUEST_INTERVAL
    decreases j - i
  {
    if k :| i < k < j && SendsAt(m, events, k) {
      RequestsAreLimited(m, events, i, k);
      assert events[i].now <= events[k].now <= events[j].now;
      RequestsAreLimited(m, events, k, j);
    } else {
      ConsecutiveRequests(m, events, i, j);
    }
  }

  /** No unknown destination, configuration, certificate or repeated join comes up for the network. */
  predicate IsQuiet(m: Membership, e: Event) {
    e.Queue? || e.networkId != m.networkId
  }

  /** Between two requests nothing but rounds: the first one's time stays remembered, and an answer awaited. */
  lemma {:induction false} RequestPending(m: Membership, events: seq<Event>, i: nat, j: nat)
    requires i < j <= |events| && SendsAt(m, events, i)
    requires forall k :: i < k < j ==> IsQuiet(m, events[k]) && !SendsAt(m, events, k)
    ensures var after := AfterAll(m, events[..j]);
      after.pending && after.lastRequest == events[i].now
    decreases j
  {
    AfterOneMore(m, events, j - 1);
    if j > i + 1 {
      RequestPending(m, events, i, j - 1);
    }
  }

  /**
   An unanswered request is repeated, once its controller is ready, exactly from thirty seconds after it on; or at once
   if it was sent at time zero, which is not told from never.
   */
  lemma UnansweredIsRepeated(m: Membership, events: seq<Event>, i: nat, j: nat)
    requires i < j < |events| && SendsAt(m, events, i)
    requires forall k :: i < k < j ==> IsQuiet(m, events[k]) && !SendsAt(m, events, k)
    requires events[j].Queue? && events[j].reach(ControllerOf(m.networkId)) == Ready
    ensures SendsAt(m, events, j) <==> events[i].now == 0 || events[j].now >= events[i].now + CONFIG_REQUEST_INTERVAL
  {
    RequestPending(m, events, i, j);
  }

  /** The clock must be positive: a request sent at time zero is not remembered, and is sent again at once. */
  lemma TimeZeroIsForgotten(networkId: u64, reach: Address -> Reach)
    requires reach(ControllerOf(networkId)) == Ready
    ensures var m, e := Membership(networkId, None, false, 0), Queue(0, reach);
      Sends(m, e) && Sends(After(m, e), e)
  {
  }

  /** And so is one that a certificate follows: it may be sent again at once, if that certificate is to be refreshed. */
  lemma CredentialsForget(m: Membership, com: Com, now: u64, reach: Address -> Reach)
    requires reach(ControllerOf(m.networkId)) == Ready
    ensures Sends(After(m, Credentials(m.networkId, com)), Queue(now, reach)) <==> IsRefreshDue(Some(com), now)
  {
  }

  /** A repeated join asks again at once, whenever the last request was. */
  lemma RejoinForgets(m: Membership, now: u64, reach: Address -> Reach)
    ensures Sends(After(m, Rejoin(m.networkId)), Queue(now, reach)) <==> reach(ControllerOf(m.networkId)) == Ready
  {
  }

  /** A configuration answers the request: from then on only a certificate that is due is asked for, as the limit allows. */
  lemma ConfiguredIsSatisfied(m: Membership, com: Option<Com>, now: u64, reach: Address -> Reach)
    requires reach(ControllerOf(m.networkId)) == Ready
    ensures Sends(After(m, Configured(m.networkId, com)), Queue(now, reach)) <==>
      && IsRefreshDue(if com == None then m.com else com, now)
      && (m.lastRequest == 0 || now >= m.lastRequest + CONFIG_REQUEST_INTERVAL)
  {
  }

  /** What comes up for another network changes nothing. */
  lemma OthersStay(m: Membership, e: Event)
    requires !e.Queue? && e.networkId != m.networkId
    ensures After(m, e) == m
  {
  }

  /** An unknown destination is served by the next request round, if the last request is five seconds old. */
  lemma UnknownIsServed(m: Membership, t: u64, now: u64, reach: Address -> Reach)
    requires t <= now && reach(ControllerOf(m.networkId)) == Ready
    ensures Sends(After(m, Unknown(m.networkId, t)), Queue(now, reach)) <==>
      || m.lastRequest == 0
      || SaturatingSub(t, m.lastRequest) >= UNKNOWN_DESTINATION_INTERVAL
      || SaturatingSub(now, m.lastRequest) >= CONFIG_REQUEST_INTERVAL
  {
  }

  // --- One round over all memberships ---

  predicate IsWhoisDue(pendingWhois: map<Address, u64>, a: Address, now: u64) {
    a in pendingWhois ==> SaturatingSub(now, pendingWhois[a]) >= WHOIS_RETRY_INTERVAL
  }

  /** The actions of a round, and the WHOIS times after it. */
  function Queued(networks: seq<Membership>, pendingWhois: map<Address, u64>, e: Event): (r: (seq<Action>, map<Address, u64>))
    requires e.Queue?
  {
    if networks == [] then ([], pendingWhois)
    else
      var m := networks[|networks| - 1];
      var (actions, whois) := Queued(networks[..|networks| - 1], pendingWhois, e);
      QueuedNext(m, actions, whois, e)
  }

  function QueuedNext(m: Membership, actions: seq<Action>, whois: map<Address, u64>, e: Event): (r: (seq<Action>, map<Address, u64>))
    requires e.Queue?
  {
    if IsDue(m, e.now) then AskedNext(m.networkId, actions, whois, e) else (actions, whois)
  }

  function AskedNext(networkId: u64, actions: seq<Action>, whois: map<Address, u64>, e: Event): (r: (seq<Action>, map<Address, u64>))
    requires e.Queue?
  {
    var controller := ControllerOf(networkId);
    match e.reach(controller)
    case Ready => (actions + [Request(networkId)], whois)
    case NoSession =>
      if IsWhoisDue(whois, controller, e.now) then (actions + [Whois(controller)], whois[controller := e.now])
      else (actions, whois)
    case _ => (actions, whois)
  }

  /** A round requests exactly the due networks with a ready controller. */
  lemma {:induction false} RoundRequests(networks: seq<Membership>, pendingWhois: map<Address, u64>, e: Event, networkId: u64)
    requires e.Queue?
    ensures Request(networkId) in Queued(networks, pendingWhois, e).0 <==>
      exists i :: 0 <= i < |networks| && networks[i].networkId == networkId && Sends(networks[i], e)
  {
    if networks != [] {
      RoundRequests(networks[..|networks| - 1], pendingWhois, e, networkId);
    }
  }

  /** Is some due network's controller without a session? */
  predicate NeedsWhois(networks: seq<Membership>, e: Event, a: Address)
    requires e.Queue?
  {
    exists i :: 0 <= i < |networks| && ControllerOf(networks[i].networkId) == a && IsDue(networks[i], e.now) && e.reach(a) == NoSession
  }

  predicate IsOnce(actions: seq<Action>, x: Action) {
    forall i, j :: 0 <= i < j < |actions| && actions[i] == x ==> actions[j] != x
  }

  /** A controller's identity is asked for once a round, and no sooner than ten seconds after the last time. */
  lemma {:induction false} RoundWhois(networks: seq<Membership>, pendingWhois: map<Address, u64>, e: Event, a: Address)
    requires e.Queue?
    ensures var (actions, whois) := Queued(networks, pendingWhois, e);
      && (Whois(a) in actions <==> NeedsWhois(networks, e, a) && IsWhoisDue(pendingWhois, a, e.now))
      && IsOnce(actions, Whois(a))
      && (if Whois(a) in actions then a in whois && whois[a] == e.now
          else (a in whois <==> a in pendingWhois) && (a in whois ==> whois[a] == pendingWhois[a]))
  {
    if networks != [] {
      var front, m := networks[..|networks| - 1], networks[|networks| - 1];
      RoundWhois(front, pendingWhois, e, a);
      NeedsWhoisNext(front, m, e, a);
      assert networks == front + [m];
    }
  }

  lemma NeedsWhoisNext(front: seq<Membership>, m: Membership, e: Event, a: Address)
    requires e.Queue?
    ensures NeedsWhois(front + [m], e, a) <==>
      NeedsWhois(front, e, a) || (ControllerOf(m.networkId) == a && IsDue(m, e.now) && e.reach(a) == NoSession)
  {
    var networks := front + [m];
    assert networks[|front|] == m;
    assert forall i :: 0 <= i < |front| ==> networks[i] == front[i];
  }

  /** Each action is for the network at the position given for it, one after the other. */
  ghost predicate AreActionsFor(actions: seq<Action>, networks: seq<Membership>, at: seq<nat>) {
    && |at| == |actions|
    && (forall k :: 0 <= k < |at| ==>
      && at[k] < |networks|
      && (actions[k] == Request(networks[at[k]].networkId) || actions[k] == Whois(ControllerOf(networks[at[k]].networkId))))
    && (forall j, k :: 0 <= j < k < |at| ==> at[j] < at[k])
  }

  /** A round asks in the order of the memberships, at most once for each. */
  lemma {:induction false} RoundInOrder(networks: seq<Membership>, pendingWhois: map<Address, u64>, e: Event)
    requires e.Queue?
    ensures exists at: seq<nat> :: AreActionsFor(Queued(networks, pendingWhois, e).0, networks, at)
  {
    hide ControllerOf;
    if networks == [] {
      var nowhere: seq<nat> := [];
      assert AreActionsFor(Queued(networks, pendingWhois, e).0, networks, nowhere);
    } else {
      var n := |networks| - 1;
      RoundInOrder(networks[..n], pendingWhois, e);
      var front := Queued(networks[..n], pendingWhois, e).0;
      var at: seq<nat> :| AreActionsFor(front, networks[..n], at);
      assert forall k :: 0 <= k < |at| ==> networks[..n][at[k]] == networks[at[k]];
      assert AreActionsFor(front, networks, at);
      var all := Queued(networks, pendingWhois, e).0;
      if all != front {
        assert AreActionsFor(all, networks, at + [n]);
      }
    }
  }

  // --- The two loops of a round ---

  function DueIds(networks: seq<Membership>, now: u64): seq<u64> {
    if networks == [] then []
    else
      var m := networks[|networks| - 1];
      DueIds(networks[..|networks| - 1], now) + if IsDue(m, now) then [m.networkId] else []
  }

  lemma {:induction false} DueIdsAreDue(networks: seq<Membership>, now: u64)
    requires HasDistinctIds(networks)
    ensures forall i :: 0 <= i < |networks| ==> (networks[i].networkId in DueIds(networks, now) <==> IsDue(networks[i], now))
    ensures forall id :: id in DueIds(networks, now) ==> exists i :: 0 <= i < |networks| && networks[i].networkId == id
  {
    if networks != [] {
      var n := |networks| - 1;
      DueIdsAreDue(networks[..n], now);
      forall i | 0 <= i < |networks|
        ensures networks[i].networkId in DueIds(networks, now) <==> IsDue(networks[i], now)
      {
        if i < n {
          assert networks[..n][i] == networks[i];
        }
      }
    }
  }

  /** The actions for a list of due networks. */
  function Asked(due: seq<u64>, pendingWhois: map<Address, u64>, e: Event): (r: (seq<Action>, map<Address, u64>))
    requires e.Queue?
  {
    if due == [] then ([], pendingWhois)
    else
      var (actions, whois) := Asked(due[..|due| - 1], pendingWhois, e);
      AskedNext(due[|due| - 1], actions, whois, e)
  }

  lemma {:induction false} AskedIsQueued(networks: seq<Membership>, pendingWhois: map<Address, u64>, e: Event)
    requires e.Queue?
    ensures Asked(DueIds(networks, e.now), pendingWhois, e) == Queued(networks, pendingWhois, e)
  {
    if networks != [] {
      var n := |networks| - 1;
      AskedIsQueued(networks[..n], pendingWhois, e);
      var front := DueIds(networks[..n], e.now);
      assert (front + [networks[n].networkId])[..|front|] == front;
      assert front + [] == front;
    }
  }

  /** The memberships with the time of the request on those that were sent one. */
  predicate IsStamped(before: seq<Membership>, after: seq<Membership>, asked: seq<u64>, e: Event)
    requires e.Queue?
  {
    && |after| == |before|
    && forall i :: 0 <= i < |before| ==>
      after[i] ==
        if before[i].networkId in asked && e.reach(ControllerOf(before[i].networkId)) == Ready
        then before[i].(lastRequest := e.now) else before[i]
  }

  lemma AskedStep(due: seq<u64>, k: nat, pendingWhois: map<Address, u64>, e: Event)
    requires e.Queue? && k < |due|
    ensures var (actions, whois) := Asked(due[..k], pendingWhois, e);
      Asked(due[..k + 1], pendingWhois, e) == AskedNext(due[k], actions, whois, e)
  {
    assert due[..k + 1][..k] == due[..k];
  }

  predicate HasDistinctIds(networks: seq<Membership>) {
    forall i, j :: 0 <= i < j < |networks| ==> networks[i].networkId != networks[j].networkId
  }

  predicate Finds(networks: seq<Membership>, networkId: u64, i: nat) {
    && i <= |networks|
    && (i < |networks| ==> networks[i].networkId == networkId)
    && (forall j :: 0 <= j < i ==> networks[j].networkId != networkId)
  }

  lemma StampedStep(before: seq<Membership>, now: seq<Membership>, due: seq<u64>, k: nat, e: Event)
    requires e.Queue? && k < |due| && HasDistinctIds(now) && IsStamped(before, now, due[..k], e)
    ensures e.reach(ControllerOf(due[k])) != Ready ==> IsStamped(before, now, due[..k + 1], e)
    ensures e.reach(ControllerOf(due[k])) == Ready ==>
      forall i: nat :: Finds(now, due[k], i) ==>
        IsStamped(before, if i < |now| then now[i := now[i].(lastRequest := e.now)] else now, due[..k + 1], e)
  {
    hide ControllerOf;
    assert due[..k + 1] == due[..k] + [due[k]];
    forall i: nat | e.reach(ControllerOf(due[k])) == Ready && Finds(now, due[k], i)
      ensures IsStamped(before, if i < |now| then now[i := now[i].(lastRequest := e.now)] else now, due[..k + 1], e)
    {
    }
  }

  class ConfigRequester {
    var networks: seq<Membership>
    var pendingWhois: map<Address, u64>

    predicate Valid()
      reads this
    {
      HasDistinctIds(networks)
    }

    constructor ()
      ensures Valid() && networks == [] && pendingWhois == map[]
    {
      networks, pendingWhois := [], map[];
    }

    method JoinNetwork(m: Membership)
      requires Valid()
      modifies this`networks
      ensures Valid()
      ensures networks == if exists i :: 0 <= i < |old(networks)| && old(networks)[i].networkId == m.networkId
        then old(networks) else old(networks) + [m]
    {
      var i := FindNetwork(m.networkId);
      if i == |networks| {
        networks := networks + [m];
      }
    }

    method FindNetwork(networkId: u64) returns (i: nat)
      ensures Finds(networks, networkId, i)
    {
      i := 0;
      while i < |networks| && networks[i].networkId != networkId
        invariant 0 <= i <= |networks|
        invariant forall j :: 0 <= j < i ==> networks[j].networkId != networkId
      {
        i := i + 1;
      }
    }

    /** Every membership is changed as by the event. */
    twostate predicate AllAfter(e: Event)
      reads this
    {
      |networks| == |old(networks)| && forall i :: 0 <= i < |networks| ==> networks[i] == After(old(networks)[i], e)
    }

    /** Flag the wanted networks and collect the due ones; then ask each one's controller. */
    method QueueConfigRequests(now: u64, reach: Address -> Reach) returns (actions: seq<Action>)
      requires Valid()
      modifies this
      ensures Valid() && AllAfter(Queue(now, reach))
      ensures (actions, pendingWhois) == Queued(old(networks), old(pendingWhois), Queue(now, reach))
    {
      ghost var before, whoisBefore, e := networks, pendingWhois, Queue(now, reach);
      var due := FlagWanted(now);
      ghost var flagged := networks;
      actions := [];
      for k := 0 to |due|
        invariant Valid()
        invariant IsStamped(flagged, networks, due[..k], e)
        invariant (actions, pendingWhois) == Asked(due[..k], whoisBefore, e)
      {
        hide ControllerOf, IsStamped, Asked;
        var controller := ControllerOf(due[k]);
        StampedStep(flagged, networks, due, k, e);
        AskedStep(due, k, whoisBefore, e);
        assert due[..k + 1][..k] == due[..k];
        match reach(controller) {
          case NoRoute =>
          case NoSession =>
            if controller !in pendingWhois || SaturatingSub(now, pendingWhois[controller]) >= WHOIS_RETRY_INTERVAL {
              pendingWhois := pendingWhois[controller := now];
              actions := actions + [Whois(controller)];
            }
          case NoSecret =>
          case Ready =>
            actions := actions + [Request(due[k])];
            var i := FindNetwork(due[k]);
            if i < |networks| {
              networks := networks[i := networks[i].(lastRequest := now)];
            }
        }
      }
      assert due[..|due|] == due;
      AskedIsQueued(before, whoisBefore, e);
      DueIdsAreDue(before, now);
    }

    method FlagWanted(now: u64) returns (due: seq<u64>)
      requires Valid()
      modifies this`networks
      ensures Valid() && due == DueIds(old(networks), now)
      ensures |networks| == |old(networks)|
      ensures forall i :: 0 <= i < |networks| ==> networks[i] == Flagged(old(networks)[i], now)
    {
      due := [];
      for i := 0 to |networks|
        invariant |networks| == |old(networks)|
        invariant forall j :: 0 <= j < |networks| ==>
          networks[j] == if j < i then Flagged(old(networks)[j], now) else old(networks)[j]
        invariant due == DueIds(old(networks)[..i], now)
      {
        assert old(networks)[..i + 1][..i] == old(networks)[..i];
        var m := networks[i];
        if IsRefreshDue(m.com, now) || m.pending {
          networks := networks[i := m.(pending := true)];
          if !(m.lastRequest != 0 && SaturatingSub(now, m.lastRequest) < CONFIG_REQUEST_INTERVAL) {
            due := due + [m.networkId];
          }
        }
      }
      assert old(networks)[..|networks|] == old(networks);
    }

    method NoteUnknownDestination(networkId: u64, now: u64)
      requires Valid()
      modifies this`networks
      ensures Valid() && AllAfter(Unknown(networkId, now))
    {
      var i := FindNetwork(networkId);
      if i < |networks| {
        var last := networks[i].lastRequest;
        networks := networks[i := networks[i].(pending := true)];
        if SaturatingSub(now, last) >= UNKNOWN_DESTINATION_INTERVAL {
          networks := networks[i := networks[i].(lastRequest := 0)];
        }
      }
    }

    method ConfigReceived(networkId: u64, com: Option<Com>)
      requires Valid()
      modifies this`networks
      ensures Valid() && AllAfter(Configured(networkId, com))
    {
      var i := FindNetwork(networkId);
      if i < |networks| {
        if com.Some? {
          networks := networks[i := networks[i].(com := com)];
        }
        networks := networks[i := networks[i].(pending := false)];
      }
    }

    /** Joining by request: a network joined already is asked about anew. */
    method JoinByRequest(m: Membership)
      requires Valid()
      modifies this`networks
      ensures Valid()
      ensures if exists i :: 0 <= i < |old(networks)| && old(networks)[i].networkId == m.networkId
        then AllAfter(Rejoin(m.networkId)) else networks == old(networks) + [m]
    {
      var i := FindNetwork(m.networkId);
      if i < |networks| {
        networks := networks[i := networks[i].(pending := true, lastRequest := 0)];
      } else {
        JoinNetwork(m);
      }
    }

    method CredentialsReceived(networkId: u64, com: Com)
      requires Valid()
      modifies this`networks
      ensures Valid() && AllAfter(Credentials(networkId, com))
    {
      var i := FindNetwork(networkId);
      if i < |networks| {
        networks := networks[i := networks[i].(pending := false, lastRequest := 0, com := Some(com))];
      }
    }
  }
}
