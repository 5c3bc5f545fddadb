/**
 NETWORK_CONFIG dictionaries sent in chunks: the sender's chunker and the receiver's assembler.
 */
module NetworkConfig {
  import opened Wrappers
  import opened Bytes

  const MAX_NETWORK_CONFIG_SIZE := 1_048_576
  const CHUNK_BYTES := 1024

  datatype ConfigPayload = ConfigPayload(
    networkId: u64,
    dictData: seq<u8>,
    flags: Option<u8>,
    configUpdateId: Option<u64>,
    totalLength: Option<u32>,
    chunkIndex: Option<u32>,
    signatureType: Option<u8>,
    signature: Option<seq<u8>>)
  {
    predicate IsWhole() {
      configUpdateId.None? && totalLength.None? && chunkIndex.None?
    }

    predicate IsChunk() {
      configUpdateId.Some? && totalLength.Some? && chunkIndex.Some?
    }

    /** A chunk inside a dictionary of acceptable size. */
    predicate IsAcceptable() {
      && IsChunk()
      && 1 <= totalLength.value <= MAX_NETWORK_CONFIG_SIZE
      && chunkIndex.value + |dictData| <= totalLength.value
    }
  }

  // --- What has been written ---

  datatype Write = Write(offset: nat, bytes: seq<u8>) {
    predicate Covers(i: nat) {
      offset <= i < offset + |bytes|
    }
  }

  /** The byte the last write to position `i` put there. */
  function LastWritten(writes: seq<Write>, i: nat): (b: Option<u8>)
  {
    if writes == [] then None
    else
      var w := writes[|writes| - 1];
      if w.Covers(i) then Some(w.bytes[i - w.offset]) else LastWritten(writes[..|writes| - 1], i)
  }

  predicate IsComplete(total: nat, writes: seq<Write>) {
    forall i: nat :: i < total ==> LastWritten(writes, i).Some?
  }

  // --- One assembly ---

  function CountTrue(flags: seq<bool>): (n: nat)
    ensures n <= |flags|
  {
    if flags == [] then 0 else CountTrue(flags[..|flags| - 1]) + if flags[|flags| - 1] then 1 else 0
  }

  lemma {:induction false} CountTrueSet(flags: seq<bool>, i: nat)
    requires i < |flags|
    ensures CountTrue(flags[i := true]) == CountTrue(flags) + if flags[i] then 0 else 1
  {
    var last := |flags| - 1;
    if i == last {
      assert flags[i := true][..last] == flags[..last];
    } else {
      assert flags[i := true][..last] == flags[..last][i := true];
      CountTrueSet(flags[..last], i);
    }
  }

  lemma {:induction false} CountTrueAll(flags: seq<bool>)
    ensures CountTrue(flags) == |flags| <==> forall i :: 0 <= i < |flags| ==> flags[i]
  {
    if flags != [] {
      var front := flags[..|flags| - 1];
      CountTrueAll(front);
      assert flags == front + [flags[|flags| - 1]];
    }
  }

  lemma {:induction false} CountTrueNone(flags: seq<bool>)
    requires forall i :: 0 <= i < |flags| ==> !flags[i]
    ensures CountTrue(flags) == 0
  {
    if flags != [] {
      CountTrueNone(flags[..|flags| - 1]);
    }
  }

  /** The value of a pending assembly. */
  datatype Assembly = Assembly(configUpdateId: u64, data: seq<u8>, received: seq<bool>, receivedBytes: nat)

  function Fresh(configUpdateId: u64, total: nat): Assembly {
    Assembly(configUpdateId, seq(total, _ => 0), seq(total, _ => false), 0)
  }

  predicate IsWellFormed(a: Assembly) {
    |a.data| == |a.received| && a.receivedBytes == CountTrue(a.received)
  }

  /** `after` is `before` with the bytes of the chunk put in place and flagged. */
  predicate IsIngested(before: Assembly, offset: nat, chunk: seq<u8>, after: Assembly) {
    && after.configUpdateId == before.configUpdateId
    && |after.data| == |before.data| == |after.received| == |before.received|
    && (forall i :: 0 <= i < |before.data| ==>
      if Write(offset, chunk).Covers(i) then after.received[i] && after.data[i] == chunk[i - offset]
      else after.received[i] == before.received[i] && after.data[i] == before.data[i])
    && after.receivedBytes == CountTrue(after.received)
  }

  function Ingested(before: Assembly, offset: nat, chunk: seq<u8>): (after: Assembly)
    requires |before.data| == |before.received|
    ensures IsIngested(before, offset, chunk, after)
  {
    var w := Write(offset, chunk);
    var received := seq(|before.received|, i requires 0 <= i < |before.received| => w.Covers(i) || before.received[i]);
    Assembly(
      before.configUpdateId,
      seq(|before.data|, i requires 0 <= i < |before.data| => if w.Covers(i) then chunk[i - offset] else before.data[i]),
      received,
      CountTrue(received))
  }

  lemma IngestedIsUnique(before: Assembly, offset: nat, chunk: seq<u8>, after: Assembly)
    requires IsIngested(before, offset, chunk, after)
    ensures after == Ingested(before, offset, chunk)
  {
    var other := Ingested(before, offset, chunk);
    assert after.data == other.data;
    assert after.received == other.received;
  }

  class PendingNetworkConfig {
    const networkId: u64
    const configUpdateId: u64
    const totalLength: nat
    const data: array<u8>
    const received: array<bool>
    var receivedBytes: nat

    ghost function Value(): Assembly
      reads this, data, received
    {
      Assembly(configUpdateId, data[..], received[..], receivedBytes)
    }

    ghost predicate Valid()
      reads this, data, received
    {
      data.Length == received.Length == totalLength && IsWellFormed(Value())
    }

    constructor (networkId: u64, configUpdateId: u64, totalLength: nat)
      ensures Valid() && fresh(data) && fresh(received)
      ensures this.networkId == networkId && this.configUpdateId == configUpdateId && this.totalLength == totalLength
      ensures Value() == Fresh(configUpdateId, totalLength)
    {
      this.networkId, this.configUpdateId, this.totalLength := networkId, configUpdateId, totalLength;
      this.data := new u8[totalLength](_ => 0);
      this.received := new bool[totalLength](_ => false);
      this.receivedBytes := 0;
      new;
      CountTrueNone(this.received[..]);
      assert data[..] == Fresh(configUpdateId, totalLength).data;
      assert received[..] == Fresh(configUpdateId, totalLength).received;
    }

    method Ingest(chunkIndex: nat, chunk: seq<u8>)
      requires Valid() && chunkIndex + |chunk| <= totalLength
      modifies this`receivedBytes, data, received
      ensures Valid()
      ensures Value() == Ingested(old(Value()), chunkIndex, chunk)
    {
      for offset := 0 to |chunk|
        invariant Valid()
        invariant IsIngested(old(Value()), chunkIndex, chunk[..offset], Value())
      {
        var index := chunkIndex + offset;
        CountTrueSet(received[..], index);
        ghost var flags := received[..];
        data[index] := chunk[offset];
        if !received[index] {
          received[index] := true;
          receivedBytes := receivedBytes + 1;
        }
        assert received[..] == flags[index := true];
      }
      assert chunk[..|chunk|] == chunk;
      IngestedIsUnique(old(Value()), chunkIndex, chunk, Value());
    }

    predicate IsDone()
      reads this
    {
      receivedBytes == totalLength
    }
  }

  // --- All assemblies: at most one per network ---

  type Assemblies = map<u64, Assembly>

  /** The assembly a chunk goes into: the network's own, unless the chunk announces another one. */
  function AssemblyFor(assemblies: Assemblies, networkId: u64, configUpdateId: u64, total: nat): Assembly {
    if && networkId in assemblies
       && assemblies[networkId].configUpdateId == configUpdateId
       && |assemblies[networkId].data| == total
    then assemblies[networkId]
    else Fresh(configUpdateId, total)
  }

  /** The dictionary handed on when its last byte has arrived. */
  function Assembled(nc: ConfigPayload, dictData: seq<u8>): ConfigPayload {
    nc.(dictData := dictData, chunkIndex := Some(0), signature := None)
  }

  predicate AreWellFormed(assemblies: Assemblies) {
    forall n :: n in assemblies ==> IsWellFormed(assemblies[n])
  }

  function AssembleResult(assemblies: Assemblies, nc: ConfigPayload): (r: (Assemblies, Option<ConfigPayload>))
    requires AreWellFormed(assemblies)
  {
    if nc.IsWhole() then
      (assemblies, Some(nc))
    else if !nc.IsAcceptable() then
      (assemblies, None)
    else
      var before := AssemblyFor(assemblies, nc.networkId, nc.configUpdateId.value, nc.totalLength.value);
      var after := Ingested(before, nc.chunkIndex.value, nc.dictData);
      if after.receivedBytes == |after.data| then
        (assemblies - {nc.networkId}, Some(Assembled(nc, after.data)))
      else
        (assemblies[nc.networkId := after], None)
  }

  /** Element `i` taken out, the last element filling its place. */
  function SwapRemoved<T>(s: seq<T>, i: nat): seq<T>
    requires i < |s|
  {
    s[i := s[|s| - 1]][..|s| - 1]
  }

  lemma SwapRemovedElements<T>(s: seq<T>, i: nat)
    requires i < |s| && HasNoDuplicates(s)
    ensures HasNoDuplicates(SwapRemoved(s, i))
    ensures forall x :: x in SwapRemoved(s, i) <==> x in s && x != s[i]
  {
    var r := SwapRemoved(s, i);
    forall x | x in s && x != s[i] ensures x in r {
      var k :| 0 <= k < |s| && s[k] == x;
      assert r[if k == |s| - 1 then i else k] == x;
    }
  }

  class ConfigAssembler {
    var pending: seq<PendingNetworkConfig>
    ghost var assemblies: Assemblies

    static ghost function Objects(list: seq<PendingNetworkConfig>): set<object> {
      (set p: PendingNetworkConfig | p in list :: p as object)
      + (set p: PendingNetworkConfig | p in list :: p.data as object)
      + (set p: PendingNetworkConfig | p in list :: p.received as object)
    }

    /** The list has one entry per network, each holding the network's assembly, and shares no storage. */
    static ghost predicate Represents(list: seq<PendingNetworkConfig>, assemblies: Assemblies)
      reads Objects(list)
    {
      && IsSeparate(list, assemblies.Keys)
      && (forall p :: p in list ==> p.Valid() && assemblies[p.networkId] == p.Value())
    }

    /** One entry per network, none sharing storage with another. */
    static ghost predicate IsSeparate(list: seq<PendingNetworkConfig>, networks: set<u64>) {
      && HasNoDuplicates(list)
      && (forall p :: p in list ==> p.networkId in networks)
      && (forall n :: n in networks ==> exists p :: p in list && p.networkId == n)
      && (forall p, q :: p in list && q in list && p != q ==>
        p.networkId != q.networkId && p.data != q.data && p.received != q.received)
    }

    ghost function Footprint(): set<object>
      reads this
    {
      Objects(pending) + {this}
    }

    ghost predicate Valid()
      reads this, Footprint()
    {
      Represents(pending, assemblies)
    }

    lemma ValidIsWellFormed()
      requires Valid()
      ensures AreWellFormed(assemblies)
    {
    }

    lemma EntryHoldsAssembly(p: PendingNetworkConfig)
      requires Valid() && p in pending
      ensures p.networkId in assemblies && assemblies[p.networkId] == p.Value()
      ensures p.configUpdateId == assemblies[p.networkId].configUpdateId
      ensures p.totalLength == |assemblies[p.networkId].data|
    {
    }

    lemma NoEntryNoAssembly(networkId: u64, configUpdateId: u64)
      requires Valid()
      requires forall p :: p in pending ==> p.networkId != networkId || p.configUpdateId != configUpdateId
      ensures networkId in assemblies ==> assemblies[networkId].configUpdateId != configUpdateId
    {
    }

    static lemma ObjectsOfPart(part: seq<PendingNetworkConfig>, list: seq<PendingNetworkConfig>)
      requires forall p :: p in part ==> p in list
      ensures Objects(part) <= Objects(list)
    {
    }

    static lemma ObjectsOfLonger(list: seq<PendingNetworkConfig>, p: PendingNetworkConfig)
      ensures Objects(list + [p]) <= Objects(list) + {p, p.data, p.received}
    {
    }

    static lemma RepresentsWithout(list: seq<PendingNetworkConfig>, assemblies: Assemblies,
                                   rest: seq<PendingNetworkConfig>, networkId: u64)
      requires Represents(list, assemblies)
      requires HasNoDuplicates(rest)
      requires forall p :: p in rest <==> p in list && p.networkId != networkId
      ensures Represents(rest, assemblies - {networkId})
    {
      forall n | n in assemblies - {networkId} ensures exists p :: p in rest && p.networkId == n {
        var p :| p in list && p.networkId == n;
        assert p in rest;
      }
    }

    constructor ()
      ensures Valid() && assemblies == map[] && pending == []
    {
      pending := [];
      assemblies := map[];
    }

    /** From now on `list` is what is pending. */
    method Keep(list: seq<PendingNetworkConfig>, ghost kept: Assemblies)
      requires Represents(list, kept)
      modifies this
      ensures Valid() && pending == list && assemblies == kept
    {
      pending, assemblies := list, kept;
    }

    /** The network's entry for this update, if there is one. */
    method FindEntry(networkId: u64, configUpdateId: u64) returns (r: Option<nat>)
      requires Valid()
      ensures Valid()
      ensures r.Some? ==>
        && r.value < |pending|
        && pending[r.value].networkId == networkId && pending[r.value].configUpdateId == configUpdateId
      ensures r.None? ==> forall p :: p in pending ==> p.networkId != networkId || p.configUpdateId != configUpdateId
    {
      for i := 0 to |pending|
        invariant forall j :: 0 <= j < i ==>
          pending[j].networkId != networkId || pending[j].configUpdateId != configUpdateId
      {
        if pending[i].networkId == networkId && pending[i].configUpdateId == configUpdateId {
          return Some(i);
        }
      }
      return None;
    }

    method SwapRemove(index: nat) returns (p: PendingNetworkConfig)
      requires Valid() && index < |pending|
      modifies this
      ensures Valid()
      ensures p == old(pending[index])
      ensures assemblies == old(assemblies) - {p.networkId}
      ensures Objects(pending) <= Objects(old(pending))
    {
      p := pending[index];
      var rest := SwapRemoved(pending, index);
      ghost var others := assemblies - {p.networkId};
      SwapRemovedRepresents(pending, assemblies, index);
      ObjectsOfPart(rest, pending);
      hide Represents, SwapRemoved;
      Keep(rest, others);
    }

    static lemma SwapRemovedRepresents(list: seq<PendingNetworkConfig>, assemblies: Assemblies, index: nat)
      requires index < |list| && Represents(list, assemblies)
      ensures forall p :: p in SwapRemoved(list, index) ==> p in list
      ensures Represents(SwapRemoved(list, index), assemblies - {list[index].networkId})
    {
      SwapRemovedElements(list, index);
      RepresentsWithout(list, assemblies, SwapRemoved(list, index), list[index].networkId);
    }

    /** Keep the entries of other networks. */
    method RetainOthers(networkId: u64)
      requires Valid()
      modifies this
      ensures Valid()
      ensures assemblies == old(assemblies) - {networkId}
      ensures Objects(pending) <= Objects(old(pending))
    {
      var kept := EntriesOfOthers(pending, networkId);
      ghost var others := assemblies - {networkId};
      RepresentsWithout(pending, assemblies, kept, networkId);
      ObjectsOfPart(kept, pending);
      hide Represents;
      Keep(kept, others);
    }

    static method EntriesOfOthers(list: seq<PendingNetworkConfig>, networkId: u64)
      returns (kept: seq<PendingNetworkConfig>)
      requires HasNoDuplicates(list)
      ensures HasNoDuplicates(kept)
      ensures forall p :: p in kept <==> p in list && p.networkId != networkId
    {
      kept := [];
      for i := 0 to |list|
        invariant HasNoDuplicates(kept)
        invariant forall p :: p in kept <==> p in list[..i] && p.networkId != networkId
      {
        assert list[..i + 1] == list[..i] + [list[i]];
        if list[i].networkId != networkId {
          kept := kept + [list[i]];
        }
      }
      assert list[..|list|] == list;
    }

    /** Start over for the network, as the last entry. */
    method PushFresh(networkId: u64, configUpdateId: u64, totalLength: nat) returns (p: PendingNetworkConfig)
      requires Valid() && networkId !in assemblies
      modifies this
      ensures Valid()
      ensures assemblies == old(assemblies)[networkId := Fresh(configUpdateId, totalLength)]
      ensures pending == old(pending) + [p] && Objects(pending) <= Objects(old(pending)) + {p, p.data, p.received}
      ensures fresh(p) && fresh(p.data) && fresh(p.received)
      ensures p.networkId == networkId && p.configUpdateId == configUpdateId && p.totalLength == totalLength
    {
      p := new PendingNetworkConfig(networkId, configUpdateId, totalLength);
      var longer := pending + [p];
      ghost var more := assemblies[networkId := p.Value()];
      RepresentsWith(pending, assemblies, p);
      ObjectsOfLonger(pending, p);
      hide Represents;
      Keep(longer, more);
    }

    static lemma RepresentsWith(list: seq<PendingNetworkConfig>, assemblies: Assemblies, p: PendingNetworkConfig)
      requires Represents(list, assemblies)
      requires p.Valid() && p.networkId !in assemblies
      requires forall q :: q in list ==> q != p && q.data != p.data && q.received != p.received
      ensures Represents(list + [p], assemblies[p.networkId := p.Value()])
    {
      ghost var more := assemblies[p.networkId := p.Value()];
      forall n | n in more ensures exists q :: q in list + [p] && q.networkId == n {
        if n in assemblies {
          var q :| q in list && q.networkId == n;
          assert q in list + [p];
        } else {
          assert p in list + [p];
        }
      }
    }

    /** Find or start the assembly a chunk goes into. */
    method EntryFor(networkId: u64, configUpdateId: u64, totalLength: nat) returns (p: PendingNetworkConfig, index: nat)
      requires Valid()
      modifies this
      ensures Valid() && fresh(Footprint() - old(Footprint()))
      ensures index < |pending| && pending[index] == p && p.networkId == networkId && p.totalLength == totalLength
      ensures assemblies == old(assemblies)[networkId := AssemblyFor(old(assemblies), networkId, configUpdateId, totalLength)]
    {
      hide Represents, Fresh;
      var found := FindEntry(networkId, configUpdateId);
      if found.Some? && pending[found.value].totalLength == totalLength {
        p, index := pending[found.value], found.value;
        EntryHoldsAssembly(p);
        UpdateSame(assemblies, networkId);
      } else {
        if found.Some? {
          EntryHoldsAssembly(pending[found.value]);
        } else {
          NoEntryNoAssembly(networkId, configUpdateId);
        }
        p, index := Restart(found, networkId, configUpdateId, totalLength);
      }
    }

    /** Replace the network's entry, if any, by a fresh one. */
    method Restart(found: Option<nat>, networkId: u64, configUpdateId: u64, totalLength: nat)
      returns (p: PendingNetworkConfig, index: nat)
      requires Valid()
      requires found.Some? ==> found.value < |pending| && pending[found.value].networkId == networkId
      modifies this
      ensures Valid() && fresh(Footprint() - old(Footprint()))
      ensures index < |pending| && pending[index] == p && p.networkId == networkId && p.totalLength == totalLength
      ensures assemblies == old(assemblies)[networkId := Fresh(configUpdateId, totalLength)]
    {
      hide Represents;
      if found.Some? {
        p := SwapRemove(found.value);
      } else {
        RetainOthers(networkId);
      }
      RemoveThenUpdate(old(assemblies), networkId, Fresh(configUpdateId, totalLength));
      p := PushFresh(networkId, configUpdateId, totalLength);
      index := |pending| - 1;
    }

    method IngestAt(p: PendingNetworkConfig, chunkIndex: nat, chunk: seq<u8>)
      requires Valid() && p in pending && chunkIndex + |chunk| <= p.totalLength
      modifies this, p`receivedBytes, p.data, p.received
      ensures pending == old(pending)
      ensures Valid()
      ensures |old(p.Value()).data| == |old(p.Value()).received|
      ensures p.Value() == Ingested(old(p.Value()), chunkIndex, chunk)
      ensures assemblies == old(assemblies)[p.networkId := p.Value()]
    {
      p.Ingest(chunkIndex, chunk);
      RepresentsIngested(pending, assemblies, p);
      hide Represents, IsSeparate, Ingested;
      Keep(pending, assemblies[p.networkId := p.Value()]);
    }

    /** Only the one assembly has changed. */
    static lemma RepresentsIngested(list: seq<PendingNetworkConfig>, assemblies: Assemblies, p: PendingNetworkConfig)
      requires IsSeparate(list, assemblies.Keys) && p in list && p.Valid()
      requires forall q :: q in list && q != p ==> q.Valid() && assemblies[q.networkId] == q.Value()
      ensures Represents(list, assemblies[p.networkId := p.Value()])
    {
    }

    method Assemble(nc: ConfigPayload) returns (r: Option<ConfigPayload>)
      requires Valid()
      modifies Footprint()
      ensures Valid() && fresh(Footprint() - old(Footprint()))
      ensures AreWellFormed(old(assemblies)) && (assemblies, r) == AssembleResult(old(assemblies), nc)
    {
      ValidIsWellFormed();
      hide Represents, Objects, Ingested, AssemblyFor, Assembled, AreWellFormed, IsSeparate, Fresh, CountTrue, PendingNetworkConfig.Valid, SwapRemoved;
      if nc.IsWhole() {
        return Some(nc);
      }
      if !nc.IsChunk() {
        return None;
      }
      var configUpdateId, totalLength, chunkIndex := nc.configUpdateId.value, nc.totalLength.value, nc.chunkIndex.value;
      if totalLength == 0 || chunkIndex + |nc.dictData| > totalLength {
        return None;
      }
      if totalLength > MAX_NETWORK_CONFIG_SIZE {
        return None;
      }
      var p, index := EntryFor(nc.networkId, configUpdateId, totalLength);
      EntryHoldsAssembly(p);
      ghost var before := p.Value();
      IngestAt(p, chunkIndex, nc.dictData);
      UpdateTwice(old(assemblies), nc.networkId, before, p.Value());
      UpdateTwice(old(assemblies), nc.networkId, p.Value(), p.Value());
      if !p.IsDone() {
        return None;
      }
      p := SwapRemove(index);
      return Some(Assembled(nc, p.data[..]));
    }
  }
}
