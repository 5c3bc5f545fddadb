/**
 Whole runs of the configuration assembler: chunks of many networks in any order, repeated,
 conflicting or malformed.
 */
module NetworkConfigRuns {
  import opened Wrappers
  import opened Bytes
  import opened NetworkConfig

  ghost function After(initial: Assemblies, events: seq<ConfigPayload>): (assemblies: Assemblies)
    requires AreWellFormed(initial)
    ensures AreWellFormed(assemblies)
  {
    if events == [] then initial
    else AssembleResult(After(initial, events[..|events| - 1]), events[|events| - 1]).0
  }

  ghost function Output(initial: Assemblies, events: seq<ConfigPayload>, k: nat): Option<ConfigPayload>
    requires AreWellFormed(initial) && k < |events|
  {
    AssembleResult(After(initial, events[..k]), events[k]).1
  }

  // --- Payloads that are no chunks ---

  lemma AfterNext(initial: Assemblies, events: seq<ConfigPayload>, k: nat)
    requires AreWellFormed(initial) && k < |events|
    ensures After(initial, events[..k + 1]) == AssembleResult(After(initial, events[..k]), events[k]).0
  {
    assert events[..k + 1][..k] == events[..k];
  }

  /** A payload without update ID, length and index carries a whole dictionary: it is handed on as it is. */
  lemma WholeIsHandedOn(initial: Assemblies, events: seq<ConfigPayload>, k: nat)
    requires AreWellFormed(initial) && k < |events|
    requires events[k].configUpdateId == None && events[k].totalLength == None && events[k].chunkIndex == None
    ensures Output(initial, events, k) == Some(events[k])
    ensures After(initial, events[..k + 1]) == After(initial, events[..k])
  {
    AfterNext(initial, events, k);
  }

  /**
   A payload that has some of the three but not all is refused, and so is a chunk of a dictionary that is empty or too
   long, or a chunk that reaches beyond its dictionary.
   */
  lemma MalformedIsRefused(initial: Assemblies, events: seq<ConfigPayload>, k: nat)
    requires AreWellFormed(initial) && k < |events|
    requires var (u, t, i) := (events[k].configUpdateId, events[k].totalLength, events[k].chunkIndex);
      && (u.Some? || t.Some? || i.Some?)
      && (u.Some? && t.Some? && i.Some? ==>
        t.value == 0 || t.value > MAX_NETWORK_CONFIG_SIZE || i.value + |events[k].dictData| > t.value)
    ensures Output(initial, events, k) == None
    ensures After(initial, events[..k + 1]) == After(initial, events[..k])
  {
    AfterNext(initial, events, k);
  }

  /** The dictionary in one piece, otherwise described as its last chunk was; the chunk's signature is not kept. */
  predicate CompletesWith(out: ConfigPayload, last: ConfigPayload, dict: seq<u8>) {
    && out.networkId == last.networkId
    && out.dictData == dict
    && out.flags == last.flags
    && out.configUpdateId == last.configUpdateId
    && out.totalLength == last.totalLength
    && out.chunkIndex == Some(0)
    && out.signatureType == last.signatureType
    && out.signature == None
  }

  // --- What a network's chunks have written since its assembly was last started or finished ---

  datatype Log = Log(configUpdateId: u64, total: nat, writes: seq<Write>)

  function WriteOf(nc: ConfigPayload): Write
    requires nc.IsChunk()
  {
    Write(nc.chunkIndex.value, nc.dictData)
  }

  /** The writes once `nc` is added: a new update ID or length starts over. */
  function WritesWith(log: Option<Log>, nc: ConfigPayload): (writes: seq<Write>)
    requires nc.IsChunk()
  {
    if && log.Some?
       && log.value.configUpdateId == nc.configUpdateId.value
       && log.value.total == nc.totalLength.value
    then log.value.writes + [WriteOf(nc)]
    else [WriteOf(nc)]
  }

  ghost function LogWith(log: Option<Log>, nc: ConfigPayload): Option<Log> {
    if !nc.IsAcceptable() then log
    else
      var writes := WritesWith(log, nc);
      if IsComplete(nc.totalLength.value, writes) then None
      else Some(Log(nc.configUpdateId.value, nc.totalLength.value, writes))
  }

  ghost function LogAfter(initial: Option<Log>, events: seq<ConfigPayload>, networkId: u64): Option<Log>
  {
    if events == [] then initial
    else
      var before, nc := LogAfter(initial, events[..|events| - 1], networkId), events[|events| - 1];
      if nc.networkId == networkId then LogWith(before, nc) else before
  }

  /** Each flagged byte holds the last value written there, and the count is the number of flags. */
  ghost predicate Shows(a: Assembly, total: nat, writes: seq<Write>) {
    && |a.data| == |a.received| == total
    && a.receivedBytes == CountTrue(a.received)
    && forall i: nat :: i < total ==>
      (a.received[i] <==> LastWritten(writes, i).Some?) && (a.received[i] ==> LastWritten(writes, i) == Some(a.data[i]))
  }

  ghost predicate Matches(assemblies: Assemblies, networkId: u64, log: Option<Log>) {
    match log
    case None => networkId !in assemblies
    case Some(l) =>
      && networkId in assemblies
      && assemblies[networkId].configUpdateId == l.configUpdateId
      && Shows(assemblies[networkId], l.total, l.writes)
      && 1 <= l.total <= MAX_NETWORK_CONFIG_SIZE
      && assemblies[networkId].receivedBytes < l.total
  }

  lemma IngestShows(a: Assembly, total: nat, writes: seq<Write>, offset: nat, chunk: seq<u8>)
    requires Shows(a, total, writes) && offset + |chunk| <= total
    ensures Shows(Ingested(a, offset, chunk), total, writes + [Write(offset, chunk)])
  {
    var w := Write(offset, chunk);
    assert (writes + [w])[..|writes|] == writes;
  }

  lemma FreshShows(configUpdateId: u64, total: nat)
    ensures Shows(Fresh(configUpdateId, total), total, [])
  {
    CountTrueNone(Fresh(configUpdateId, total).received);
  }

  /** An assembly is complete exactly when every byte has been written. */
  lemma ShowsDecides(a: Assembly, total: nat, writes: seq<Write>)
    requires Shows(a, total, writes)
    ensures a.receivedBytes <= total
    ensures a.receivedBytes == total <==> IsComplete(total, writes)
  {
    CountTrueAll(a.received);
    if a.receivedBytes == total {
      assert forall i: nat :: i < total ==> a.received[i];
    }
  }

  /** One payload keeps every network's assembly in step with what its chunks have written. */
  lemma AssembleKeepsMatch(assemblies: Assemblies, nc: ConfigPayload, networkId: u64, log: Option<Log>)
    requires AreWellFormed(assemblies) && Matches(assemblies, networkId, log)
    ensures Matches(AssembleResult(assemblies, nc).0, networkId, if nc.networkId == networkId then LogWith(log, nc) else log)
    ensures nc.networkId == networkId && nc.IsAcceptable() ==>
      var out, writes, total := AssembleResult(assemblies, nc).1, WritesWith(log, nc), nc.totalLength.value;
      && (out.Some? <==> IsComplete(total, writes))
      && (out.Some? ==>
        && CompletesWith(out.value, nc, out.value.dictData)
        && |out.value.dictData| == total
        && forall i: nat :: i < total ==> LastWritten(writes, i) == Some(out.value.dictData[i]))
  {
    hide CountTrue, LastWritten;
    if nc.networkId == networkId && nc.IsAcceptable() {
      var total := nc.totalLength.value;
      var before := AssemblyFor(assemblies, networkId, nc.configUpdateId.value, total);
      var earlier := if networkId in assemblies && before == assemblies[networkId] && log.value.total == total
        && log.value.configUpdateId == nc.configUpdateId.value then log.value.writes else [];
      FreshShows(nc.configUpdateId.value, total);
      IngestShows(before, total, earlier, nc.chunkIndex.value, nc.dictData);
      assert earlier + [WriteOf(nc)] == WritesWith(log, nc);
      ShowsDecides(Ingested(before, nc.chunkIndex.value, nc.dictData), total, WritesWith(log, nc));
    }
  }

  /** Over every sequence of payloads, well-formed or not. */
  lemma {:induction false} AssemblyInvariant(initial: Assemblies, log: Option<Log>, events: seq<ConfigPayload>, networkId: u64)
    requires AreWellFormed(initial) && Matches(initial, networkId, log)
    ensures Matches(After(initial, events), networkId, LogAfter(log, events, networkId))
  {
    if events != [] {
      var front := events[..|events| - 1];
      AssemblyInvariant(initial, log, front, networkId);
      AssembleKeepsMatch(After(initial, front), events[|events| - 1], networkId, LogAfter(log, front, networkId));
    }
  }

  // --- Sending ---

  /** Chunk `i` of `dict`. */
  predicate IsChunkOf(nc: ConfigPayload, networkId: u64, configUpdateId: u64, dict: seq<u8>) {
    && nc.networkId == networkId
    && nc.configUpdateId == Some(configUpdateId)
    && nc.totalLength == Some(|dict|)
    && nc.chunkIndex.Some?
    && nc.chunkIndex.value + |nc.dictData| <= |dict|
    && nc.dictData == dict[nc.chunkIndex.value..nc.chunkIndex.value + |nc.dictData|]
  }

  /** Each of the first `total` bytes is in the chunk its position says. */
  predicate CoversAll(payloads: seq<ConfigPayload>, total: nat) {
    forall i: nat :: i < total ==>
      && i / CHUNK_BYTES < |payloads|
      && payloads[i / CHUNK_BYTES].IsChunk()
      && WriteOf(payloads[i / CHUNK_BYTES]).Covers(i)
  }

  lemma CoversMore(payloads: seq<ConfigPayload>, nc: ConfigPayload, offset: nat)
    requires CoversAll(payloads, offset) && offset == |payloads| * CHUNK_BYTES
    requires nc.IsChunk() && nc.chunkIndex.value == offset && |nc.dictData| <= CHUNK_BYTES
    ensures CoversAll(payloads + [nc], offset + |nc.dictData|)
  {
    forall i: nat | i < offset + |nc.dictData|
      ensures i / CHUNK_BYTES <= |payloads| && WriteOf((payloads + [nc])[i / CHUNK_BYTES]).Covers(i)
    {
      if i >= offset {
        assert i / CHUNK_BYTES == |payloads|;
      }
    }
  }

  /** What a controller signs with each chunk: everything the receiver places it by. */
  function SignedData(nc: ConfigPayload): (s: seq<u8>)
    requires nc.IsChunk()
  {
    BigEndian(nc.networkId, 8) + BigEndian(|nc.dictData|, 2) + nc.dictData + [0]
    + BigEndian(nc.configUpdateId.value, 8) + BigEndian(nc.totalLength.value, 4) + BigEndian(nc.chunkIndex.value, 4)
  }

  predicate IsSigned(nc: ConfigPayload, sign: seq<u8> -> seq<u8>) {
    nc.IsChunk() && nc.signatureType == Some(1) && nc.signature == Some(sign(SignedData(nc)))
  }

  /**
   The payloads a controller sends for a dictionary; none when its length does not fit its field, or when there is
   something to sign and no key.
   */
  method ChunkDictionary(networkId: u64, configUpdateId: u64, dict: seq<u8>, sign: Option<seq<u8> -> seq<u8>>)
    returns (r: Option<seq<ConfigPayload>>)
    ensures r.Some? <==> |dict| <= U32_MAX && (sign.Some? || dict == [])
    ensures r.Some? ==>
      && (forall nc :: nc in r.value ==> IsChunkOf(nc, networkId, configUpdateId, dict) && 1 <= |nc.dictData| <= CHUNK_BYTES)
      && (forall nc :: nc in r.value ==> sign.Some? && IsSigned(nc, sign.value))
      && CoversAll(r.value, |dict|)
      && |r.value| == (|dict| + CHUNK_BYTES - 1) / CHUNK_BYTES
  {
    if |dict| > U32_MAX {
      return None;
    }
    var payloads: seq<ConfigPayload> := [];
    var offset := 0;
    while offset < |dict|
      invariant offset == Min(|payloads| * CHUNK_BYTES, |dict|)
      invariant forall nc :: nc in payloads ==>
        IsChunkOf(nc, networkId, configUpdateId, dict) && 1 <= |nc.dictData| <= CHUNK_BYTES
      invariant forall nc :: nc in payloads ==> sign.Some? && IsSigned(nc, sign.value)
      invariant offset > 0 ==> sign.Some?
      invariant CoversAll(payloads, offset)
      invariant |payloads| == (offset + CHUNK_BYTES - 1) / CHUNK_BYTES
    {
      hide BigEndian, SignedData, CoversAll;
      if sign.None? {
        return None;
      }
      var end := Min(offset + CHUNK_BYTES, |dict|);
      var nc := ConfigPayload(networkId, dict[offset..end], Some(0), Some(configUpdateId), Some(|dict|), Some(offset),
                              None, None);
      var signature := sign.value(SignedData(nc));
      nc := nc.(signatureType := Some(1), signature := Some(signature));
      CoversMore(payloads, nc, offset);
      payloads := payloads + [nc];
      offset := end;
    }
    return Some(payloads);
  }

  /** The parts of the signed data. */
  lemma SignedParts(nc: ConfigPayload)
    requires nc.IsChunk()
    ensures var s, n := SignedData(nc), |nc.dictData|;
      && |s| == n + 27
      && s[..8] == BigEndian(nc.networkId, 8) && s[8..10] == BigEndian(n, 2) && s[10..10 + n] == nc.dictData
      && s[11 + n..19 + n] == BigEndian(nc.configUpdateId.value, 8)
      && s[19 + n..23 + n] == BigEndian(nc.totalLength.value, 4)
      && s[23 + n..] == BigEndian(nc.chunkIndex.value, 4)
  {
    hide BigEndian;
  }

  /** A signature speaks for its chunk alone: no other chunk has the same signed data. */
  lemma SignedDataIsUnique(a: ConfigPayload, b: ConfigPayload)
    requires a.IsChunk() && b.IsChunk() && |a.dictData| < 0x1_0000 && |b.dictData| < 0x1_0000
    requires SignedData(a) == SignedData(b)
    ensures a.networkId == b.networkId && a.dictData == b.dictData && a.configUpdateId == b.configUpdateId
    ensures a.totalLength == b.totalLength && a.chunkIndex == b.chunkIndex
  {
    hide SignedData, BigEndian;
    SignedParts(a);
    SignedParts(b);
    Pow256Values();
    SameNumber(|a.dictData|, |b.dictData|, 2);
    SameNumber(a.networkId, b.networkId, 8);
    SameNumber(a.configUpdateId.value, b.configUpdateId.value, 8);
    SameNumber(a.totalLength.value, b.totalLength.value, 4);
    SameNumber(a.chunkIndex.value, b.chunkIndex.value, 4);
  }

  lemma SameNumber(m: nat, n: nat, width: nat)
    requires m < Pow256(width) && n < Pow256(width) && BigEndian(m, width) == BigEndian(n, width)
    ensures m == n
  {
    BigEndianExact(m, width);
    BigEndianExact(n, width);
  }

  // --- Delivery ---

  function Writes(events: seq<ConfigPayload>, networkId: u64): (writes: seq<Write>)
    requires forall nc :: nc in events && nc.networkId == networkId ==> nc.IsChunk()
  {
    if events == [] then []
    else
      var before, nc := Writes(events[..|events| - 1], networkId), events[|events| - 1];
      if nc.networkId == networkId then before + [WriteOf(nc)] else before
  }

  /** Chunks of `dict` for one network among arbitrary payloads for others. */
  ghost predicate IsDelivery(events: seq<ConfigPayload>, networkId: u64, configUpdateId: u64, dict: seq<u8>) {
    && 1 <= |dict| <= MAX_NETWORK_CONFIG_SIZE
    && forall nc :: nc in events && nc.networkId == networkId ==> IsChunkOf(nc, networkId, configUpdateId, dict)
  }

  /** What was pending for the network, if anything, is not part of this delivery. */
  ghost predicate IsNewUpdate(log: Option<Log>, configUpdateId: u64, dict: seq<u8>) {
    log.Some? ==> log.value.configUpdateId != configUpdateId || log.value.total != |dict|
  }

  lemma {:induction false} WritesAgree(events: seq<ConfigPayload>, networkId: u64, configUpdateId: u64, dict: seq<u8>, i: nat)
    requires IsDelivery(events, networkId, configUpdateId, dict)
    ensures LastWritten(Writes(events, networkId), i).Some? ==>
      i < |dict| && LastWritten(Writes(events, networkId), i) == Some(dict[i])
  {
    if events != [] {
      var nc := events[|events| - 1];
      WritesAgree(events[..|events| - 1], networkId, configUpdateId, dict, i);
      if nc.networkId == networkId {
        var before := Writes(events[..|events| - 1], networkId);
        assert (before + [WriteOf(nc)])[..|before|] == before;
        assert nc in events;
      }
    }
  }

  lemma {:induction false} LogOfDelivery(log: Option<Log>, events: seq<ConfigPayload>,
                                         networkId: u64, configUpdateId: u64, dict: seq<u8>)
    requires IsDelivery(events, networkId, configUpdateId, dict) && IsNewUpdate(log, configUpdateId, dict)
    requires !IsComplete(|dict|, Writes(events, networkId))
    ensures var after, writes := LogAfter(log, events, networkId), Writes(events, networkId);
      if writes == [] then after == log else after == Some(Log(configUpdateId, |dict|, writes))
  {
    if events != [] {
      var front, nc := events[..|events| - 1], events[|events| - 1];
      if nc.networkId == networkId {
        CompleteStays(|dict|, Writes(front, networkId), WriteOf(nc));
      }
      LogOfDelivery(log, front, networkId, configUpdateId, dict);
      assert nc in events;
    }
  }

  lemma CompleteStays(total: nat, writes: seq<Write>, w: Write)
    ensures IsComplete(total, writes) ==> IsComplete(total, writes + [w])
  {
    assert (writes + [w])[..|writes|] == writes;
  }

  /**
   Assembly undoes chunking: whatever the order, the repetitions and the other networks' traffic,
   a chunk yields nothing unless every byte has now arrived, and then the dictionary.
   */
  lemma DictionaryDelivered(initial: Assemblies, log: Option<Log>, events: seq<ConfigPayload>,
                            networkId: u64, configUpdateId: u64, dict: seq<u8>, k: nat)
    requires AreWellFormed(initial) && Matches(initial, networkId, log) && IsNewUpdate(log, configUpdateId, dict)
    requires IsDelivery(events, networkId, configUpdateId, dict)
    requires k < |events| && events[k].networkId == networkId
    requires !IsComplete(|dict|, Writes(events[..k], networkId))
    ensures var out := Output(initial, events, k);
      if IsComplete(|dict|, Writes(events[..k + 1], networkId)) then out.Some? && CompletesWith(out.value, events[k], dict)
      else out == None
  {
    hide IsComplete, AreWellFormed, AssembleResult, LastWritten;
    var front, nc := events[..k], events[k];
    assert nc in events;
    AssemblyInvariant(initial, log, front, networkId);
    LogOfDelivery(log, front, networkId, configUpdateId, dict);
    var before := LogAfter(log, front, networkId);
    AssembleKeepsMatch(After(initial, front), nc, networkId, before);
    assert events[..k + 1][..k] == front && events[..k + 1][k] == nc;
    var writes := Writes(events[..k + 1], networkId);
    assert writes == WritesWith(before, nc);
    var out := Output(initial, events, k);
    if out.Some? {
      forall i: nat | i < |dict| ensures out.value.dictData[i] == dict[i] {
        WritesAgree(events[..k + 1], networkId, configUpdateId, dict, i);
      }
      assert out.value.dictData == dict;
    }
  }

  lemma {:induction false} WrittenStays(events: seq<ConfigPayload>, networkId: u64, nc: ConfigPayload, i: nat)
    requires forall e :: e in events && e.networkId == networkId ==> e.IsChunk()
    requires nc in events && nc.networkId == networkId && WriteOf(nc).Covers(i)
    ensures LastWritten(Writes(events, networkId), i).Some?
  {
    var front, last := events[..|events| - 1], events[|events| - 1];
    if nc in front {
      WrittenStays(front, networkId, nc, i);
    } else {
      assert events == front + [last];
    }
    if last.networkId == networkId {
      var before := Writes(front, networkId);
      assert (before + [WriteOf(last)])[..|before|] == before;
    }
  }

  /** Once all the payloads `ChunkDictionary` made have arrived, every byte has. */
  lemma AllChunksComplete(events: seq<ConfigPayload>, payloads: seq<ConfigPayload>,
                          networkId: u64, configUpdateId: u64, dict: seq<u8>)
    requires IsDelivery(events, networkId, configUpdateId, dict)
    requires forall nc :: nc in payloads ==> nc in events && IsChunkOf(nc, networkId, configUpdateId, dict)
    requires CoversAll(payloads, |dict|)
    ensures IsComplete(|dict|, Writes(events, networkId))
  {
    forall i: nat | i < |dict| ensures LastWritten(Writes(events, networkId), i).Some? {
      WrittenStays(events, networkId, payloads[i / CHUNK_BYTES], i);
    }
  }
}
