/** World files: the signed definitions of planets and moons. */
module World {
  import opened Wrappers
  import opened Bytes
  import opened InetAddress
  import IdentityWire

  const WORLD_MIN_SIZE := 194
  const WORLD_MAX_ROOTS := 4
  const WORLD_MAX_ENDPOINTS_PER_ROOT := 32
  const SIGNATURE_OFFSET := 81
  const VERIFY_BUFFER_SIZE := 4096

  function StartSentinel(): (s: seq<u8>) ensures |s| == 8 {
    [0x7f, 0x7f, 0x7f, 0x7f, 0x7f, 0x7f, 0x7f, 0x7f]
  }

  function EndSentinel(): (s: seq<u8>) ensures |s| == 8 {
    [0xf7, 0xf7, 0xf7, 0xf7, 0xf7, 0xf7, 0xf7, 0xf7]
  }

  datatype WorldType = NullWorld | Planet | Moon {
    function ToByte(): u8 {
      match this
      case NullWorld => 0
      case Planet => 1
      case Moon => 127
    }
  }

  function WorldTypeOf(b: u8): Option<WorldType> {
    if b == 0 then Some(NullWorld) else if b == 1 then Some(Planet) else if b == 127 then Some(Moon) else None
  }

  type SigningKey = s: seq<u8> | |s| == 64 witness seq(64, _ => 0)
  type Signature = s: seq<u8> | |s| == 96 witness seq(96, _ => 0)

  datatype WorldRoot = WorldRoot(identity: IdentityWire.Identity, endpoints: seq<InetAddress>)

  datatype World = World(
    worldType: WorldType,
    id: u64,
    timestamp: u64,
    signingKey: SigningKey,
    signature: Signature,
    roots: seq<WorldRoot>,
    dictData: Option<seq<u8>>)

  // --- Writing ---

  function EndpointsEncoded(endpoints: seq<InetAddress>): (s: seq<u8>)
  {
    if endpoints == [] then []
    else EndpointsEncoded(endpoints[..|endpoints| - 1]) + endpoints[|endpoints| - 1].Encoded()
  }

  function RootEncoded(root: WorldRoot): (s: seq<u8>) {
    root.identity.Encoded() + [|root.endpoints| % 0x100] + EndpointsEncoded(root.endpoints)
  }

  function RootsEncoded(roots: seq<WorldRoot>): (s: seq<u8>)
  {
    if roots == [] then [] else RootsEncoded(roots[..|roots| - 1]) + RootEncoded(roots[|roots| - 1])
  }

  /** Only moons carry a dictionary; its length is cut to 16 bits. */
  function DictEncoded(w: World): (s: seq<u8>) {
    if w.worldType != Moon then []
    else if w.dictData.Some? then BigEndian(|w.dictData.value|, 2) + w.dictData.value
    else BigEndian(0, 2)
  }

  /** What is signed: everything between the sentinels but the signature. */
  function SignedPortion(w: World): (s: seq<u8>)
    ensures |s| == 82 + |RootsEncoded(w.roots)| + |DictEncoded(w)|
  {
    [w.worldType.ToByte()] + BigEndian(w.id, 8) + BigEndian(w.timestamp, 8) + w.signingKey
    + [|w.roots| % 0x100] + RootsEncoded(w.roots) + DictEncoded(w)
  }

  function Serialized(w: World): (s: seq<u8>)
    ensures |s| == 194 + |RootsEncoded(w.roots)| + |DictEncoded(w)|
  {
    StartSentinel() + [w.worldType.ToByte()] + BigEndian(w.id, 8) + BigEndian(w.timestamp, 8) + w.signingKey
    + w.signature + [|w.roots| % 0x100] + RootsEncoded(w.roots) + DictEncoded(w) + EndSentinel()
  }

  /** The parts of both, before and behind the signature. */
  function Preamble(w: World): (s: seq<u8>)
    ensures |s| == SIGNATURE_OFFSET
  {
    [w.worldType.ToByte()] + BigEndian(w.id, 8) + BigEndian(w.timestamp, 8) + w.signingKey
  }

  function Tail(w: World): (s: seq<u8>)
    ensures |s| == 1 + |RootsEncoded(w.roots)| + |DictEncoded(w)|
  {
    [|w.roots| % 0x100] + RootsEncoded(w.roots) + DictEncoded(w)
  }

  lemma InParts(w: World)
    ensures SignedPortion(w) == Preamble(w) + Tail(w)
    ensures Serialized(w) == StartSentinel() + Preamble(w) + w.signature + Tail(w) + EndSentinel()
  {
    var kind, id, timestamp := [w.worldType.ToByte()], BigEndian(w.id, 8), BigEndian(w.timestamp, 8);
    var start, count, roots, dict := StartSentinel(), [|w.roots| % 0x100], RootsEncoded(w.roots), DictEncoded(w);
    hide BigEndian, RootsEncoded, DictEncoded, StartSentinel, EndSentinel;
    assert start + kind + id + timestamp + w.signingKey == start + (kind + id + timestamp + w.signingKey);
    Regroup3(start + Preamble(w) + w.signature, count, roots, dict);
    Regroup3(Preamble(w), count, roots, dict);
  }

  lemma Regroup3(a: seq<u8>, b: seq<u8>, c: seq<u8>, d: seq<u8>)
    ensures a + b + c + d == a + (b + c + d)
  {
  }

  /** A world file is the signed portion with the signature inserted, between the sentinels. */
  lemma SerializedIsSignedPortion(w: World)
    ensures var signed := SignedPortion(w);
      Serialized(w) == StartSentinel() + signed[..SIGNATURE_OFFSET] + w.signature + signed[SIGNATURE_OFFSET..] + EndSentinel()
  {
    InParts(w);
    hide SignedPortion, Serialized, Preamble, Tail;
    var signed := Preamble(w) + Tail(w);
    assert signed[..SIGNATURE_OFFSET] == Preamble(w) && signed[SIGNATURE_OFFSET..] == Tail(w);
  }

  /** Write an endpoint behind what has been written since `start`. */
  method PutEndpoint(ghost before: seq<u8>, buf: array<u8>, ghost start: nat, ghost written: seq<u8>, pos: nat, a: InetAddress)
    returns (end: nat)
    requires Wrote(before, buf[..], start, written) && pos == start + |written|
    requires pos + |a.Encoded()| <= buf.Length
    modifies buf
    ensures end == pos + |a.Encoded()|
    ensures Wrote(before, buf[..], start, written + a.Encoded())
  {
    hide Wrote;
    ghost var mid := buf[..];
    end := a.Serialize(buf, pos);
    WroteOn(before, mid, buf[..], start, written, a.Encoded());
  }

  method PutEndpoints(endpoints: seq<InetAddress>, buf: array<u8>, pos: nat) returns (end: nat)
    requires pos + |EndpointsEncoded(endpoints)| <= buf.Length
    modifies buf
    ensures end == pos + |EndpointsEncoded(endpoints)|
    ensures Wrote(old(buf[..]), buf[..], pos, EndpointsEncoded(endpoints))
  {
    ghost var before := buf[..];
    end := pos;
    WroteNothing(before, pos);
    assert EndpointsEncoded(endpoints[..0]) == [];
    hide EndpointsEncoded, Wrote;
    for i := 0 to |endpoints|
      invariant end == pos + |EndpointsEncoded(endpoints[..i])|
      invariant Wrote(before, buf[..], pos, EndpointsEncoded(endpoints[..i]))
    {
      EndpointsPrefix(endpoints, i);
      end := PutEndpoint(before, buf, pos, EndpointsEncoded(endpoints[..i]), end, endpoints[i]);
    }
    assert endpoints[..|endpoints|] == endpoints;
  }

  lemma EndpointsPrefix(endpoints: seq<InetAddress>, i: nat)
    requires i < |endpoints|
    ensures EndpointsEncoded(endpoints[..i + 1]) == EndpointsEncoded(endpoints[..i]) + endpoints[i].Encoded()
    ensures |EndpointsEncoded(endpoints[..i + 1])| <= |EndpointsEncoded(endpoints)|
    decreases |endpoints| - i
  {
    assert endpoints[..i + 1][..i] == endpoints[..i];
    if i + 1 < |endpoints| {
      EndpointsPrefix(endpoints, i + 1);
    } else {
      assert endpoints[..i + 1] == endpoints;
    }
  }

  method PutRoot(root: WorldRoot, buf: array<u8>, pos: nat) returns (end: nat)
    requires pos + |RootEncoded(root)| <= buf.Length
    modifies buf
    ensures end == pos + |RootEncoded(root)|
    ensures Wrote(old(buf[..]), buf[..], pos, RootEncoded(root))
  {
    ghost var before := buf[..];
    end := root.identity.Serialize(buf, pos);
    end := PutNext(before, buf, pos, root.identity.Encoded(), end, [|root.endpoints| % 0x100]);
    ghost var mid, head := buf[..], root.identity.Encoded() + [|root.endpoints| % 0x100];
    end := PutEndpoints(root.endpoints, buf, end);
    WroteOn(before, mid, buf[..], pos, head, EndpointsEncoded(root.endpoints));
  }

  lemma RootsPrefix(roots: seq<WorldRoot>, i: nat)
    requires i < |roots|
    ensures RootsEncoded(roots[..i + 1]) == RootsEncoded(roots[..i]) + RootEncoded(roots[i])
    ensures |RootsEncoded(roots[..i + 1])| <= |RootsEncoded(roots)|
    decreases |roots| - i
  {
    assert roots[..i + 1][..i] == roots[..i];
    if i + 1 < |roots| {
      RootsPrefix(roots, i + 1);
    } else {
      assert roots[..i + 1] == roots;
    }
  }

  /** A moon's dictionary, behind what has been written from the start. */
  method PutDict(ghost before: seq<u8>, w: World, buf: array<u8>, ghost out: seq<u8>, pos: nat) returns (end: nat)
    requires Wrote(before, buf[..], 0, out) && pos == |out|
    requires pos + |DictEncoded(w)| <= buf.Length
    modifies buf
    ensures end == pos + |DictEncoded(w)|
    ensures Wrote(before, buf[..], 0, out + DictEncoded(w))
  {
    hide Wrote, BigEndian;
    end := pos;
    if w.worldType == Moon {
      if w.dictData.Some? {
        var length := BigEndian(|w.dictData.value|, 2);
        end := PutNext(before, buf, 0, out, end, length);
        end := PutNext(before, buf, 0, out + length, end, w.dictData.value);
        Regroup(out, length, w.dictData.value);
      } else {
        end := PutNext(before, buf, 0, out, end, BigEndian(0, 2));
      }
    } else {
      assert out + [] == out;
    }
  }

  /** The signed portion, written field by field. */
  method SerializeSignedPortion(w: World, buf: array<u8>) returns (pos: nat)
    requires |SignedPortion(w)| <= buf.Length
    modifies buf
    ensures pos == |SignedPortion(w)| && buf[..pos] == SignedPortion(w) && buf[pos..] == old(buf[pos..])
  {
    hide Wrote, BigEndian, RootsEncoded, RootEncoded, DictEncoded;
    var kind: seq<u8>, count: seq<u8> := [w.worldType.ToByte()], [|w.roots| % 0x100];
    ghost var before: seq<u8>, out: seq<u8> := buf[..], kind;
    pos := Put(buf, 0, kind);
    pos := PutNext(before, buf, 0, out, pos, BigEndian(w.id, 8));
    out := out + BigEndian(w.id, 8);
    pos := PutNext(before, buf, 0, out, pos, BigEndian(w.timestamp, 8));
    out := out + BigEndian(w.timestamp, 8);
    pos := PutNext(before, buf, 0, out, pos, w.signingKey);
    out := out + w.signingKey;
    pos := PutNext(before, buf, 0, out, pos, count);
    out := out + count;
    RootsBegin(w.roots, out);
    for i := 0 to |w.roots|
      invariant Wrote(before, buf[..], 0, out + RootsEncoded(w.roots[..i]))
      invariant pos == |out| + |RootsEncoded(w.roots[..i])|
    {
      RootsPrefix(w.roots, i);
      ghost var mid := buf[..];
      pos := PutRoot(w.roots[i], buf, pos);
      WroteRoot(before, mid, buf[..], out, w.roots, i);
    }
    assert w.roots[..|w.roots|] == w.roots;
    out := out + RootsEncoded(w.roots);
    pos := PutDict(before, w, buf, out, pos);
    WroteAtStart(before, buf[..], SignedPortion(w));
  }

  lemma WroteAtStart(before: seq<u8>, after: seq<u8>, bytes: seq<u8>)
    requires Wrote(before, after, 0, bytes)
    ensures after[..|bytes|] == bytes && after[|bytes|..] == before[|bytes|..]
  {
  }

  lemma RootsBegin(roots: seq<WorldRoot>, out: seq<u8>)
    ensures RootsEncoded(roots[..0]) == [] && out + RootsEncoded(roots[..0]) == out
  {
  }

  /** One root more behind the roots written so far. */
  lemma WroteRoot(before: seq<u8>, mid: seq<u8>, after: seq<u8>, out: seq<u8>, roots: seq<WorldRoot>, i: nat)
    requires i < |roots|
    requires Wrote(before, mid, 0, out + RootsEncoded(roots[..i]))
    requires Wrote(mid, after, |out| + |RootsEncoded(roots[..i])|, RootEncoded(roots[i]))
    ensures Wrote(before, after, 0, out + RootsEncoded(roots[..i + 1]))
  {
    hide Wrote, RootEncoded;
    RootsPrefix(roots, i);
    hide RootsEncoded;
    WroteOn(before, mid, after, 0, out + RootsEncoded(roots[..i]), RootEncoded(roots[i]));
    Regroup(out, RootsEncoded(roots[..i]), RootEncoded(roots[i]));
  }

  /** The whole file, written field by field in its turn. */
  method Serialize(w: World, buf: array<u8>) returns (pos: nat)
    requires |Serialized(w)| <= buf.Length
    modifies buf
    ensures pos == |Serialized(w)| && buf[..pos] == Serialized(w) && buf[pos..] == old(buf[pos..])
  {
    hide Wrote, BigEndian, RootsEncoded, RootEncoded, DictEncoded, StartSentinel, EndSentinel;
    var kind: seq<u8>, count: seq<u8> := [w.worldType.ToByte()], [|w.roots| % 0x100];
    ghost var before: seq<u8>, out: seq<u8> := buf[..], StartSentinel();
    pos := Put(buf, 0, StartSentinel());
    pos := PutNext(before, buf, 0, out, pos, kind);
    out := out + kind;
    pos := PutNext(before, buf, 0, out, pos, BigEndian(w.id, 8));
    out := out + BigEndian(w.id, 8);
    pos := PutNext(before, buf, 0, out, pos, BigEndian(w.timestamp, 8));
    out := out + BigEndian(w.timestamp, 8);
    pos := PutNext(before, buf, 0, out, pos, w.signingKey);
    out := out + w.signingKey;
    pos := PutNext(before, buf, 0, out, pos, w.signature);
    out := out + w.signature;
    pos := PutNext(before, buf, 0, out, pos, count);
    out := out + count;
    RootsBegin(w.roots, out);
    for i := 0 to |w.roots|
      invariant Wrote(before, buf[..], 0, out + RootsEncoded(w.roots[..i]))
      invariant pos == |out| + |RootsEncoded(w.roots[..i])|
    {
      RootsPrefix(w.roots, i);
      ghost var mid := buf[..];
      pos := PutRoot(w.roots[i], buf, pos);
      WroteRoot(before, mid, buf[..], out, w.roots, i);
    }
    assert w.roots[..|w.roots|] == w.roots;
    out := out + RootsEncoded(w.roots);
    pos := PutDict(before, w, buf, out, pos);
    pos := PutNext(before, buf, 0, out + DictEncoded(w), pos, EndSentinel());
    WroteAtStart(before, buf[..], Serialized(w));
  }

  // --- Reading ---

  predicate IsWellFormedRoot(root: WorldRoot) {
    IdentityWire.IsUnreserved(root.identity.address) && |root.endpoints| <= WORLD_MAX_ENDPOINTS_PER_ROOT
  }

  /** What is read next, behind `front`. */
  function WithFront<T>(front: seq<T>, r: Result<(seq<T>, nat), ProtocolError>): Result<(seq<T>, nat), ProtocolError> {
    match r
    case Err(e) => Err(e)
    case Ok((more, end)) => Ok((front + more, end))
  }

  lemma WithFrontNothing<T>(r: Result<(seq<T>, nat), ProtocolError>)
    ensures WithFront([], r) == r
  {
    if r.Ok? {
      assert [] + r.value.0 == r.value.0;
    }
  }

  lemma WithFrontMore<T>(front: seq<T>, x: T, r: Result<(seq<T>, nat), ProtocolError>)
    ensures WithFront(front, WithFront([x], r)) == WithFront(front + [x], r)
  {
    if r.Ok? {
      assert front + ([x] + r.value.0) == front + [x] + r.value.0;
    }
  }

  /** The endpoint at `pos` and the position behind it. */
  function DecodedEndpoint(data: seq<u8>, pos: nat, endPos: nat): (r: Result<(InetAddress, nat), ProtocolError>)
    requires pos <= endPos <= |data|
    ensures r.Ok? ==> pos < r.value.1 <= endPos
  {
    if pos >= endPos then Err(TooShort(pos + 1, endPos))
    else
      match Decoded(data[pos..endPos])
      case Err(e) => Err(e)
      case Ok((a, consumed)) => Ok((a, pos + consumed))
  }

  function DecodedEndpoints(data: seq<u8>, pos: nat, endPos: nat, n: nat): (r: Result<(seq<InetAddress>, nat), ProtocolError>)
    requires pos <= endPos <= |data|
    ensures r.Ok? ==> |r.value.0| == n && pos <= r.value.1 <= endPos
    decreases n
  {
    if n == 0 then Ok(([], pos))
    else
      match DecodedEndpoint(data, pos, endPos)
      case Err(e) => Err(e)
      case Ok((a, next)) =>
        WithFront([a], DecodedEndpoints(data, next, endPos, n - 1))
  }

  /** The identity may reach into the end sentinel; the next check rejects it then. */
  function DecodedRoot(data: seq<u8>, pos: nat, endPos: nat): (r: Result<(WorldRoot, nat), ProtocolError>)
    requires pos <= endPos <= |data|
    ensures r.Ok? ==> pos < r.value.1 <= endPos
    ensures r.Ok? ==> IsWellFormedRoot(r.value.0)
  {
    if pos >= endPos then Err(TooShort(pos + 1, endPos))
    else
      match IdentityWire.Decoded(data[pos..])
      case Err(e) => Err(e)
      case Ok((identity, consumed)) =>
        var next := pos + consumed;
        if next >= endPos then Err(TooShort(next + 1, endPos))
        else if data[next] > WORLD_MAX_ENDPOINTS_PER_ROOT then Err(InvalidPacket)
        else
          match DecodedEndpoints(data, next + 1, endPos, data[next])
          case Err(e) => Err(e)
          case Ok((endpoints, end)) => Ok((WorldRoot(identity, endpoints), end))
  }

  function DecodedRoots(data: seq<u8>, pos: nat, endPos: nat, n: nat): (r: Result<(seq<WorldRoot>, nat), ProtocolError>)
    requires pos <= endPos <= |data|
    ensures r.Ok? ==> |r.value.0| == n && pos <= r.value.1 <= endPos
    ensures r.Ok? ==> forall root :: root in r.value.0 ==> IsWellFormedRoot(root)
    decreases n
  {
    if n == 0 then Ok(([], pos))
    else
      match DecodedRoot(data, pos, endPos)
      case Err(e) => Err(e)
      case Ok((root, next)) =>
        WithFront([root], DecodedRoots(data, next, endPos, n - 1))
  }

  function DecodedDict(data: seq<u8>, pos: nat, endPos: nat): (r: Result<seq<u8>, ProtocolError>)
    requires pos <= endPos <= |data|
    ensures r.Ok? ==> |r.value| < 0x1_0000
  {
    if pos + 2 > endPos then Err(TooShort(pos + 2, endPos))
    else
      var length := ReadU16(data[pos..pos + 2]);
      if pos + 2 + length > endPos then Err(TooShort(pos + 2 + length, endPos))
      else Ok(data[pos + 2..pos + 2 + length])
  }

  function ReadU64(s: seq<u8>): (n: u64)
    requires |s| == 8
  {
    Pow256Values();
    FromBigEndianBound(s);
    FromBigEndian(s)
  }

  function Deserialized(data: seq<u8>): (r: Result<World, ProtocolError>)
  {
    if |data| < WORLD_MIN_SIZE then Err(TooShort(WORLD_MIN_SIZE, |data|))
    else if data[0..8] != StartSentinel() then Err(InvalidPacket)
    else if data[|data| - 8..] != EndSentinel() then Err(InvalidPacket)
    else if WorldTypeOf(data[8]).None? then Err(InvalidPacket)
    else if data[185] > WORLD_MAX_ROOTS then Err(InvalidPacket)
    else
      var endPos, worldType := |data| - 8, WorldTypeOf(data[8]).value;
      match DecodedRoots(data, 186, endPos, data[185])
      case Err(e) => Err(e)
      case Ok((roots, pos)) =>
        var w := World(worldType, ReadU64(data[9..17]), ReadU64(data[17..25]), data[25..89], data[89..185], roots, None);
        if worldType != Moon then Ok(w)
        else
          match DecodedDict(data, pos, endPos)
          case Err(e) => Err(e)
          case Ok(dict) => Ok(w.(dictData := Some(dict)))
  }

  method ReadEndpoints(data: seq<u8>, start: nat, endPos: nat, n: nat)
    returns (r: Result<(seq<InetAddress>, nat), ProtocolError>)
    requires start <= endPos <= |data|
    ensures r == DecodedEndpoints(data, start, endPos, n)
  {
    var endpoints: seq<InetAddress>, pos := [], start;
    WithFrontNothing(DecodedEndpoints(data, start, endPos, n));
    for i := 0 to n
      invariant start <= pos <= endPos
      invariant DecodedEndpoints(data, start, endPos, n) == WithFront(endpoints, DecodedEndpoints(data, pos, endPos, n - i))
    {
      hide Decoded;
      if pos >= endPos {
        return Err(TooShort(pos + 1, endPos));
      }
      match Decoded(data[pos..endPos]) {
        case Err(e) => return Err(e);
        case Ok((a, consumed)) =>
          var next := pos + consumed;
          assert DecodedEndpoint(data, pos, endPos) == Ok((a, next));
          WithFrontMore(endpoints, a, DecodedEndpoints(data, next, endPos, n - i - 1));
          endpoints := endpoints + [a];
          pos := next;
      }
    }
    assert endpoints + [] == endpoints;
    return Ok((endpoints, pos));
  }

  method ReadRoot(data: seq<u8>, start: nat, endPos: nat) returns (r: Result<(WorldRoot, nat), ProtocolError>)
    requires start <= endPos <= |data|
    ensures r == DecodedRoot(data, start, endPos)
  {
    if start >= endPos {
      return Err(TooShort(start + 1, endPos));
    }
    match IdentityWire.Decoded(data[start..]) {
      case Err(e) => return Err(e);
      case Ok((identity, consumed)) =>
        var pos := start + consumed;
        if pos >= endPos {
          return Err(TooShort(pos + 1, endPos));
        }
        var endpointCount := data[pos];
        if endpointCount > WORLD_MAX_ENDPOINTS_PER_ROOT {
          return Err(InvalidPacket);
        }
        var read := ReadEndpoints(data, pos + 1, endPos, endpointCount);
        match read {
          case Err(e) => return Err(e);
          case Ok((endpoints, end)) => return Ok((WorldRoot(identity, endpoints), end));
        }
    }
  }

  method ReadRoots(data: seq<u8>, start: nat, endPos: nat, n: nat)
    returns (r: Result<(seq<WorldRoot>, nat), ProtocolError>)
    requires start <= endPos <= |data|
    ensures r == DecodedRoots(data, start, endPos, n)
  {
    var roots: seq<WorldRoot>, pos := [], start;
    WithFrontNothing(DecodedRoots(data, start, endPos, n));
    for i := 0 to n
      invariant start <= pos <= endPos
      invariant DecodedRoots(data, start, endPos, n) == WithFront(roots, DecodedRoots(data, pos, endPos, n - i))
    {
      hide DecodedRoot, WithFront;
      var read := ReadRoot(data, pos, endPos);
      match read {
        case Err(e) => return Err(e);
        case Ok((root, next)) =>
          WithFrontMore(roots, root, DecodedRoots(data, next, endPos, n - i - 1));
          roots := roots + [root];
          pos := next;
      }
    }
    assert roots + [] == roots;
    return Ok((roots, pos));
  }

  method Deserialize(data: seq<u8>) returns (r: Result<World, ProtocolError>)
    ensures r == Deserialized(data)
  {
    hide DecodedRoots, DecodedDict, ReadU64, WorldTypeOf, StartSentinel, EndSentinel;
    if |data| < WORLD_MIN_SIZE {
      return Err(TooShort(WORLD_MIN_SIZE, |data|));
    }
    if data[0..8] != StartSentinel() {
      return Err(InvalidPacket);
    }
    if data[|data| - 8..] != EndSentinel() {
      return Err(InvalidPacket);
    }
    var worldType := WorldTypeOf(data[8]);
    if worldType.None? {
      return Err(InvalidPacket);
    }
    var rootCount := data[185];
    if rootCount > WORLD_MAX_ROOTS {
      return Err(InvalidPacket);
    }
    var endPos := |data| - 8;
    var read := ReadRoots(data, 186, endPos, rootCount);
    match read {
      case Err(e) => return Err(e);
      case Ok((roots, pos)) =>
        var w := World(worldType.value, ReadU64(data[9..17]), ReadU64(data[17..25]), data[25..89], data[89..185], roots, None);
        if worldType.value != Moon {
          return Ok(w);
        }
        match DecodedDict(data, pos, endPos) {
          case Err(e) => return Err(e);
          case Ok(dict) => return Ok(w.(dictData := Some(dict)));
        }
    }
  }

  // --- Round trip ---

  /** The worlds that can be read: few enough roots and endpoints, no reserved address, a dictionary on moons only. */
  predicate IsWellFormed(w: World) {
    && |w.roots| <= WORLD_MAX_ROOTS
    && (forall root :: root in w.roots ==> IsWellFormedRoot(root))
    && (w.dictData.Some? <==> w.worldType == Moon)
    && (w.dictData.Some? ==> |w.dictData.value| < 0x1_0000)
  }

  /** `s` stands in `data` at `pos`. */
  predicate HoldsAt(data: seq<u8>, pos: nat, s: seq<u8>) {
    && pos + |s| <= |data|
    && forall i :: 0 <= i < |s| ==> s[i] == data[pos + i]
  }

  lemma HoldsSlice(data: seq<u8>, pos: nat, s: seq<u8>)
    requires HoldsAt(data, pos, s)
    ensures data[pos..pos + |s|] == s
  {
  }

  lemma HoldsWhole(data: seq<u8>)
    ensures HoldsAt(data, 0, data)
  {
  }

  lemma HoldsParts(data: seq<u8>, pos: nat, a: seq<u8>, b: seq<u8>)
    requires HoldsAt(data, pos, a + b)
    ensures HoldsAt(data, pos, a) && HoldsAt(data, pos + |a|, b)
  {
    var s := a + b;
    assert forall i :: 0 <= i < |a| ==> a[i] == s[i];
    assert forall i :: 0 <= i < |b| ==> b[i] == s[|a| + i];
  }

  lemma Regroup(a: seq<u8>, b: seq<u8>, c: seq<u8>)
    ensures a + b + c == a + (b + c)
  {
  }

  lemma {:induction false} EndpointsFront(endpoints: seq<InetAddress>)
    requires endpoints != []
    ensures EndpointsEncoded(endpoints) == endpoints[0].Encoded() + EndpointsEncoded(endpoints[1..])
    decreases |endpoints|
  {
    var k := |endpoints| - 1;
    var front, rest := endpoints[..k], endpoints[1..];
    if k == 0 {
      assert front == [] && rest == [];
    } else {
      EndpointsFront(front);
      assert rest[..k - 1] == front[1..];
      Regroup(endpoints[0].Encoded(), EndpointsEncoded(front[1..]), endpoints[k].Encoded());
    }
  }

  lemma {:induction false} RootsFront(roots: seq<WorldRoot>)
    requires roots != []
    ensures RootsEncoded(roots) == RootEncoded(roots[0]) + RootsEncoded(roots[1..])
    decreases |roots|
  {
    var k := |roots| - 1;
    var front, rest := roots[..k], roots[1..];
    if k == 0 {
      assert front == [] && rest == [];
    } else {
      RootsFront(front);
      assert rest[..k - 1] == front[1..];
      Regroup(RootEncoded(roots[0]), RootsEncoded(front[1..]), RootEncoded(roots[k]));
    }
  }

  lemma EndpointsStep(data: seq<u8>, pos: nat, endPos: nat, endpoints: seq<InetAddress>, more: seq<InetAddress>, next: nat, end: nat)
    requires endpoints != [] && endpoints[1..] == more && pos <= next <= endPos <= |data|
    requires DecodedEndpoint(data, pos, endPos) == Ok((endpoints[0], next))
    requires DecodedEndpoints(data, next, endPos, |more|) == Ok((more, end))
    ensures DecodedEndpoints(data, pos, endPos, |endpoints|) == Ok((endpoints, end))
  {
    hide DecodedEndpoint;
    assert endpoints == [endpoints[0]] + more && |endpoints| - 1 == |more|;
    var r := DecodedEndpoints(data, pos, endPos, |endpoints|);
    assert r.Ok?;
    assert r.value.0 == endpoints;
  }

  lemma EndpointReadBack(data: seq<u8>, pos: nat, endPos: nat, a: InetAddress)
    requires HoldsAt(data, pos, a.Encoded()) && pos + |a.Encoded()| <= endPos <= |data|
    ensures DecodedEndpoint(data, pos, endPos) == Ok((a, pos + |a.Encoded()|))
  {
    hide Decoded;
    var t := data[pos + |a.Encoded()|..endPos];
    HoldsSlice(data, pos, a.Encoded());
    assert data[pos..endPos] == a.Encoded() + t;
    DecodedEncoded(a, t);
  }

  lemma NoEndpoints(data: seq<u8>, pos: nat, endPos: nat)
    requires pos <= endPos <= |data|
    ensures EndpointsEncoded([]) == [] && DecodedEndpoints(data, pos, endPos, 0) == Ok(([], pos))
  {
  }

  lemma EndpointsParts(data: seq<u8>, pos: nat, endpoints: seq<InetAddress>)
    requires endpoints != [] && HoldsAt(data, pos, EndpointsEncoded(endpoints))
    ensures var a, more := endpoints[0].Encoded(), EndpointsEncoded(endpoints[1..]);
      && HoldsAt(data, pos, a) && HoldsAt(data, pos + |a|, more)
      && |EndpointsEncoded(endpoints)| == |a| + |more|
  {
    EndpointsFront(endpoints);
    hide HoldsAt, EndpointsEncoded;
    HoldsParts(data, pos, endpoints[0].Encoded(), EndpointsEncoded(endpoints[1..]));
  }

  lemma {:induction false} EndpointsReadBack(data: seq<u8>, pos: nat, endPos: nat, endpoints: seq<InetAddress>)
    requires pos + |EndpointsEncoded(endpoints)| <= endPos <= |data|
    requires HoldsAt(data, pos, EndpointsEncoded(endpoints))
    ensures DecodedEndpoints(data, pos, endPos, |endpoints|) == Ok((endpoints, pos + |EndpointsEncoded(endpoints)|))
    decreases |endpoints|
  {
    hide HoldsAt, EndpointsEncoded, DecodedEndpoints;
    if endpoints == [] {
      NoEndpoints(data, pos, endPos);
    } else {
      var a, more := endpoints[0], endpoints[1..];
      EndpointsParts(data, pos, endpoints);
      EndpointReadBack(data, pos, endPos, a);
      EndpointsReadBack(data, pos + |a.Encoded()|, endPos, more);
      EndpointsStep(data, pos, endPos, endpoints, more, pos + |a.Encoded()|, pos + |EndpointsEncoded(endpoints)|);
    }
  }

  lemma RootReadBack(data: seq<u8>, pos: nat, endPos: nat, root: WorldRoot)
    requires IsWellFormedRoot(root)
    requires pos + |RootEncoded(root)| <= endPos <= |data|
    requires HoldsAt(data, pos, RootEncoded(root))
    ensures DecodedRoot(data, pos, endPos) == Ok((root, pos + |RootEncoded(root)|))
  {
    hide EndpointsEncoded, IdentityWire.Decoded, DecodedRoot;
    var id, count, eps := root.identity.Encoded(), [|root.endpoints| % 0x100], EndpointsEncoded(root.endpoints);
    HoldsParts(data, pos, id + count, eps);
    HoldsParts(data, pos, id, count);
    var next := pos + |id|;
    IdentityReadBack(data, pos, root.identity);
    assert data[next] == count[0];
    EndpointsReadBack(data, next + 1, endPos, root.endpoints);
    RootStep(data, pos, endPos, root, next, next + 1 + |eps|);
    assert next + 1 + |eps| == pos + |RootEncoded(root)|;
  }

  lemma RootStep(data: seq<u8>, pos: nat, endPos: nat, root: WorldRoot, next: nat, end: nat)
    requires IsWellFormedRoot(root) && pos < next < endPos <= |data|
    requires IdentityWire.Decoded(data[pos..]) == Ok((root.identity, next - pos))
    requires data[next] == |root.endpoints|
    requires DecodedEndpoints(data, next + 1, endPos, |root.endpoints|) == Ok((root.endpoints, end))
    ensures DecodedRoot(data, pos, endPos) == Ok((root, end))
  {
  }

  lemma IdentityReadBack(data: seq<u8>, pos: nat, id: IdentityWire.Identity)
    requires IdentityWire.IsUnreserved(id.address) && HoldsAt(data, pos, id.Encoded())
    ensures IdentityWire.Decoded(data[pos..]) == Ok((id, |id.Encoded()|))
  {
    var t := data[pos + |id.Encoded()|..];
    HoldsSlice(data, pos, id.Encoded());
    IdentityWire.DecodedEncoded(id, t);
    assert data[pos..] == id.Encoded() + t;
  }

  lemma RootsStep(data: seq<u8>, pos: nat, endPos: nat, roots: seq<WorldRoot>, more: seq<WorldRoot>, next: nat, end: nat)
    requires roots != [] && roots[1..] == more && pos <= next <= endPos <= |data|
    requires DecodedRoot(data, pos, endPos) == Ok((roots[0], next))
    requires DecodedRoots(data, next, endPos, |more|) == Ok((more, end))
    ensures DecodedRoots(data, pos, endPos, |roots|) == Ok((roots, end))
  {
    hide DecodedRoot;
    assert roots == [roots[0]] + more && |roots| - 1 == |more|;
    var r := DecodedRoots(data, pos, endPos, |roots|);
    assert r.Ok?;
    assert r.value.0 == roots;
  }

  lemma NoRoots(data: seq<u8>, pos: nat, endPos: nat)
    requires pos <= endPos <= |data|
    ensures RootsEncoded([]) == [] && DecodedRoots(data, pos, endPos, 0) == Ok(([], pos))
  {
  }

  lemma RootsParts(data: seq<u8>, pos: nat, roots: seq<WorldRoot>)
    requires roots != [] && HoldsAt(data, pos, RootsEncoded(roots))
    ensures var root, more := RootEncoded(roots[0]), RootsEncoded(roots[1..]);
      && HoldsAt(data, pos, root) && HoldsAt(data, pos + |root|, more)
      && |RootsEncoded(roots)| == |root| + |more|
  {
    hide RootEncoded;
    RootsFront(roots);
    HoldsParts(data, pos, RootEncoded(roots[0]), RootsEncoded(roots[1..]));
  }

  lemma {:induction false} RootsReadBack(data: seq<u8>, pos: nat, endPos: nat, roots: seq<WorldRoot>)
    requires forall root :: root in roots ==> IsWellFormedRoot(root)
    requires pos + |RootsEncoded(roots)| <= endPos <= |data|
    requires HoldsAt(data, pos, RootsEncoded(roots))
    ensures DecodedRoots(data, pos, endPos, |roots|) == Ok((roots, pos + |RootsEncoded(roots)|))
    decreases |roots|
  {
    hide RootEncoded, DecodedRoot, HoldsAt, RootsEncoded, DecodedRoots;
    if roots == [] {
      NoRoots(data, pos, endPos);
    } else {
      var root, more := roots[0], roots[1..];
      RootsParts(data, pos, roots);
      RootReadBack(data, pos, endPos, root);
      RootsReadBack(data, pos + |RootEncoded(root)|, endPos, more);
      RootsStep(data, pos, endPos, roots, more, pos + |RootEncoded(root)|, pos + |RootsEncoded(roots)|);
    }
  }

  lemma DictReadBack(data: seq<u8>, pos: nat, endPos: nat, dict: seq<u8>)
    requires |dict| < 0x1_0000 && pos + 2 + |dict| <= endPos <= |data|
    requires HoldsAt(data, pos, BigEndian(|dict|, 2) + dict)
    ensures DecodedDict(data, pos, endPos) == Ok(dict)
  {
    var length := BigEndian(|dict|, 2);
    assert data[pos..pos + 2] == length && data[pos + 2..pos + 2 + |dict|] == dict by {
      HoldsParts(data, pos, length, dict);
      HoldsSlice(data, pos, length);
      HoldsSlice(data, pos + 2, dict);
    }
    assert ReadU16(length) == |dict| by {
      Pow256Values();
      BigEndianExact(|dict|, 2);
    }
    var r := DecodedDict(data, pos, endPos);
    assert r.Ok?;
    assert r.value == dict;
  }

  lemma PreambleReadBack(w: World, data: seq<u8>)
    requires HoldsAt(data, 8, Preamble(w))
    ensures data[8] == w.worldType.ToByte()
    ensures ReadU64(data[9..17]) == w.id && ReadU64(data[17..25]) == w.timestamp
    ensures data[25..89] == w.signingKey
  {
    var kind, id, timestamp := [w.worldType.ToByte()], BigEndian(w.id, 8), BigEndian(w.timestamp, 8);
    hide BigEndian;
    HoldsParts(data, 8, kind + id + timestamp, w.signingKey);
    HoldsParts(data, 8, kind + id, timestamp);
    HoldsParts(data, 8, kind, id);
    assert data[8] == kind[0];
    HoldsSlice(data, 9, id);
    HoldsSlice(data, 17, timestamp);
    HoldsSlice(data, 25, w.signingKey);
    NumberReadBack(w.id);
    NumberReadBack(w.timestamp);
  }

  lemma NumberReadBack(n: u64)
    ensures ReadU64(BigEndian(n, 8)) == n
  {
    Pow256Values();
    BigEndianExact(n, 8);
  }

  predicate IsLaidOut(w: World, data: seq<u8>) {
    && |data| == 194 + |RootsEncoded(w.roots)| + |DictEncoded(w)|
    && HoldsAt(data, 0, StartSentinel()) && HoldsAt(data, 8, Preamble(w)) && HoldsAt(data, 89, w.signature)
    && data[185] == |w.roots| % 0x100
    && HoldsAt(data, 186, RootsEncoded(w.roots))
    && HoldsAt(data, 186 + |RootsEncoded(w.roots)|, DictEncoded(w))
    && HoldsAt(data, |data| - 8, EndSentinel())
  }

  lemma SerializedIsLaidOut(w: World)
    ensures IsLaidOut(w, Serialized(w))
  {
    InParts(w);
    hide Serialized, Preamble, StartSentinel, EndSentinel, RootsEncoded, DictEncoded, Tail, HoldsAt;
    var data, head, end := Serialized(w), StartSentinel() + Preamble(w) + w.signature, EndSentinel();
    HoldsWhole(data);
    assert data == head + Tail(w) + end && |head| == 185;
    HoldsParts(data, 0, head + Tail(w), end);
    HoldsParts(data, 0, head, Tail(w));
    assert |head + Tail(w)| == |data| - 8;
    HeadIsLaidOut(w, data);
    TailIsLaidOut(w, data);
  }

  /** Where a file says what: the header's fields and the sentinels at fixed offsets, numbers most significant byte first. */
  lemma WorldLayout(w: World)
    ensures var data := Serialized(w);
      && data[..8] == seq(8, _ => 0x7f) && data[|data| - 8..] == seq(8, _ => 0xf7)
      && data[8] == (match w.worldType case NullWorld => 0 case Planet => 1 case Moon => 127)
      && FromBigEndian(data[9..17]) == w.id && FromBigEndian(data[17..25]) == w.timestamp
      && data[25..89] == w.signingKey && data[89..185] == w.signature
      && data[185] == |w.roots| % 0x100
  {
    hide Serialized, Preamble, RootsEncoded, DictEncoded;
    var data := Serialized(w);
    SerializedIsLaidOut(w);
    PreambleReadBack(w, data);
    HoldsSlice(data, 89, w.signature);
    HoldsSlice(data, 0, StartSentinel());
    HoldsSlice(data, |data| - 8, EndSentinel());
    Sentinels();
    hide HoldsAt, StartSentinel, EndSentinel;
    assert data[0..0 + 8] == data[..8] && data[|data| - 8..|data| - 8 + 8] == data[|data| - 8..];
    assert data[89..89 + 96] == data[89..185];
    assert ReadU64(data[9..17]) == FromBigEndian(data[9..17]) && ReadU64(data[17..25]) == FromBigEndian(data[17..25]);
  }

  lemma Sentinels()
    ensures StartSentinel() == seq(8, _ => 0x7f) && EndSentinel() == seq(8, _ => 0xf7)
  {
  }

  lemma HeadIsLaidOut(w: World, data: seq<u8>)
    requires HoldsAt(data, 0, StartSentinel() + Preamble(w) + w.signature)
    ensures HoldsAt(data, 0, StartSentinel()) && HoldsAt(data, 8, Preamble(w)) && HoldsAt(data, 89, w.signature)
  {
    hide Preamble, StartSentinel;
    HoldsParts(data, 0, StartSentinel() + Preamble(w), w.signature);
    HoldsParts(data, 0, StartSentinel(), Preamble(w));
  }

  lemma TailIsLaidOut(w: World, data: seq<u8>)
    requires HoldsAt(data, 185, Tail(w))
    ensures data[185] == |w.roots| % 0x100
    ensures HoldsAt(data, 186, RootsEncoded(w.roots))
    ensures HoldsAt(data, 186 + |RootsEncoded(w.roots)|, DictEncoded(w))
  {
    hide RootsEncoded, DictEncoded;
    var count, roots := [|w.roots| % 0x100], RootsEncoded(w.roots);
    HoldsParts(data, 185, count + roots, DictEncoded(w));
    HoldsParts(data, 185, count, roots);
    assert data[185] == count[0];
  }

  lemma WellFormedReadBack(w: World)
    requires IsWellFormed(w)
    ensures Deserialized(Serialized(w)) == Ok(w)
  {
    hide Serialized, Preamble, DecodedRoots, DecodedDict, RootsEncoded, HoldsAt;
    var data := Serialized(w);
    SerializedIsLaidOut(w);
    HoldsSlice(data, 0, StartSentinel());
    HoldsSlice(data, 89, w.signature);
    HoldsSlice(data, |data| - 8, EndSentinel());
    PreambleReadBack(w, data);
    RootsReadBack(data, 186, |data| - 8, w.roots);
    if w.worldType == Moon {
      DictReadBack(data, 186 + |RootsEncoded(w.roots)|, |data| - 8, w.dictData.value);
    }
    var r := Deserialized(data);
    assert r.Ok?;
    assert r.value.roots == w.roots && r.value.dictData == w.dictData;
  }

  lemma ReadIsWellFormed(data: seq<u8>)
    ensures Deserialized(data).Ok? ==> IsWellFormed(Deserialized(data).value)
  {
  }

  /** Reading undoes writing exactly for the well-formed worlds. */
  lemma RoundTrip(w: World)
    ensures Deserialized(Serialized(w)) == Ok(w) <==> IsWellFormed(w)
  {
    if IsWellFormed(w) {
      WellFormedReadBack(w);
    }
    ReadIsWellFormed(Serialized(w));
  }

  /** A moon without a dictionary is written, and read back, as one with an empty dictionary. */
  lemma MoonWithoutDictionary(w: World)
    requires w.worldType == Moon && w.dictData == None && IsWellFormed(w.(dictData := Some([])))
    ensures Deserialized(Serialized(w)) == Ok(w.(dictData := Some([])))
  {
    var v := w.(dictData := Some([]));
    assert DictEncoded(v) == DictEncoded(w) + [] == DictEncoded(w);
    WellFormedReadBack(v);
  }

  // --- The buffer signatures are verified in ---

  /** Signatures, as functions: which bytes are a key, and which signatures one accepts. */
  datatype Verifier = Verifier(isKey: seq<u8> -> bool, verify: (seq<u8>, seq<u8>, seq<u8>) -> bool)

  function VerifyingKey(w: World): seq<u8> {
    w.signingKey[32..64]
  }

  /** A world is genuine if its signature is one of its signed portion under the key it carries. */
  predicate IsGenuine(w: World, v: Verifier) {
    v.isKey(VerifyingKey(w)) && v.verify(VerifyingKey(w), SignedPortion(w), w.signature)
  }

  /** The key is decoded first; only with one the signed portion is written, and overruns its buffer if it is too long. */
  predicate Overruns(w: World, v: Verifier) {
    v.isKey(VerifyingKey(w)) && |SignedPortion(w)| > VERIFY_BUFFER_SIZE
  }

  /** None is a panic: the signed portion overruns the buffer it is written to. */
  method VerifySignature(w: World, v: Verifier) returns (ok: Option<bool>)
    ensures ok == if Overruns(w, v) then None else Some(IsGenuine(w, v))
    ensures ok == Some(true) <==>
      && |SignedPortion(w)| <= 4096
      && v.isKey(w.signingKey[32..64]) && v.verify(w.signingKey[32..64], SignedPortion(w), w.signature)
    ensures ok == None <==> v.isKey(w.signingKey[32..64]) && |SignedPortion(w)| > 4096
  {
    var key := w.signingKey[32..64];
    if !v.isKey(key) {
      return Some(false);
    }
    if |SignedPortion(w)| > VERIFY_BUFFER_SIZE {
      return None;
    }
    var buf := new u8[VERIFY_BUFFER_SIZE];
    var length := SerializeSignedPortion(w, buf);
    ok := Some(v.verify(key, buf[..length], w.signature));
  }

  /** Of the fullest moons with a key, exactly those with more than 1,292 bytes of dictionary panic. */
  lemma FullestMoonOverruns(w: World, v: Verifier)
    requires IsWellFormed(w) && w.worldType == Moon
    requires |w.roots| == WORLD_MAX_ROOTS && forall root :: root in w.roots ==> IsFullRoot(root)
    ensures Overruns(w, v) <==> v.isKey(VerifyingKey(w)) && |w.dictData.value| > 1292
  {
    FullestMoonFits(w);
  }

  lemma {:induction false} EndpointsSize(endpoints: seq<InetAddress>)
    ensures |EndpointsEncoded(endpoints)| <= 19 * |endpoints|
    ensures (forall a :: a in endpoints ==> a.V6?) ==> |EndpointsEncoded(endpoints)| == 19 * |endpoints|
  {
    if endpoints != [] {
      assert endpoints[|endpoints| - 1] in endpoints;
      EndpointsSize(endpoints[..|endpoints| - 1]);
    }
  }

  lemma {:induction false} RootsSize(roots: seq<WorldRoot>)
    requires forall root :: root in roots ==> IsWellFormedRoot(root)
    ensures |RootsEncoded(roots)| <= 680 * |roots|
    ensures (forall root :: root in roots ==> IsFullRoot(root)) ==> |RootsEncoded(roots)| == 680 * |roots|
  {
    if roots != [] {
      var last := roots[|roots| - 1];
      assert last in roots;
      EndpointsSize(last.endpoints);
      RootsSize(roots[..|roots| - 1]);
    }
  }

  predicate IsFullRoot(root: WorldRoot) {
    |root.endpoints| == WORLD_MAX_ENDPOINTS_PER_ROOT && forall a :: a in root.endpoints ==> a.V6?
  }

  /** Every world without a dictionary, and every moon with at most 1,292 bytes of it, can be verified. */
  lemma SignedPortionFits(w: World)
    requires IsWellFormed(w)
    requires w.worldType == Moon ==> |w.dictData.value| <= 1292
    ensures |SignedPortion(w)| <= VERIFY_BUFFER_SIZE
  {
    RootsSize(w.roots);
  }

  /** The bound is exact: a moon with four roots of 32 IPv6 endpoints fits with that much and no more. */
  lemma FullestMoonFits(w: World)
    requires IsWellFormed(w) && w.worldType == Moon
    requires |w.roots| == WORLD_MAX_ROOTS && forall root :: root in w.roots ==> IsFullRoot(root)
    ensures |SignedPortion(w)| <= VERIFY_BUFFER_SIZE <==> |w.dictData.value| <= 1292
  {
    RootsSize(w.roots);
  }
}
