/** Automatic assignment of IPv4 addresses from pools. */
module IpPool {
  import opened Wrappers
  import opened Bytes
  import opened InetAddress
  import opened Text

  const SLASH: u8 := 47
  const DOT: u8 := 46

  datatype Pool = Pool(start: Ipv4, end: Ipv4)

  // --- Assignments as text ---

  /** Where `c` first occurs; the length of `s` if it does not. */
  function IndexOf(s: seq<u8>, c: u8): (i: nat)
    ensures i <= |s| && (i < |s| ==> s[i] == c) && forall j :: 0 <= j < i ==> s[j] != c
  {
    if s == [] || s[0] == c then 0 else IndexOf(s[1..], c) + 1
  }

  /** The parts between the separators, at least one. */
  function Split(s: seq<u8>, separator: u8): (parts: seq<seq<u8>>)
    ensures |parts| >= 1
  {
    var i := IndexOf(s, separator);
    if i == |s| then [s] else [s[..i]] + Split(s[i + 1..], separator)
  }

  function ParseOctet(s: seq<u8>): Option<u8> {
    var v := Parse(s, 10, 255);
    if v.None? then None else Some(v.value)
  }

  /** "192.168.192.1/24" or "192.168.192.1" */
  function ParseIpv4(s: seq<u8>): Option<Ipv4> {
    var parts := Split(Split(s, SLASH)[0], DOT);
    if |parts| != 4 then None
    else
      var a, b, c, d := ParseOctet(parts[0]), ParseOctet(parts[1]), ParseOctet(parts[2]), ParseOctet(parts[3]);
      if a.Some? && b.Some? && c.Some? && d.Some? then Some([a.value, b.value, c.value, d.value]) else None
  }

  function FormatIpv4(ip: Ipv4): seq<u8> {
    Format(ip[0], 10) + [DOT] + Format(ip[1], 10) + [DOT] + Format(ip[2], 10) + [DOT] + Format(ip[3], 10)
  }

  lemma {:induction false} IndexOfIs(s: seq<u8>, c: u8, i: nat)
    requires i <= |s| && (i < |s| ==> s[i] == c) && forall j :: 0 <= j < i ==> s[j] != c
    ensures IndexOf(s, c) == i
  {
    if i != 0 {
      assert s[0] != c;
      IndexOfIs(s[1..], c, i - 1);
    }
  }

  lemma SplitAtSeparator(part: seq<u8>, rest: seq<u8>, separator: u8)
    requires separator !in part
    ensures Split(part + [separator] + rest, separator) == [part] + Split(rest, separator)
  {
    var s := part + [separator] + rest;
    IndexOfIs(s, separator, |part|);
    assert s[..|part|] == part && s[|part| + 1..] == rest;
  }

  lemma SplitNothing(part: seq<u8>, separator: u8)
    requires separator !in part
    ensures Split(part, separator) == [part]
  {
    IndexOfIs(part, separator, |part|);
  }

  /** Reading an assignment undoes writing it, with or without a prefix length. */
  lemma ParseUndoesFormat(ip: Ipv4, suffix: seq<u8>)
    requires suffix == [] || suffix[0] == SLASH
    ensures ParseIpv4(FormatIpv4(ip) + suffix) == Some(ip)
  {
    var text := FormatIpv4(ip);
    hide ParseOctet, Format, Split;
    assert SLASH !in text && Split(text, DOT) == [Format(ip[0], 10), Format(ip[1], 10), Format(ip[2], 10), Format(ip[3], 10)] by {
      FormatParts(ip);
    }
    assert Split(text + suffix, SLASH)[0] == text by {
      if suffix == [] {
        SplitNothing(text, SLASH);
        assert text + suffix == text;
      } else {
        SplitAtSeparator(text, suffix[1..], SLASH);
        assert text + [SLASH] + suffix[1..] == text + suffix;
      }
    }
    OctetReadBack(ip[0]);
    OctetReadBack(ip[1]);
    OctetReadBack(ip[2]);
    OctetReadBack(ip[3]);
    var r := ParseIpv4(text + suffix);
    assert r.Some?;
    assert r.value == ip;
  }

  lemma OctetReadBack(n: u8)
    ensures ParseOctet(Format(n, 10)) == Some(n)
  {
    ParseFormat(n, 10, 255);
  }

  lemma FormatParts(ip: Ipv4)
    ensures SLASH !in FormatIpv4(ip)
    ensures Split(FormatIpv4(ip), DOT) == [Format(ip[0], 10), Format(ip[1], 10), Format(ip[2], 10), Format(ip[3], 10)]
  {
    SplitFour(Format(ip[0], 10), Format(ip[1], 10), Format(ip[2], 10), Format(ip[3], 10));
  }

  lemma SplitFour(a: seq<u8>, b: seq<u8>, c: seq<u8>, d: seq<u8>)
    requires DOT !in a && DOT !in b && DOT !in c && DOT !in d
    ensures Split(a + [DOT] + b + [DOT] + c + [DOT] + d, DOT) == [a, b, c, d]
  {
    hide Split;
    SplitAtSeparator(c, d, DOT);
    SplitNothing(d, DOT);
    var cd := c + [DOT] + d;
    SplitAtSeparator(b, cd, DOT);
    var bcd := b + [DOT] + cd;
    SplitAtSeparator(a, bcd, DOT);
    assert a + [DOT] + b + [DOT] + c + [DOT] + d == a + [DOT] + bcd;
  }

  function Joined(parts: seq<seq<u8>>, separator: u8): (s: seq<u8>)
    requires parts != []
  {
    if |parts| == 1 then parts[0] else parts[0] + [separator] + Joined(parts[1..], separator)
  }

  /** Splitting loses nothing, and leaves no separator in a part. */
  lemma {:induction false} JoinedSplit(s: seq<u8>, separator: u8)
    ensures Joined(Split(s, separator), separator) == s
    ensures forall part :: part in Split(s, separator) ==> separator !in part
    decreases |s|
  {
    var i := IndexOf(s, separator);
    if i < |s| {
      JoinedSplit(s[i + 1..], separator);
      assert s == s[..i] + [separator] + s[i + 1..];
      assert Split(s, separator)[1..] == Split(s[i + 1..], separator);
    }
  }

  /** Four parts without dots, each a number up to 255: an address. */
  predicate IsDotted(text: seq<u8>, parts: seq<seq<u8>>, ip: Ipv4) {
    && |parts| == 4 && text == parts[0] + [DOT] + (parts[1] + [DOT] + (parts[2] + [DOT] + parts[3]))
    && forall i :: 0 <= i < 4 ==> DOT !in parts[i] && Parse(parts[i], 10, 255) == Some(ip[i] as nat)
  }

  /** An assignment is an address exactly if what stands in front of its first slash, if any, is one in dotted form. */
  lemma ReadsDotted(s: seq<u8>, ip: Ipv4)
    ensures ParseIpv4(s) == Some(ip) <==> exists parts :: IsDotted(s[..IndexOf(s, SLASH)], parts, ip)
  {
    var text := s[..IndexOf(s, SLASH)];
    if ParseIpv4(s) == Some(ip) {
      ReadIsDotted(s, ip);
    }
    if parts :| IsDotted(text, parts, ip) {
      DottedIsRead(s, parts, ip);
    }
  }

  lemma BeforeSlash(s: seq<u8>)
    ensures Split(s, SLASH)[0] == s[..IndexOf(s, SLASH)]
  {
  }

  lemma ReadIsDotted(s: seq<u8>, ip: Ipv4)
    requires ParseIpv4(s) == Some(ip)
    ensures exists parts :: IsDotted(s[..IndexOf(s, SLASH)], parts, ip)
  {
    hide Parse, Split, Joined, IndexOf;
    BeforeSlash(s);
    var text := s[..IndexOf(s, SLASH)];
    var parts := Split(text, DOT);
    JoinedSplit(text, DOT);
    JoinedFour(parts, DOT);
    assert forall i :: 0 <= i < 4 ==> parts[i] in parts;
    assert IsDotted(text, parts, ip);
  }

  lemma DottedIsRead(s: seq<u8>, parts: seq<seq<u8>>, ip: Ipv4)
    requires IsDotted(s[..IndexOf(s, SLASH)], parts, ip)
    ensures ParseIpv4(s) == Some(ip)
  {
    hide Parse, Split, Joined, IndexOf;
    BeforeSlash(s);
    var a, b, c, d := parts[0], parts[1], parts[2], parts[3];
    SplitFour(a, b, c, d);
    assert a + [DOT] + b + [DOT] + c + [DOT] + d == a + [DOT] + (b + [DOT] + (c + [DOT] + d));
    hide IsDotted;
    assert ParseOctet(a) == Some(ip[0]) && ParseOctet(b) == Some(ip[1]) by { OctetsRead(s, parts, ip); }
    assert ParseOctet(c) == Some(ip[2]) && ParseOctet(d) == Some(ip[3]) by { OctetsRead(s, parts, ip); }
    var r := ParseIpv4(s);
    assert r.Some?;
    assert r.value == ip;
  }

  lemma OctetsRead(s: seq<u8>, parts: seq<seq<u8>>, ip: Ipv4)
    requires IsDotted(s[..IndexOf(s, SLASH)], parts, ip)
    ensures forall i :: 0 <= i < 4 ==> ParseOctet(parts[i]) == Some(ip[i])
  {
    hide Parse, IndexOf;
  }

  lemma JoinedFour(parts: seq<seq<u8>>, separator: u8)
    requires |parts| == 4
    ensures Joined(parts, separator) == parts[0] + [separator] + (parts[1] + [separator] + (parts[2] + [separator] + parts[3]))
  {
    assert parts[1..][1..] == parts[2..] && parts[2..][1..] == parts[3..];
    assert Joined(parts[3..], separator) == parts[3];
    assert Joined(parts[2..], separator) == parts[2] + [separator] + Joined(parts[3..], separator);
    assert Joined(parts[1..], separator) == parts[1] + [separator] + Joined(parts[2..], separator);
  }

  // --- Allocation ---

  function NumberOf(ip: Ipv4): (n: u32) {
    Pow256Values();
    FromBigEndianBound(ip);
    FromBigEndian(ip)
  }

  function AddressOf(n: u32): Ipv4 {
    BigEndian(n, 4)
  }

  /** The assigned addresses; what is not one is skipped. */
  function Taken(assignments: seq<seq<u8>>): (r: seq<Ipv4>) {
    if assignments == [] then []
    else
      var last := ParseIpv4(assignments[|assignments| - 1]);
      Taken(assignments[..|assignments| - 1]) + if last.Some? then [last.value] else []
  }

  /** Is `ip` what one of the assignments says? */
  predicate IsAssigned(assignments: seq<seq<u8>>, ip: Ipv4) {
    exists i :: 0 <= i < |assignments| && ParseIpv4(assignments[i]) == Some(ip)
  }

  lemma IsAssignedNext(front: seq<seq<u8>>, last: seq<u8>, ip: Ipv4)
    ensures IsAssigned(front + [last], ip) <==> IsAssigned(front, ip) || ParseIpv4(last) == Some(ip)
  {
    hide ParseIpv4;
    var all := front + [last];
    assert all[|front|] == last;
    assert forall i :: 0 <= i < |front| ==> all[i] == front[i];
  }

  lemma {:induction false} TakenContents(assignments: seq<seq<u8>>, ip: Ipv4)
    ensures ip in Taken(assignments) <==> IsAssigned(assignments, ip)
  {
    if assignments != [] {
      var front, last := assignments[..|assignments| - 1], assignments[|assignments| - 1];
      hide ParseIpv4, IsAssigned;
      TakenContents(front, ip);
      IsAssignedNext(front, last, ip);
      assert assignments == front + [last];
    }
  }

  function FirstFree(from: u32, end: u32, taken: seq<Ipv4>): (r: Option<Ipv4>)
    decreases end - from
  {
    if from > end then None
    else if AddressOf(from) !in taken then Some(AddressOf(from))
    else if from == end then None
    else FirstFree(from + 1, end, taken)
  }

  function FirstFreeIn(pools: seq<Pool>, taken: seq<Ipv4>): (r: Option<Ipv4>)
  {
    if pools == [] then None
    else
      var r := FirstFree(NumberOf(pools[0].start), NumberOf(pools[0].end), taken);
      if r.Some? then r else FirstFreeIn(pools[1..], taken)
  }

  function AllocateIpv4(pools: seq<Pool>, assignments: seq<seq<u8>>): (r: Option<Ipv4>) {
    FirstFreeIn(pools, Taken(assignments))
  }

  // --- What is allocated ---

  /** The addresses of a range, and of pools, in order. */
  function Range(from: u32, end: u32): (r: seq<Ipv4>)
    decreases end - from
  {
    if from > end then [] else if from == end then [AddressOf(from)] else [AddressOf(from)] + Range(from + 1, end)
  }

  function PoolAddresses(pools: seq<Pool>): (r: seq<Ipv4>) {
    if pools == [] then [] else Range(NumberOf(pools[0].start), NumberOf(pools[0].end)) + PoolAddresses(pools[1..])
  }

  /** `r` is the first of `candidates` not in `taken`; none is one when all are taken. */
  predicate IsFirstNotIn(candidates: seq<Ipv4>, taken: seq<Ipv4>, r: Option<Ipv4>) {
    match r
    case None => forall k :: 0 <= k < |candidates| ==> candidates[k] in taken
    case Some(ip) =>
      && ip !in taken
      && exists k :: 0 <= k < |candidates| && candidates[k] == ip && forall j :: 0 <= j < k ==> candidates[j] in taken
  }

  lemma FirstOfTwo(a: seq<Ipv4>, b: seq<Ipv4>, taken: seq<Ipv4>, r: Option<Ipv4>)
    requires IsFirstNotIn(a, taken, r) || (IsFirstNotIn(a, taken, None) && IsFirstNotIn(b, taken, r))
    requires r == None ==> IsFirstNotIn(a, taken, None) && IsFirstNotIn(b, taken, None)
    ensures IsFirstNotIn(a + b, taken, r)
  {
    var c := a + b;
    if r.Some? {
      if IsFirstNotIn(a, taken, r) {
        var k :| 0 <= k < |a| && a[k] == r.value && forall j :: 0 <= j < k ==> a[j] in taken;
        assert c[k] == r.value && forall j :: 0 <= j < k ==> c[j] in taken;
      } else {
        var k :| 0 <= k < |b| && b[k] == r.value && forall j :: 0 <= j < k ==> b[j] in taken;
        assert c[|a| + k] == r.value;
        assert forall j :: 0 <= j < |a| + k ==> c[j] in taken;
      }
    }
  }

  lemma {:induction false} FirstFreeIsFirst(from: u32, end: u32, taken: seq<Ipv4>)
    ensures IsFirstNotIn(Range(from, end), taken, FirstFree(from, end, taken))
    decreases end - from
  {
    if from <= end {
      var r := FirstFree(from, end, taken);
      var first := [AddressOf(from)];
      assert IsFirstNotIn(first, taken, if AddressOf(from) in taken then None else Some(first[0]));
      if from < end {
        FirstFreeIsFirst(from + 1, end, taken);
        FirstOfTwo(first, Range(from + 1, end), taken, r);
      }
    }
  }

  lemma {:induction false} FirstFreeInIsFirst(pools: seq<Pool>, taken: seq<Ipv4>)
    ensures IsFirstNotIn(PoolAddresses(pools), taken, FirstFreeIn(pools, taken))
  {
    if pools != [] {
      var from, end := NumberOf(pools[0].start), NumberOf(pools[0].end);
      FirstFreeIsFirst(from, end, taken);
      FirstFreeInIsFirst(pools[1..], taken);
      FirstOfTwo(Range(from, end), PoolAddresses(pools[1..]), taken, FirstFreeIn(pools, taken));
    }
  }

  /** The first unassigned address in pool order is allocated, and none exactly when every one is assigned. */
  lemma AllocatesFirst(pools: seq<Pool>, assignments: seq<seq<u8>>)
    ensures IsFirstNotIn(PoolAddresses(pools), Taken(assignments), AllocateIpv4(pools, assignments))
  {
    FirstFreeInIsFirst(pools, Taken(assignments));
  }

  /** The pool addresses in a range are those whose numbers are. */
  lemma {:induction false} RangeContents(from: u32, end: u32, ip: Ipv4)
    ensures ip in Range(from, end) <==> from <= NumberOf(ip) <= end
    decreases end - from
  {
    Pow256Values();
    FromBigEndianRoundTrip(ip);
    assert AddressOf(NumberOf(ip)) == ip;
    if from <= end {
      BigEndianExact(from, 4);
      assert NumberOf(AddressOf(from)) == from;
      if from < end {
        RangeContents(from + 1, end, ip);
      }
    }
  }

  /** A range counts up from its first address. */
  lemma {:induction false} RangeCountsUp(from: u32, end: u32)
    ensures |Range(from, end)| == Max(0, end - from + 1)
    ensures forall i :: 0 <= i < |Range(from, end)| ==> FromBigEndian(Range(from, end)[i]) == from + i
    decreases end - from
  {
    if from <= end {
      Pow256Values();
      BigEndianExact(from, 4);
      if from < end {
        RangeCountsUp(from + 1, end);
        var more := Range(from + 1, end);
        assert forall i :: 0 < i < |Range(from, end)| ==> Range(from, end)[i] == more[i - 1];
      }
    }
  }

  /** Pools are searched one after the other. */
  lemma {:induction false} PoolsInOrder(a: seq<Pool>, b: seq<Pool>)
    ensures PoolAddresses(a + b) == PoolAddresses(a) + PoolAddresses(b)
  {
    if a == [] {
      assert a + b == b;
    } else {
      hide Range;
      assert (a + b)[1..] == a[1..] + b;
      PoolsInOrder(a[1..], b);
    }
  }

  // --- Allocating repeatedly ---

  ghost function Free(pools: seq<Pool>, assignments: seq<seq<u8>>): set<Ipv4> {
    set ip | ip in PoolAddresses(pools) && ip !in Taken(assignments)
  }

  /** Allocate `n` times, recording each address with its prefix length. */
  function AllocateAll(pools: seq<Pool>, assignments: seq<seq<u8>>, suffix: seq<u8>, n: nat): (ips: seq<Ipv4>)
    decreases n
  {
    if n == 0 then []
    else
      match AllocateIpv4(pools, assignments)
      case None => []
      case Some(ip) => [ip] + AllocateAll(pools, assignments + [FormatIpv4(ip) + suffix], suffix, n - 1)
  }

  lemma FreeAfter(pools: seq<Pool>, assignments: seq<seq<u8>>, suffix: seq<u8>, ip: Ipv4)
    requires suffix == [] || suffix[0] == SLASH
    ensures Free(pools, assignments + [FormatIpv4(ip) + suffix]) == Free(pools, assignments) - {ip}
  {
    ParseUndoesFormat(ip, suffix);
    var more := assignments + [FormatIpv4(ip) + suffix];
    assert more[..|assignments|] == assignments;
    hide ParseIpv4, FormatIpv4;
    assert Taken(more) == Taken(assignments) + [ip];
  }

  lemma AllocatesFree(pools: seq<Pool>, assignments: seq<seq<u8>>)
    ensures match AllocateIpv4(pools, assignments)
      case None => Free(pools, assignments) == {}
      case Some(ip) => ip in Free(pools, assignments)
  {
    AllocatesFirst(pools, assignments);
  }

  /** Distinct addresses of a set, as many as asked for or as there are. */
  predicate AreDistinctIn(ips: seq<Ipv4>, free: set<Ipv4>, n: nat) {
    && |ips| == Min(n, |free|)
    && (forall i :: 0 <= i < |ips| ==> ips[i] in free)
    && HasNoDuplicates(ips)
  }

  lemma DistinctNext(ip: Ipv4, rest: seq<Ipv4>, free: set<Ipv4>, n: nat)
    requires ip in free && AreDistinctIn(rest, free - {ip}, n)
    ensures AreDistinctIn([ip] + rest, free, n + 1)
  {
    assert |free - {ip}| == |free| - 1;
    var ips := [ip] + rest;
    assert forall i :: 1 <= i < |ips| ==> ips[i] == rest[i - 1];
  }

  /** Repeated allocation hands out distinct free addresses, as many as are asked for or as there are. */
  lemma {:induction false} AllocationsAreDistinct(pools: seq<Pool>, assignments: seq<seq<u8>>, suffix: seq<u8>, n: nat)
    requires suffix == [] || suffix[0] == SLASH
    ensures AreDistinctIn(AllocateAll(pools, assignments, suffix, n), Free(pools, assignments), n)
    decreases n
  {
    hide Free, FormatIpv4, AllocateIpv4, AreDistinctIn;
    AllocatesFree(pools, assignments);
    var r := AllocateIpv4(pools, assignments);
    if n == 0 || r.None? {
      assert AreDistinctIn([], Free(pools, assignments), n) by {
        NothingAllocated(Free(pools, assignments), n);
      }
    } else {
      var more := assignments + [FormatIpv4(r.value) + suffix];
      FreeAfter(pools, assignments, suffix, r.value);
      AllocationsAreDistinct(pools, more, suffix, n - 1);
      DistinctNext(r.value, AllocateAll(pools, more, suffix, n - 1), Free(pools, assignments), n - 1);
    }
  }

  lemma NothingAllocated(free: set<Ipv4>, n: nat)
    requires n == 0 || free == {}
    ensures AreDistinctIn([], free, n)
  {
  }
}
