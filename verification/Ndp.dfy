/** Neighbour discovery: the ICMPv6 checksum and the advertisements sent under it. */
module Ndp {
  import opened Wrappers
  import opened Bytes
  import opened InetAddress

  const ICMPV6_RS: u8 := 133
  const ICMPV6_RA: u8 := 134
  const ICMPV6_NS: u8 := 135
  const ICMPV6_NA: u8 := 136
  const IPV6_NEXT_HEADER_ICMPV6 := 58
  const NA_LENGTH := 32
  const RA_LENGTH := 48

  /** The longest body whose sum cannot overflow 32 bits. */
  const MAX_BODY := 131_039

  // --- One's-complement sums ---

  function Word(high: u8, low: u8): u16 {
    0x100 * high + low
  }

  /** The sum of the big-endian 16-bit words of `s`, an odd last byte padded with zero. */
  function WordSum(s: seq<u8>): (sum: nat)
    ensures sum <= 0xffff * ((|s| + 1) / 2)
    ensures |s| % 2 == 1 ==> sum <= 0xffff * (|s| / 2) + 0xff00
  {
    if |s| == 0 then 0 else if |s| == 1 then Word(s[0], 0) else Word(s[0], s[1]) + WordSum(s[2..])
  }

  function Fold(sum: nat): (r: u16)
    ensures r % 0xffff == sum % 0xffff
    ensures r == 0 <==> sum == 0
  {
    if sum / 0x1_0000 == 0 then sum
    else
      FoldStep(sum);
      Fold(sum % 0x1_0000 + sum / 0x1_0000)
  }

  /** A carry is worth one modulo 65,535. */
  lemma FoldStep(sum: nat)
    requires sum / 0x1_0000 != 0
    ensures 0 < sum % 0x1_0000 + sum / 0x1_0000 < sum
    ensures (sum % 0x1_0000 + sum / 0x1_0000) % 0xffff == sum % 0xffff
  {
    var high, low := sum / 0x1_0000, sum % 0x1_0000;
    assert sum == 0xffff * high + (low + high);
  }

  /** The addresses, the length and the protocol: the pseudo-header of section 8.1 of RFC 8200. */
  function PseudoSum(src: Ipv6, dst: Ipv6, length: u32): (sum: nat) {
    WordSum(src) + WordSum(dst) + length / 0x1_0000 + length % 0x1_0000 + IPV6_NEXT_HEADER_ICMPV6
  }

  /** The mathematical sum over pseudo-header and body; a body's length is cut to 32 bits. */
  function TotalSum(src: Ipv6, dst: Ipv6, body: seq<u8>): (sum: nat) {
    PseudoSum(src, dst, |body| % 0x1_0000_0000) + WordSum(body)
  }

  /** The pseudo-header as bytes: the addresses, the length in four bytes, three zeros and the protocol. */
  function PseudoHeader(src: Ipv6, dst: Ipv6, length: u32): (s: seq<u8>)
    ensures |s| == 40
  {
    src + dst + BigEndian(length, 4) + [0, 0, 0, 58]
  }

  lemma {:induction false} WordSumConcat(a: seq<u8>, b: seq<u8>)
    requires |a| % 2 == 0
    ensures WordSum(a + b) == WordSum(a) + WordSum(b)
    decreases |a|
  {
    if a == [] {
      assert a + b == b;
    } else {
      assert (a + b)[2..] == a[2..] + b;
      WordSumConcat(a[2..], b);
    }
  }

  /** What is summed up is the sum of the words of pseudo-header and body. */
  lemma TotalIsWordSum(src: Ipv6, dst: Ipv6, body: seq<u8>)
    ensures TotalSum(src, dst, body) == WordSum(PseudoHeader(src, dst, |body| % 0x1_0000_0000) + body)
  {
    var length: u32 := |body| % 0x1_0000_0000;
    HeaderSum(src, dst, length);
    hide WordSum, PseudoHeader, PseudoSum;
    WordSumConcat(PseudoHeader(src, dst, length), body);
  }

  lemma HeaderSum(src: Ipv6, dst: Ipv6, length: u32)
    ensures WordSum(PseudoHeader(src, dst, length)) == PseudoSum(src, dst, length)
  {
    hide WordSum, BigEndian, Word;
    var n, protocol: seq<u8> := BigEndian(length, 4), [0, 0, 0, 58];
    WordSumConcat(src + dst + n, protocol);
    WordSumConcat(src + dst, n);
    WordSumConcat(src, dst);
    LengthWords(length);
    assert WordSum(protocol) == 58 by { ProtocolWords(); }
  }

  lemma ProtocolWords()
    ensures WordSum([0, 0, 0, 58]) == 58
  {
    FourBytesSum(0, 0, 0, 58);
  }

  lemma FourBytesSum(a: u8, b: u8, c: u8, d: u8)
    ensures WordSum([a, b, c, d]) == Word(a, b) + Word(c, d)
  {
    assert [a, b, c, d][2..] == [c, d] && [c, d][2..] == [];
  }

  lemma LengthWords(length: u32)
    ensures WordSum(BigEndian(length, 4)) == length / 0x1_0000 + length % 0x1_0000
  {
    var a, b, c, d := length / 0x100_0000, length / 0x1_0000 % 0x100, length / 0x100 % 0x100, length % 0x100;
    BytesOf(length);
    hide WordSum, BigEndian;
    FourBytesSum(a, b, c, d);
    TwoWords(length);
  }

  lemma BytesOf(n: u32)
    ensures BigEndian(n, 4) == [n / 0x100_0000, n / 0x1_0000 % 0x100, n / 0x100 % 0x100, n % 0x100]
  {
    var h := n / 0x1_0000;
    assert n / 0x100 / 0x100 == h;
    assert BigEndian(h / 0x100, 1) == [h / 0x100];
    assert BigEndian(h, 2) == [h / 0x100, h % 0x100];
    assert BigEndian(n / 0x100, 3) == BigEndian(h, 2) + [n / 0x100 % 0x100];
  }

  lemma TwoWords(n: nat)
    ensures n / 0x1_0000 == 0x100 * (n / 0x100_0000) + n / 0x1_0000 % 0x100
    ensures n % 0x1_0000 == 0x100 * (n / 0x100 % 0x100) + n % 0x100
  {
    var m := n / 0x100;
    var c, q := m % 0x100, m / 0x100;
    RemainderIsUnique(n, 0x1_0000, q, 0x100 * c + n % 0x100);
    RemainderIsUnique(n, 0x100_0000, q / 0x100, 0x1_0000 * (q % 0x100) + n % 0x1_0000);
  }

  /** What a wrapping 32-bit accumulator holds for a sum. */
  function Wrap(sum: nat): u32 {
    sum % 0x1_0000_0000
  }

  function WrappedSum(src: Ipv6, dst: Ipv6, body: seq<u8>): u32 {
    Wrap(TotalSum(src, dst, body))
  }

  function Checksum(src: Ipv6, dst: Ipv6, body: seq<u8>): (c: u16) {
    0xffff - Fold(WrappedSum(src, dst, body))
  }

  /** The receiver's check of section 2.3 of RFC 4443: the one's-complement sum is all ones. */
  predicate Verifies(src: Ipv6, dst: Ipv6, body: seq<u8>) {
    var sum := TotalSum(src, dst, body);
    sum != 0 && sum % 0xffff == 0
  }

  // --- The program's loops ---

  /** `sum += n` on a 32-bit accumulator. */
  function WrappingAdd(a: u32, n: nat): u32 {
    Wrap(a + n)
  }

  lemma AddWraps(sum: nat, n: nat)
    ensures WrappingAdd(Wrap(sum), n) == Wrap(sum + n)
  {
  }

  lemma WordSumStep(s: seq<u8>, i: nat)
    requires i + 1 < |s|
    ensures WordSum(s[i..]) == Word(s[i], s[i + 1]) + WordSum(s[i + 2..])
  {
    assert s[i..][2..] == s[i + 2..];
  }

  method AddAddress(sum: u32, ip: Ipv6, ghost exact: nat) returns (r: u32)
    requires sum == Wrap(exact)
    ensures r == Wrap(exact + WordSum(ip))
  {
    hide Wrap, WordSum, WrappingAdd, Word;
    r := sum;
    ghost var e: nat := exact;
    var i := 0;
    while i < 16
      invariant 0 <= i <= 16 && i % 2 == 0
      invariant r == Wrap(e) && e + WordSum(ip[i..]) == exact + WordSum(ip)
    {
      WordSumStep(ip, i);
      AddWraps(e, Word(ip[i], ip[i + 1]));
      r := WrappingAdd(r, Word(ip[i], ip[i + 1]));
      e := e + Word(ip[i], ip[i + 1]);
      i := i + 2;
    }
    LastWord(ip[16..]);
  }

  method AddBody(sum: u32, body: seq<u8>, ghost exact: nat) returns (r: u32)
    requires sum == Wrap(exact)
    ensures r == Wrap(exact + WordSum(body))
  {
    hide Wrap, WordSum, WrappingAdd, Word;
    r := sum;
    ghost var e: nat := exact;
    var i := 0;
    while i + 1 < |body|
      invariant 0 <= i <= |body| && i % 2 == 0
      invariant r == Wrap(e) && e + WordSum(body[i..]) == exact + WordSum(body)
    {
      WordSumStep(body, i);
      AddWraps(e, Word(body[i], body[i + 1]));
      r := WrappingAdd(r, Word(body[i], body[i + 1]));
      e := e + Word(body[i], body[i + 1]);
      i := i + 2;
    }
    LastWord(body[i..]);
    if |body| % 2 != 0 {
      AddWraps(e, Word(body[|body| - 1], 0));
      r := WrappingAdd(r, Word(body[|body| - 1], 0));
    }
  }

  lemma LastWord(s: seq<u8>)
    requires |s| < 2
    ensures WordSum(s) == if s == [] then 0 else Word(s[0], 0)
  {
  }

  method FoldCarries(sum: u32) returns (r: u16)
    ensures r == Fold(sum)
  {
    var s := sum;
    while s / 0x1_0000 != 0
      invariant Fold(s) == Fold(sum)
      decreases s
    {
      FoldStep(s);
      s := s % 0x1_0000 + s / 0x1_0000;
    }
    r := s;
  }

  lemma WrapOfZero()
    ensures Wrap(0) == 0
  {
  }

  method Icmpv6Checksum(src: Ipv6, dst: Ipv6, body: seq<u8>) returns (c: u16)
    ensures c == Checksum(src, dst, body)
  {
    hide WordSum, WrappingAdd, Wrap, Fold;
    var length := |body| % 0x1_0000_0000;
    ghost var exact := WordSum(src) + WordSum(dst);
    var sum := 0;
    WrapOfZero();
    sum := AddAddress(sum, src, 0);
    sum := AddAddress(sum, dst, WordSum(src));
    AddWraps(exact, length / 0x1_0000);
    sum := WrappingAdd(sum, length / 0x1_0000);
    AddWraps(exact + length / 0x1_0000, length % 0x1_0000);
    sum := WrappingAdd(sum, length % 0x1_0000);
    AddWraps(exact + length / 0x1_0000 + length % 0x1_0000, IPV6_NEXT_HEADER_ICMPV6);
    sum := WrappingAdd(sum, IPV6_NEXT_HEADER_ICMPV6);
    sum := AddBody(sum, body, PseudoSum(src, dst, length));
    var folded := FoldCarries(sum);
    c := 0xffff - folded;
  }

  // --- Writing the checksum ---

  /** The body with `c` in its checksum field. */
  function WithChecksum(body: seq<u8>, c: u16): (r: seq<u8>)
    requires |body| >= 4
    ensures |r| == |body|
  {
    body[2 := c / 0x100][3 := c % 0x100]
  }

  lemma WordSumWithChecksum(body: seq<u8>, c: u16)
    requires |body| >= 4 && body[2] == 0 && body[3] == 0
    ensures WordSum(WithChecksum(body, c)) == WordSum(body) + c
  {
    var r := WithChecksum(body, c);
    assert r[2..][2..] == r[4..] == body[4..] == body[2..][2..];
  }

  /** No body up to the limit makes the accumulator wrap. */
  lemma SumFits(src: Ipv6, dst: Ipv6, body: seq<u8>)
    requires |body| <= MAX_BODY
    ensures TotalSum(src, dst, body) < 0x1_0000_0000
  {
    assert WordSum(src) <= 0xffff * 8 && WordSum(dst) <= 0xffff * 8;
    assert WordSum(body) <= if |body| == MAX_BODY then 0xffff * 65_519 + 0xff00 else 0xffff * 65_519;
    hide WordSum;
  }

  /** One byte more, and some body does. */
  lemma SumOverflows()
    ensures exists src: Ipv6, dst: Ipv6, body: seq<u8> ::
      |body| == MAX_BODY + 1 && TotalSum(src, dst, body) >= 0x1_0000_0000
  {
    var ip: Ipv6, body := Ones(16), Ones(MAX_BODY + 1);
    OnesSum(8);
    OnesSum(65_520);
    assert TotalSum(ip, ip, body) >= 0x1_0000_0000;
  }

  function Ones(n: nat): (s: seq<u8>)
    ensures |s| == n
  {
    seq(n, _ => 0xff)
  }

  lemma {:induction false} OnesSum(words: nat)
    ensures WordSum(Ones(2 * words)) == 0xffff * words
  {
    if words != 0 {
      OnesSum(words - 1);
      assert Ones(2 * words)[2..] == Ones(2 * (words - 1));
    }
  }

  /**
   A sum and the complement of its folded form make a multiple of 65,535 that is not zero. As 2^32 - 1 is such a
   multiple too, the total stays below 2^32 if the sum does.
   */
  lemma ComplementCloses(sum: nat)
    ensures var total := sum + (0xffff - Fold(sum));
      && total > 0 && total % 0xffff == 0 && Fold(total) == 0xffff
      && (sum < 0x1_0000_0000 ==> total < 0x1_0000_0000)
  {
    hide Fold;
    var f: int := Fold(sum);
    var total := sum + (0xffff - f);
    DifferenceDivides(sum, f);
    assert total % 0xffff == 0 by {
      assert total == (sum - f) + 0xffff;
    }
    AllOnes(Fold(total));
    if sum < 0x1_0000_0000 {
      assert 0xffff_ffff == 0xffff * 0x1_0001;
      assert total == 0xffff * (total / 0xffff);
    }
  }

  lemma DifferenceDivides(a: nat, b: nat)
    requires a % 0xffff == b % 0xffff
    ensures (a - b) % 0xffff == 0
  {
    assert a - b == 0xffff * (a / 0xffff - b / 0xffff);
  }

  /** A body of any length that carries its checksum recomputes to exactly zero, even when the accumulator wraps. */
  lemma RecomputesToZero(src: Ipv6, dst: Ipv6, body: seq<u8>)
    requires |body| >= 4 && body[2] == 0 && body[3] == 0
    ensures Checksum(src, dst, WithChecksum(body, Checksum(src, dst, body))) == 0
  {
    hide Fold, TotalSum, WithChecksum;
    var c, sum := Checksum(src, dst, body), WrappedSum(src, dst, body);
    TotalWithChecksum(src, dst, body, c);
    WrapsAlike(TotalSum(src, dst, body), c);
    ComplementCloses(sum);
    assert WrappedSum(src, dst, WithChecksum(body, c)) == sum + c;
  }

  lemma WrapsAlike(a: nat, c: nat)
    ensures Wrap(a + c) == Wrap(Wrap(a) + c)
  {
  }

  /**
   The receiver accepts it exactly when the number of lost carries is a multiple of 65,535: 2^32 is one more than a
   multiple of 65,535, so every carry out of the accumulator makes the sum miss by one.
   */
  lemma AcceptedExactly(src: Ipv6, dst: Ipv6, body: seq<u8>)
    requires |body| >= 4 && body[2] == 0 && body[3] == 0
    ensures Verifies(src, dst, WithChecksum(body, Checksum(src, dst, body))) <==>
      (TotalSum(src, dst, body) / 0x1_0000_0000) % 0xffff == 0
  {
    hide Fold, TotalSum, WithChecksum;
    var c, total := Checksum(src, dst, body), TotalSum(src, dst, body);
    TotalWithChecksum(src, dst, body, c);
    ComplementCloses(Wrap(total));
    CarriesCount(total, c);
  }

  lemma CarriesCount(total: nat, c: nat)
    requires (Wrap(total) + c) % 0xffff == 0 && Wrap(total) + c > 0
    ensures total + c != 0 && ((total + c) % 0xffff == 0 <==> (total / 0x1_0000_0000) % 0xffff == 0)
  {
    var carries, rest := total / 0x1_0000_0000, (Wrap(total) + c) / 0xffff;
    assert Wrap(total) + c == 0xffff * rest;
    assert total == carries * 0x1_0000_0000 + Wrap(total);
    hide Wrap;
    MultipleMore(carries * 0x1_0001 + rest, carries);
    assert total + c == 0xffff * (carries * 0x1_0001 + rest) + carries;
  }

  lemma MultipleMore(q: nat, n: nat)
    ensures (0xffff * q + n) % 0xffff == n % 0xffff
  {
  }

  /** Such a body: ones throughout but for the checksum field, 131,042 bytes. It recomputes to zero, and is rejected. */
  lemma OnesAreRejected(ip: Ipv6)
    requires ip == Ones(16)
    ensures var message := WithChecksum(OnesWithoutChecksum(), Checksum(ip, ip, OnesWithoutChecksum()));
      Checksum(ip, ip, message) == 0 && !Verifies(ip, ip, message)
  {
    hide WordSum, Verifies, Checksum, WithChecksum, Ones, OnesWithoutChecksum;
    OnesSum(8);
    OnesWithoutChecksumSum();
    AcceptedExactly(ip, ip, OnesWithoutChecksum());
    RecomputesToZero(ip, ip, OnesWithoutChecksum());
  }

  function OnesWithoutChecksum(): (s: seq<u8>)
    ensures |s| == MAX_BODY + 3 && s[2] == 0 && s[3] == 0
  {
    [0xff, 0xff, 0, 0] + Ones(MAX_BODY - 1)
  }

  lemma OnesWithoutChecksumSum()
    ensures WordSum(OnesWithoutChecksum()) == 0xffff * 65_520
  {
    hide Ones, WordSum;
    OnesSum(65_519);
    WordSumInFront(0xff, 0xff, [0, 0] + Ones(MAX_BODY - 1));
    WordSumInFront(0, 0, Ones(MAX_BODY - 1));
    assert [0xff, 0xff] + ([0, 0] + Ones(MAX_BODY - 1)) == OnesWithoutChecksum();
  }

  lemma WordSumInFront(high: u8, low: u8, rest: seq<u8>)
    ensures WordSum([high, low] + rest) == Word(high, low) + WordSum(rest)
  {
    assert ([high, low] + rest)[2..] == rest;
  }

  /** Within the limit no carry is lost: the written checksum recomputes to zero, and the receiver accepts it. */
  lemma ChecksumVerifies(src: Ipv6, dst: Ipv6, body: seq<u8>)
    requires 4 <= |body| <= MAX_BODY && body[2] == 0 && body[3] == 0
    ensures var message := WithChecksum(body, Checksum(src, dst, body));
      Checksum(src, dst, message) == 0 && Verifies(src, dst, message)
  {
    hide Checksum, TotalSum, WithChecksum, Verifies;
    RecomputesToZero(src, dst, body);
    AcceptedExactly(src, dst, body);
    SumFits(src, dst, body);
  }

  lemma TotalWithChecksum(src: Ipv6, dst: Ipv6, body: seq<u8>, c: u16)
    requires |body| >= 4 && body[2] == 0 && body[3] == 0
    ensures TotalSum(src, dst, WithChecksum(body, c)) == TotalSum(src, dst, body) + c
  {
    hide WordSum, WithChecksum;
    WordSumWithChecksum(body, c);
  }

  /** Recomputing to zero is the receiver's check. */
  lemma ZeroIsAccepted(src: Ipv6, dst: Ipv6, body: seq<u8>)
    requires |body| <= MAX_BODY
    ensures Checksum(src, dst, body) == 0 <==> Verifies(src, dst, body)
  {
    hide Fold, TotalSum;
    SumFits(src, dst, body);
    var sum := TotalSum(src, dst, body);
    AllOnes(Fold(sum));
    assert Checksum(src, dst, body) == 0xffff - Fold(sum);
  }

  lemma AllOnes(r: u16)
    ensures r == 0xffff <==> r != 0 && r % 0xffff == 0
  {
  }

  // --- Advertisements ---

  /** A neighbour advertisement for `target` that a receiver accepts. */
  predicate IsNeighborAdvertisement(m: seq<u8>, target: Ipv6, mac: Mac, solicited: bool, override: bool, src: Ipv6, dst: Ipv6) {
    && |m| == NA_LENGTH
    && m[..2] == [ICMPV6_NA, 0]
    && m[4..8] == [(if solicited then 0x40 else 0) + (if override then 0x20 else 0), 0, 0, 0]
    && m[8..24] == target
    && m[24..] == [2, 1] + mac
    && Verifies(src, dst, m)
  }

  /** Hop limit, no flags, a lifetime of 1800 seconds, and no timers. */
  function RouterFields(): (s: seq<u8>)
    ensures |s| == 12
  {
    [64, 0] + BigEndian(1800, 2) + BigEndian(0, 4) + BigEndian(0, 4)
  }

  /** The prefix option: on link and autonomous, valid for a day, preferred for four hours. */
  function PrefixFields(length: u8): (s: seq<u8>)
    ensures |s| == 16
  {
    [3, 4, length, 0xc0] + BigEndian(86_400, 4) + BigEndian(14_400, 4) + BigEndian(0, 4)
  }

  /**
   A router advertisement of `prefix` that a receiver accepts: hop limit 64, a lifetime of 1800 seconds and no timers; the
   prefix on link and autonomous, valid for a day and preferred for four hours.
   */
  predicate IsRouterAdvertisement(m: seq<u8>, prefix: Ipv6, length: u8, src: Ipv6, dst: Ipv6) {
    && |m| == RA_LENGTH
    && m[..2] == [ICMPV6_RA, 0]
    && m[4] == 64 && m[5] == 0 && m[6] == 0x07 && m[7] == 0x08
    && (forall i :: 8 <= i < 16 ==> m[i] == 0)
    && m[16] == 3 && m[17] == 4 && m[18] == length && m[19] == 0xc0
    && FromBigEndian(m[20..24]) == 86_400 && FromBigEndian(m[24..28]) == 14_400
    && (forall i :: 28 <= i < 32 ==> m[i] == 0)
    && m[32..] == prefix
    && Verifies(src, dst, m)
  }

  method SetChecksum(src: Ipv6, dst: Ipv6, body: seq<u8>) returns (message: seq<u8>)
    requires 4 <= |body| <= MAX_BODY && body[2] == 0 && body[3] == 0
    ensures |message| == |body| && message[..2] == body[..2] && message[4..] == body[4..]
    ensures Verifies(src, dst, message)
  {
    var c := Icmpv6Checksum(src, dst, body);
    ChecksumVerifies(src, dst, body);
    message := body[2 := c / 0x100];
    message := message[3 := c % 0x100];
  }

  method BuildNa(target: Ipv6, mac: Mac, solicited: bool, override: bool, src: Ipv6, dst: Ipv6) returns (m: seq<u8>)
    ensures IsNeighborAdvertisement(m, target, mac, solicited, override, src, dst)
  {
    var buf: seq<u8> := [ICMPV6_NA, 0, 0, 0];
    var flags: u8 := 0;
    if solicited {
      flags := flags + 0x40;
    }
    if override {
      flags := flags + 0x20;
    }
    buf := buf + [flags, 0, 0, 0];
    buf := buf + target;
    buf := buf + [2, 1];
    buf := buf + mac;
    assert buf[4..] == [flags, 0, 0, 0] + target + [2, 1] + mac;
    m := SetChecksum(src, dst, buf);
    assert m[4..8] == m[4..][..4] && m[8..24] == m[4..][4..20] && m[24..] == m[4..][20..];
  }

  method BuildRa(src: Ipv6, dst: Ipv6, prefix: Ipv6, length: u8) returns (m: seq<u8>)
    ensures IsRouterAdvertisement(m, prefix, length, src, dst)
  {
    hide Verifies;
    var router, option := RouterFields(), PrefixFields(length);
    hide RouterFields, PrefixFields;
    var buf: seq<u8> := [ICMPV6_RA, 0, 0, 0];
    buf := buf + router;
    buf := buf + option;
    buf := buf + prefix;
    assert buf[4..] == router + option + prefix;
    m := SetChecksum(src, dst, buf);
    Parts(m, router, option, prefix);
    RouterFieldsAt(m);
    PrefixFieldsAt(m, length);
  }

  lemma Parts(m: seq<u8>, a: seq<u8>, b: seq<u8>, c: seq<u8>)
    requires |m| >= 4 && m[4..] == a + b + c
    ensures m[4..4 + |a|] == a && m[4 + |a|..4 + |a| + |b|] == b && m[4 + |a| + |b|..] == c
  {
    var rest := m[4..];
    assert m[4..4 + |a|] == rest[..|a|];
    assert m[4 + |a|..4 + |a| + |b|] == rest[|a|..|a| + |b|];
    assert m[4 + |a| + |b|..] == rest[|a| + |b|..];
  }

  lemma RouterFieldsAt(m: seq<u8>)
    requires |m| == RA_LENGTH && m[4..16] == RouterFields()
    ensures m[4] == 64 && m[5] == 0 && m[6] == 0x07 && m[7] == 0x08
    ensures forall i :: 8 <= i < 16 ==> m[i] == 0
  {
    var fields := RouterFields();
    assert BigEndian(1800, 2) == [0x07, 0x08] by { assert BigEndian(7, 1) == [7]; }
    assert BigEndian(0, 4) == [0, 0, 0, 0] by { assert BigEndian(0, 2) == [0, 0]; }
    forall i | 4 <= i < 16 ensures m[i] == fields[i - 4] {
      assert m[i] == m[4..16][i - 4];
    }
    hide BigEndian, RouterFields;
  }

  lemma PrefixFieldsAt(m: seq<u8>, length: u8)
    requires |m| == RA_LENGTH && m[16..32] == PrefixFields(length)
    ensures m[16] == 3 && m[17] == 4 && m[18] == length && m[19] == 0xc0
    ensures FromBigEndian(m[20..24]) == 86_400 && FromBigEndian(m[24..28]) == 14_400
    ensures forall i :: 28 <= i < 32 ==> m[i] == 0
  {
    var valid, preferred, reserved := BigEndian(86_400, 4), BigEndian(14_400, 4), BigEndian(0, 4);
    Pow256Values();
    BigEndianExact(86_400, 4);
    BigEndianExact(14_400, 4);
    assert reserved == [0, 0, 0, 0] by { assert BigEndian(0, 2) == [0, 0]; }
    hide BigEndian, FromBigEndian;
    var first: seq<u8> := [3, 4, length, 0xc0];
    var fields := first + valid + preferred + reserved;
    assert m[16..32] == fields;
    FourParts(m, first, valid, preferred, reserved);
    assert m[16..20][0] == 3 && m[16..20][1] == 4 && m[16..20][2] == length && m[16..20][3] == 0xc0;
    forall i | 28 <= i < 32 ensures m[i] == 0 {
      assert m[i] == m[28..32][i - 28];
    }
  }

  lemma FourParts(m: seq<u8>, a: seq<u8>, b: seq<u8>, c: seq<u8>, d: seq<u8>)
    requires |m| >= 32 && m[16..32] == a + b + c + d && |a| == |b| == |c| == |d| == 4
    ensures m[16..20] == a && m[20..24] == b && m[24..28] == c && m[28..32] == d
  {
    var s := m[16..32];
    SliceOfSlice(m, 16, 32, 0, 4);
    SliceOfSlice(m, 16, 32, 4, 8);
    SliceOfSlice(m, 16, 32, 8, 12);
    SliceOfSlice(m, 16, 32, 12, 16);
    assert s[0..4] == a && s[4..8] == b && s[8..12] == c && s[12..16] == d;
  }

  lemma SliceOfSlice(m: seq<u8>, lo: nat, hi: nat, from: nat, to: nat)
    requires lo <= hi <= |m| && from <= to <= hi - lo
    ensures m[lo..hi][from..to] == m[lo + from..lo + to]
  {
    var s := m[lo..hi];
    assert forall i :: from <= i < to ==> s[i] == m[lo + i];
    assert |s[from..to]| == |m[lo + from..lo + to]|;
    forall i | 0 <= i < to - from ensures s[from..to][i] == m[lo + from..lo + to][i] {
    }
  }

  // --- Answering solicitations ---

  datatype Member = Member(mac: Mac, ipv6: Option<Ipv6>)

  datatype NdpAction = Reply(message: seq<u8>) | Ignore

  const UNSPECIFIED: Ipv6 := [0, 0, 0, 0, 0, 0, 0, 0, 0, 0, 0, 0, 0, 0, 0, 0]

  /** ff02::1 */
  const ALL_NODES: Ipv6 := [0xff, 0x02, 0, 0, 0, 0, 0, 0, 0, 0, 0, 0, 0, 0, 0, 0x01]

  /** fe80::1 */
  const ROUTER: Ipv6 := [0xfe, 0x80, 0, 0, 0, 0, 0, 0, 0, 0, 0, 0, 0, 0, 0, 0x01]

  predicate IsFirstHolder(members: seq<Member>, ip: Ipv6, i: int) {
    0 <= i < |members| && members[i].ipv6 == Some(ip) && forall j :: 0 <= j < i ==> members[j].ipv6 != Some(ip)
  }

  predicate IsHeld(members: seq<Member>, ip: Ipv6) {
    exists i :: 0 <= i < |members| && members[i].ipv6 == Some(ip)
  }

  /** The first member holding `ip`. */
  method LookupIpv6(members: seq<Member>, ip: Ipv6) returns (found: Option<Member>)
    ensures found.Some? <==> IsHeld(members, ip)
    ensures found.Some? ==> exists i :: IsFirstHolder(members, ip, i) && members[i] == found.value
  {
    for i := 0 to |members|
      invariant forall j :: 0 <= j < i ==> members[j].ipv6 != Some(ip)
    {
      if members[i].ipv6 == Some(ip) {
        assert IsFirstHolder(members, ip, i);
        return Some(members[i]);
      }
    }
    return None;
  }

  /** The advertisement of `mac` that answers a solicitation: to all nodes when the asker has no address yet. */
  predicate AnswersFor(m: seq<u8>, target: Ipv6, mac: Mac, src: Ipv6) {
    if src == UNSPECIFIED
    then IsNeighborAdvertisement(m, target, mac, false, true, target, ALL_NODES)
    else IsNeighborAdvertisement(m, target, mac, true, true, target, src)
  }

  predicate AnswersSolicitation(m: seq<u8>, members: seq<Member>, target: Ipv6, src: Ipv6) {
    exists i :: 0 <= i < |members| && IsFirstHolder(members, target, i) && AnswersFor(m, target, members[i].mac, src)
  }

  /**
   A solicitation is answered exactly when its target is held (a neighbour's) or a prefix is configured (a router's);
   the answer carries the first holder's hardware address, and is accepted by whom it is sent to.
   */
  method HandleNdp(body: seq<u8>, src: Ipv6, members: seq<Member>, prefix: Option<(Ipv6, u8)>) returns (action: NdpAction)
    ensures action.Reply? <==>
      || (|body| >= 24 && body[0] == ICMPV6_NS && IsHeld(members, body[8..24]))
      || (|body| >= 1 && body[0] == ICMPV6_RS && prefix.Some?)
    ensures action.Reply? && body[0] == ICMPV6_NS ==> AnswersSolicitation(action.message, members, body[8..24], src)
    ensures action.Reply? && body[0] == ICMPV6_RS ==>
      IsRouterAdvertisement(action.message, prefix.value.0, prefix.value.1, ROUTER, ALL_NODES)
  {
    if body == [] {
      return Ignore;
    }
    if body[0] == ICMPV6_NS {
      action := HandleNs(body, src, members);
    } else if body[0] == ICMPV6_RS {
      if prefix.None? {
        return Ignore;
      }
      var ra := BuildRa(ROUTER, ALL_NODES, prefix.value.0, prefix.value.1);
      return Reply(ra);
    } else {
      return Ignore;
    }
  }

  method HandleNs(body: seq<u8>, src: Ipv6, members: seq<Member>) returns (action: NdpAction)
    ensures action.Reply? <==> |body| >= 24 && IsHeld(members, body[8..24])
    ensures action.Reply? ==> AnswersSolicitation(action.message, members, body[8..24], src)
  {
    if |body| < 24 {
      return Ignore;
    }
    var target: Ipv6 := body[8..24];
    var member := LookupIpv6(members, target);
    if member.None? {
      return Ignore;
    }
    hide IsNeighborAdvertisement;
    var isDad := src == UNSPECIFIED;
    var na := BuildNa(target, member.value.mac, !isDad, true, target, if isDad then ALL_NODES else src);
    assert AnswersFor(na, target, member.value.mac, src);
    return Reply(na);
  }
}
