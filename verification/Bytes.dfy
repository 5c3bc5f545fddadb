/**
 Unsigned machine integers, big-endian encoding and bytewise exclusive-or.

 Machine integers are bounded subsets of `int`: wrap-around and truncation are written out
 where the program relies on them.
 */
module Bytes {

  type u8 = x: int | 0 <= x < 0x100
  type u16 = x: int | 0 <= x < 0x1_0000
  type u32 = x: int | 0 <= x < 0x1_0000_0000
  type u64 = x: int | 0 <= x < 0x1_0000_0000_0000_0000

  const U32_MAX: u32 := 0xffff_ffff
  const U64_MAX: u64 := 0xffff_ffff_ffff_ffff

  /** A ZeroTier address: five bytes. */
  type Address = s: seq<u8> | |s| == 5 witness [0, 0, 0, 0, 0]

  /** A hardware address of the virtual Ethernet. */
  type Mac = s: seq<u8> | |s| == 6 witness [0, 0, 0, 0, 0, 0]

  function Min(a: int, b: int): int {
    if a <= b then a else b
  }

  function Max(a: int, b: int): int {
    if a <= b then b else a
  }

  /** Subtraction that stops at zero, as `u64::saturating_sub`. */
  function SaturatingSub(a: nat, b: nat): nat {
    if a < b then 0 else a - b
  }

  // --- Big-endian integers ---

  function Pow256(width: nat): (p: nat)
    ensures p >= 1
  {
    if width == 0 then 1 else 256 * Pow256(width - 1)
  }

  lemma Pow256Values()
    ensures Pow256(1) == 0x100
    ensures Pow256(2) == 0x1_0000
    ensures Pow256(4) == 0x1_0000_0000
    ensures Pow256(8) == 0x1_0000_0000_0000_0000
  {
    assert Pow256(3) == 0x100_0000;
    assert Pow256(5) == 0x100_0000_0000;
    assert Pow256(6) == 0x1_0000_0000_0000;
    assert Pow256(7) == 0x100_0000_0000_0000;
  }

  /** The low `width` bytes of `n`, most significant first: a cast to that width and `to_be_bytes`. */
  function BigEndian(n: nat, width: nat): (s: seq<u8>)
    ensures |s| == width
  {
    if width == 0 then [] else BigEndian(n / 256, width - 1) + [n % 256]
  }

  function FromBigEndian(s: seq<u8>): (n: nat)
  {
    if s == [] then 0 else FromBigEndian(s[..|s| - 1]) * 256 + s[|s| - 1]
  }

  /** The first byte is the most significant. */
  lemma {:induction false} FirstCountsMost(b: u8, s: seq<u8>)
    ensures FromBigEndian([b] + s) == b * Pow256(|s|) + FromBigEndian(s)
  {
    var t := [b] + s;
    if s == [] {
      assert t[..0] == [];
    } else {
      var n := |s| - 1;
      assert t[..n + 1] == [b] + s[..n];
      FirstCountsMost(b, s[..n]);
      TimesBase(b, Pow256(n));
    }
  }

  lemma TimesBase(b: nat, p: nat)
    ensures b * p * 256 == b * (256 * p)
  {
  }

  lemma {:induction false} FromBigEndianBound(s: seq<u8>)
    ensures FromBigEndian(s) < Pow256(|s|)
  {
    if s != [] {
      FromBigEndianBound(s[..|s| - 1]);
    }
  }

  /** Reading back what was written gives the number, reduced to the width it was written in. */
  lemma {:induction false} BigEndianRoundTrip(n: nat, width: nat)
    ensures FromBigEndian(BigEndian(n, width)) == n % Pow256(width)
  {
    if width != 0 {
      var s := BigEndian(n, width);
      assert s[..width - 1] == BigEndian(n / 256, width - 1);
      BigEndianRoundTrip(n / 256, width - 1);
      var p := Pow256(width - 1);
      DivModStep(n, p);
    }
  }

  lemma DivModStep(n: nat, p: nat)
    requires p >= 1
    ensures (n / 256) % p * 256 + n % 256 == n % (256 * p)
  {
    var q := n / 256;
    var k, r := q / p, q % p;
    assert n == 256 * (k * p + r) + n % 256;
    assert n == k * (256 * p) + (256 * r + n % 256) by {
      assert 256 * (k * p) == k * (256 * p);
    }
    assert 0 <= 256 * r + n % 256 < 256 * p;
    RemainderIsUnique(n, 256 * p, k, 256 * r + n % 256);
  }

  lemma RemainderIsUnique(n: nat, m: nat, k: int, r: int)
    requires n == k * m + r && 0 <= r < m
    ensures n % m == r && n / m == k
  {
    QuotientsAgree(m, k, r, n / m, n % m);
  }

  lemma QuotientsAgree(m: nat, k: int, r: int, k': int, r': int)
    requires k * m + r == k' * m + r' && 0 <= r < m && 0 <= r' < m
    ensures k == k' && r == r'
  {
    var d := k' - k;
    assert d * m == k' * m - k * m;
    MultipleBound(d, m);
  }

  lemma MultipleBound(d: int, m: nat)
    ensures d >= 1 ==> d * m >= m
    ensures d <= -1 ==> d * m + m <= 0
  {
    assert d * m == (d - 1) * m + m == (d + 1) * m - m;
  }

  lemma {:induction false} FromBigEndianRoundTrip(s: seq<u8>)
    ensures BigEndian(FromBigEndian(s), |s|) == s
  {
    if s != [] {
      var front, last := s[..|s| - 1], s[|s| - 1];
      FromBigEndianRoundTrip(front);
      QuotientOfAppended(FromBigEndian(front), last);
      assert s == front + [last];
    }
  }

  lemma QuotientOfAppended(n: nat, last: u8)
    ensures (n * 256 + last) / 256 == n && (n * 256 + last) % 256 == last
  {
  }

  /** Reading a `u16`, `u32` or `u64` field back gives the value that was written. */
  lemma BigEndianExact(n: nat, width: nat)
    requires n < Pow256(width)
    ensures FromBigEndian(BigEndian(n, width)) == n
  {
    BigEndianRoundTrip(n, width);
  }

  // --- Exclusive or ---

  function Pow2(n: nat): (p: nat)
    ensures p >= 1
  {
    if n == 0 then 1 else 2 * Pow2(n - 1)
  }

  /** Exclusive or of the low `n` bits of `a` and `b`. */
  function XorBits(a: nat, b: nat, n: nat): (c: nat)
    ensures c < Pow2(n)
  {
    if n == 0 then 0 else 2 * XorBits(a / 2, b / 2, n - 1) + (a + b) % 2
  }

  lemma LowBits(h: nat, k: nat, x: nat, y: nat)
    requires x < 2 && y < 2
    ensures (2 * h + x) / 2 == h && (2 * h + x) % 2 == x
    ensures (2 * h + x + 2 * k + y) % 2 == (x + y) % 2
  {
    assert 2 * h + x + 2 * k + y == 2 * (h + k) + (x + y);
  }

  lemma {:induction false} XorBitsCancels(a: nat, b: nat, n: nat)
    requires a < Pow2(n)
    ensures XorBits(XorBits(a, b, n), b, n) == a
  {
    if n != 0 {
      var h := XorBits(a / 2, b / 2, n - 1);
      XorBitsCancels(a / 2, b / 2, n - 1);
      ParityCancels(a, b, h);
      assert XorBits(a, b, n) == 2 * h + (a + b) % 2;
      hide XorBits;
    }
  }

  /** Adding the same low bit twice restores the low bit, below whatever is in front of it. */
  lemma ParityCancels(a: nat, b: nat, h: nat)
    ensures var c := 2 * h + (a + b) % 2;
      c / 2 == h && (c + b) % 2 == a % 2
  {
    var x, y := a % 2, b % 2;
    assert a + b == 2 * (a / 2 + b / 2) + (x + y);
    assert (a + b) % 2 == (x + y) % 2;
    assert 2 * h + (x + y) % 2 + b == 2 * (h + b / 2) + ((x + y) % 2 + y);
  }

  lemma {:induction false} XorBitsZero(a: nat, b: nat, n: nat)
    requires a < Pow2(n) && b < Pow2(n)
    ensures XorBits(a, b, n) == 0 <==> a == b
  {
    if n != 0 {
      LowBits(a / 2, b / 2, a % 2, b % 2);
      assert a == 2 * (a / 2) + a % 2 && b == 2 * (b / 2) + b % 2;
      XorBitsZero(a / 2, b / 2, n - 1);
    }
  }

  function Xor(a: u8, b: u8): (c: u8)
  {
    assert Pow2(8) == 256 by { assert Pow2(4) == 16; }
    XorBits(a, b, 8)
  }

  lemma XorCancels(a: u8, b: u8)
    ensures Xor(Xor(a, b), b) == a
  {
    assert Pow2(8) == 256 by { assert Pow2(4) == 16; }
    XorBitsCancels(a, b, 8);
  }

  lemma {:induction false} XorBitsCommutes(a: nat, b: nat, n: nat)
    ensures XorBits(a, b, n) == XorBits(b, a, n)
  {
    if n != 0 {
      XorBitsCommutes(a / 2, b / 2, n - 1);
    }
  }

  lemma XorCancelsLeft(a: u8, b: u8)
    ensures Xor(Xor(b, a), b) == a
  {
    XorBitsCommutes(a, b, 8);
    XorCancels(a, b);
  }

  /** The test a constant-time comparison makes: the bytes differ in no bit. */
  lemma XorIsZero(a: u8, b: u8)
    ensures Xor(a, b) == 0 <==> a == b
  {
    assert Pow2(8) == 256 by { assert Pow2(4) == 16; }
    XorBitsZero(a, b, 8);
  }

  // --- The bit fields of the flags byte: FFCCCHHH ---

  /** `flags & 0x07` */
  function LowThreeBits(flags: u8): (h: u8) {
    flags % 8
  }

  /** `flags & 0xf8` */
  function ClearLowThreeBits(flags: u8): (f: u8) {
    flags - flags % 8
  }

  // --- Buffers ---

  /** `buf[offset..offset + bytes.len()].copy_from_slice(bytes)` */
  method StoreAt(buf: array<u8>, offset: nat, bytes: seq<u8>)
    requires offset + |bytes| <= buf.Length
    modifies buf
    ensures buf[..] == old(buf[..offset]) + bytes + old(buf[offset + |bytes|..])
  {
    for i := 0 to |bytes|
      invariant forall j :: 0 <= j < buf.Length ==>
        buf[j] == if offset <= j < offset + i then bytes[j - offset] else old(buf[j])
    {
      buf[offset + i] := bytes[i];
    }
  }

  /** `after` is `before` with `bytes` at `pos`. */
  predicate Wrote(before: seq<u8>, after: seq<u8>, pos: nat, bytes: seq<u8>) {
    && pos + |bytes| <= |before|
    && after == before[..pos] + bytes + before[pos + |bytes|..]
  }

  /** Write at the position, and move it behind what was written. */
  method Put(buf: array<u8>, pos: nat, bytes: seq<u8>) returns (end: nat)
    requires pos + |bytes| <= buf.Length
    modifies buf
    ensures end == pos + |bytes|
    ensures Wrote(old(buf[..]), buf[..], pos, bytes)
  {
    StoreAt(buf, pos, bytes);
    end := pos + |bytes|;
    assert old(buf[..])[..pos] == old(buf[..pos]);
    assert old(buf[..])[end..] == old(buf[end..]);
  }

  lemma WroteOn(a: seq<u8>, b: seq<u8>, c: seq<u8>, pos: nat, x: seq<u8>, y: seq<u8>)
    requires Wrote(a, b, pos, x) && Wrote(b, c, pos + |x|, y)
    ensures Wrote(a, c, pos, x + y)
  {
    var mid := pos + |x|;
    assert b[..mid] == a[..pos] + x;
    assert b[mid + |y|..] == a[mid + |y|..];
    assert c == a[..pos] + (x + y) + a[pos + |x + y|..];
  }

  /** Write behind what has been written since `start`. */
  method PutNext(ghost before: seq<u8>, buf: array<u8>, ghost start: nat, ghost written: seq<u8>, pos: nat, bytes: seq<u8>)
    returns (end: nat)
    requires Wrote(before, buf[..], start, written) && pos == start + |written|
    requires pos + |bytes| <= buf.Length
    modifies buf
    ensures end == pos + |bytes|
    ensures Wrote(before, buf[..], start, written + bytes)
  {
    ghost var mid := buf[..];
    end := Put(buf, pos, bytes);
    WroteOn(before, mid, buf[..], start, written, bytes);
  }

  lemma WroteNothing(a: seq<u8>, pos: nat)
    requires pos <= |a|
    ensures Wrote(a, a, pos, [])
  {
  }
}
