/** Text as bytes: UTF-8 validity, and unsigned numbers written in a base. */
module Text {
  import opened Wrappers
  import opened Bytes

  // --- UTF-8, section 4 of RFC 3629 ---

  predicate IsTail(b: u8) {
    0x80 <= b <= 0xbf
  }

  /** The length of the well-formed sequence `s` begins with, or 0. */
  function Utf8Length(s: seq<u8>): (n: nat)
    ensures n <= |s|
  {
    if s == [] then 0
    else if s[0] < 0x80 then 1
    else if 0xc2 <= s[0] <= 0xdf then
      if |s| >= 2 && IsTail(s[1]) then 2 else 0
    else if 0xe0 <= s[0] <= 0xef then
      if && |s| >= 3 && IsTail(s[1]) && IsTail(s[2])
         && (s[0] == 0xe0 ==> s[1] >= 0xa0)
         && (s[0] == 0xed ==> s[1] <= 0x9f)
      then 3 else 0
    else if 0xf0 <= s[0] <= 0xf4 then
      if && |s| >= 4 && IsTail(s[1]) && IsTail(s[2]) && IsTail(s[3])
         && (s[0] == 0xf0 ==> s[1] >= 0x90)
         && (s[0] == 0xf4 ==> s[1] <= 0x8f)
      then 4 else 0
    else 0
  }

  predicate IsUtf8(s: seq<u8>) {
    s == [] || (Utf8Length(s) > 0 && IsUtf8(s[Utf8Length(s)..]))
  }

  type Utf8 = s: seq<u8> | IsUtf8(s) witness []

  lemma {:induction false} AsciiIsUtf8(s: seq<u8>)
    requires forall i :: 0 <= i < |s| ==> s[i] < 0x80
    ensures IsUtf8(s)
  {
    if s != [] {
      AsciiIsUtf8(s[1..]);
    }
  }

  // --- Numbers ---

  type Base = n: nat | 2 <= n <= 16 witness 10

  const PLUS: u8 := 43

  function Digit(d: nat): (c: u8)
    requires d < 16
  {
    if d < 10 then 48 + d else 87 + d
  }

  /** The digit's value; letters count in either case. */
  function DigitValue(c: u8, base: Base): (v: Option<nat>) {
    var d := if 48 <= c <= 57 then c - 48 else if 97 <= c <= 122 then c - 87 else if 65 <= c <= 90 then c - 55 else 16;
    if d < base then Some(d) else None
  }

  /** Lower-case digits, no leading zeros. */
  function Format(n: nat, base: Base): (s: seq<u8>)
    ensures s != [] && forall i :: 0 <= i < |s| ==> 48 <= s[i] < 0x80
    decreases n
  {
    if n < base then [Digit(n)] else Format(n / base, base) + [Digit(n % base)]
  }

  function ParseDigits(s: seq<u8>, base: Base): (v: Option<nat>)
  {
    if s == [] then Some(0)
    else
      var front, d := ParseDigits(s[..|s| - 1], base), DigitValue(s[|s| - 1], base);
      if front.Some? && d.Some? then Some(front.value * base + d.value) else None
  }

  /** An optional plus sign and at least one digit, the value at most `max`. */
  function Parse(s: seq<u8>, base: Base, max: nat): (v: Option<nat>) {
    if s == [] || s == [PLUS] then None
    else
      var v := ParseDigits(if s[0] == PLUS then s[1..] else s, base);
      if v.Some? && v.value <= max then v else None
  }

  /** A plus sign in front changes nothing, and neither does the case of a letter. */
  lemma ParseLiberal(s: seq<u8>, base: Base, max: nat)
    ensures s != [] && s[0] != PLUS ==> Parse([PLUS] + s, base, max) == Parse(s, base, max)
    ensures forall c: u8 :: 65 <= c <= 90 ==> DigitValue(c, base) == DigitValue(c + 32, base)
  {
    assert ([PLUS] + s)[1..] == s;
  }

  lemma {:induction false} ParseDigitsFormat(n: nat, base: Base)
    ensures ParseDigits(Format(n, base), base) == Some(n)
    decreases n
  {
    hide Digit, ParseDigits;
    if n < base {
      ParseNothing(base);
      ParseAppended([], 0, n, base);
      assert [] + [Digit(n)] == [Digit(n)];
    } else {
      ParseDigitsFormat(n / base, base);
      QuotientAndRemainder(n, base);
      ParseAppended(Format(n / base, base), n / base, n % base, base);
    }
  }

  lemma ParseNothing(base: Base)
    ensures ParseDigits([], base) == Some(0)
  {
  }

  lemma ParseAppended(s: seq<u8>, v: nat, d: nat, base: Base)
    requires ParseDigits(s, base) == Some(v) && d < base
    ensures ParseDigits(s + [Digit(d)], base) == Some(v * base + d)
  {
    assert (s + [Digit(d)])[..|s|] == s;
  }

  lemma QuotientAndRemainder(n: nat, base: Base)
    ensures n / base * base + n % base == n && n % base < base
  {
  }

  /** Reading a number undoes writing it. */
  lemma ParseFormat(n: nat, base: Base, max: nat)
    requires n <= max
    ensures Parse(Format(n, base), base, max) == Some(n)
  {
    ParseDigitsFormat(n, base);
  }
}
