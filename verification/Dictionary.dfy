/**
 The dictionary format of network configurations: lines of `key=value`, the value's reserved bytes
 escaped.
 */
module Dictionary {
  import opened Wrappers
  import opened Bytes
  import opened Text

  const NUL: u8 := 0
  const LF: u8 := 10
  const CR: u8 := 13
  const EQUALS: u8 := 61
  const BACKSLASH: u8 := 92

  datatype DictEntry = DictEntry(key: Utf8, value: seq<u8>)

  datatype DictionaryError = InvalidKey | MissingEquals

  // --- Writing ---

  function Escaped(b: u8): (s: seq<u8>) {
    if b == NUL then [BACKSLASH, 48]
    else if b == CR then [BACKSLASH, 114]
    else if b == LF then [BACKSLASH, 110]
    else if b == BACKSLASH then [BACKSLASH, BACKSLASH]
    else if b == EQUALS then [BACKSLASH, 101]
    else [b]
  }

  function EscapedAll(value: seq<u8>): (s: seq<u8>) {
    if value == [] then [] else Escaped(value[0]) + EscapedAll(value[1..])
  }

  function Line(e: DictEntry): seq<u8> {
    e.key + [EQUALS] + EscapedAll(e.value)
  }

  function Serialized(entries: seq<DictEntry>): (s: seq<u8>) {
    if entries == [] then []
    else if |entries| == 1 then Line(entries[0])
    else Line(entries[0]) + [LF] + Serialized(entries[1..])
  }

  // --- Reading ---

  predicate IsLineEnd(b: u8) {
    b == CR || b == LF
  }

  function SkipLineEnds(s: seq<u8>): (r: seq<u8>)
    ensures |r| <= |s|
  {
    if s != [] && IsLineEnd(s[0]) then SkipLineEnds(s[1..]) else s
  }

  function KeyLength(s: seq<u8>): (n: nat)
    ensures n <= |s|
  {
    if s == [] || s[0] == EQUALS || IsLineEnd(s[0]) then 0 else 1 + KeyLength(s[1..])
  }

  function Unescaped(b: u8): u8 {
    if b == 114 then CR else if b == 110 then LF else if b == 48 then NUL else if b == 101 then EQUALS else b
  }

  /** The value up to an unescaped line end, and what follows; `escape` says a backslash came before. */
  function TakeValue(s: seq<u8>, escape: bool): (r: (seq<u8>, seq<u8>))
    ensures |r.1| <= |s|
  {
    if s == [] then ([], [])
    else if escape then
      var (v, rest) := TakeValue(s[1..], false);
      ([Unescaped(s[0])] + v, rest)
    else if s[0] == BACKSLASH then TakeValue(s[1..], true)
    else if IsLineEnd(s[0]) then ([], s)
    else
      var (v, rest) := TakeValue(s[1..], false);
      ([s[0]] + v, rest)
  }

  /** Past one line end: CR, LF or CR LF. */
  function DropLineEnd(s: seq<u8>): (r: seq<u8>)
    ensures |r| <= |s|
  {
    if s == [] then []
    else if s[0] == CR && |s| > 1 && s[1] == LF then s[2..]
    else s[1..]
  }

  function Parsed(s: seq<u8>): (r: Result<seq<DictEntry>, DictionaryError>)
    decreases |s|
  {
    var t := SkipLineEnds(s);
    if t == [] then Ok([])
    else
      var n := KeyLength(t);
      if n == |t| || t[n] != EQUALS then Err(MissingEquals)
      else if !IsUtf8(t[..n]) then Err(InvalidKey)
      else
        var (value, rest) := TakeValue(t[n + 1..], false);
        Prefixed([DictEntry(t[..n], value)], Parsed(DropLineEnd(rest)))
  }

  /** The first entry of `s`, given where its key and value end. */
  lemma ParsedFirst(s: seq<u8>, t: seq<u8>, key: seq<u8>, value: seq<u8>, rest: seq<u8>)
    requires SkipLineEnds(s) == t && KeyLength(t) == |key| < |t|
    requires t[..|key|] == key && t[|key|] == EQUALS && IsUtf8(key)
    requires TakeValue(t[|key| + 1..], false) == (value, rest)
    ensures Parsed(s) == Prefixed([DictEntry(key, value)], Parsed(DropLineEnd(rest)))
  {
  }

  // --- Round trip ---

  predicate IsCleanKey(key: seq<u8>) {
    forall b :: b in key ==> b != EQUALS && !IsLineEnd(b)
  }

  predicate HasCleanKeys(entries: seq<DictEntry>) {
    forall e :: e in entries ==> IsCleanKey(e.key)
  }

  lemma {:induction false} KeyLengthOfLine(key: seq<u8>, t: seq<u8>)
    requires IsCleanKey(key)
    ensures KeyLength(key + [EQUALS] + t) == |key|
  {
    var s := key + [EQUALS] + t;
    if key != [] {
      assert key[0] in key;
      assert s[1..] == key[1..] + [EQUALS] + t;
      KeyLengthOfLine(key[1..], t);
    }
  }

  lemma {:induction false} TakeValueOfEscaped(value: seq<u8>, t: seq<u8>)
    requires t == [] || IsLineEnd(t[0])
    ensures TakeValue(EscapedAll(value) + t, false) == (value, t)
  {
    if value == [] {
      assert EscapedAll(value) + t == t;
    } else {
      TakeValueOfEscaped(value[1..], t);
      TakeEscaped(value[0], EscapedAll(value[1..]) + t);
      assert EscapedAll(value) + t == Escaped(value[0]) + (EscapedAll(value[1..]) + t);
      assert [value[0]] + value[1..] == value;
    }
  }

  lemma TakeEscaped(b: u8, rest: seq<u8>)
    ensures var (v, t) := TakeValue(rest, false); TakeValue(Escaped(b) + rest, false) == ([b] + v, t)
  {
    var s := Escaped(b) + rest;
    if |Escaped(b)| == 1 {
      assert s[0] == b && s[1..] == rest;
    } else {
      assert s[0] == BACKSLASH && s[1..] == [Escaped(b)[1]] + rest;
      assert s[1..][1..] == rest;
      assert TakeValue(s, false) == TakeValue(s[1..], true);
    }
  }

  /** One line is read back as the entry it was written from, whatever lines follow. */
  lemma ParsedLine(e: DictEntry, t: seq<u8>)
    requires IsCleanKey(e.key)
    requires t == [] || IsLineEnd(t[0])
    ensures Parsed(Line(e) + t) == Prefixed([e], Parsed(DropLineEnd(t)))
  {
    var body := EscapedAll(e.value) + t;
    var s := Line(e) + t;
    assert s == e.key + [EQUALS] + body;
    KeyLengthOfLine(e.key, body);
    TakeValueOfEscaped(e.value, t);
    LineStarts(e.key, body);
    assert s[..|e.key|] == e.key && s[|e.key| + 1..] == body;
    ParsedFirst(s, s, e.key, e.value, t);
  }

  lemma LineStarts(key: seq<u8>, t: seq<u8>)
    requires IsCleanKey(key)
    ensures SkipLineEnds(key + [EQUALS] + t) == key + [EQUALS] + t
  {
    if key != [] {
      assert key[0] in key;
    }
  }

  lemma {:induction false} ParsedSerialized(entries: seq<DictEntry>)
    requires HasCleanKeys(entries)
    ensures Parsed(Serialized(entries)) == Ok(entries)
  {
    if entries != [] {
      hide Parsed, Line;
      var e, more := entries[0], entries[1..];
      assert e in entries;
      ParsedSerialized(more);
      if more == [] {
        ParsedLine(e, []);
        assert Line(e) + [] == Line(e);
      } else {
        var t := [LF] + Serialized(more);
        ParsedLine(e, t);
        assert t[1..] == Serialized(more);
        assert Line(e) + t == Line(e) + [LF] + Serialized(more);
      }
      assert entries == [e] + more;
    }
  }

  lemma {:induction false} KeyLengthIsClean(s: seq<u8>)
    ensures IsCleanKey(s[..KeyLength(s)])
  {
    if KeyLength(s) != 0 {
      KeyLengthIsClean(s[1..]);
      assert s[..KeyLength(s)] == [s[0]] + s[1..][..KeyLength(s[1..])];
    }
  }

  lemma {:induction false} ParsedIsClean(s: seq<u8>)
    ensures Parsed(s).Ok? ==> HasCleanKeys(Parsed(s).value)
    decreases |s|
  {
    var t := SkipLineEnds(s);
    if Parsed(s).Ok? && t != [] {
      var n := KeyLength(t);
      KeyLengthIsClean(t);
      ParsedIsClean(DropLineEnd(TakeValue(t[n + 1..], false).1));
    }
  }

  /** Reading undoes writing exactly when no key holds an equals sign or a line end. */
  lemma RoundTrip(entries: seq<DictEntry>)
    ensures Parsed(Serialized(entries)) == Ok(entries) <==> HasCleanKeys(entries)
  {
    if HasCleanKeys(entries) {
      ParsedSerialized(entries);
    }
    ParsedIsClean(Serialized(entries));
  }

  /** Whatever was read survives being written and read again. */
  lemma ReadingIsStable(s: seq<u8>)
    ensures Parsed(s).Ok? ==> Parsed(Serialized(Parsed(s).value)) == Parsed(s)
  {
    ParsedIsClean(s);
    if Parsed(s).Ok? {
      ParsedSerialized(Parsed(s).value);
    }
  }

  // --- Blank lines, and lines that are none ---

  predicate AreLineEnds(s: seq<u8>) {
    forall i :: 0 <= i < |s| ==> IsLineEnd(s[i])
  }

  lemma {:induction false} SkipBlank(blank: seq<u8>, s: seq<u8>)
    requires AreLineEnds(blank)
    ensures SkipLineEnds(blank + s) == SkipLineEnds(s)
  {
    if blank == [] {
      assert blank + s == s;
    } else {
      assert (blank + s)[1..] == blank[1..] + s;
      SkipBlank(blank[1..], s);
    }
  }

  lemma ParsedSkipped(s: seq<u8>, t: seq<u8>)
    requires SkipLineEnds(s) == SkipLineEnds(t)
    ensures Parsed(s) == Parsed(t)
  {
  }

  /** A line's end may be dropped before the next line is read. */
  lemma LineEndDropped(t: seq<u8>)
    requires t == [] || IsLineEnd(t[0])
    ensures Parsed(DropLineEnd(t)) == Parsed(t)
  {
    if t != [] {
      var n := |t| - |DropLineEnd(t)|;
      assert t == t[..n] + DropLineEnd(t);
      SkipBlank(t[..n], DropLineEnd(t));
      ParsedSkipped(t, DropLineEnd(t));
    }
  }

  /** The lines of `entries` with a gap before each and one behind the last. */
  function Spread(entries: seq<DictEntry>, gaps: seq<seq<u8>>): (s: seq<u8>)
    requires |gaps| == |entries| + 1
  {
    if entries == [] then gaps[0] else gaps[0] + Line(entries[0]) + Spread(entries[1..], gaps[1..])
  }

  /** Gaps of line ends only, and not empty between two lines. */
  predicate AreGaps(gaps: seq<seq<u8>>) {
    && (forall i :: 0 <= i < |gaps| ==> AreLineEnds(gaps[i]))
    && (forall i :: 0 < i < |gaps| - 1 ==> gaps[i] != [])
  }

  lemma SpreadStarts(entries: seq<DictEntry>, gaps: seq<seq<u8>>, rest: seq<u8>)
    requires |gaps| == |entries| + 1 && AreLineEnds(gaps[0])
    requires gaps[0] != [] || (entries == [] && rest == [])
    ensures var t := Spread(entries, gaps) + rest; t == [] || IsLineEnd(t[0])
  {
  }

  /** Whatever the line ends, and however many of them, before, between and after the lines, the same entries are read. */
  lemma {:induction false} SpreadIsRead(entries: seq<DictEntry>, gaps: seq<seq<u8>>, rest: seq<u8>)
    requires HasCleanKeys(entries) && |gaps| == |entries| + 1 && AreGaps(gaps)
    requires entries == [] || rest == [] || gaps[|entries|] != []
    ensures Parsed(Spread(entries, gaps) + rest) == Prefixed(entries, Parsed(rest))
  {
    hide Parsed, Line, AreLineEnds;
    if entries == [] {
      SkipBlank(gaps[0], rest);
      ParsedSkipped(gaps[0] + rest, rest);
      PrefixedNothing(Parsed(rest));
    } else {
      var e, more := entries[0], entries[1..];
      var t := Spread(more, gaps[1..]) + rest;
      assert e in entries;
      SpreadIsRead(more, gaps[1..], rest);
      SpreadStarts(more, gaps[1..], rest);
      SkipBlank(gaps[0], Line(e) + t);
      ParsedSkipped(gaps[0] + (Line(e) + t), Line(e) + t);
      ParsedLine(e, t);
      LineEndDropped(t);
      assert Spread(entries, gaps) + rest == gaps[0] + (Line(e) + t);
      PrefixedBoth(e, more, Parsed(rest));
      assert [e] + more == entries;
    }
  }

  lemma PrefixedBoth(e: DictEntry, more: seq<DictEntry>, r: Result<seq<DictEntry>, DictionaryError>)
    ensures Prefixed([e], Prefixed(more, r)) == Prefixed([e] + more, r)
  {
    assert r.Ok? ==> [e] + (more + r.value) == [e] + more + r.value;
  }

  /** A line without an equals sign, and one whose key is no text, make the whole dictionary unreadable. */
  lemma BadLineIsRefused(entries: seq<DictEntry>, gaps: seq<seq<u8>>, key: seq<u8>, rest: seq<u8>)
    requires HasCleanKeys(entries) && |gaps| == |entries| + 1 && AreGaps(gaps) && (entries == [] || gaps[|entries|] != [])
    requires IsCleanKey(key)
    ensures key != [] && (rest == [] || IsLineEnd(rest[0])) ==>
      Parsed(Spread(entries, gaps) + (key + rest)) == Err(MissingEquals)
    ensures !IsUtf8(key) ==> Parsed(Spread(entries, gaps) + (key + [EQUALS] + rest)) == Err(InvalidKey)
  {
    if key != [] && (rest == [] || IsLineEnd(rest[0])) {
      SpreadIsRead(entries, gaps, key + rest);
      NoEquals(key, rest);
    }
    if !IsUtf8(key) {
      SpreadIsRead(entries, gaps, key + [EQUALS] + rest);
      LineStarts(key, rest);
      KeyLengthOfLine(key, rest);
      assert (key + [EQUALS] + rest)[..|key|] == key;
      assert Parsed(key + [EQUALS] + rest) == Err(InvalidKey);
    }
  }

  lemma NoEquals(key: seq<u8>, rest: seq<u8>)
    requires IsCleanKey(key) && key != [] && (rest == [] || IsLineEnd(rest[0]))
    ensures Parsed(key + rest) == Err(MissingEquals)
  {
    assert key[0] in key;
    KeyLengthOfBare(key, rest);
  }

  lemma {:induction false} KeyLengthOfBare(key: seq<u8>, rest: seq<u8>)
    requires IsCleanKey(key) && (rest == [] || IsLineEnd(rest[0]))
    ensures KeyLength(key + rest) == |key|
  {
    if key != [] {
      assert key[0] in key;
      assert (key + rest)[1..] == key[1..] + rest;
      assert forall b :: b in key[1..] ==> b in key;
      KeyLengthOfBare(key[1..], rest);
    }
  }

  // --- Other spellings of a value ---

  /** The byte itself, unless it is a backslash or a line end; or a backslash and a byte that stands for it. */
  predicate IsSpelling(piece: seq<u8>, b: u8) {
    || (piece == [b] && b != BACKSLASH && !IsLineEnd(b))
    || (&& |piece| == 2 && piece[0] == BACKSLASH
        && match piece[1]
          case 114 => b == CR
          case 110 => b == LF
          case 48 => b == NUL
          case 101 => b == EQUALS
          case c => b == c)
  }

  function Concat(pieces: seq<seq<u8>>): (s: seq<u8>) {
    if pieces == [] then [] else pieces[0] + Concat(pieces[1..])
  }

  predicate IsSpelled(pieces: seq<seq<u8>>, value: seq<u8>) {
    |pieces| == |value| && forall i :: 0 <= i < |value| ==> IsSpelling(pieces[i], value[i])
  }

  lemma TakePiece(piece: seq<u8>, b: u8, rest: seq<u8>)
    requires IsSpelling(piece, b)
    ensures var (v, t) := TakeValue(rest, false); TakeValue(piece + rest, false) == ([b] + v, t)
  {
    var s := piece + rest;
    if piece == [b] && b != BACKSLASH && !IsLineEnd(b) {
      assert s[0] == b && s[1..] == rest;
    } else {
      assert s[0] == BACKSLASH && s[1..] == [piece[1]] + rest;
      assert s[1..][1..] == rest;
      assert TakeValue(s, false) == TakeValue(s[1..], true);
    }
  }

  lemma {:induction false} TakeSpelled(pieces: seq<seq<u8>>, value: seq<u8>, t: seq<u8>)
    requires IsSpelled(pieces, value) && (t == [] || IsLineEnd(t[0]))
    ensures TakeValue(Concat(pieces) + t, false) == (value, t)
  {
    if pieces == [] {
      assert Concat(pieces) + t == t;
    } else {
      hide TakeValue, IsSpelling;
      TakeSpelled(pieces[1..], value[1..], t);
      TakePiece(pieces[0], value[0], Concat(pieces[1..]) + t);
      assert Concat(pieces) + t == pieces[0] + (Concat(pieces[1..]) + t);
      assert [value[0]] + value[1..] == value;
    }
  }

  /** A value is read back from any of its spellings, with bytes escaped or not as long as they may stand for themselves. */
  lemma AnySpellingIsRead(key: Utf8, pieces: seq<seq<u8>>, value: seq<u8>)
    requires IsCleanKey(key) && IsSpelled(pieces, value)
    ensures Parsed(key + [EQUALS] + Concat(pieces)) == Ok([DictEntry(key, value)])
  {
    hide Concat, TakeValue, Parsed, KeyLength;
    var body := Concat(pieces);
    var s := key + [EQUALS] + body;
    TakeSpelled(pieces, value, []);
    assert body + [] == body;
    KeyLengthOfLine(key, body);
    LineStarts(key, body);
    assert s[..|key|] == key && s[|key| + 1..] == body;
    ParsedFirst(s, s, key, value, []);
    NothingParsed();
    var e := DictEntry(key, value);
    assert [e] + [] == [e];
    assert Parsed(s) == Prefixed([e], Parsed([]));
  }

  lemma NothingParsed()
    ensures Parsed([]) == Ok([])
  {
  }

  // --- Reserved bytes ---

  lemma {:induction false} EscapedHasNoReserved(value: seq<u8>)
    ensures forall b :: b in EscapedAll(value) ==> b != NUL && b != EQUALS && !IsLineEnd(b)
  {
    if value != [] {
      EscapedHasNoReserved(value[1..]);
    }
  }

  /** The output is a C string exactly when every key is. */
  lemma {:induction false} SerializedHasNoNul(entries: seq<DictEntry>)
    ensures NUL in Serialized(entries) <==> exists e :: e in entries && NUL in e.key
  {
    if entries != [] {
      var e, more := entries[0], entries[1..];
      EscapedHasNoReserved(e.value);
      SerializedHasNoNul(more);
      assert NUL in Line(e) <==> NUL in e.key;
      assert entries == [e] + more;
    }
  }

  // --- The object ---

  class Dictionary {
    var entries: seq<DictEntry>

    constructor ()
      ensures entries == []
    {
      entries := [];
    }

    method AddText(key: Utf8, value: Utf8)
      modifies this
      ensures entries == old(entries) + [DictEntry(key, value)]
    {
      entries := entries + [DictEntry(key, value)];
    }

    method AddBinary(key: Utf8, data: seq<u8>)
      modifies this
      ensures entries == old(entries) + [DictEntry(key, data)]
    {
      entries := entries + [DictEntry(key, data)];
    }

    /** Lower-case hexadecimal; reads back as the number unless an earlier entry has the key. */
    method AddHex(key: Utf8, value: u64)
      modifies this
      ensures exists text: Utf8 :: entries == old(entries) + [DictEntry(key, text)] && HexValue(text) == Some(value)
      ensures Find(old(entries), key).None? ==> HexOf(entries, key) == Some(value)
      ensures forall k :: k != key || Find(old(entries), k).Some? ==> Find(entries, k) == Find(old(entries), k)
    {
      var text := Format(value, 16);
      AsciiIsUtf8(text);
      ParseFormat(value, 16, U64_MAX);
      FindAppended(entries, DictEntry(key, text));
      AddText(key, text);
    }

    method Serialize() returns (buf: seq<u8>)
      ensures buf == Serialized(entries)
    {
      buf := [];
      assert [] + Remaining(entries, 0) == Serialized(entries) by {
        RemainingFirst(entries);
      }
      hide Remaining, Serialized, Line;
      for i := 0 to |entries|
        invariant Serialized(entries) == buf + Remaining(entries, i)
      {
        RemainingStep(entries, i);
        ghost var before := buf;
        if i > 0 {
          buf := buf + [LF];
        }
        var line := WriteLine(entries[i]);
        Concatenation(before, if i > 0 then [LF] else [], line, Remaining(entries, i + 1));
        buf := buf + line;
      }
      RemainingNothing(entries);
      assert buf + [] == buf;
    }

    static method Deserialize(data: seq<u8>) returns (r: Result<Dictionary, DictionaryError>)
      ensures r.Ok? ==> fresh(r.value) && Parsed(data) == Ok(r.value.entries)
      ensures r.Err? ==> Parsed(data) == Err(r.error)
    {
      var entries: seq<DictEntry> := [];
      var pos := 0;
      assert data[0..] == data;
      PrefixedNothing(Parsed(data));
      while pos < |data|
        invariant pos <= |data|
        invariant Parsed(data) == Prefixed(entries, Parsed(data[pos..]))
      {
        var entry;
        entry, pos := EntryFrom(data, pos);
        match entry {
          case Err(e) => return Err(e);
          case Ok(None) =>
          case Ok(Some(e)) =>
            PrefixedMore(entries, e, Parsed(data[pos..]));
            entries := entries + [e];
        }
      }
      assert entries + [] == entries;
      var d := new Dictionary();
      d.entries := entries;
      return Ok(d);
    }

    method GetBinary(key: Utf8) returns (r: Option<seq<u8>>)
      ensures r == Find(entries, key)
    {
      for i := 0 to |entries|
        invariant Find(entries, key) == Find(entries[i..], key)
      {
        if entries[i].key == key {
          return Some(entries[i].value);
        }
        assert entries[i..][1..] == entries[i + 1..];
      }
      return None;
    }

    /** Only the first entry with the key counts, and only if its value is text. */
    method GetText(key: Utf8) returns (r: Option<Utf8>)
      ensures r == TextOf(entries, key)
    {
      var value := GetBinary(key);
      if value.Some? && IsUtf8(value.value) {
        return Some(value.value);
      }
      return None;
    }

    method GetHexU64(key: Utf8) returns (r: Option<u64>)
      ensures r == HexOf(entries, key)
    {
      var text := GetText(key);
      if text.None? {
        return None;
      }
      r := HexValue(text.value);
    }
  }

  // --- Looking up ---

  function Find(entries: seq<DictEntry>, key: seq<u8>): (r: Option<seq<u8>>) {
    if entries == [] then None
    else if entries[0].key == key then Some(entries[0].value)
    else Find(entries[1..], key)
  }

  function TextOf(entries: seq<DictEntry>, key: seq<u8>): Option<Utf8> {
    var value := Find(entries, key);
    if value.Some? && IsUtf8(value.value) then Some(value.value) else None
  }

  function HexValue(text: Utf8): (r: Option<u64>) {
    var v := Parse(text, 16, U64_MAX);
    if v.Some? then Some(v.value) else None
  }

  function HexOf(entries: seq<DictEntry>, key: seq<u8>): Option<u64> {
    var text := TextOf(entries, key);
    if text.Some? then HexValue(text.value) else None
  }

  function FoundBefore(entries: seq<DictEntry>, e: DictEntry, key: seq<u8>): Option<seq<u8>> {
    if Find(entries, key).Some? then Find(entries, key) else if key == e.key then Some(e.value) else None
  }

  /** A new entry is found under its key unless an earlier one has it, and hides nothing. */
  lemma {:induction false} FindAppended(entries: seq<DictEntry>, e: DictEntry)
    ensures forall k :: Find(entries + [e], k) == FoundBefore(entries, e, k)
  {
    if entries != [] {
      FindAppended(entries[1..], e);
      assert (entries + [e])[1..] == entries[1..] + [e];
    }
  }

  /** Looking up finds the first entry with the key. */
  lemma {:induction false} FindIsFirst(entries: seq<DictEntry>, key: seq<u8>, i: nat)
    requires i <= |entries| && forall j :: 0 <= j < i ==> entries[j].key != key
    ensures i < |entries| && entries[i].key == key ==> Find(entries, key) == Some(entries[i].value)
    ensures i == |entries| ==> Find(entries, key) == None
  {
    if i != 0 {
      FindIsFirst(entries[1..], key, i - 1);
    }
  }

  // --- The loops' steps ---

  function Remaining(entries: seq<DictEntry>, i: nat): seq<u8>
    requires i <= |entries|
  {
    if i == |entries| then []
    else (if i > 0 then [LF] else []) + Serialized(entries[i..])
  }

  lemma RemainingFirst(entries: seq<DictEntry>)
    ensures Remaining(entries, 0) == Serialized(entries)
  {
    assert entries[0..] == entries;
  }

  lemma RemainingNothing(entries: seq<DictEntry>)
    ensures Remaining(entries, |entries|) == []
  {
  }

  lemma RemainingStep(entries: seq<DictEntry>, i: nat)
    requires i < |entries|
    ensures Remaining(entries, i) == ((if i > 0 then [LF] else []) + Line(entries[i])) + Remaining(entries, i + 1)
  {
    assert entries[i..][1..] == entries[i + 1..];
  }

  function Prefixed(entries: seq<DictEntry>, r: Result<seq<DictEntry>, DictionaryError>)
    : Result<seq<DictEntry>, DictionaryError>
  {
    match r
    case Err(e) => Err(e)
    case Ok(more) => Ok(entries + more)
  }

  lemma PrefixedNothing(r: Result<seq<DictEntry>, DictionaryError>)
    ensures Prefixed([], r) == r
  {
    assert r.Ok? ==> [] + r.value == r.value;
  }

  lemma PrefixedMore(entries: seq<DictEntry>, e: DictEntry, r: Result<seq<DictEntry>, DictionaryError>)
    ensures Prefixed(entries, Prefixed([e], r)) == Prefixed(entries + [e], r)
  {
    assert r.Ok? ==> entries + ([e] + r.value) == entries + [e] + r.value;
  }

  lemma Concatenation(a: seq<u8>, b: seq<u8>, c: seq<u8>, d: seq<u8>)
    ensures a + ((b + c) + d) == ((a + b) + c) + d
    ensures a + [] == a
  {
  }

  method WriteLine(e: DictEntry) returns (line: seq<u8>)
    ensures line == Line(e)
  {
    var value := EscapeValue(e.value);
    line := e.key + [EQUALS] + value;
  }

  method EscapeValue(value: seq<u8>) returns (buf: seq<u8>)
    ensures buf == EscapedAll(value)
  {
    buf := [];
    for i := 0 to |value|
      invariant EscapedAll(value) == buf + EscapedAll(value[i..])
    {
      assert value[i..][1..] == value[i + 1..];
      buf := buf + Escaped(value[i]);
    }
    assert buf + [] == buf;
  }

  /** One entry and its line end, or nothing but line ends to the end of the data. */
  method EntryFrom(data: seq<u8>, start: nat) returns (r: Result<Option<DictEntry>, DictionaryError>, pos: nat)
    requires start < |data|
    ensures start < pos <= |data| || r.Err?
    ensures pos <= |data|
    ensures Parsed(data[start..]) ==
      match r
      case Err(e) => Err(e)
      case Ok(None) => Ok([])
      case Ok(Some(entry)) => Prefixed([entry], Parsed(data[pos..]))
    ensures r == Ok(None) ==> pos == |data|
  {
    pos := SkipLineEndsFrom(data, start);
    if pos >= |data| {
      return Ok(None), pos;
    }
    var keyStart := pos;
    ghost var t := data[keyStart..];
    pos := KeyEndFrom(data, pos);
    if pos >= |data| || data[pos] != EQUALS {
      return Err(MissingEquals), pos;
    }
    var key := data[keyStart..pos];
    assert key == t[..pos - keyStart];
    if !IsUtf8(key) {
      return Err(InvalidKey), pos;
    }
    assert t[pos - keyStart + 1..] == data[pos + 1..];
    var value;
    value, pos := ValueFrom(data, pos + 1);
    ParsedFirst(data[start..], t, key, value, data[pos..]);
    pos := LineEndFrom(data, pos);
    return Ok(Some(DictEntry(key, value))), pos;
  }

  method SkipLineEndsFrom(data: seq<u8>, start: nat) returns (pos: nat)
    requires start <= |data|
    ensures start <= pos <= |data| && data[pos..] == SkipLineEnds(data[start..])
  {
    pos := start;
    while pos < |data| && IsLineEnd(data[pos])
      invariant start <= pos <= |data| && SkipLineEnds(data[pos..]) == SkipLineEnds(data[start..])
    {
      assert data[pos..][1..] == data[pos + 1..];
      pos := pos + 1;
    }
  }

  method KeyEndFrom(data: seq<u8>, start: nat) returns (pos: nat)
    requires start <= |data|
    ensures pos == start + KeyLength(data[start..])
  {
    pos := start;
    while pos < |data| && data[pos] != EQUALS && !IsLineEnd(data[pos])
      invariant start <= pos <= |data| && KeyLength(data[start..]) == pos - start + KeyLength(data[pos..])
    {
      assert data[pos..][1..] == data[pos + 1..];
      pos := pos + 1;
    }
  }

  method ValueFrom(data: seq<u8>, start: nat) returns (value: seq<u8>, pos: nat)
    requires start <= |data|
    ensures start <= pos <= |data| && TakeValue(data[start..], false) == (value, data[pos..])
  {
    pos := start;
    value := [];
    var escape := false;
    AfterMore([], 0, TakeValue(data[start..], false));
    while pos < |data|
      invariant start <= pos <= |data|
      invariant TakeValue(data[start..], false) == After(value, TakeValue(data[pos..], escape))
    {
      var byte := data[pos];
      assert data[pos..][1..] == data[pos + 1..];
      AfterMore(value, if escape then Unescaped(byte) else byte, TakeValue(data[pos + 1..], false));
      if escape {
        escape := false;
        value := value + [Unescaped(byte)];
        pos := pos + 1;
      } else if byte == BACKSLASH {
        escape := true;
        pos := pos + 1;
      } else if IsLineEnd(byte) {
        AfterAll(value, data[pos..]);
        return;
      } else {
        value := value + [byte];
        pos := pos + 1;
      }
    }
    AfterAll(value, []);
  }

  function After(front: seq<u8>, r: (seq<u8>, seq<u8>)): (seq<u8>, seq<u8>) {
    (front + r.0, r.1)
  }

  lemma AfterMore(front: seq<u8>, b: u8, r: (seq<u8>, seq<u8>))
    ensures After(front, After([b], r)) == After(front + [b], r)
    ensures After([], r) == r
  {
    assert front + ([b] + r.0) == front + [b] + r.0 && [] + r.0 == r.0;
  }

  lemma AfterAll(front: seq<u8>, rest: seq<u8>)
    ensures After(front, ([], rest)) == (front, rest)
  {
    assert front + [] == front;
  }

  method LineEndFrom(data: seq<u8>, start: nat) returns (pos: nat)
    requires start <= |data|
    ensures start <= pos <= |data| && data[pos..] == DropLineEnd(data[start..])
    ensures start < |data| ==> start < pos
  {
    pos := start;
    if pos < |data| {
      if data[pos] == CR {
        pos := pos + 1;
        if pos < |data| && data[pos] == LF {
          pos := pos + 1;
        }
      } else {
        pos := pos + 1;
      }
    }
  }
}
