/** The program's optional values and fallible results, and facts about lists, sets and maps of any kind. */
module Wrappers {

  datatype Option<+T> = None | Some(value: T)

  datatype Result<+T, +E> = Ok(value: T) | Err(error: E)

  predicate HasNoDuplicates<T(==)>(s: seq<T>) {
    forall i, j :: 0 <= i < j < |s| ==> s[i] != s[j]
  }

  lemma SubsetSize<T>(a: set<T>, b: set<T>)
    requires a <= b
    ensures |a| <= |b|
    ensures |a| == |b| ==> a == b
  {
    assert b == a + (b - a);
    assert |b| == |a| + |b - a|;
  }

  lemma RemoveSize<K, V>(m: map<K, V>, k: K)
    requires k in m
    ensures |m - {k}| == |m| - 1
    ensures (m - {k}).Keys == m.Keys - {k}
  {
    assert (m - {k}).Keys == m.Keys - {k};
  }

  lemma UpdateSame<K, V>(m: map<K, V>, k: K)
    requires k in m
    ensures m[k := m[k]] == m
  {
  }

  lemma RemoveThenUpdate<K, V>(m: map<K, V>, k: K, v: V)
    ensures (m - {k})[k := v] == m[k := v]
  {
    assert (m - {k})[k := v].Keys == m[k := v].Keys;
  }

  lemma UpdateTwice<K, V>(m: map<K, V>, k: K, v: V, w: V)
    ensures m[k := v][k := w] == m[k := w]
    ensures m[k := v] - {k} == m - {k}
  {
    assert (m[k := v] - {k}).Keys == (m - {k}).Keys;
  }

  /** The elements of `part` are found in `whole` at the ascending positions `at`. */
  predicate IsFoundAt<T(==)>(part: seq<T>, whole: seq<T>, at: seq<nat>) {
    && |at| == |part|
    && (forall i :: 0 <= i < |at| ==> at[i] < |whole| && whole[at[i]] == part[i])
    && (forall i, j :: 0 <= i < j < |at| ==> at[i] < at[j])
  }

  /** The elements of `part`, in order, are some of the elements of `whole`. */
  ghost predicate IsSubsequence<T>(part: seq<T>, whole: seq<T>) {
    exists at: seq<nat> :: IsFoundAt(part, whole, at)
  }

  lemma SubsequenceOfItself<T>(s: seq<T>)
    ensures IsSubsequence(s, s)
  {
    assert IsFoundAt(s, s, seq(|s|, i => i));
  }

  lemma SubsequenceGrows<T>(part: seq<T>, whole: seq<T>, x: T)
    requires IsSubsequence(part, whole)
    ensures IsSubsequence(part, whole + [x])
    ensures IsSubsequence(part + [x], whole + [x])
  {
    var at: seq<nat> :| IsFoundAt(part, whole, at);
    assert IsFoundAt(part, whole + [x], at);
    assert IsFoundAt(part + [x], whole + [x], at + [|whole|]);
  }

  lemma SubsequenceTail<T>(part: seq<T>, whole: seq<T>)
    requires IsSubsequence(part, whole) && part != []
    ensures IsSubsequence(part[1..], whole)
  {
    var at: seq<nat> :| IsFoundAt(part, whole, at);
    assert IsFoundAt(part[1..], whole, at[1..]);
  }
}
