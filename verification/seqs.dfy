/** Sequence helpers standing in for Python's list scans and `list.remove`. */
module Seqs {
  import opened Results

  /** No element occurs twice. */
  predicate NoDuplicates<T(==)>(s: seq<T>) {
    forall i, j :: 0 <= i < j < |s| ==> s[i] != s[j]
  }

  /** Position of the first element satisfying `p`: where a `for` loop that
      returns on its first hit stops, or `None` when it runs off the end. */
  function FirstIndex<T>(s: seq<T>, p: T -> bool): (r: Option<nat>)
    ensures r.Some? ==> r.value < |s| && p(s[r.value])
    ensures r.Some? ==> forall j :: 0 <= j < r.value ==> !p(s[j])
    ensures r.None? <==> forall j :: 0 <= j < |s| ==> !p(s[j])
    decreases |s|
  {
    if |s| == 0 then None
    else if p(s[0]) then Some(0)
    else match FirstIndex(s[1..], p)
      case None => None
      case Some(k) => Some(k + 1)
  }

  /** `s` without the element at position `i`, the others kept in order. */
  function RemoveAt<T>(s: seq<T>, i: nat): (r: seq<T>)
    requires i < |s|
    ensures |r| == |s| - 1
    ensures forall k :: 0 <= k < i ==> r[k] == s[k]
    ensures forall k :: i <= k < |r| ==> r[k] == s[k + 1]
    ensures multiset(r) + multiset{s[i]} == multiset(s)
  {
    assert s == s[..i] + [s[i]] + s[i + 1..];
    s[..i] + s[i + 1..]
  }

  /** Position of the first occurrence of `x`. */
  function IndexOf<T(==)>(s: seq<T>, x: T): (i: nat)
    requires x in s
    ensures i < |s| && s[i] == x
    ensures x !in s[..i]
  {
    var r := FirstIndex(s, (y: T) => y == x);
    assert r.Some? by {
      var k :| 0 <= k < |s| && s[k] == x;
    }
    r.value
  }

  /** Python's `list.remove(x)` on a list that holds `x`: the first
      occurrence goes, everything else stays in order. */
  function RemoveFirst<T(==, !new)>(s: seq<T>, x: T): (r: seq<T>)
    requires x in s
    ensures |r| == |s| - 1
    ensures multiset(r) + multiset{x} == multiset(s)
    ensures r[..IndexOf(s, x)] == s[..IndexOf(s, x)] && r[IndexOf(s, x)..] == s[IndexOf(s, x) + 1..]
    ensures forall y :: y != x ==> (y in r <==> y in s)
    ensures NoDuplicates(s) ==> NoDuplicates(r) && x !in r
  {
    var i := IndexOf(s, x);
    var r := RemoveAt(s, i);
    assert forall y :: y != x ==> (y in r <==> y in s) by {
      forall y | y != x
        ensures y in r <==> y in s
      {
        assert y in multiset(r) <==> y in multiset(s);
      }
    }
    r
  }

  /** Putting back the element that was overwritten restores the sequence. */
  lemma ReplaceBack<T>(s: seq<T>, j: nat, x: T)
    requires j < |s|
    ensures s[j := x][j := s[j]] == s
  {
  }
}
