/** Go's sort.Strings: sorts a slice of strings in place into ascending
    order. Modelled as an insertion sort by adjacent swaps over an array,
    which is what the connection-string renderer's key slice becomes. */
module Sorting {
  import opened Lex

  /** Neighbours in s[lo..hi] are in order. */
  predicate SortedRange(s: seq<string>, lo: int, hi: int)
    requires 0 <= lo <= hi <= |s|
  {
    forall k :: lo < k < hi ==> Le(s[k - 1], s[k])
  }

  method SortStrings(a: array<string>)
    modifies a
    ensures Sorted(a[..])
    ensures multiset(a[..]) == old(multiset(a[..]))
  {
    if a.Length == 0 {
      return;
    }
    var i := 1;
    while i < a.Length
      invariant 1 <= i <= a.Length
      invariant SortedRange(a[..], 0, i)
      invariant multiset(a[..]) == old(multiset(a[..]))
    {
      Insert(a, i);
      i := i + 1;
    }
  }

  /** One insertion step: a[..i] is sorted; sink a[i] to its place.
      Only a[..i + 1] is rearranged. */
  method Insert(a: array<string>, i: nat)
    requires 0 < i < a.Length
    requires SortedRange(a[..], 0, i)
    modifies a
    ensures SortedRange(a[..], 0, i + 1)
    ensures multiset(a[..i + 1]) == old(multiset(a[..i + 1]))
    ensures a[i + 1..] == old(a[i + 1..])
    ensures multiset(a[..]) == old(multiset(a[..]))
  {
    var j := i;
    while j > 0 && Less(a[j], a[j - 1])
      invariant 0 <= j <= i
      invariant Sinking(a[..], i + 1, j)
      invariant multiset(a[..i + 1]) == old(multiset(a[..i + 1]))
      invariant a[i + 1..] == old(a[i + 1..])
    {
      ghost var s := a[..];
      SwapDown(a, j, i + 1);
      SinkStep(s, i, j);
      j := j - 1;
    }
    SinkDone(a[..], i, j);
    assert a[..] == a[..i + 1] + a[i + 1..];
    assert old(a[..]) == old(a[..i + 1]) + old(a[i + 1..]);
  }

  /** Invariant of the insertion loop: s[..j] and s[j..hi] are sorted,
      and s[j - 1] may also be followed by s[j + 1]. */
  predicate Sinking(s: seq<string>, hi: int, j: int)
    requires 0 <= j < hi <= |s|
  {
    SortedRange(s, 0, j) && SortedRange(s, j, hi) &&
    (0 < j < hi - 1 ==> Le(s[j - 1], s[j + 1]))
  }

  /** Exchanging an out-of-order pair at j keeps the loop invariant, one
      place further down. */
  lemma SinkStep(s: seq<string>, i: nat, j: nat)
    requires 0 < j <= i < |s|
    requires Sinking(s, i + 1, j)
    requires Less(s[j], s[j - 1])
    ensures Sinking(s[j - 1 := s[j]][j := s[j - 1]], i + 1, j - 1)
  {
    var t := s[j - 1 := s[j]][j := s[j - 1]];
    forall k | j - 1 < k < i + 1 ensures Le(t[k - 1], t[k]) {
      if k == j {
        assert Le(s[j], s[j - 1]);
      } else if k == j + 1 {
        assert Le(s[j - 1], s[j + 1]);
      } else {
        assert t[k - 1] == s[k - 1] && t[k] == s[k];
      }
    }
  }

  /** Once s[j] is no longer below s[j - 1], s[..hi] is sorted. */
  lemma SinkDone(s: seq<string>, i: nat, j: nat)
    requires j <= i < |s|
    requires Sinking(s, i + 1, j)
    requires j > 0 ==> !Less(s[j], s[j - 1])
    ensures SortedRange(s, 0, i + 1)
  {
    if j > 0 && s[j] != s[j - 1] {
      LessTotal(s[j], s[j - 1]);
    }
  }

  /** Exchanges a[j - 1] and a[j], both inside a[..hi]. */
  method SwapDown(a: array<string>, j: nat, hi: nat)
    requires 0 < j < hi <= a.Length
    modifies a
    ensures a[..] == old(a[..])[j - 1 := old(a[j])][j := old(a[j - 1])]
    ensures multiset(a[..hi]) == old(multiset(a[..hi]))
    ensures a[hi..] == old(a[hi..])
  {
    a[j - 1], a[j] := a[j], a[j - 1];
    assert a[..hi] == old(a[..hi])[j - 1 := old(a[j])][j := old(a[j - 1])];
  }
}
