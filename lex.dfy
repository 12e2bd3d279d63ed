/** The order in which Go's sort.Strings arranges strings, and the sorted
    sequence of a set of keys that the connection-string renderer emits.

    Go compares strings byte by byte; here strings are sequences of `char`
    (Unicode scalar values) compared character by character. UTF-8 byte
    order equals code-point order, so the two agree on every key that is
    valid UTF-8. */
module Lex {

  /** Lexicographic "strictly less": a proper prefix is smaller, otherwise
      the first differing character decides. */
  predicate Less(a: string, b: string)
    decreases |a|
  {
    if a == [] then b != []
    else if b == [] then false
    else if a[0] != b[0] then a[0] < b[0]
    else Less(a[1..], b[1..])
  }

  predicate Le(a: string, b: string)
  {
    a == b || Less(a, b)
  }

  /** Less agrees with the textbook definition of lexicographic order:
      `a` is a proper prefix of `b`, or they agree up to an index where `a`
      has the smaller character. */
  lemma {:induction false} LessIsLexicographic(a: string, b: string)
    ensures Less(a, b) <==>
      (|a| < |b| && a == b[..|a|]) ||
      (exists i :: 0 <= i < |a| && i < |b| && a[..i] == b[..i] && a[i] < b[i])
    decreases |a|
  {
    if a == [] || b == [] {
    } else if a[0] != b[0] {
      if a[0] < b[0] {
        assert a[..0] == b[..0];
      } else {
        forall i | 0 < i <= |a| && i <= |b| ensures a[..i] != b[..i] {
          assert a[..i][0] == a[0] && b[..i][0] == b[0];
        }
      }
    } else {
      LessIsLexicographic(a[1..], b[1..]);
      var a', b' := a[1..], b[1..];
      if |a'| < |b'| && a' == b'[..|a'|] {
        assert a == [a[0]] + a' && b[..|a|] == [b[0]] + b'[..|a'|];
      }
      if |a| < |b| && a == b[..|a|] {
        assert a' == b'[..|a'|];
      }
      if i :| 0 <= i < |a'| && i < |b'| && a'[..i] == b'[..i] && a'[i] < b'[i] {
        assert a[..i + 1] == [a[0]] + a'[..i] && b[..i + 1] == [b[0]] + b'[..i];
        assert a[i + 1] < b[i + 1];
      }
      if i :| 0 <= i < |a| && i < |b| && a[..i] == b[..i] && a[i] < b[i] {
        assert i > 0;
        assert a'[..i - 1] == a[..i][1..] && b'[..i - 1] == b[..i][1..];
        assert a'[i - 1] < b'[i - 1];
      }
    }
  }

  lemma {:induction false} LessIrreflexive(a: string)
    ensures !Less(a, a)
    decreases |a|
  {
    if a != [] {
      LessIrreflexive(a[1..]);
    }
  }

  lemma {:induction false} LessTransitive(a: string, b: string, c: string)
    requires Less(a, b) && Less(b, c)
    ensures Less(a, c)
    decreases |a|
  {
    if a != [] && a[0] == b[0] && b[0] == c[0] {
      LessTransitive(a[1..], b[1..], c[1..]);
    }
  }

  /** Any two different strings are ordered one way or the other. */
  lemma {:induction false} LessTotal(a: string, b: string)
    requires a != b
    ensures Less(a, b) || Less(b, a)
    decreases |a|
  {
    if a != [] && b != [] && a[0] == b[0] {
      assert a == [a[0]] + a[1..] && b == [b[0]] + b[1..];
      LessTotal(a[1..], b[1..]);
    }
  }

  lemma LessAsymmetric(a: string, b: string)
    requires Less(a, b)
    ensures !Less(b, a)
  {
  }

  lemma LeTransitive(a: string, b: string, c: string)
    requires Le(a, b) && Le(b, c)
    ensures Le(a, c)
  {
    if a != b && b != c {
      LessTransitive(a, b, c);
    }
  }

  /** Every neighbour pair is in order: what an in-place sort establishes. */
  predicate Sorted(s: seq<string>)
  {
    forall i :: 0 < i < |s| ==> Le(s[i - 1], s[i])
  }

  /** Every earlier element is strictly smaller than every later one. */
  predicate StrictlyAscending(s: seq<string>)
  {
    forall i, j :: 0 <= i < j < |s| ==> Less(s[i], s[j])
  }

  predicate Distinct(s: seq<string>)
  {
    forall i, j :: 0 <= i < j < |s| ==> s[i] != s[j]
  }

  /** A sorted sequence without repetitions is strictly ascending. */
  lemma {:induction false} SortedDistinctAscending(s: seq<string>)
    requires Sorted(s) && Distinct(s)
    ensures StrictlyAscending(s)
    decreases |s|
  {
    if |s| > 1 {
      var t := s[..|s| - 1];
      assert Sorted(t) && Distinct(t);
      SortedDistinctAscending(t);
      var n := |s| - 1;
      assert Less(s[n - 1], s[n]);
      forall i | 0 <= i < n ensures Less(s[i], s[n]) {
        if i < n - 1 {
          assert t[i] == s[i] && t[n - 1] == s[n - 1];
          LessTransitive(s[i], s[n - 1], s[n]);
        }
      }
    }
  }

  /** A strictly ascending sequence is determined by its elements. */
  lemma {:induction false} AscendingUnique(s: seq<string>, t: seq<string>)
    requires StrictlyAscending(s) && StrictlyAscending(t)
    requires forall x :: x in s <==> x in t
    ensures s == t
    decreases |s|
  {
    assert s != [] ==> s[0] in t;
    assert t != [] ==> t[0] in s;
    if s != [] && t != [] {
      var i :| 0 <= i < |s| && s[i] == t[0];
      var j :| 0 <= j < |t| && t[j] == s[0];
      if i > 0 && j > 0 {
        LessAsymmetric(s[0], s[i]);
      } else if i > 0 {
        LessIrreflexive(s[0]);
      } else if j > 0 {
        LessIrreflexive(t[0]);
      }
      assert s[0] == t[0];
      LessIrreflexive(s[0]);
      forall x ensures x in s[1..] <==> x in t[1..] {
        if x in s[1..] {
          var k :| 0 <= k < |s| - 1 && s[1..][k] == x;
          assert Less(s[0], s[k + 1]);
          assert x in t;
          var m :| 0 <= m < |t| && t[m] == x;
          assert m != 0;
          assert t[1..][m - 1] == x;
        }
        if x in t[1..] {
          var k :| 0 <= k < |t| - 1 && t[1..][k] == x;
          assert Less(t[0], t[k + 1]);
          assert x in s;
          var m :| 0 <= m < |s| && s[m] == x;
          assert m != 0;
          assert s[1..][m - 1] == x;
        }
      }
      AscendingUnique(s[1..], t[1..]);
      assert s == [s[0]] + s[1..] && t == [t[0]] + t[1..];
    }
  }

  lemma LeBelowAll(x: string, m: string, s: set<string>)
    requires Le(x, m)
    requires forall j :: j in s ==> Le(m, j)
    ensures forall j :: j in s ==> Le(x, j)
  {
    forall j | j in s ensures Le(x, j) {
      LeTransitive(x, m, j);
    }
  }

  /** The smallest element of a non-empty set of keys. */
  ghost function Least(keys: set<string>): (k: string)
    requires keys != {}
    ensures k in keys
    ensures forall j :: j in keys ==> Le(k, j)
    decreases |keys|
  {
    var x :| x in keys;
    if keys == {x} then x
    else
      var m := Least(keys - {x});
      if Less(x, m) then
        LeBelowAll(x, m, keys - {x});
        x
      else
        LessTotal(x, m);
        m
  }

  /** The keys of a set in ascending order, each once: the sequence that
      sort.Strings makes of the keys collected from a map. */
  ghost function SortedKeys(keys: set<string>): (r: seq<string>)
    ensures StrictlyAscending(r)
    ensures forall k :: k in r <==> k in keys
    ensures |r| == |keys|
    decreases |keys|
  {
    if keys == {} then []
    else
      var k := Least(keys);
      var rest := SortedKeys(keys - {k});
      assert forall j :: 0 <= j < |rest| ==> Less(k, rest[j]) by {
        forall j | 0 <= j < |rest| ensures Less(k, rest[j]) {
          assert rest[j] in keys - {k};
        }
      }
      [k] + rest
  }

  /** The sorted key sequence is the only strictly ascending arrangement
      of the keys. */
  lemma SortedKeysUnique(keys: set<string>, s: seq<string>)
    requires StrictlyAscending(s)
    requires forall k :: k in s <==> k in keys
    ensures s == SortedKeys(keys)
  {
    AscendingUnique(s, SortedKeys(keys));
  }

  lemma {:induction false} DistinctCount(p: seq<string>, x: string)
    requires Distinct(p)
    ensures multiset(p)[x] <= 1
    decreases |p|
  {
    if p != [] {
      var init := p[..|p| - 1];
      assert p == init + [p[|p| - 1]];
      DistinctCount(init, x);
      if p[|p| - 1] == x {
        assert x !in init;
      }
    }
  }

  lemma TwoCopies(t: seq<string>, i: nat, j: nat)
    requires i < j < |t| && t[i] == t[j]
    ensures multiset(t)[t[i]] >= 2
  {
    assert t == t[..j] + [t[j]] + t[j + 1..];
    assert t[i] in t[..j];
  }

  /** Rearranging a sequence without repetitions cannot create one. */
  lemma DistinctPermutation(p: seq<string>, t: seq<string>)
    requires Distinct(p) && multiset(p) == multiset(t)
    ensures Distinct(t)
  {
    forall i, j | 0 <= i < j < |t| ensures t[i] != t[j] {
      if t[i] == t[j] {
        TwoCopies(t, i, j);
        DistinctCount(p, t[i]);
      }
    }
  }

  lemma AscendingDistinct(s: seq<string>)
    requires StrictlyAscending(s)
    ensures Distinct(s)
  {
    forall i, j | 0 <= i < j < |s| ensures s[i] != s[j] {
      LessIrreflexive(s[i]);
    }
  }

  /** Keys collected once each from a set and then sorted are exactly the
      sorted key sequence of the set. */
  lemma SortedCollectedKeys(keys: set<string>, collected: seq<string>, sorted: seq<string>)
    requires Distinct(collected)
    requires forall k :: k in collected <==> k in keys
    requires multiset(sorted) == multiset(collected)
    requires Sorted(sorted)
    ensures sorted == SortedKeys(keys)
  {
    DistinctPermutation(collected, sorted);
    SortedDistinctAscending(sorted);
    assert forall k :: k in sorted <==> k in multiset(sorted);
    assert forall k :: k in collected <==> k in multiset(collected);
    SortedKeysUnique(keys, sorted);
  }
}
