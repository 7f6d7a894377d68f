/**
 Sorting of a sequence by a string key, and the facts about sorted
 permutations the validator's determinism rests on. Rust's `sort_by` and
 `sort` are stable; here equal keys never need a tie-break, because header
 names in a collection are distinct and equal strings are the same string,
 so any sorted permutation is the one the source produces (`SortedUnique`).
 */
module Sorting {
  import Lex

  /** `s` is in ascending order of `key`. */
  predicate SortedBy<T>(s: seq<T>, key: T -> string)
  {
    forall i, j :: 0 <= i < j < |s| ==> Lex.Le(key(s[i]), key(s[j]))
  }

  /** No two positions of `s` carry the same key. */
  predicate DistinctKeys<T>(s: seq<T>, key: T -> string)
  {
    forall i, j :: 0 <= i < j < |s| ==> key(s[i]) != key(s[j])
  }

  /** Elements of `s` that share a key are the same element. */
  predicate KeyInjective<T(==)>(s: seq<T>, key: T -> string)
  {
    forall x, y :: x in s && y in s && key(x) == key(y) ==> x == y
  }

  /** Every key in `s` is at least `bound`. */
  predicate AllAtLeast<T>(bound: string, s: seq<T>, key: T -> string)
  {
    forall j :: 0 <= j < |s| ==> Lex.Le(bound, key(s[j]))
  }

  lemma LowerBoundOfSorted<T>(x: T, s: seq<T>, key: T -> string)
    requires SortedBy(s, key) && |s| > 0 && Lex.Le(key(x), key(s[0]))
    ensures AllAtLeast(key(x), s, key)
  {
    forall j | 0 <= j < |s|
      ensures Lex.Le(key(x), key(s[j]))
    {
      if j > 0 {
        Lex.LeTransitive(key(x), key(s[0]), key(s[j]));
      }
    }
  }

  lemma ConsSorted<T>(y: T, s: seq<T>, key: T -> string)
    requires SortedBy(s, key) && AllAtLeast(key(y), s, key)
    ensures SortedBy([y] + s, key)
  {
    forall i, j | 0 <= i < j < |[y] + s|
      ensures Lex.Le(key(([y] + s)[i]), key(([y] + s)[j]))
    {
      if i > 0 {
        assert Lex.Le(key(s[i - 1]), key(s[j - 1]));
      } else {
        assert Lex.Le(key(y), key(s[j - 1]));
      }
    }
  }

  lemma InsertedTailBound<T>(x: T, s: seq<T>, rest: seq<T>, key: T -> string)
    requires SortedBy(s, key) && |s| > 0 && Lex.Le(key(s[0]), key(x))
    requires multiset(rest) == multiset(s[1..]) + multiset{x}
    ensures AllAtLeast(key(s[0]), rest, key)
  {
    forall j | 0 <= j < |rest|
      ensures Lex.Le(key(s[0]), key(rest[j]))
    {
      assert rest[j] in multiset(rest);
      if rest[j] != x {
        assert rest[j] in multiset(s[1..]);
        var k :| 0 <= k < |s[1..]| && s[1..][k] == rest[j];
        assert Lex.Le(key(s[0]), key(s[k + 1]));
      }
    }
  }

  /** Places `x` before the first element of sorted `s` whose key is not smaller. */
  function Insert<T>(x: T, s: seq<T>, key: T -> string): (r: seq<T>)
    requires SortedBy(s, key)
    ensures SortedBy(r, key)
    ensures multiset(r) == multiset(s) + multiset{x}
    decreases |s|
  {
    if |s| == 0 then
      [x]
    else if Lex.Le(key(x), key(s[0])) then
      LowerBoundOfSorted(x, s, key);
      ConsSorted(x, s, key);
      [x] + s
    else
      Lex.LeTotal(key(x), key(s[0]));
      SortedTail(s, key);
      var rest := Insert(x, s[1..], key);
      InsertedTailBound(x, s, rest, key);
      ConsSorted(s[0], rest, key);
      assert s == [s[0]] + s[1..];
      [s[0]] + rest
  }

  /** Insertion sort of `s` by `key`. */
  function SortBy<T>(s: seq<T>, key: T -> string): (r: seq<T>)
    ensures SortedBy(r, key)
    ensures multiset(r) == multiset(s)
    decreases |s|
  {
    if |s| == 0 then
      []
    else
      assert s == [s[0]] + s[1..];
      Insert(s[0], SortBy(s[1..], key), key)
  }

  lemma SortedByMembers<T>(s: seq<T>, r: seq<T>)
    requires multiset(r) == multiset(s)
    ensures |r| == |s|
    ensures forall x :: x in r <==> x in s
  {
    assert |multiset(r)| == |multiset(s)|;
    forall x
      ensures x in r <==> x in s
    {
      assert x in r <==> x in multiset(r);
      assert x in s <==> x in multiset(s);
    }
  }

  lemma {:induction false} DistinctKeysAtMostOnce<T>(s: seq<T>, key: T -> string, x: T)
    requires DistinctKeys(s, key)
    ensures multiset(s)[x] <= 1
    decreases |s|
  {
    if |s| > 0 {
      assert s == [s[0]] + s[1..];
      assert DistinctKeys(s[1..], key) by {
        forall i, j | 0 <= i < j < |s[1..]|
          ensures key(s[1..][i]) != key(s[1..][j])
        {
          assert key(s[i + 1]) != key(s[j + 1]);
        }
      }
      DistinctKeysAtMostOnce(s[1..], key, x);
      if x == s[0] {
        forall k | 0 <= k < |s[1..]|
          ensures s[1..][k] != x
        {
          assert key(s[0]) != key(s[k + 1]);
        }
        assert x !in s[1..];
      }
    }
  }

  lemma CountOfRepeated<T>(s: seq<T>, i: int, j: int)
    requires 0 <= i < j < |s|
    ensures multiset(s)[s[i]] >= 1 + (if s[j] == s[i] then 1 else 0)
  {
    assert s == s[..j] + s[j..];
    assert s[..j][i] == s[i];
    assert s[j..][0] == s[j];
  }

  /** Distinct keys survive any permutation. */
  lemma DistinctKeysPermutation<T>(a: seq<T>, b: seq<T>, key: T -> string)
    requires DistinctKeys(a, key) && multiset(a) == multiset(b)
    ensures DistinctKeys(b, key)
  {
    SortedByMembers(a, b);
    forall i, j | 0 <= i < j < |b|
      ensures key(b[i]) != key(b[j])
    {
      assert b[i] in b && b[j] in b;
      CountOfRepeated(b, i, j);
      DistinctKeysAtMostOnce(a, key, b[i]);
      assert b[i] != b[j];
      var p :| 0 <= p < |a| && a[p] == b[i];
      var q :| 0 <= q < |a| && a[q] == b[j];
      if p < q {
        assert key(a[p]) != key(a[q]);
      } else {
        assert key(a[q]) != key(a[p]);
      }
    }
  }

  lemma DistinctKeysInjective<T>(s: seq<T>, key: T -> string)
    requires DistinctKeys(s, key)
    ensures KeyInjective(s, key)
  {
    forall x, y | x in s && y in s && key(x) == key(y)
      ensures x == y
    {
      var p :| 0 <= p < |s| && s[p] == x;
      var q :| 0 <= q < |s| && s[q] == y;
      if p < q {
        assert key(s[p]) != key(s[q]);
      } else if q < p {
        assert key(s[q]) != key(s[p]);
      }
    }
  }

  lemma SortedTail<T>(s: seq<T>, key: T -> string)
    requires SortedBy(s, key) && |s| > 0
    ensures SortedBy(s[1..], key)
  {
    forall i, j | 0 <= i < j < |s[1..]|
      ensures Lex.Le(key(s[1..][i]), key(s[1..][j]))
    {
      assert Lex.Le(key(s[i + 1]), key(s[j + 1]));
    }
  }

  lemma SortedHeadsEqual<T>(a: seq<T>, b: seq<T>, key: T -> string)
    requires SortedBy(a, key) && SortedBy(b, key) && |a| > 0
    requires multiset(a) == multiset(b)
    requires KeyInjective(a, key)
    ensures |b| > 0 && a[0] == b[0]
  {
    SortedByMembers(a, b);
    assert a[0] in a && b[0] in b;
    var k :| 0 <= k < |b| && b[k] == a[0];
    var m :| 0 <= m < |a| && a[m] == b[0];
    Lex.LeReflexive(key(a[0]));
    Lex.LeReflexive(key(b[0]));
    assert Lex.Le(key(b[0]), key(b[k]));
    assert Lex.Le(key(a[0]), key(a[m]));
    Lex.LeAntisymmetric(key(a[0]), key(b[0]));
  }

  lemma TailMultiset<T>(s: seq<T>)
    requires |s| > 0
    ensures multiset(s[1..]) == multiset(s) - multiset{s[0]}
  {
    assert s == [s[0]] + s[1..];
    assert multiset(s) == multiset{s[0]} + multiset(s[1..]);
  }

  /**
   Two sorted arrangements of the same elements are equal when no two
   different elements share a key: the sorted order does not depend on the
   order the elements arrived in.
   */
  lemma {:induction false} SortedUnique<T>(a: seq<T>, b: seq<T>, key: T -> string)
    requires SortedBy(a, key) && SortedBy(b, key)
    requires multiset(a) == multiset(b)
    requires KeyInjective(a, key)
    ensures a == b
    decreases |a|
  {
    SortedByMembers(a, b);
    if |a| > 0 {
      SortedHeadsEqual(a, b, key);
      TailMultiset(a);
      TailMultiset(b);
      SortedTail(a, key);
      SortedTail(b, key);
      assert KeyInjective(a[1..], key) by {
        forall x, y | x in a[1..] && y in a[1..] && key(x) == key(y)
          ensures x == y
        {
          assert x in a && y in a;
        }
      }
      SortedUnique(a[1..], b[1..], key);
      assert a == [a[0]] + a[1..];
      assert b == [b[0]] + b[1..];
    }
  }
}
