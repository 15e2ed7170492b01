/** Sequence operations shared by the query layers: filtering, counting, summing, and the stable
    ordering that stands for SQL's ORDER BY. */
module Collections {

  /** `[x for x in s if p(x)]` */
  function Filter<T(!new)>(s: seq<T>, p: T -> bool): (r: seq<T>)
    ensures |r| <= |s|
    ensures forall x :: x in r <==> x in s && p(x)
    ensures forall i :: 0 <= i < |r| ==> p(r[i])
  {
    if |s| == 0 then []
    else
      var rest := Filter(s[1..], p);
      assert s == [s[0]] + s[1..];
      if p(s[0]) then [s[0]] + rest else rest
  }

  /** Filters that agree on the elements give the same result. */
  lemma {:induction false} FilterCongruent<T(!new)>(s: seq<T>, p: T -> bool, q: T -> bool)
    requires forall i :: 0 <= i < |s| ==> p(s[i]) == q(s[i])
    ensures Filter(s, p) == Filter(s, q)
  {
    if |s| > 0 {
      assert forall i :: 1 <= i < |s| ==> s[1..][i - 1] == s[i];
      FilterCongruent(s[1..], p, q);
    }
  }

  /** The number of elements satisfying `p`. */
  function Count<T(!new)>(s: seq<T>, p: T -> bool): (n: nat)
    ensures n <= |s|
    ensures n == 0 <==> forall i :: 0 <= i < |s| ==> !p(s[i])
  {
    if |s| == 0 then 0
    else
      assert s[0] in s;
      (if p(s[0]) then 1 else 0) + Count(s[1..], p)
  }

  /** Counting is the length of the filtered sequence. */
  lemma {:induction false} CountIsFilterLength<T(!new)>(s: seq<T>, p: T -> bool)
    ensures Count(s, p) == |Filter(s, p)|
  {
    if |s| > 0 {
      CountIsFilterLength(s[1..], p);
    }
  }

  /** Counting over a sequence extended at the end, as a loop that counts one more element. */
  lemma {:induction false} CountSnoc<T(!new)>(s: seq<T>, x: T, p: T -> bool)
    ensures Count(s + [x], p) == Count(s, p) + (if p(x) then 1 else 0)
  {
    if |s| == 0 {
      assert [x][1..] == [];
    } else {
      assert (s + [x])[1..] == s[1..] + [x];
      CountSnoc(s[1..], x, p);
    }
  }

  /** The number of times `x` occurs in `s`: `s.count(x)`. */
  function Occurrences<T(==)>(s: seq<T>, x: T): (r: nat)
    ensures r <= |s|
    ensures r == 0 <==> x !in s
  {
    if |s| == 0 then 0 else (if s[0] == x then 1 else 0) + Occurrences(s[1..], x)
  }

  lemma {:induction false} OccurrencesAppend<T>(a: seq<T>, b: seq<T>, x: T)
    ensures Occurrences(a + b, x) == Occurrences(a, x) + Occurrences(b, x)
  {
    if |a| == 0 {
      assert a + b == b;
    } else {
      assert (a + b)[1..] == a[1..] + b;
      OccurrencesAppend(a[1..], b, x);
    }
  }

  /** A weaker condition counts at least as many elements. */
  lemma {:induction false} CountMonotone<T(!new)>(s: seq<T>, p: T -> bool, q: T -> bool)
    requires forall i :: 0 <= i < |s| && p(s[i]) ==> q(s[i])
    ensures Count(s, p) <= Count(s, q)
  {
    if |s| > 0 {
      assert forall i :: 1 <= i < |s| ==> s[1..][i - 1] == s[i];
      CountMonotone(s[1..], p, q);
    }
  }

  /** `sum(f(x) for x in s)` */
  function Sum<T>(s: seq<T>, f: T -> int): int
  {
    if |s| == 0 then 0 else f(s[0]) + Sum(s[1..], f)
  }

  lemma {:induction false} SumAppend<T>(a: seq<T>, b: seq<T>, f: T -> int)
    ensures Sum(a + b, f) == Sum(a, f) + Sum(b, f)
  {
    if |a| > 0 {
      assert (a + b)[1..] == a[1..] + b;
      SumAppend(a[1..], b, f);
    } else {
      assert a + b == b;
    }
  }

  /** A sum of terms each bounded by the matching term of another sum is bounded by it. */
  lemma {:induction false} SumMonotone<T>(s: seq<T>, f: T -> int, g: T -> int)
    requires forall i :: 0 <= i < |s| ==> f(s[i]) <= g(s[i])
    ensures Sum(s, f) <= Sum(s, g)
  {
    if |s| > 0 {
      SumMonotone(s[1..], f, g);
    }
  }

  lemma {:induction false} SumNonNegative<T>(s: seq<T>, f: T -> int)
    requires forall i :: 0 <= i < |s| ==> 0 <= f(s[i])
    ensures 0 <= Sum(s, f)
  {
    if |s| > 0 {
      SumNonNegative(s[1..], f);
    }
  }

  /** `{f(x) for x in s}` */
  function Image<T, K(!new)>(s: seq<T>, f: T -> K): (r: set<K>)
    ensures |r| <= |s|
    ensures forall i :: 0 <= i < |s| ==> f(s[i]) in r
    ensures forall k :: k in r ==> exists i :: 0 <= i < |s| && f(s[i]) == k
  {
    if |s| == 0 then {}
    else
      var rest := Image(s[1..], f);
      assert forall k :: k in rest ==> exists i :: 0 <= i < |s| && f(s[i]) == k by {
        forall k | k in rest
          ensures exists i :: 0 <= i < |s| && f(s[i]) == k
        {
          var i :| 0 <= i < |s[1..]| && f(s[1..][i]) == k;
          assert f(s[i + 1]) == k;
        }
      }
      {f(s[0])} + rest
  }

  /** The keys never decrease along the sequence. */
  ghost predicate SortedBy<T>(s: seq<T>, key: T -> int) {
    forall i, j :: 0 <= i < j < |s| ==> key(s[i]) <= key(s[j])
  }

  /** No two elements share an identifier. */
  ghost predicate DistinctBy<T, K>(s: seq<T>, id: T -> K) {
    forall i, j :: 0 <= i < |s| && 0 <= j < |s| && i != j ==> id(s[i]) != id(s[j])
  }

  /** Insert `x` before the first element whose key is not smaller. */
  function InsertBy<T(!new)>(x: T, s: seq<T>, key: T -> int): (r: seq<T>)
    requires SortedBy(s, key)
    ensures SortedBy(r, key)
    ensures multiset(r) == multiset(s) + multiset{x}
  {
    if |s| == 0 then [x]
    else if key(x) <= key(s[0]) then [x] + s
    else
      var t := InsertBy(x, s[1..], key);
      assert s == [s[0]] + s[1..];
      InsertKeepsHeadFirst(x, s, t, key);
      [s[0]] + t
  }

  lemma InsertKeepsHeadFirst<T>(x: T, s: seq<T>, t: seq<T>, key: T -> int)
    requires |s| > 0 && SortedBy(s, key) && key(s[0]) < key(x)
    requires multiset(t) == multiset(s[1..]) + multiset{x}
    ensures forall k :: 0 <= k < |t| ==> key(s[0]) <= key(t[k])
  {
    forall k | 0 <= k < |t|
      ensures key(s[0]) <= key(t[k])
    {
      assert t[k] in multiset(t);
      if t[k] != x {
        assert t[k] in multiset(s[1..]);
        var m :| 0 <= m < |s[1..]| && s[1..][m] == t[k];
        assert s[m + 1] == t[k];
      }
    }
  }

  /** SQL's `ORDER BY key` as a stable insertion sort (ties keep their stored order). */
  function SortBy<T(!new)>(s: seq<T>, key: T -> int): (r: seq<T>)
    ensures SortedBy(r, key)
    ensures multiset(r) == multiset(s)
    ensures |r| == |s|
  {
    if |s| == 0 then []
    else
      assert s == [s[0]] + s[1..];
      InsertBy(s[0], SortBy(s[1..], key), key)
  }

  /** Sorting neither adds nor drops elements. */
  lemma SortByMembers<T(!new)>(s: seq<T>, key: T -> int)
    ensures forall y :: y in SortBy(s, key) <==> y in s
  {
    var r := SortBy(s, key);
    forall y
      ensures y in r <==> y in s
    {
      assert y in r <==> y in multiset(r);
      assert y in s <==> y in multiset(s);
    }
  }

  /** Two elements with the same identifier in a sequence without repeated identifiers are the
      same element at the same place. */
  lemma DistinctByMember<T, K>(s: seq<T>, id: T -> K, x: T, y: T)
    requires DistinctBy(s, id) && x in s && y in s && id(x) == id(y)
    ensures x == y
  {
  }

  /** Filtering keeps identifiers distinct. */
  lemma {:induction false} FilterDistinct<T(!new), K>(s: seq<T>, p: T -> bool, id: T -> K)
    requires DistinctBy(s, id)
    ensures DistinctBy(Filter(s, p), id)
  {
    if |s| > 0 {
      TailDistinct(s, id);
      FilterDistinct(s[1..], p, id);
      var rest := Filter(s[1..], p);
      if p(s[0]) {
        var r := [s[0]] + rest;
        forall i, j | 0 <= i < |r| && 0 <= j < |r| && i != j
          ensures id(r[i]) != id(r[j])
        {
          if i == 0 || j == 0 {
            var k := if i == 0 then j else i;
            assert r[k] in s[1..];
            var m :| 0 <= m < |s[1..]| && s[1..][m] == r[k];
            assert s[m + 1] == r[k];
          }
        }
      }
    }
  }

  /** Sorting keeps identifiers distinct. */
  lemma {:induction false} SortDistinct<T(!new), K>(s: seq<T>, key: T -> int, id: T -> K)
    requires DistinctBy(s, id)
    ensures DistinctBy(SortBy(s, key), id)
  {
    if |s| > 0 {
      var x := s[0];
      TailDistinct(s, id);
      SortDistinct(s[1..], key, id);
      var t := SortBy(s[1..], key);
      SortByMembers(s[1..], key);
      forall y | y in t
        ensures id(y) != id(x)
      {
        var m :| 0 <= m < |s[1..]| && s[1..][m] == y;
        assert s[m + 1] == y;
      }
      InsertDistinct(x, t, key, id);
    }
  }

  lemma TailDistinct<T, K>(s: seq<T>, id: T -> K)
    requires |s| > 0 && DistinctBy(s, id)
    ensures DistinctBy(s[1..], id)
  {
    forall i, j | 0 <= i < |s[1..]| && 0 <= j < |s[1..]| && i != j
      ensures id(s[1..][i]) != id(s[1..][j])
    {
      assert s[1..][i] == s[i + 1] && s[1..][j] == s[j + 1];
    }
  }

  lemma {:induction false} InsertDistinct<T(!new), K>(x: T, s: seq<T>, key: T -> int, id: T -> K)
    requires SortedBy(s, key) && DistinctBy(s, id)
    requires forall y :: y in s ==> id(y) != id(x)
    ensures DistinctBy(InsertBy(x, s, key), id)
  {
    if |s| > 0 && key(x) > key(s[0]) {
      TailDistinct(s, id);
      InsertDistinct(x, s[1..], key, id);
      var t := InsertBy(x, s[1..], key);
      var r := [s[0]] + t;
      forall i, j | 0 <= i < |r| && 0 <= j < |r| && i != j
        ensures id(r[i]) != id(r[j])
      {
        if i == 0 || j == 0 {
          var k := if i == 0 then j else i;
          assert r[k] in multiset(t);
          if r[k] != x {
            assert r[k] in multiset(s[1..]);
            var m :| 0 <= m < |s[1..]| && s[1..][m] == r[k];
            assert s[m + 1] == r[k];
          } else {
            assert s[0] in s;
          }
        }
      }
    }
  }

  /** `[i for i, x in enumerate(s) if p(x) and i >= from]`: the indices from `from` on of the
      elements satisfying `p`. */
  function Positions<T>(s: seq<T>, p: T -> bool, from: nat): (r: seq<nat>)
    requires from <= |s|
    ensures forall k :: 0 <= k < |r| ==> from <= r[k] < |s| && p(s[r[k]])
    ensures forall k, l :: 0 <= k < l < |r| ==> r[k] < r[l]
    decreases |s| - from
  {
    if from == |s| then []
    else (if p(s[from]) then [from] else []) + Positions(s, p, from + 1)
  }

  /** Every element from `from` on that satisfies `p` has its index listed. */
  lemma {:induction false} PositionsComplete<T>(s: seq<T>, p: T -> bool, from: nat)
    requires from <= |s|
    ensures forall i :: from <= i < |s| && p(s[i]) ==> i in Positions(s, p, from)
    decreases |s| - from
  {
    if from < |s| {
      PositionsComplete(s, p, from + 1);
    }
  }

  /** A map holding each of the keys 1..n has at least n entries. */
  lemma {:induction false} KeysAtLeast<V>(m: map<int, V>, n: nat)
    requires forall id :: 1 <= id <= n ==> id in m
    ensures |m| >= n
  {
    if n > 0 {
      var rest := m - {n};
      assert forall id :: 1 <= id <= n - 1 ==> id in rest;
      KeysAtLeast(rest, n - 1);
      assert m.Keys == rest.Keys + {n};
    }
  }

  /** A subset is no larger than its superset. */
  lemma SubsetCardinality<T>(a: set<T>, b: set<T>)
    requires a <= b
    ensures |a| <= |b|
  {
    assert b == a + (b - a);
  }

  /** Nothing counts exactly when nothing satisfies the test. */
  lemma CountZeroAll<T(!new)>(s: seq<T>, p: T -> bool)
    ensures Count(s, p) == 0 <==> forall x :: x in s ==> !p(x)
  {
    assert forall x :: x in s <==> exists i :: 0 <= i < |s| && s[i] == x;
  }
}
