/** What the storage layer does with the rows a query selects: keep those that
    satisfy the where-clause, order them, and cut a window out of the result. */
module Sequences {
  import opened Results

  /** The rows of `s` that satisfy `p`, in their original order. */
  function Filter<T(!new)>(s: seq<T>, p: T -> bool): (r: seq<T>)
    ensures |r| <= |s|
    ensures forall x :: x in r <==> x in s && p(x)
    ensures multiset(r) <= multiset(s)
    ensures forall x :: multiset(r)[x] == if p(x) then multiset(s)[x] else 0
    decreases |s|
  {
    if |s| == 0 then []
    else
      var rest := Filter(s[1..], p);
      assert s == [s[0]] + s[1..];
      assert multiset(s) == multiset{s[0]} + multiset(s[1..]);
      if p(s[0]) then [s[0]] + rest else rest
  }

  /** `le` is a total preorder: any two rows compare, and comparison chains. */
  ghost predicate IsTotalPreorder<T(!new)>(le: (T, T) -> bool) {
    && (forall a, b :: le(a, b) || le(b, a))
    && (forall a, b, c :: le(a, b) && le(b, c) ==> le(a, c))
  }

  /** Every row of `part` is a row of `s`, and no row occurs in `part` more
      often than in `s`. */
  predicate RowsOf<T(==)>(part: seq<T>, s: seq<T>) {
    multiset(part) <= multiset(s)
  }

  predicate SortedBy<T>(s: seq<T>, le: (T, T) -> bool) {
    forall i, j :: 0 <= i < j < |s| ==> le(s[i], s[j])
  }

  /** A row no greater than any row of a sorted sequence may go in front of it. */
  lemma PrependSorted<T>(x: T, s: seq<T>, le: (T, T) -> bool)
    requires SortedBy(s, le)
    requires forall y :: y in s ==> le(x, y)
    ensures SortedBy([x] + s, le)
  {
    forall i, j | 0 <= i < j < |[x] + s|
      ensures le(([x] + s)[i], ([x] + s)[j])
    {
      if i == 0 {
        assert s[j - 1] in s;
      } else {
        assert ([x] + s)[i] == s[i - 1];
      }
    }
  }

  /** The first row of a sorted sequence is no greater than any of its rows. */
  lemma HeadIsLeast<T>(s: seq<T>, le: (T, T) -> bool, y: T)
    requires SortedBy(s, le) && |s| > 0 && y in s
    requires forall a :: le(a, a)
    ensures le(s[0], y)
  {
    var k :| 0 <= k < |s| && s[k] == y;
    if k == 0 {
      assert le(s[0], s[0]);
    }
  }

  /** `x` put into the sorted `s` before the first row it precedes. */
  function Insert<T(!new)>(x: T, s: seq<T>, le: (T, T) -> bool): (r: seq<T>)
    requires IsTotalPreorder(le) && SortedBy(s, le)
    ensures multiset(r) == multiset(s) + multiset{x}
    ensures SortedBy(r, le)
    decreases |s|
  {
    if |s| == 0 then [x]
    else if le(x, s[0]) then
      assert forall y :: y in s ==> le(x, y) by {
        forall y | y in s
          ensures le(x, y)
        {
          HeadIsLeast(s, le, y);
        }
      }
      PrependSorted(x, s, le);
      [x] + s
    else
      var rest := Insert(x, s[1..], le);
      assert s == [s[0]] + s[1..];
      assert forall y :: y in rest ==> le(s[0], y) by {
        forall y | y in rest
          ensures le(s[0], y)
        {
          assert y in multiset(rest);
          if y != x {
            assert y in multiset(s[1..]);
            HeadIsLeast(s, le, y);
          }
        }
      }
      PrependSorted(s[0], rest, le);
      [s[0]] + rest
  }

  /** Insertion sort: the same rows, ordered by `le`. */
  function Sort<T(!new)>(s: seq<T>, le: (T, T) -> bool): (r: seq<T>)
    requires IsTotalPreorder(le)
    ensures multiset(r) == multiset(s)
    ensures SortedBy(r, le)
    decreases |s|
  {
    if |s| == 0 then []
    else
      assert s == [s[0]] + s[1..];
      Insert(s[0], Sort(s[1..], le), le)
  }

  /** At most the first `n` rows (SQL `LIMIT n`, TypeORM `take`). */
  function Take<T>(s: seq<T>, n: nat): (r: seq<T>)
    ensures |r| == if n < |s| then n else |s|
    ensures r <= s
    ensures multiset(r) <= multiset(s)
  {
    if n < |s| then
      assert s == s[..n] + s[n..];
      s[..n]
    else s
  }

  /** The rows after the first `skip`, at most `take` of them (SQL `OFFSET skip
      LIMIT take`). */
  function Window<T>(s: seq<T>, skip: nat, take: nat): (r: seq<T>)
    ensures skip >= |s| ==> r == []
    ensures skip < |s| ==> |r| == (if skip + take <= |s| then take else |s| - skip)
    ensures forall i :: 0 <= i < |r| ==> r[i] == s[skip + i]
    ensures forall x :: x in r ==> x in s
  {
    if skip >= |s| then [] else Take(s[skip..], take)
  }

  /** Every row a sorted sequence keeps past its first `n` comes, in the order,
      after every row of the first `n`: taking a prefix skips nothing. */
  lemma TakeSkipsNothing<T>(s: seq<T>, n: nat, le: (T, T) -> bool, x: T)
    requires SortedBy(s, le) && x in s && x !in Take(s, n)
    ensures forall y :: y in Take(s, n) ==> le(y, x)
  {
    assert n < |s|;
    var j :| 0 <= j < |s| && s[j] == x;
    forall y | y in Take(s, n)
      ensures le(y, x)
    {
      var i :| 0 <= i < n && s[..n][i] == y;
      assert s[i] == y;
    }
  }

  /** The position of the first row that satisfies `p`, as `findOne` picks it. */
  function FindFirst<T>(s: seq<T>, p: T -> bool): (r: Option<nat>)
    ensures r.Some? ==> r.value < |s| && p(s[r.value])
    ensures r.Some? ==> forall j :: 0 <= j < r.value ==> !p(s[j])
    ensures r.None? <==> forall j :: 0 <= j < |s| ==> !p(s[j])
    decreases |s|
  {
    if |s| == 0 then None
    else if p(s[0]) then Some(0)
    else
      match FindFirst(s[1..], p)
      case None => None
      case Some(k) => Some(k + 1)
  }

  /** Filtering by two predicates that agree on every row gives the same rows. */
  lemma {:induction false} FilterCongruent<T(!new)>(s: seq<T>, p: T -> bool, q: T -> bool)
    requires forall x :: p(x) == q(x)
    ensures Filter(s, p) == Filter(s, q)
    decreases |s|
  {
    if |s| > 0 {
      FilterCongruent(s[1..], p, q);
    }
  }

  /** Sequences with the same multiset hold the same rows. */
  lemma SameMembers<T>(a: seq<T>, b: seq<T>)
    requires multiset(a) == multiset(b)
    ensures forall x :: x in a <==> x in b
  {
    forall x
      ensures x in a <==> x in b
    {
      assert x in a <==> x in multiset(a);
      assert x in b <==> x in multiset(b);
    }
  }
}
