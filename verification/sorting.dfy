/** Filtering and ordering of sequences by a key: the two things every query of
    the repository does (a filter on the stored documents, then `order_by`). */
module Sorting {

  /** `xs` is in ascending (non-strict) order of `key`. */
  predicate SortedBy<T>(xs: seq<T>, key: T -> int)
  {
    forall i, j :: 0 <= i < j < |xs| ==> key(xs[i]) <= key(xs[j])
  }

  /** `xs` is in strictly ascending order of `key`. */
  predicate StrictlySortedBy<T>(xs: seq<T>, key: T -> int)
  {
    forall i, j :: 0 <= i < j < |xs| ==> key(xs[i]) < key(xs[j])
  }

  /** No two positions of `xs` share a key: a unique index over `key`. */
  predicate DistinctKeys<T, K(==)>(xs: seq<T>, key: T -> K)
  {
    forall i, j :: 0 <= i < j < |xs| ==> key(xs[i]) != key(xs[j])
  }

  /** The elements of `xs` satisfying `p`, in their original order. */
  function Filter<T(!new)>(xs: seq<T>, p: T -> bool): (r: seq<T>)
    ensures forall x :: x in r <==> x in xs && p(x)
    ensures |r| <= |xs|
  {
    if |xs| == 0 then []
    else (if p(xs[0]) then [xs[0]] else []) + Filter(xs[1..], p)
  }

  /** Filtering keeps each passing element exactly as often as it occurs
      and drops every other: no duplicate is introduced or collapsed. */
  lemma {:induction false} FilterCounts<T(!new)>(xs: seq<T>, p: T -> bool)
    ensures forall x :: multiset(Filter(xs, p))[x] == if p(x) then multiset(xs)[x] else 0
  {
    if |xs| > 0 {
      FilterCounts(xs[1..], p);
      assert xs == [xs[0]] + xs[1..];
    }
  }

  /** A filter no element passes is empty. */
  lemma {:induction false} FilterNone<T(!new)>(xs: seq<T>, p: T -> bool)
    requires forall k :: 0 <= k < |xs| ==> !p(xs[k])
    ensures Filter(xs, p) == []
  {
    if |xs| > 0 {
      FilterNone(xs[1..], p);
    }
  }

  /** Filtering keeps a unique index unique. */
  lemma {:induction false} FilterDistinct<T(!new), K>(xs: seq<T>, p: T -> bool, key: T -> K)
    requires DistinctKeys(xs, key)
    ensures DistinctKeys(Filter(xs, p), key)
  {
    if |xs| > 0 {
      var tail := Filter(xs[1..], p);
      FilterDistinct(xs[1..], p, key);
      forall y | y in tail
        ensures key(xs[0]) != key(y)
      {
        var k :| 1 <= k < |xs| && xs[k] == y;
      }
      var head := if p(xs[0]) then [xs[0]] else [];
      assert Filter(xs, p) == head + tail;
      forall i, j | 0 <= i < j < |head + tail|
        ensures key((head + tail)[i]) != key((head + tail)[j])
      {
        if i < |head| {
          assert (head + tail)[j] in tail;
        } else {
          assert (head + tail)[i] == tail[i - |head|];
          assert (head + tail)[j] == tail[j - |head|];
        }
      }
    }
  }

  /** A predicate and its negation split a sequence: the two filters'
      lengths add up to the whole. */
  lemma {:induction false} FilterPartition<T(!new)>(xs: seq<T>, p: T -> bool, q: T -> bool)
    requires forall x :: q(x) <==> !p(x)
    ensures |Filter(xs, p)| + |Filter(xs, q)| == |xs|
  {
    if |xs| > 0 {
      FilterPartition(xs[1..], p, q);
    }
  }

  /** Prepending an element no greater than all of a sorted sequence keeps
      it sorted, strictly so when it is smaller than all of them. */
  lemma SortedCons<T>(y: T, ys: seq<T>, key: T -> int)
    requires SortedBy(ys, key)
    requires forall k :: 0 <= k < |ys| ==> key(y) <= key(ys[k])
    ensures SortedBy([y] + ys, key)
    ensures StrictlySortedBy(ys, key) && (forall k :: 0 <= k < |ys| ==> key(y) < key(ys[k]))
            ==> StrictlySortedBy([y] + ys, key)
  {
    forall i, j | 0 <= i < j < |[y] + ys|
      ensures key(([y] + ys)[i]) <= key(([y] + ys)[j])
    {
      assert ([y] + ys)[j] == ys[j - 1];
    }
    if StrictlySortedBy(ys, key) && (forall k :: 0 <= k < |ys| ==> key(y) < key(ys[k])) {
      forall i, j | 0 <= i < j < |[y] + ys|
        ensures key(([y] + ys)[i]) < key(([y] + ys)[j])
      {
        assert ([y] + ys)[j] == ys[j - 1];
      }
    }
  }

  /** Concatenating two sequences with unique keys and no key in common
      keeps the keys unique. */
  lemma DistinctConcat<T, K>(xs: seq<T>, ys: seq<T>, key: T -> K)
    requires DistinctKeys(xs, key) && DistinctKeys(ys, key)
    requires forall i, j :: 0 <= i < |xs| && 0 <= j < |ys| ==> key(xs[i]) != key(ys[j])
    ensures DistinctKeys(xs + ys, key)
  {
    forall i, j | 0 <= i < j < |xs + ys|
      ensures key((xs + ys)[i]) != key((xs + ys)[j])
    {
      if j < |xs| {
      } else if i < |xs| {
        assert (xs + ys)[j] == ys[j - |xs|];
      } else {
        assert (xs + ys)[i] == ys[i - |xs|];
        assert (xs + ys)[j] == ys[j - |xs|];
      }
    }
  }

  /** Filtering by `q` after filtering by a weaker `p` is filtering by `q`. */
  lemma {:induction false} FilterFilter<T(!new)>(xs: seq<T>, p: T -> bool, q: T -> bool)
    requires forall x :: q(x) ==> p(x)
    ensures Filter(Filter(xs, p), q) == Filter(xs, q)
  {
    if |xs| > 0 {
      FilterFilter(xs[1..], p, q);
      var head := if p(xs[0]) then [xs[0]] else [];
      assert Filter(xs, p) == head + Filter(xs[1..], p);
      FilterAppend(head, Filter(xs[1..], p), q);
      if p(xs[0]) {
        assert head[1..] == [];
      }
    }
  }

  /** Filtering distributes over concatenation. */
  lemma {:induction false} FilterAppend<T(!new)>(xs: seq<T>, ys: seq<T>, p: T -> bool)
    ensures Filter(xs + ys, p) == Filter(xs, p) + Filter(ys, p)
  {
    if |xs| > 0 {
      assert (xs + ys)[1..] == xs[1..] + ys;
      FilterAppend(xs[1..], ys, p);
    } else {
      assert xs + ys == ys;
    }
  }

  /** Inserts `x` into the sorted `xs`, before the first element whose key
      is not smaller. */
  function Insert<T>(x: T, xs: seq<T>, key: T -> int): (r: seq<T>)
    requires SortedBy(xs, key)
    ensures SortedBy(r, key)
    ensures multiset(r) == multiset(xs) + multiset{x}
  {
    if |xs| == 0 then [x]
    else if key(x) <= key(xs[0]) then
      SortedCons(x, xs, key);
      [x] + xs
    else
      var rest := Insert(x, xs[1..], key);
      assert xs == [xs[0]] + xs[1..];
      InsertedElements(x, xs[1..], rest, key);
      SortedCons(xs[0], rest, key);
      [xs[0]] + rest
  }

  /** Every element of a sequence whose multiset is that of `xs` plus `x`
      is `x` or an element of `xs`, so a lower bound of both bounds it. */
  lemma InsertedElements<T>(x: T, xs: seq<T>, r: seq<T>, key: T -> int)
    requires multiset(r) == multiset(xs) + multiset{x}
    ensures forall k :: 0 <= k < |r| ==> r[k] == x || r[k] in xs
  {
    forall k | 0 <= k < |r| ensures r[k] == x || r[k] in xs {
      assert r[k] in multiset(r);
    }
  }

  /** Inserting a key absent from a strictly sorted sequence keeps it
      strictly sorted. */
  lemma {:induction false} InsertStrict<T>(x: T, xs: seq<T>, key: T -> int)
    requires StrictlySortedBy(xs, key)
    requires forall k :: 0 <= k < |xs| ==> key(xs[k]) != key(x)
    ensures StrictlySortedBy(Insert(x, xs, key), key)
  {
    if |xs| == 0 {
    } else if key(x) <= key(xs[0]) {
      SortedCons(x, xs, key);
    } else {
      var rest := Insert(x, xs[1..], key);
      InsertStrict(x, xs[1..], key);
      InsertedElements(x, xs[1..], rest, key);
      SortedCons(xs[0], rest, key);
    }
  }

  /** Insertion sort by `key`: the same elements, in ascending key order. */
  function Sort<T>(xs: seq<T>, key: T -> int): (r: seq<T>)
    ensures SortedBy(r, key)
    ensures multiset(r) == multiset(xs)
  {
    if |xs| == 0 then []
    else
      assert xs == [xs[0]] + xs[1..];
      Insert(xs[0], Sort(xs[1..], key), key)
  }

  /** Sorting neither adds nor drops an element. */
  lemma SortSameElements<T>(xs: seq<T>, key: T -> int)
    ensures forall x :: x in Sort(xs, key) <==> x in xs
  {
    forall x ensures x in Sort(xs, key) <==> x in xs {
      assert x in Sort(xs, key) <==> x in multiset(Sort(xs, key));
    }
  }

  /** Sorting a sequence whose keys are distinct orders it strictly. */
  lemma {:induction false} SortStrict<T>(xs: seq<T>, key: T -> int)
    requires DistinctKeys(xs, key)
    ensures StrictlySortedBy(Sort(xs, key), key)
  {
    if |xs| > 0 {
      var rest := Sort(xs[1..], key);
      SortStrict(xs[1..], key);
      forall k | 0 <= k < |rest| ensures key(rest[k]) != key(xs[0]) {
        assert rest[k] in multiset(rest);
        var i :| 1 <= i < |xs| && xs[i] == rest[k];
      }
      InsertStrict(xs[0], rest, key);
    }
  }

  /** Two strictly sorted sequences with the same elements are equal: a
      strictly ordered query result is determined by what it contains. */
  lemma {:induction false} SortedUnique<T>(a: seq<T>, b: seq<T>, key: T -> int)
    requires StrictlySortedBy(a, key) && StrictlySortedBy(b, key)
    requires forall x :: x in a <==> x in b
    ensures a == b
    decreases |a|
  {
    assert |a| > 0 ==> a[0] in b;
    assert |b| > 0 ==> b[0] in a;
    if |a| > 0 && |b| > 0 {
      var m :| 0 <= m < |b| && b[m] == a[0];
      var n :| 0 <= n < |a| && a[n] == b[0];
      assert key(a[0]) <= key(a[n]);
      assert key(b[0]) <= key(b[m]);
      assert m == 0;
      forall x
        ensures x in a[1..] <==> x in b[1..]
      {
        if x in a[1..] {
          var i :| 1 <= i < |a| && a[i] == x;
          assert x != a[0] by { assert key(a[0]) < key(a[i]); }
          assert x in b;
          var j :| 0 <= j < |b| && b[j] == x;
        }
        if x in b[1..] {
          var j :| 1 <= j < |b| && b[j] == x;
          assert x != b[0] by { assert key(b[0]) < key(b[j]); }
          assert x in a;
          var i :| 0 <= i < |a| && a[i] == x;
        }
      }
      SortedUnique(a[1..], b[1..], key);
      assert a == [a[0]] + a[1..];
      assert b == [b[0]] + b[1..];
    }
  }
}
