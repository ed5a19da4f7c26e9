/** Sequence helpers the model is built from: filtering, flattening,
    repetition, stable sorting by an integer key, and the permutation facts
    the order-independence proofs rest on. */
module Seqs {

  /* Small facts about slicing, stated once so that the proofs that need
     them do not have to rediscover them next to larger definitions. */

  lemma ConsSplit<T>(s: seq<T>)
    requires |s| > 0
    ensures s == [s[0]] + s[1..]
  {
  }

  lemma SnocSplit<T>(s: seq<T>)
    requires |s| > 0
    ensures s == s[..|s| - 1] + [s[|s| - 1]]
  {
  }

  lemma InCons<T>(s: seq<T>, x: T)
    requires |s| > 0
    ensures x in s <==> x == s[0] || x in s[1..]
  {
    ConsSplit(s);
  }

  lemma CountCons<T>(s: seq<T>, x: T)
    requires |s| > 0
    ensures multiset(s)[x] == (if x == s[0] then 1 else 0) + multiset(s[1..])[x]
  {
    ConsSplit(s);
  }

  lemma SliceSnoc<T>(s: seq<T>, i: nat, j: nat)
    requires i <= j < |s|
    ensures s[i..j + 1] == s[i..j] + [s[j]]
  {
  }

  lemma AppendAssoc<T>(a: seq<T>, b: seq<T>, c: seq<T>)
    ensures a + b + c == a + (b + c)
  {
  }

  lemma AppendEmpty<T>(s: seq<T>)
    ensures s + [] == s && [] + s == s
  {
  }

  /** `a` can be obtained from `b` by deleting elements (order kept). */
  predicate IsSubsequence<T(==)>(a: seq<T>, b: seq<T>)
    decreases |b|
  {
    if |a| == 0 then true
    else if |b| == 0 then false
    else if a[0] == b[0] then IsSubsequence(a[1..], b[1..])
    else IsSubsequence(a, b[1..])
  }

  /** The elements of `xs` that satisfy `p`, in their original order
      (Java's `stream().filter(p).toList()`). */
  function Filter<T>(p: T -> bool, xs: seq<T>): (r: seq<T>)
    ensures |r| <= |xs|
    ensures forall i :: 0 <= i < |r| ==> p(r[i])
    decreases |xs|
  {
    if |xs| == 0 then []
    else
      var rest := Filter(p, xs[1..]);
      var head := if p(xs[0]) then [xs[0]] else [];
      assert forall i :: 0 <= i < |head + rest| ==> (head + rest)[i] == if i < |head| then xs[0] else rest[i - |head|];
      head + rest
  }

  /** Filtering keeps every occurrence of a surviving element and no other. */
  lemma FilterCons<T>(p: T -> bool, x: T, xs: seq<T>)
    ensures Filter(p, [x] + xs) == (if p(x) then [x] else []) + Filter(p, xs)
  {
    assert ([x] + xs)[0] == x && ([x] + xs)[1..] == xs;
  }

  lemma {:induction false} FilterCount<T(!new)>(p: T -> bool, xs: seq<T>)
    ensures forall x :: multiset(Filter(p, xs))[x] == if p(x) then multiset(xs)[x] else 0
    decreases |xs|
  {
    if |xs| > 0 {
      FilterCount(p, xs[1..]);
      assert xs == [xs[0]] + xs[1..];
      var head := if p(xs[0]) then [xs[0]] else [];
      assert multiset(head + Filter(p, xs[1..])) == multiset(head) + multiset(Filter(p, xs[1..]));
    }
  }

  /** An element survives the filter exactly when it is in the input and
      passes the test. */
  lemma FilterMembership<T(!new)>(p: T -> bool, xs: seq<T>, x: T)
    ensures x in Filter(p, xs) <==> x in xs && p(x)
  {
    FilterCount(p, xs);
    assert x in Filter(p, xs) <==> multiset(Filter(p, xs))[x] > 0;
    assert x in xs <==> multiset(xs)[x] > 0;
  }

  /** Filtering keeps the survivors in their original relative order. */
  lemma {:induction false} FilterIsSubsequence<T>(p: T -> bool, xs: seq<T>)
    ensures IsSubsequence(Filter(p, xs), xs)
    decreases |xs|
  {
    if |xs| > 0 {
      FilterIsSubsequence(p, xs[1..]);
      var rest := Filter(p, xs[1..]);
      var r := Filter(p, xs);
      if p(xs[0]) {
        assert r == [xs[0]] + rest;
        assert r[0] == xs[0] && r[1..] == rest;
      } else {
        assert r == rest;
        if |rest| > 0 {
          assert p(rest[0]);
          assert rest[0] != xs[0];
        }
      }
    }
  }

  /** A filter that keeps everything is the identity. */
  lemma {:induction false} FilterAll<T>(p: T -> bool, xs: seq<T>)
    requires forall i :: 0 <= i < |xs| ==> p(xs[i])
    ensures Filter(p, xs) == xs
    decreases |xs|
  {
    if |xs| > 0 {
      FilterAll(p, xs[1..]);
    }
  }

  /** Filtering distributes over concatenation. */
  lemma {:induction false} FilterAppend<T>(p: T -> bool, a: seq<T>, b: seq<T>)
    ensures Filter(p, a + b) == Filter(p, a) + Filter(p, b)
    decreases |a|
  {
    if |a| > 0 {
      assert (a + b)[1..] == a[1..] + b;
      FilterAppend(p, a[1..], b);
    } else {
      assert a + b == b;
    }
  }

  /** Concatenation of `f(x)` over `xs`, in order. */
  function FlatMap<T, U>(f: T -> seq<U>, xs: seq<T>): (r: seq<U>)
    decreases |xs|
  {
    if |xs| == 0 then [] else f(xs[0]) + FlatMap(f, xs[1..])
  }

  lemma {:induction false} FlatMapAppend<T, U>(f: T -> seq<U>, a: seq<T>, b: seq<T>)
    ensures FlatMap(f, a + b) == FlatMap(f, a) + FlatMap(f, b)
    decreases |a|
  {
    if |a| == 0 {
      assert a + b == b;
    } else {
      assert (a + b)[1..] == a[1..] + b;
      FlatMapAppend(f, a[1..], b);
    }
  }

  /** Flattening one more element at the end. */
  lemma FlatMapSnoc<T, U>(f: T -> seq<U>, xs: seq<T>, x: T)
    ensures FlatMap(f, xs + [x]) == FlatMap(f, xs) + f(x)
  {
    FlatMapAppend(f, xs, [x]);
    assert FlatMap(f, [x]) == f(x) + FlatMap(f, []);
    assert f(x) + [] == f(x);
  }

  /** An element that maps to nothing drops out of the flattening. */
  lemma FlatMapSkip<T, U>(f: T -> seq<U>, before: seq<T>, x: T, after: seq<T>)
    requires f(x) == []
    ensures FlatMap(f, before + [x] + after) == FlatMap(f, before) + FlatMap(f, after)
  {
    FlatMapAppend(f, before + [x], after);
    FlatMapAppend(f, before, [x]);
    assert FlatMap(f, [x]) == f(x) + FlatMap(f, []);
    assert FlatMap(f, before) + [] == FlatMap(f, before);
  }

  /** Flattening around one element of `b`. */
  lemma FlatMapSplitAt<T, U>(f: T -> seq<U>, b: seq<T>, i: nat)
    requires i < |b|
    ensures multiset(FlatMap(f, b))
         == multiset(FlatMap(f, b[..i] + b[i + 1..])) + multiset(f(b[i]))
  {
    var left, right := FlatMap(f, b[..i]), FlatMap(f, b[i + 1..]);
    assert FlatMap(f, b) == left + (f(b[i]) + right) by {
      SplitAround(b, i);
      FlatMapAppend(f, b[..i], [b[i]] + b[i + 1..]);
      FlatMapCons(f, b[i], b[i + 1..]);
    }
    assert FlatMap(f, b[..i] + b[i + 1..]) == left + right by {
      FlatMapAppend(f, b[..i], b[i + 1..]);
    }
    MultisetMiddle(left, f(b[i]), right);
  }

  lemma SplitAround<T>(b: seq<T>, i: nat)
    requires i < |b|
    ensures b == b[..i] + ([b[i]] + b[i + 1..])
  {
    assert forall k :: 0 <= k < |b| ==> b[k] == (b[..i] + ([b[i]] + b[i + 1..]))[k];
  }

  lemma MultisetMiddle<T>(l: seq<T>, m: seq<T>, r: seq<T>)
    ensures multiset(l + (m + r)) == multiset(l + r) + multiset(m)
  {
  }

  /** Flattening one more element at the front. */
  lemma FlatMapCons<T, U>(f: T -> seq<U>, x: T, xs: seq<T>)
    ensures FlatMap(f, [x] + xs) == f(x) + FlatMap(f, xs)
  {
    assert ([x] + xs)[1..] == xs;
  }

  /** Removing one occurrence of `x` from two permutations of each other
      leaves permutations of each other. */
  lemma RemoveFromPermutation<T>(a: seq<T>, b: seq<T>, i: nat)
    requires |a| > 0 && i < |b| && b[i] == a[0]
    requires multiset(a) == multiset(b)
    ensures multiset(a[1..]) == multiset(b[..i] + b[i + 1..])
  {
    assert a == [a[0]] + a[1..];
    assert b == b[..i] + [b[i]] + b[i + 1..];
    assert multiset(a[1..]) == multiset(a) - multiset{a[0]};
    assert multiset(b[..i] + b[i + 1..]) == multiset(b) - multiset{b[i]};
  }

  /** Flattening a permuted sequence yields a permutation of the flattening. */
  lemma {:induction false} FlatMapPermutation<T, U>(f: T -> seq<U>, a: seq<T>, b: seq<T>)
    requires multiset(a) == multiset(b)
    ensures multiset(FlatMap(f, a)) == multiset(FlatMap(f, b))
    decreases |a|
  {
    if |a| == 0 {
      assert |b| == |multiset(b)| == 0;
    } else {
      assert a[0] in multiset(b) by {
        assert a[0] in multiset(a);
      }
      var i :| 0 <= i < |b| && b[i] == a[0];
      RemoveFromPermutation(a, b, i);
      FlatMapPermutation(f, a[1..], b[..i] + b[i + 1..]);
      FlatMapSplitAt(f, b, i);
    }
  }

  /** `n` copies of `x`. */
  function Repeat<T(!new)>(x: T, n: nat): (r: seq<T>)
    ensures |r| == n
    ensures forall i :: 0 <= i < n ==> r[i] == x
    ensures forall y :: multiset(r)[y] == if y == x then n else 0
  {
    if n == 0 then [] else [x] + Repeat(x, n - 1)
  }

  /** No element occurs twice. */
  predicate Distinct<T(==)>(s: seq<T>) {
    forall i, j :: 0 <= i < j < |s| ==> s[i] != s[j]
  }

  /** `s` lists every element of `keys` exactly once, in some order: one
      possible iteration order of a hash-based collection. */
  predicate Enumerates<T(==)>(s: seq<T>, keys: set<T>) {
    && Distinct(s)
    && (forall k | k in s :: k in keys)
    && (forall k | k in keys :: k in s)
  }

  /** Dropping the head of a list without repeats leaves one without
      repeats, and without the head. */
  lemma DistinctTail<T>(s: seq<T>)
    requires Distinct(s) && |s| > 0
    ensures Distinct(s[1..]) && s[0] !in s[1..]
  {
    forall i, j | 0 <= i < j < |s[1..]|
      ensures s[1..][i] != s[1..][j]
    {
      assert s[1..][i] == s[i + 1] && s[1..][j] == s[j + 1];
    }
    forall i | 0 <= i < |s[1..]|
      ensures s[1..][i] != s[0]
    {
      assert s[1..][i] == s[i + 1];
    }
  }

  lemma {:induction false} DistinctMultiplicity<T>(s: seq<T>)
    requires Distinct(s)
    ensures forall x :: multiset(s)[x] == if x in s then 1 else 0
    decreases |s|
  {
    if |s| > 0 {
      assert s == [s[0]] + s[1..];
      assert s[0] !in s[1..];
      assert Distinct(s[1..]) by {
        forall i, j | 0 <= i < j < |s[1..]|
          ensures s[1..][i] != s[1..][j]
        {
          assert s[1..][i] == s[i + 1] && s[1..][j] == s[j + 1];
        }
      }
      DistinctMultiplicity(s[1..]);
    }
  }

  /** Any two iteration orders of the same key set are permutations of each
      other. */
  lemma EnumerationsArePermutations<T>(s1: seq<T>, s2: seq<T>, keys: set<T>)
    requires Enumerates(s1, keys) && Enumerates(s2, keys)
    ensures multiset(s1) == multiset(s2)
  {
    DistinctMultiplicity(s1);
    DistinctMultiplicity(s2);
    assert forall x :: multiset(s1)[x] == multiset(s2)[x];
  }

  /** `s` is ordered by `key`, non-decreasingly. */
  predicate SortedBy<T>(s: seq<T>, key: T -> int) {
    forall i, j :: 0 <= i < j < |s| ==> key(s[i]) <= key(s[j])
  }

  /** Inserts `x` before the first element whose key is larger or equal,
      so that earlier input stays in front of later input with the same key. */
  function InsertBy<T>(x: T, s: seq<T>, key: T -> int): (r: seq<T>)
    requires SortedBy(s, key)
    ensures SortedBy(r, key)
    ensures multiset(r) == multiset(s) + multiset{x}
    decreases |s|
  {
    if |s| == 0 then [x]
    else if key(x) <= key(s[0]) then [x] + s
    else
      var t := InsertBy(x, s[1..], key);
      InsertedAfterHead(x, s, t, key);
      assert s == [s[0]] + s[1..];
      [s[0]] + t
  }

  /** The head of a sorted sequence stays in front of whatever `x` is
      inserted into its tail, when `x` does not belong in front. */
  lemma InsertedAfterHead<T>(x: T, s: seq<T>, t: seq<T>, key: T -> int)
    requires |s| > 0 && SortedBy(s, key) && key(s[0]) < key(x)
    requires SortedBy(t, key) && multiset(t) == multiset(s[1..]) + multiset{x}
    ensures SortedBy([s[0]] + t, key)
  {
    forall k | 0 <= k < |t|
      ensures key(s[0]) <= key(t[k])
    {
      assert t[k] in multiset(t);
      if t[k] != x {
        assert t[k] in multiset(s[1..]);
        var m :| 0 <= m < |s[1..]| && s[1..][m] == t[k];
        assert s[m + 1] == t[k];
      }
    }
    var u := [s[0]] + t;
    forall i, j | 0 <= i < j < |u|
      ensures key(u[i]) <= key(u[j])
    {
      if i > 0 {
        assert u[i] == t[i - 1] && u[j] == t[j - 1];
      } else {
        assert u[j] == t[j - 1];
      }
    }
  }

  /** A stable sort by `key` (insertion sort; stands in for Java's stable
      `Collections.sort` and an ORDER BY). */
  function SortBy<T>(s: seq<T>, key: T -> int): (r: seq<T>)
    ensures SortedBy(r, key)
    ensures multiset(r) == multiset(s)
    decreases |s|
  {
    if |s| == 0 then []
    else
      assert s == [s[0]] + s[1..];
      InsertBy(s[0], SortBy(s[1..], key), key)
  }

  function Identity(x: int): int {
    x
  }

  /** Ascending order of integers. */
  predicate Sorted(s: seq<int>) {
    forall i, j :: 0 <= i < j < |s| ==> s[i] <= s[j]
  }

  /** Java's `Collections.sort` on a list of integers: ascending, duplicates kept. */
  function Sort(s: seq<int>): (r: seq<int>)
    ensures Sorted(r)
    ensures multiset(r) == multiset(s)
  {
    var r := SortBy(s, Identity);
    assert forall i, j :: 0 <= i < j < |r| ==> Identity(r[i]) <= Identity(r[j]);
    r
  }

  lemma HeadIsLeast(s: seq<int>, y: int)
    requires Sorted(s) && y in multiset(s)
    ensures |s| > 0 && s[0] <= y
  {
    var i :| 0 <= i < |s| && s[i] == y;
  }

  /** An ascending integer sequence is determined by its multiset: two sorted
      permutations of each other are equal. */
  lemma {:induction false} SortedUnique(a: seq<int>, b: seq<int>)
    requires Sorted(a) && Sorted(b)
    requires multiset(a) == multiset(b)
    ensures a == b
    decreases |a|
  {
    if |a| == 0 {
      assert |b| == |multiset(b)| == 0;
    } else {
      SortedHeads(a, b);
      SameTails(a, b);
      SortedTail(a);
      SortedTail(b);
      SortedUnique(a[1..], b[1..]);
      assert a == [a[0]] + a[1..] && b == [b[0]] + b[1..];
    }
  }

  /** Sorted permutations of each other start with the same, least, value. */
  lemma SortedHeads(a: seq<int>, b: seq<int>)
    requires Sorted(a) && Sorted(b) && |a| > 0
    requires multiset(a) == multiset(b)
    ensures |b| > 0 && a[0] == b[0]
  {
    assert a[0] in multiset(a);
    assert a[0] in multiset(b);
    HeadIsLeast(b, a[0]);
    assert b[0] in multiset(a);
    HeadIsLeast(a, b[0]);
  }

  /** Permutations of each other with the same head have permuted tails. */
  lemma SameTails<T>(a: seq<T>, b: seq<T>)
    requires |a| > 0 && |b| > 0 && a[0] == b[0]
    requires multiset(a) == multiset(b)
    ensures multiset(a[1..]) == multiset(b[1..])
  {
    assert a == [a[0]] + a[1..] && b == [b[0]] + b[1..];
    assert multiset(a[1..]) == multiset(a) - multiset{a[0]};
    assert multiset(b[1..]) == multiset(b) - multiset{b[0]};
  }

  lemma SortedTail(s: seq<int>)
    requires |s| > 0 && Sorted(s)
    ensures Sorted(s[1..])
  {
    forall i, j | 0 <= i < j < |s[1..]|
      ensures s[1..][i] <= s[1..][j]
    {
      assert s[1..][i] == s[i + 1] && s[1..][j] == s[j + 1];
    }
  }

  /** A value that occurs twice in a sorted list occurs in two neighbouring
      places. */
  lemma {:induction false} AdjacentDuplicate(s: seq<int>, y: int)
    requires Sorted(s) && multiset(s)[y] >= 2
    ensures exists i :: 0 <= i < |s| - 1 && s[i] == y && s[i + 1] == y
    decreases |s|
  {
    SortedTail(s);
    if s[0] == y {
      assert s[1] == y by {
        assert y in s[1..] by {
          assert s == [s[0]] + s[1..];
        }
        var j :| 0 <= j < |s[1..]| && s[1..][j] == y;
        assert s[0] <= s[1] && s[1] <= s[j + 1];
      }
      assert 0 < |s| - 1 && s[0] == y && s[1] == y;
    } else {
      assert multiset(s[1..])[y] >= 2 by {
        assert s == [s[0]] + s[1..];
      }
      AdjacentDuplicate(s[1..], y);
      var i :| 0 <= i < |s[1..]| - 1 && s[1..][i] == y && s[1..][i + 1] == y;
      assert s[i + 1] == y && s[i + 2] == y;
    }
  }

  /** Sorting depends only on the multiset of its input. */
  lemma SortPermutation(a: seq<int>, b: seq<int>)
    requires multiset(a) == multiset(b)
    ensures Sort(a) == Sort(b)
  {
    SortedUnique(Sort(a), Sort(b));
  }
}
