/** The award-interval use case: group every winning year by producer, pair
    each producer's consecutive wins, and report the producers whose gap is
    the smallest and the largest. */
module AwardIntervals {
  import opened Seqs
  import opened JavaText
  import opened Domain

  // ---------------------------------------------------------------------
  // Grouping the years by producer
  // ---------------------------------------------------------------------

  /** How many times `p` is listed among a movie's producers. */
  function Mentions(m: WinningMovie, p: string): nat {
    multiset(m.producers)[p]
  }

  /** The years `p` won, one entry per mention, in movie order: the
      reference the grouping is measured against. */
  function YearsOf(movies: seq<WinningMovie>, p: string): seq<int> {
    FlatMap((m: WinningMovie) => Repeat(m.year, Mentions(m, p)), movies)
  }

  /** `p` is listed as a producer of some movie. */
  predicate Listed(movies: seq<WinningMovie>, p: string) {
    exists i | 0 <= i < |movies| :: p in movies[i].producers
  }

  /** The list a map holds for `p`, or the empty list when it holds none. */
  function Lookup(acc: map<string, seq<int>>, p: string): seq<int> {
    if p in acc then acc[p] else []
  }

  /** `computeIfAbsent(p, new list).add(y)`. */
  function AddYear(acc: map<string, seq<int>>, p: string, y: int): map<string, seq<int>> {
    acc[p := Lookup(acc, p) + [y]]
  }

  /** The inner loop: add the year once for every listed name, left to right. */
  function AddMovie(acc: map<string, seq<int>>, names: seq<string>, y: int): map<string, seq<int>>
    decreases |names|
  {
    if |names| == 0 then acc else AddMovie(AddYear(acc, names[0], y), names[1..], y)
  }

  /** The outer loop over the movies, in the order they are given. */
  function CollectFrom(acc: map<string, seq<int>>, movies: seq<WinningMovie>): map<string, seq<int>>
    decreases |movies|
  {
    if |movies| == 0 then acc
    else CollectFrom(AddMovie(acc, movies[0].producers, movies[0].year), movies[1..])
  }

  /** The map built before the values are sorted. */
  function CollectYears(movies: seq<WinningMovie>): map<string, seq<int>> {
    CollectFrom(map[], movies)
  }

  lemma RepeatAdd(y: int, a: nat, b: nat)
    ensures Repeat(y, a) + Repeat(y, b) == Repeat(y, a + b)
  {
    assert forall i :: 0 <= i < a + b ==> (Repeat(y, a) + Repeat(y, b))[i] == y;
  }

  /** One movie's names become keys, and nothing else does. */
  lemma {:induction false} AddMovieKeys(acc: map<string, seq<int>>, names: seq<string>, y: int, p: string)
    ensures p in AddMovie(acc, names, y) <==> p in acc || p in names
    decreases |names|
  {
    if |names| > 0 {
      AddMovieKeys(AddYear(acc, names[0], y), names[1..], y, p);
      assert p in names <==> p == names[0] || p in names[1..] by {
        assert names == [names[0]] + names[1..];
      }
    }
  }

  /** One movie's names add its year once per mention, after whatever the
      map already held. */
  lemma {:induction false} AddMovieYears(acc: map<string, seq<int>>, names: seq<string>, y: int, p: string)
    ensures Lookup(AddMovie(acc, names, y), p) == Lookup(acc, p) + Repeat(y, multiset(names)[p])
    decreases |names|
  {
    if |names| == 0 {
      AppendEmpty(Lookup(acc, p));
    } else {
      var acc' := AddYear(acc, names[0], y);
      assert AddMovie(acc, names, y) == AddMovie(acc', names[1..], y);
      AddMovieYears(acc', names[1..], y, p);
      var k := multiset(names[1..])[p];
      CountCons(names, p);
      if p == names[0] {
        assert Lookup(acc', p) == Lookup(acc, p) + [y];
        assert Repeat(y, 1) == [y];
        RepeatAdd(y, 1, k);
        AppendAssoc(Lookup(acc, p), [y], Repeat(y, k));
      } else {
        assert Lookup(acc', p) == Lookup(acc, p);
      }
    }
  }

  /** A movie after the first is listed in the tail. */
  lemma ListedCons(movies: seq<WinningMovie>, p: string)
    requires |movies| > 0
    ensures Listed(movies, p) <==> p in movies[0].producers || Listed(movies[1..], p)
  {
    if Listed(movies[1..], p) {
      var i :| 0 <= i < |movies[1..]| && p in movies[1..][i].producers;
      assert movies[i + 1] == movies[1..][i];
    }
    if Listed(movies, p) && p !in movies[0].producers {
      var i :| 0 <= i < |movies| && p in movies[i].producers;
      assert movies[1..][i - 1] == movies[i];
    }
  }

  /** The movies become keys exactly for the names they list. */
  lemma {:induction false} CollectFromKeys(acc: map<string, seq<int>>, movies: seq<WinningMovie>, p: string)
    ensures p in CollectFrom(acc, movies) <==> p in acc || Listed(movies, p)
    decreases |movies|
  {
    if |movies| > 0 {
      var m := movies[0];
      AddMovieKeys(acc, m.producers, m.year, p);
      CollectFromKeys(AddMovie(acc, m.producers, m.year), movies[1..], p);
      ListedCons(movies, p);
    }
  }

  lemma YearsOfCons(movies: seq<WinningMovie>, p: string)
    requires |movies| > 0
    ensures YearsOf(movies, p) == Repeat(movies[0].year, Mentions(movies[0], p)) + YearsOf(movies[1..], p)
  {
  }

  /** The movies add their years, in movie order, to the names they list. */
  lemma {:induction false} CollectFromYears(acc: map<string, seq<int>>, movies: seq<WinningMovie>, p: string)
    ensures Lookup(CollectFrom(acc, movies), p) == Lookup(acc, p) + YearsOf(movies, p)
    decreases |movies|
  {
    if |movies| == 0 {
      AppendEmpty(Lookup(acc, p));
    } else {
      var m := movies[0];
      var acc' := AddMovie(acc, m.producers, m.year);
      AddMovieYears(acc, m.producers, m.year, p);
      CollectFromYears(acc', movies[1..], p);
      YearsOfCons(movies, p);
      AppendAssoc(Lookup(acc, p), Repeat(m.year, Mentions(m, p)), YearsOf(movies[1..], p));
    }
  }

  /** The grouping before sorting has a key for every listed name ... */
  lemma CollectYearsKeys(movies: seq<WinningMovie>)
    ensures forall p :: p in CollectYears(movies) <==> Listed(movies, p)
  {
    forall p
      ensures p in CollectYears(movies) <==> Listed(movies, p)
    {
      CollectFromKeys(map[], movies, p);
    }
  }

  /** ... and each such name's years in movie order, one per mention. */
  lemma CollectYearsValues(movies: seq<WinningMovie>)
    ensures forall p :: Lookup(CollectYears(movies), p) == YearsOf(movies, p)
  {
    forall p
      ensures Lookup(CollectYears(movies), p) == YearsOf(movies, p)
    {
      CollectFromYears(map[], movies, p);
      assert Lookup(map[], p) + YearsOf(movies, p) == YearsOf(movies, p);
    }
  }

  /** `groupYearsByProducer`: one key per listed name, whose value is that
      name's winning years, one per mention and sorted. */
  function GroupYearsByProducer(movies: seq<WinningMovie>): (g: map<string, seq<int>>)
    ensures forall p :: p in g <==> Listed(movies, p)
    ensures forall p | p in g :: Sorted(g[p]) && multiset(g[p]) == multiset(YearsOf(movies, p))
  {
    CollectYearsKeys(movies);
    CollectYearsValues(movies);
    var acc := CollectYears(movies);
    map p | p in acc :: Sort(acc[p])
  }

  /** A grouped value is the only sorted arrangement of the name's years. */
  lemma GroupedYearsAreSortedWins(movies: seq<WinningMovie>, p: string)
    requires Listed(movies, p)
    ensures p in GroupYearsByProducer(movies)
    ensures GroupYearsByProducer(movies)[p] == Sort(YearsOf(movies, p))
  {
    var g := GroupYearsByProducer(movies);
    SortedUnique(g[p], Sort(YearsOf(movies, p)));
  }

  /** Reordering the movies does not change a name's years as a multiset. */
  lemma YearsOfPermutation(a: seq<WinningMovie>, b: seq<WinningMovie>, p: string)
    requires multiset(a) == multiset(b)
    ensures multiset(YearsOf(a, p)) == multiset(YearsOf(b, p))
  {
    FlatMapPermutation((m: WinningMovie) => Repeat(m.year, Mentions(m, p)), a, b);
  }

  /** Reordering the movies does not change which names are listed. */
  lemma ListedPermutation(a: seq<WinningMovie>, b: seq<WinningMovie>, p: string)
    requires multiset(a) == multiset(b)
    ensures Listed(a, p) <==> Listed(b, p)
  {
    if Listed(a, p) {
      var i :| 0 <= i < |a| && p in a[i].producers;
      assert a[i] in multiset(b);
    }
    if Listed(b, p) {
      var i :| 0 <= i < |b| && p in b[i].producers;
      assert b[i] in multiset(a);
    }
  }

  /** The grouping does not depend on the order of the movies at all: the
      same keys and the same sorted lists. */
  lemma GroupingOrderIndependent(a: seq<WinningMovie>, b: seq<WinningMovie>)
    requires multiset(a) == multiset(b)
    ensures GroupYearsByProducer(a) == GroupYearsByProducer(b)
  {
    var ga := GroupYearsByProducer(a);
    var gb := GroupYearsByProducer(b);
    forall p
      ensures p in ga <==> p in gb
    {
      ListedPermutation(a, b, p);
    }
    forall p | p in ga
      ensures ga[p] == gb[p]
    {
      GroupedValuePermutation(a, b, p);
    }
    SameMaps(ga, gb);
  }

  /** Two maps with the same keys and the same value at each key are equal. */
  lemma SameMaps(x: map<string, seq<int>>, y: map<string, seq<int>>)
    requires forall p :: p in x <==> p in y
    requires forall p | p in x :: x[p] == y[p]
    ensures x == y
  {
  }

  lemma GroupedValuePermutation(a: seq<WinningMovie>, b: seq<WinningMovie>, p: string)
    requires multiset(a) == multiset(b)
    requires p in GroupYearsByProducer(a) && p in GroupYearsByProducer(b)
    ensures GroupYearsByProducer(a)[p] == GroupYearsByProducer(b)[p]
  {
    YearsOfPermutation(a, b, p);
    SortedUnique(GroupYearsByProducer(a)[p], GroupYearsByProducer(b)[p]);
  }

  // ---------------------------------------------------------------------
  // Pairing consecutive wins
  // ---------------------------------------------------------------------

  /** The gap between consecutive wins, computed exactly; Sub32 gives the
      wrapped `int` difference the code computes. */
  function Gap(previousWin: int, followingWin: int): int {
    followingWin - previousWin
  }

  /** The intervals of one producer: one per pair of neighbouring entries of
      the sorted year list, in list order. */
  function PairIntervals(p: string, ys: seq<int>): (r: seq<ProducerInterval>)
    ensures |r| == if |ys| > 1 then |ys| - 1 else 0
    ensures forall i :: 0 <= i < |r| ==>
              r[i] == ProducerInterval(p, ys[i + 1] - ys[i], ys[i], ys[i + 1])
    decreases |ys|
  {
    if |ys| > 1 then
      var rest := PairIntervals(p, ys[1..]);
      var r := [ProducerInterval(p, Gap(ys[0], ys[1]), ys[0], ys[1])] + rest;
      assert forall i | 1 <= i < |r| :: r[i] == rest[i - 1];
      r
    else []
  }

  /** What the pairs promise: each interval is its two years' difference,
      the pairs chain, they run from the earliest to the latest year, and
      none is negative when the years are sorted. */
  lemma PairIntervalsShape(p: string, ys: seq<int>)
    ensures var r := PairIntervals(p, ys);
            && (forall i :: 0 <= i < |r| ==>
                  r[i].producer == p && r[i].interval == r[i].followingWin - r[i].previousWin)
            && (forall i :: 0 <= i < |r| - 1 ==> r[i].followingWin == r[i + 1].previousWin)
            && (|r| > 0 ==> r[0].previousWin == ys[0] && r[|r| - 1].followingWin == ys[|ys| - 1])
            && (Sorted(ys) ==> forall i :: 0 <= i < |r| ==> 0 <= r[i].interval)
  {
    var r := PairIntervals(p, ys);
    if Sorted(ys) {
      forall i | 0 <= i < |r|
        ensures 0 <= r[i].interval
      {
        assert ys[i] <= ys[i + 1];
      }
    }
  }

  /** Java's 32-bit `int` subtraction: the difference wrapped into range. */
  function Sub32(a: int, b: int): (r: int)
    ensures MinInt <= r <= MaxInt
    ensures (r - (a - b)) % 0x1_0000_0000 == 0
  {
    var d := (a - b) % 0x1_0000_0000;
    if d > MaxInt then d - 0x1_0000_0000 else d
  }

  /** The pairing as the use case writes it, with the gap computed in `int`
      arithmetic. */
  function PairIntervalsAsWritten(p: string, ys: seq<int>): (r: seq<ProducerInterval>)
    ensures |r| == if |ys| > 1 then |ys| - 1 else 0
    ensures forall i :: 0 <= i < |r| ==>
              r[i].producer == p && r[i].previousWin == ys[i] && r[i].followingWin == ys[i + 1]
              && r[i].interval == Sub32(ys[i + 1], ys[i])
    decreases |ys|
  {
    if |ys| > 1 then
      var rest := PairIntervalsAsWritten(p, ys[1..]);
      var r := [ProducerInterval(p, Sub32(ys[1], ys[0]), ys[0], ys[1])] + rest;
      assert forall i | 1 <= i < |r| :: r[i] == rest[i - 1];
      r
    else []
  }

  /** Two sorted 32-bit years far enough apart give a negative interval. */
  lemma AsWrittenNegativeInterval()
    ensures Sorted([MinInt, MaxInt])
    ensures PairIntervalsAsWritten("p", [MinInt, MaxInt])[0].interval == -1
  {
    assert Sub32(MaxInt, MinInt) == -1;
  }

  /** As long as no two neighbouring years are more than `MaxInt` apart, the
      as-written pairing and the exact one agree. */
  lemma {:induction false} AsWrittenAgreesInRange(p: string, ys: seq<int>)
    requires forall i :: 0 <= i < |ys| - 1 ==> MinInt <= ys[i + 1] - ys[i] <= MaxInt
    ensures PairIntervalsAsWritten(p, ys) == PairIntervals(p, ys)
    decreases |ys|
  {
    if |ys| > 1 {
      assert Sub32(ys[1], ys[0]) == Gap(ys[0], ys[1]);
      AsWrittenAgreesInRange(p, ys[1..]);
    }
  }

  // ---------------------------------------------------------------------
  // All intervals, in the map's iteration order
  // ---------------------------------------------------------------------

  /** The intervals of one key of the grouping, none for a missing key. */
  function IntervalsOf(groups: map<string, seq<int>>, p: string): seq<ProducerInterval> {
    PairIntervals(p, Lookup(groups, p))
  }

  /** `calculateIntervalsBetweenProducerWins`, the entries visited in `order`. */
  function CalculateIntervals(groups: map<string, seq<int>>, order: seq<string>): seq<ProducerInterval>
    requires forall k | k in order :: k in groups
    decreases |order|
  {
    if |order| == 0 then []
    else PairIntervals(order[0], groups[order[0]]) + CalculateIntervals(groups, order[1..])
  }

  /** An interval is computed exactly when its producer is visited and it is
      one of that producer's pairs. */
  lemma {:induction false} CalculateIntervalsMembers(groups: map<string, seq<int>>, order: seq<string>, x: ProducerInterval)
    requires forall k | k in order :: k in groups
    ensures x in CalculateIntervals(groups, order)
        <==> x.producer in order && x in PairIntervals(x.producer, groups[x.producer])
    decreases |order|
  {
    if |order| > 0 {
      CalculateIntervalsMembers(groups, order[1..], x);
      var mine := PairIntervals(order[0], groups[order[0]]);
      PairIntervalsShape(order[0], groups[order[0]]);
      assert x.producer in order <==> x.producer == order[0] || x.producer in order[1..] by {
        assert order == [order[0]] + order[1..];
      }
    }
  }

  /** With sorted year lists, every interval is its two years' difference
      and none is negative. */
  lemma IntervalsNonNegative(groups: map<string, seq<int>>, order: seq<string>, x: ProducerInterval)
    requires forall k | k in order :: k in groups
    requires forall k | k in groups :: Sorted(groups[k])
    requires x in CalculateIntervals(groups, order)
    ensures x.interval == x.followingWin - x.previousWin
    ensures x.previousWin <= x.followingWin && 0 <= x.interval
  {
    CalculateIntervalsMembers(groups, order, x);
    var ys := groups[x.producer];
    var r := PairIntervals(x.producer, ys);
    var i :| 0 <= i < |r| && r[i] == x;
    assert ys[i] <= ys[i + 1];
  }

  /** The inner loop over one producer's neighbouring years. */
  method PairIntervalsLoop(producer: string, years: seq<int>) returns (pairs: seq<ProducerInterval>)
    ensures pairs == PairIntervals(producer, years)
  {
    pairs := [];
    if |years| > 1 {
      ghost var all := PairIntervals(producer, years);
      var i := 0;
      while i < |years| - 1
        invariant 0 <= i <= |years| - 1
        invariant pairs == all[..i]
      {
        var previousWin := years[i];
        var followingWin := years[i + 1];
        pairs := pairs + [ProducerInterval(producer, Gap(previousWin, followingWin), previousWin, followingWin)];
        SliceSnoc(all, 0, i);
        i := i + 1;
      }
      assert all[..i] == all;
    }
  }

  /** The outer loop over the map's entries, in iteration order. */
  method CalculateIntervalsLoop(groups: map<string, seq<int>>, order: seq<string>)
    returns (intervals: seq<ProducerInterval>)
    requires forall k | k in order :: k in groups
    ensures intervals == CalculateIntervals(groups, order)
  {
    intervals := [];
    var e := 0;
    while e < |order|
      invariant 0 <= e <= |order|
      invariant intervals + CalculateIntervals(groups, order[e..]) == CalculateIntervals(groups, order)
    {
      var pairs := PairIntervalsLoop(order[e], groups[order[e]]);
      CalculateIntervalsSuffix(groups, order, e);
      AppendAssoc(intervals, pairs, CalculateIntervals(groups, order[e + 1..]));
      intervals := intervals + pairs;
      e := e + 1;
    }
    assert order[e..] == [];
    AppendEmpty(intervals);
  }

  /** The entries from `e` on: the pairs of entry `e`, then the rest. */
  lemma CalculateIntervalsSuffix(groups: map<string, seq<int>>, order: seq<string>, e: nat)
    requires forall k | k in order :: k in groups
    requires e < |order|
    ensures CalculateIntervals(groups, order[e..])
         == PairIntervals(order[e], groups[order[e]]) + CalculateIntervals(groups, order[e + 1..])
  {
    assert order[e..][0] == order[e] && order[e..][1..] == order[e + 1..];
  }

  /** The recursive form is a flattening over the iteration order. */
  lemma {:induction false} CalculateIntervalsFlat(groups: map<string, seq<int>>, order: seq<string>)
    requires forall k | k in order :: k in groups
    ensures CalculateIntervals(groups, order) == FlatMap((p: string) => IntervalsOf(groups, p), order)
    decreases |order|
  {
    if |order| > 0 {
      CalculateIntervalsFlat(groups, order[1..]);
    }
  }

  /** Visiting the keys in another order gives the same intervals, possibly
      rearranged. */
  lemma IntervalsOrderIndependent(groups: map<string, seq<int>>, o1: seq<string>, o2: seq<string>)
    requires Enumerates(o1, groups.Keys) && Enumerates(o2, groups.Keys)
    ensures multiset(CalculateIntervals(groups, o1)) == multiset(CalculateIntervals(groups, o2))
  {
    EnumerationsArePermutations(o1, o2, groups.Keys);
    CalculateIntervalsFlat(groups, o1);
    CalculateIntervalsFlat(groups, o2);
    FlatMapPermutation((p: string) => IntervalsOf(groups, p), o1, o2);
  }

  lemma {:induction false} FilterNone<T>(keep: T -> bool, xs: seq<T>)
    requires forall i :: 0 <= i < |xs| ==> !keep(xs[i])
    ensures Filter(keep, xs) == []
    decreases |xs|
  {
    if |xs| > 0 {
      FilterNone(keep, xs[1..]);
    }
  }

  /** The intervals that belong to `p`. */
  function OwnedBy(p: string, xs: seq<ProducerInterval>): seq<ProducerInterval> {
    Filter((x: ProducerInterval) => x.producer == p, xs)
  }

  /** A producer's pairs belong to that producer and to no other. */
  lemma OwnPairs(q: string, ys: seq<int>, p: string)
    ensures OwnedBy(p, PairIntervals(q, ys)) == if q == p then PairIntervals(q, ys) else []
  {
    var keep := (x: ProducerInterval) => x.producer == p;
    var mine := PairIntervals(q, ys);
    PairIntervalsShape(q, ys);
    if q == p {
      FilterAll(keep, mine);
    } else {
      assert forall i :: 0 <= i < |mine| ==> !keep(mine[i]);
      FilterNone(keep, mine);
    }
  }

  lemma OwnedByStep(groups: map<string, seq<int>>, order: seq<string>, p: string)
    requires forall k | k in order :: k in groups
    requires |order| > 0
    ensures OwnedBy(p, CalculateIntervals(groups, order))
         == OwnedBy(p, PairIntervals(order[0], groups[order[0]]))
            + OwnedBy(p, CalculateIntervals(groups, order[1..]))
  {
    FilterAppend((x: ProducerInterval) => x.producer == p,
                 PairIntervals(order[0], groups[order[0]]), CalculateIntervals(groups, order[1..]));
  }

  /** Visited once, a producer contributes exactly its own pairs, in order;
      in particular one with fewer than two years contributes nothing. */
  lemma {:induction false} ProducerContribution(groups: map<string, seq<int>>, order: seq<string>, p: string)
    requires forall k | k in order :: k in groups
    requires Distinct(order)
    ensures OwnedBy(p, CalculateIntervals(groups, order))
         == if p in order then PairIntervals(p, groups[p]) else []
    decreases |order|
  {
    if |order| > 0 {
      var q := order[0];
      DistinctTail(order);
      ProducerContribution(groups, order[1..], p);
      OwnedByStep(groups, order, p);
      OwnPairs(q, groups[q], p);
      InCons(order, p);
    }
  }

  // ---------------------------------------------------------------------
  // The smallest and the largest interval, and the two cohorts
  // ---------------------------------------------------------------------

  /** `IntStream.min()` over the intervals. */
  function MinInterval(xs: seq<ProducerInterval>): (m: int)
    requires |xs| > 0
    ensures exists i | 0 <= i < |xs| :: xs[i].interval == m
    ensures forall i | 0 <= i < |xs| :: m <= xs[i].interval
    decreases |xs|
  {
    if |xs| == 1 then xs[0].interval
    else
      var rest := MinInterval(xs[1..]);
      assert forall i | 1 <= i < |xs| :: xs[i] == xs[1..][i - 1];
      if xs[0].interval <= rest then xs[0].interval else rest
  }

  /** `IntStream.max()` over the intervals. */
  function MaxInterval(xs: seq<ProducerInterval>): (m: int)
    requires |xs| > 0
    ensures exists i | 0 <= i < |xs| :: xs[i].interval == m
    ensures forall i | 0 <= i < |xs| :: xs[i].interval <= m
    decreases |xs|
  {
    if |xs| == 1 then xs[0].interval
    else
      var rest := MaxInterval(xs[1..]);
      assert forall i | 1 <= i < |xs| :: xs[i] == xs[1..][i - 1];
      if xs[0].interval >= rest then xs[0].interval else rest
  }

  /** `filterIntervalsByValue`: the intervals with exactly that value, each
      as often as in the input and in input order. */
  function FilterByValue(xs: seq<ProducerInterval>, v: int): (r: seq<ProducerInterval>)
    ensures IsSubsequence(r, xs)
    ensures forall x :: multiset(r)[x] == if x.interval == v then multiset(xs)[x] else 0
    decreases |xs|
  {
    if |xs| == 0 then []
    else
      var rest := FilterByValue(xs[1..], v);
      assert xs == [xs[0]] + xs[1..];
      if xs[0].interval == v then [xs[0]] + rest else rest
  }

  /** The same thing as the generic stream filter. */
  lemma {:induction false} FilterByValueIsFilter(xs: seq<ProducerInterval>, v: int)
    ensures FilterByValue(xs, v) == Filter((x: ProducerInterval) => x.interval == v, xs)
    decreases |xs|
  {
    if |xs| > 0 {
      FilterByValueIsFilter(xs[1..], v);
    }
  }

  /** No interval of `all` is below `x`. */
  predicate NoneBelow(x: ProducerInterval, all: seq<ProducerInterval>) {
    forall y | y in all :: x.interval <= y.interval
  }

  /** No interval of `all` is above `x`. */
  predicate NoneAbove(x: ProducerInterval, all: seq<ProducerInterval>) {
    forall y | y in all :: y.interval <= x.interval
  }

  /** Which intervals are extreme depends only on which intervals there are. */
  lemma ExtremesOfPermutation(xa: seq<ProducerInterval>, xb: seq<ProducerInterval>)
    requires multiset(xa) == multiset(xb)
    ensures forall x :: NoneBelow(x, xa) == NoneBelow(x, xb) && NoneAbove(x, xa) == NoneAbove(x, xb)
  {
    forall y
      ensures y in xa <==> y in xb
    {
      assert y in xa <==> y in multiset(xa);
      assert y in xb <==> y in multiset(xb);
    }
  }

  /** The smallest value picks exactly the intervals no other interval is
      below, each as often as it occurs. */
  lemma MinCohort(all: seq<ProducerInterval>)
    requires |all| > 0
    ensures forall x :: multiset(FilterByValue(all, MinInterval(all)))[x] ==
              if NoneBelow(x, all) then multiset(all)[x] else 0
  {
    var m := MinInterval(all);
    forall x | x in all
      ensures x.interval == m <==> NoneBelow(x, all)
    {
      var i :| 0 <= i < |all| && all[i].interval == m;
      assert all[i] in all;
    }
  }

  /** The largest value picks exactly the intervals no other interval is
      above, each as often as it occurs. */
  lemma MaxCohort(all: seq<ProducerInterval>)
    requires |all| > 0
    ensures forall x :: multiset(FilterByValue(all, MaxInterval(all)))[x] ==
              if NoneAbove(x, all) then multiset(all)[x] else 0
  {
    var m := MaxInterval(all);
    forall x | x in all
      ensures x.interval == m <==> NoneAbove(x, all)
    {
      var i :| 0 <= i < |all| && all[i].interval == m;
      assert all[i] in all;
    }
  }

  /** The tail of `execute` once the intervals are known: both cohorts empty
      when there is no interval, else the intervals at the smallest and at
      the largest value. */
  function Report(all: seq<ProducerInterval>): (r: AwardIntervalsResult)
    ensures |all| == 0 ==> r == AwardIntervalsResult([], [])
    ensures IsSubsequence(r.min, all) && IsSubsequence(r.max, all)
    ensures forall x :: multiset(r.min)[x] == if NoneBelow(x, all) then multiset(all)[x] else 0
    ensures forall x :: multiset(r.max)[x] == if NoneAbove(x, all) then multiset(all)[x] else 0
  {
    if |all| == 0 then AwardIntervalsResult([], [])
    else
      MinCohort(all);
      MaxCohort(all);
      AwardIntervalsResult(FilterByValue(all, MinInterval(all)), FilterByValue(all, MaxInterval(all)))
  }

  /** Rearranging the intervals only rearranges the `min` cohort. */
  lemma ReportMinOfPermutation(xa: seq<ProducerInterval>, xb: seq<ProducerInterval>)
    requires multiset(xa) == multiset(xb)
    ensures multiset(Report(xa).min) == multiset(Report(xb).min)
  {
    var ma := multiset(Report(xa).min);
    var mb := multiset(Report(xb).min);
    ExtremesOfPermutation(xa, xb);
    forall x
      ensures ma[x] == mb[x]
    {
      assert ma[x] == if NoneBelow(x, xa) then multiset(xa)[x] else 0;
      assert mb[x] == if NoneBelow(x, xb) then multiset(xb)[x] else 0;
    }
  }

  /** Rearranging the intervals only rearranges the `max` cohort. */
  lemma ReportMaxOfPermutation(xa: seq<ProducerInterval>, xb: seq<ProducerInterval>)
    requires multiset(xa) == multiset(xb)
    ensures multiset(Report(xa).max) == multiset(Report(xb).max)
  {
    var ma := multiset(Report(xa).max);
    var mb := multiset(Report(xb).max);
    ExtremesOfPermutation(xa, xb);
    forall x
      ensures ma[x] == mb[x]
    {
      assert ma[x] == if NoneAbove(x, xa) then multiset(xa)[x] else 0;
      assert mb[x] == if NoneAbove(x, xb) then multiset(xb)[x] else 0;
    }
  }

  /** Every interval of the movies, in the given iteration order of the
      grouping. */
  function AllIntervals(movies: seq<WinningMovie>, order: seq<string>): seq<ProducerInterval>
    requires Enumerates(order, GroupYearsByProducer(movies).Keys)
  {
    CalculateIntervals(GroupYearsByProducer(movies), order)
  }

  /** `execute`: with no interval at all both cohorts are empty; otherwise
      `min` holds exactly the intervals no other interval is smaller than,
      and `max` exactly those no other interval is larger than, each as
      often as it occurs and in the order they were computed. */
  function Execute(movies: seq<WinningMovie>, order: seq<string>): (r: AwardIntervalsResult)
    requires Enumerates(order, GroupYearsByProducer(movies).Keys)
    ensures |AllIntervals(movies, order)| == 0 ==> r == AwardIntervalsResult([], [])
    ensures IsSubsequence(r.min, AllIntervals(movies, order))
    ensures IsSubsequence(r.max, AllIntervals(movies, order))
    ensures forall x :: multiset(r.min)[x] ==
              if NoneBelow(x, AllIntervals(movies, order)) then multiset(AllIntervals(movies, order))[x] else 0
    ensures forall x :: multiset(r.max)[x] ==
              if NoneAbove(x, AllIntervals(movies, order)) then multiset(AllIntervals(movies, order))[x] else 0
  {
    Report(AllIntervals(movies, order))
  }

  /** When every interval has the same value, the two cohorts coincide. */
  lemma ExecuteAllEqual(movies: seq<WinningMovie>, order: seq<string>)
    requires Enumerates(order, GroupYearsByProducer(movies).Keys)
    requires forall i, j :: 0 <= i < j < |AllIntervals(movies, order)| ==>
               AllIntervals(movies, order)[i].interval == AllIntervals(movies, order)[j].interval
    ensures Execute(movies, order).min == Execute(movies, order).max
  {
    var all := AllIntervals(movies, order);
    if |all| > 0 {
      var i :| 0 <= i < |all| && all[i].interval == MinInterval(all);
      var j :| 0 <= j < |all| && all[j].interval == MaxInterval(all);
      assert all[i].interval == all[0].interval == all[j].interval;
    }
  }

  /** Neither the order of the movies nor the map's iteration order changes
      what the cohorts hold, only possibly their order. */
  lemma ExecuteOrderIndependent(a: seq<WinningMovie>, b: seq<WinningMovie>, oa: seq<string>, ob: seq<string>)
    requires multiset(a) == multiset(b)
    requires Enumerates(oa, GroupYearsByProducer(a).Keys)
    requires Enumerates(ob, GroupYearsByProducer(b).Keys)
    ensures multiset(Execute(a, oa).min) == multiset(Execute(b, ob).min)
    ensures multiset(Execute(a, oa).max) == multiset(Execute(b, ob).max)
  {
    var xa := AllIntervals(a, oa);
    var xb := AllIntervals(b, ob);
    assert multiset(xa) == multiset(xb) by {
      GroupingOrderIndependent(a, b);
      IntervalsOrderIndependent(GroupYearsByProducer(a), oa, ob);
    }
    ReportMinOfPermutation(xa, xb);
    ReportMaxOfPermutation(xa, xb);
  }

  /** A name with any winning year is listed by some movie. */
  lemma {:induction false} YearsMeanListed(movies: seq<WinningMovie>, p: string, y: int)
    requires y in YearsOf(movies, p)
    ensures Listed(movies, p)
    decreases |movies|
  {
    var m := movies[0];
    assert YearsOf(movies, p) == Repeat(m.year, Mentions(m, p)) + YearsOf(movies[1..], p);
    ListedCons(movies, p);
    if y in Repeat(m.year, Mentions(m, p)) {
      assert Mentions(m, p) > 0;
    } else {
      YearsMeanListed(movies[1..], p, y);
    }
  }

  /** A year a sorted list holds twice gives a zero interval. */
  lemma RepeatedYearPair(p: string, ys: seq<int>, y: int)
    requires Sorted(ys) && multiset(ys)[y] >= 2
    ensures ProducerInterval(p, 0, y, y) in PairIntervals(p, ys)
  {
    AdjacentDuplicate(ys, y);
    var i :| 0 <= i < |ys| - 1 && ys[i] == y && ys[i + 1] == y;
    assert PairIntervals(p, ys)[i] == ProducerInterval(p, 0, y, y);
  }

  /** The same year counted twice for one name, be it two movies of one
      year or one movie listing the name twice, shows up as a zero
      interval. */
  lemma RepeatedYearGivesZero(movies: seq<WinningMovie>, order: seq<string>, p: string, y: int)
    requires Enumerates(order, GroupYearsByProducer(movies).Keys)
    requires multiset(YearsOf(movies, p))[y] >= 2
    ensures ProducerInterval(p, 0, y, y) in AllIntervals(movies, order)
  {
    var g := GroupYearsByProducer(movies);
    var x := ProducerInterval(p, 0, y, y);
    assert p in g && p in order by {
      YearsMeanListed(movies, p, y);
    }
    var ys := g[p];
    RepeatedYearPair(p, ys, y);
    CalculateIntervalsMembers(g, order, x);
  }
}
