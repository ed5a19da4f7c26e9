/** Mapping a fallible conversion over a list, the way a Java stream of
    `map(...)` followed by `toList()` behaves when the mapped method can
    throw: the first exception ends the whole pipeline. */
module Results {
  import opened Wrappers
  import opened Seqs

  /** `f` applied to every element, in order; the first failure is the
      result. */
  function MapResult<T, U, E>(f: T -> Result<U, E>, xs: seq<T>): (r: Result<seq<U>, E>)
    ensures r.Success? <==> forall i :: 0 <= i < |xs| ==> f(xs[i]).Success?
    ensures r.Success? ==>
              |r.value| == |xs| && forall i :: 0 <= i < |xs| ==> Success(r.value[i]) == f(xs[i])
    decreases |xs|
  {
    if |xs| == 0 then Success([])
    else
      var head := f(xs[0]);
      var rest := MapResult(f, xs[1..]);
      assert forall i | 1 <= i < |xs| :: xs[i] == xs[1..][i - 1];
      if head.Failure? then Failure(head.error)
      else if rest.Failure? then Failure(rest.error)
      else Success([head.value] + rest.value)
  }

  /** The error reported is the one of the first element that fails. */
  lemma {:induction false} MapResultFirstFailure<T, U, E>(f: T -> Result<U, E>, xs: seq<T>)
    requires MapResult(f, xs).Failure?
    ensures exists i :: 0 <= i < |xs| && f(xs[i]) == Failure(MapResult(f, xs).error)
              && forall j :: 0 <= j < i ==> f(xs[j]).Success?
    decreases |xs|
  {
    if f(xs[0]).Failure? {
      assert f(xs[0]) == Failure(MapResult(f, xs).error);
    } else {
      ghost var rest := MapResult(f, xs[1..]);
      assert rest.Failure? && rest.error == MapResult(f, xs).error;
      MapResultFirstFailure(f, xs[1..]);
      var k :| 0 <= k < |xs[1..]| && f(xs[1..][k]) == Failure(rest.error)
               && forall j :: 0 <= j < k ==> f(xs[1..][j]).Success?;
      assert xs[k + 1] == xs[1..][k];
      assert forall j :: 0 < j < k + 1 ==> xs[j] == xs[1..][j - 1];
    }
  }

  /** The successful value of one conversion, as a list of zero or one. */
  function SuccessList<T, U, E>(f: T -> Result<U, E>, x: T): seq<U> {
    if f(x).Success? then [f(x).value] else []
  }

  /** A successful mapping is the successes one after another. */
  lemma {:induction false} MapResultFlat<T, U, E>(f: T -> Result<U, E>, xs: seq<T>)
    requires MapResult(f, xs).Success?
    ensures MapResult(f, xs).value == FlatMap((x: T) => SuccessList(f, x), xs)
    decreases |xs|
  {
    if |xs| > 0 {
      assert MapResult(f, xs[1..]).Success?;
      MapResultFlat(f, xs[1..]);
    }
  }

  /** Rearranging the input rearranges the output, and whether the mapping
      fails does not depend on the order. */
  lemma MapResultPermutation<T, U, E>(f: T -> Result<U, E>, a: seq<T>, b: seq<T>)
    requires multiset(a) == multiset(b)
    ensures MapResult(f, a).Success? <==> MapResult(f, b).Success?
    ensures MapResult(f, a).Success? ==> multiset(MapResult(f, a).value) == multiset(MapResult(f, b).value)
  {
    forall i | 0 <= i < |a|
      ensures a[i] in b
    {
      assert a[i] in multiset(b);
    }
    forall i | 0 <= i < |b|
      ensures b[i] in a
    {
      assert b[i] in multiset(a);
    }
    if MapResult(f, a).Success? && MapResult(f, b).Success? {
      MapResultFlat(f, a);
      MapResultFlat(f, b);
      FlatMapPermutation((x: T) => SuccessList(f, x), a, b);
    }
  }
}
