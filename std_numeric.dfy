/** The algorithms of `<numeric>` that the exercises call, written from their
    definitions in the ISO C++ standard (sections [accumulate],
    [inner.product], [partial.sum] and [adjacent.difference]). Each one runs
    an accumulator over the range from first to last, so each is defined by
    peeling off the last element: the value after n steps is the operation
    applied to the value after n - 1 steps. */
module StdNumeric {

  /** The mathematical sum, by recursion from the front: the reference the
      fold-based algorithms are proved against. */
  function Sum(xs: seq<int>): int {
    if xs == [] then 0 else xs[0] + Sum(xs[1..])
  }

  /** The mathematical sum of the products of corresponding elements. */
  function Dot(xs: seq<int>, ys: seq<int>): int
    requires |xs| <= |ys|
  {
    if xs == [] then 0 else xs[0] * ys[0] + Dot(xs[1..], ys[1..])
  }

  function Plus(a: int, b: int): int { a + b }

  function Times(a: int, b: int): int { a * b }

  /** `std::accumulate(first, last, init, op)`: the accumulator starts at
      init and becomes op(acc, x) for every x of the range, in order. */
  function Accumulate<T, A>(xs: seq<T>, init: A, op: (A, T) -> A): A {
    if xs == [] then init else op(Accumulate(xs[..|xs| - 1], init, op), xs[|xs| - 1])
  }

  /** `std::inner_product(first1, last1, first2, init, op1, op2)`: the
      accumulator starts at init and becomes op1(acc, op2(x, y)) for every x
      of the first range and the y at the same offset of the second, which
      must be at least as long. */
  function InnerProduct<T, U, B, A>(xs: seq<T>, ys: seq<U>, init: A, op1: (A, B) -> A, op2: (T, U) -> B): A
    requires |xs| <= |ys|
  {
    if xs == [] then init
    else op1(InnerProduct(xs[..|xs| - 1], ys, init, op1, op2), op2(xs[|xs| - 1], ys[|xs| - 1]))
  }

  /** `std::partial_sum(first, last, result)`: for a non-empty range the
      accumulator starts at the first element, and each later element is
      added to it; every value the accumulator takes is written, in order. */
  function PartialSum(xs: seq<int>): (r: seq<int>)
    ensures |r| == |xs|
  {
    if |xs| <= 1 then xs
    else
      var p := PartialSum(xs[..|xs| - 1]);
      p + [p[|p| - 1] + xs[|xs| - 1]]
  }

  /** `std::adjacent_difference(first, last, result, op)`: the first element
      is written as it is; every later element x is written as op(x, prev),
      with prev the element before it (the current value comes FIRST). */
  function AdjacentDifference(xs: seq<int>, op: (int, int) -> int): (r: seq<int>)
    ensures |r| == |xs|
  {
    if |xs| <= 1 then xs
    else AdjacentDifference(xs[..|xs| - 1], op) + [op(xs[|xs| - 1], xs[|xs| - 2])]
  }

  lemma {:induction false} SumSnoc(xs: seq<int>, x: int)
    ensures Sum(xs + [x]) == Sum(xs) + x
  {
    if xs == [] {
      assert [] + [x] == [x];
    } else {
      assert (xs + [x])[1..] == xs[1..] + [x];
      SumSnoc(xs[1..], x);
    }
  }

  /** The sum of a prefix one longer is the shorter prefix's sum plus the new element. */
  lemma SumPrefixStep(xs: seq<int>, i: nat)
    requires i < |xs|
    ensures Sum(xs[..i + 1]) == Sum(xs[..i]) + xs[i]
  {
    assert xs[..i + 1] == xs[..i] + [xs[i]];
    SumSnoc(xs[..i], xs[i]);
  }

  lemma {:induction false} DotSnoc(xs: seq<int>, ys: seq<int>)
    requires 0 < |xs| <= |ys|
    ensures Dot(xs, ys) == Dot(xs[..|xs| - 1], ys) + xs[|xs| - 1] * ys[|xs| - 1]
  {
    if |xs| > 1 {
      assert xs[..|xs| - 1][1..] == xs[1..][..|xs| - 2];
      DotSnoc(xs[1..], ys[1..]);
    }
  }

  /** `accumulate(first, last, init)` uses `+`: it is init plus the sum. */
  lemma {:induction false} AccumulatePlusIsSum(xs: seq<int>, init: int)
    ensures Accumulate(xs, init, Plus) == init + Sum(xs)
  {
    if xs != [] {
      var n := |xs| - 1;
      AccumulatePlusIsSum(xs[..n], init);
      assert xs == xs[..n] + [xs[n]];
      SumSnoc(xs[..n], xs[n]);
    }
  }

  /** `inner_product(first1, last1, first2, init)` uses `+` and `*`: it is
      init plus the sum of the pairwise products. */
  lemma {:induction false} InnerProductIsDot(xs: seq<int>, ys: seq<int>, init: int)
    requires |xs| <= |ys|
    ensures InnerProduct(xs, ys, init, Plus, Times) == init + Dot(xs, ys)
  {
    if xs != [] {
      InnerProductIsDot(xs[..|xs| - 1], ys, init);
      DotSnoc(xs, ys);
    }
  }

  /** Entry i of the partial sums is the sum of the first i + 1 elements. */
  lemma {:induction false} PartialSumIsPrefixSum(xs: seq<int>, i: nat)
    requires i < |xs|
    ensures PartialSum(xs)[i] == Sum(xs[..i + 1])
    decreases |xs|
  {
    var n := |xs| - 1;
    if n == 0 {
      assert xs[..1] == [xs[0]];
      assert Sum([xs[0]]) == xs[0] + Sum([]);
    } else if i < n {
      PartialSumIsPrefixSum(xs[..n], i);
      assert xs[..n][..i + 1] == xs[..i + 1];
    } else {
      PartialSumIsPrefixSum(xs[..n], n - 1);
      assert xs[..n][..n] == xs[..n];
      SumPrefixStep(xs, n);
    }
  }

  /** Every entry of the adjacent differences other than the first is op of
      an element and its predecessor; the first is the first element. */
  lemma {:induction false} AdjacentDifferenceAt(xs: seq<int>, op: (int, int) -> int, i: nat)
    requires i < |xs|
    ensures AdjacentDifference(xs, op)[i] == if i == 0 then xs[0] else op(xs[i], xs[i - 1])
    decreases |xs|
  {
    var n := |xs| - 1;
    if 0 < n && i < n {
      AdjacentDifferenceAt(xs[..n], op, i);
    }
  }
}
