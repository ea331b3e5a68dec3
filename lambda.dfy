/** The function objects of the lambda exercises: two stateless functors
    used with transform, one functor with a running sum used with for_each,
    and two higher-order helpers. */
module Lambda {
  import opened StdNumeric
  import opened StdAlgorithm

  /** The functor `square`. */
  function Square(x: int): int {
    x * x
  }

  /** The functor `plus_n`: the amount is fixed when it is constructed and
      added to every argument. */
  datatype PlusN = PlusN(n: int) {
    function Call(x: int): int {
      x + n
    }
  }

  /** transform with `square()` gives, in order, the square of every element. */
  lemma TransformSquare(v: seq<int>)
    ensures |Transform(v, Square)| == |v|
    ensures forall i :: 0 <= i < |v| ==> Transform(v, Square)[i] == v[i] * v[i]
  {
    forall i | 0 <= i < |v| ensures Transform(v, Square)[i] == v[i] * v[i] {
      TransformAt(v, Square, i);
    }
  }

  /** transform with `plus_n(n)` adds the same n to every element, in order. */
  lemma TransformPlusN(v: seq<int>, n: int)
    ensures |Transform(v, PlusN(n).Call)| == |v|
    ensures forall i :: 0 <= i < |v| ==> Transform(v, PlusN(n).Call)[i] == v[i] + n
  {
    forall i | 0 <= i < |v| ensures Transform(v, PlusN(n).Call)[i] == v[i] + n {
      TransformAt(v, PlusN(n).Call, i);
    }
  }

  lemma UsingSimpleClosure()
    ensures Transform([1, 2, 3, 4, 5], Square) == [1, 4, 9, 16, 25]
  {
    TransformSquare([1, 2, 3, 4, 5]);
  }

  lemma UsingClosureToRememberState()
    ensures Transform([1, 2, 3, 4, 5], PlusN(2).Call) == [3, 4, 5, 6, 7]
  {
    TransformPlusN([1, 2, 3, 4, 5], 2);
  }

  /** The functor `accumulator`: a running sum that starts at 0 and grows by
      every argument it is called with. */
  class Accumulator {
    var sum: int

    constructor ()
      ensures sum == 0
    {
      sum := 0;
    }

    /** The implicit copy constructor. */
    constructor Copy(other: Accumulator)
      ensures sum == other.sum
    {
      sum := other.sum;
    }

    /** `operator()(x)`. */
    method Call(x: int)
      modifies this
      ensures sum == old(sum) + x
    {
      sum := sum + x;
    }

    /** `total()`. */
    function Total(): int
      reads this
    {
      sum
    }
  }

  /** `std::for_each(first, last, f)`: f is taken by value, called on every
      element in order, and returned. The caller's functor is not touched. */
  method ForEach(v: seq<int>, f: Accumulator) returns (g: Accumulator)
    ensures fresh(g)
    ensures g.sum == f.sum + Sum(v)
  {
    g := new Accumulator.Copy(f);
    for i := 0 to |v|
      invariant g.sum == f.sum + Sum(v[..i])
    {
      SumPrefixStep(v, i);
      g.Call(v[i]);
    }
    assert v[..|v|] == v;
  }

  /** for_each with a fresh accumulator totals the vector: the same value
      as `accumulate(v, 0)`. */
  method TotalOfForEach(v: seq<int>) returns (total: int)
    ensures total == Sum(v)
    ensures total == Accumulate(v, 0, Plus)
  {
    var acc := new Accumulator();
    var result := ForEach(v, acc);
    total := result.Total();
    AccumulatePlusIsSum(v, 0);
  }

  method UsingClosureToUpdateState() returns (total: int)
    ensures total == 15
  {
    total := TotalOfForEach([1, 2, 3, 4, 5]);
    assert Sum([1, 2, 3, 4, 5]) == 15;
  }

  /** `apply_std_function(f, arg)`: f wrapped in a `std::function` and
      called with arg. */
  function ApplyStdFunction<U, T>(f: U -> T, arg: U): T {
    f(arg)
  }

  /** `apply_lambda(f, arg)`: f called with arg, the result type deduced. */
  function ApplyLambda<F, U>(f: U -> F, arg: U): F {
    f(arg)
  }

  /** Both helpers return what f returns for arg. */
  lemma ApplyHelpersAgree<U, T>(f: U -> T, arg: U)
    ensures ApplyLambda(f, arg) == ApplyStdFunction(f, arg) == f(arg)
  {
  }
}
