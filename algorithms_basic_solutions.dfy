/** The basic algorithm exercises: one standard algorithm per test, with the
    facts the tests rely on and the values they expect. */
module AlgorithmsBasicSolutions {
  import opened CppBasics
  import opened StdNumeric
  import opened StdAlgorithm

  // ---------------------------------------------------------------------
  // SumOfVectorElements, InnerProductOfVectors, PartialSumOfVectors
  // ---------------------------------------------------------------------

  lemma SumExample()
    ensures Accumulate([1, 2, 3, 4, 5], 0, Plus) == 15
  {
    AccumulatePlusIsSum([1, 2, 3, 4, 5], 0);
  }

  lemma InnerProductExample()
    ensures InnerProduct([1, 2, 3, 4, 5], [2, 2, 2, 2, 2], 0, Plus, Times) == 30
  {
    InnerProductIsDot([1, 2, 3, 4, 5], [2, 2, 2, 2, 2], 0);
  }

  lemma PartialSumExample()
    ensures PartialSum([1, 1, 1, 1, 1]) == [1, 2, 3, 4, 5]
  {
    var v := [1, 1, 1, 1, 1];
    forall i | 0 <= i < 5 ensures PartialSum(v)[i] == i + 1 {
      PartialSumIsPrefixSum(v, i);
      SumOfOnes(i + 1);
      assert v[..i + 1] == seq(i + 1, _ => 1);
    }
  }

  lemma {:induction false} SumOfOnes(n: nat)
    ensures Sum(seq(n, _ => 1)) == n
  {
    if n > 0 {
      assert seq(n, _ => 1)[1..] == seq(n - 1, _ => 1);
      SumOfOnes(n - 1);
    }
  }

  // ---------------------------------------------------------------------
  // CountZeroes and CountEvens
  // ---------------------------------------------------------------------

  lemma CountZeroesExample()
    ensures Count([0, 1, 2, 4, 0, 1, 2], 0) == 2
  {
    var v := [0, 1, 2, 4, 0, 1, 2];
    CountIsSize(v, 0, {0, 4});
  }

  /** The lambda `n % 2 == 0`, with the C++ remainder. */
  function IsEven(n: int): bool { Rem(n, 2) == 0 }

  /** count_if with that lambda counts the even elements, negative ones included. */
  lemma CountEvensIsEvenCount(v: seq<int>)
    ensures CountIf(v, IsEven) == |set i | 0 <= i < |v| && v[i] % 2 == 0|
  {
    forall i | 0 <= i < |v| ensures IsEven(v[i]) <==> v[i] % 2 == 0 {
      RemTwo(v[i]);
    }
    CountIfIsSize(v, IsEven, set i | 0 <= i < |v| && v[i] % 2 == 0);
  }

  lemma CountEvensExample()
    ensures CountIf([1, 2, 3, 4, 5, 6, 7], IsEven) == 3
  {
    var v := [1, 2, 3, 4, 5, 6, 7];
    CountIfIsSize(v, IsEven, {1, 3, 5});
  }

  // ---------------------------------------------------------------------
  // LowerBound, UpperBound and FindMaximum
  // ---------------------------------------------------------------------

  method LowerBoundExample() returns (index: nat)
    ensures index == 2
  {
    var v := [1, 1, 2, 3, 3, 3];
    SortedIsPartitioned(v, 2);
    index := LowerBound(v, 2);
    assert v[1] < 2 && !(v[2] < 2);
  }

  method UpperBoundExample() returns (index: nat)
    ensures index == 3
  {
    var v := [1, 1, 2, 3, 3, 3];
    SortedIsPartitioned(v, 2);
    index := UpperBound(v, 2);
    assert !(2 < v[2]) && 2 < v[3];
  }

  /** On a sorted vector both binary searches apply, the lower bound is at
      most the upper bound, and the elements between them are the ones
      equal to the value. */
  method EqualRange(v: seq<int>, value: int) returns (lo: nat, up: nat)
    requires Sorted(v)
    ensures lo <= up <= |v|
    ensures forall i :: 0 <= i < lo ==> v[i] < value
    ensures forall i :: lo <= i < up ==> v[i] == value
    ensures forall i :: up <= i < |v| ==> value < v[i]
  {
    SortedIsPartitioned(v, value);
    lo := LowerBound(v, value);
    up := UpperBound(v, value);
    BoundsOrdered(v, value, lo, lo, up);
  }

  method MaxExample() returns (max: int)
    ensures max == 8
  {
    var v := [1, 6, 3, 8, 2, 0, 7];
    var r := MaxElement(v);
    max := v[r];
    assert v[3] <= max;
  }
}
