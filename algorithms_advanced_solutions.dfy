/** The solutions of the advanced algorithm exercises, each a call of one
    standard algorithm, proved to agree with the hand-written loop it
    replaces, together with the exercises' own expected values. */
module AlgorithmsAdvancedSolutions {
  import opened CppBasics
  import opened StdNumeric
  import opened StdAlgorithm
  import opened AlgorithmsAdvanced

  // ---------------------------------------------------------------------
  // ConvertAVectorToString: accumulate over all but the first element
  // ---------------------------------------------------------------------

  /** The lambda `acc + ", " + std::to_string(x)`. */
  function AppendNumber(acc: string, x: int): string {
    acc + ", " + ToString(x)
  }

  function JoinWithAccumulate(v: seq<int>): string
    requires |v| > 0
  {
    "[" + Accumulate(v[1..], ToString(v[0]), AppendNumber) + "]"
  }

  /** Accumulating with AppendNumber appends the piece of every element. */
  lemma {:induction false} AccumulateAppends(xs: seq<int>, init: string)
    ensures Accumulate(xs, init, AppendNumber) == init + Concat(Transform(xs, CommaThen))
  {
    if xs != [] {
      var n := |xs| - 1;
      var parts := Transform(xs[..n], CommaThen);
      AccumulateAppends(xs[..n], init);
      ConcatSnoc(parts, CommaThen(xs[n]));
      assert (init + Concat(parts)) + ", " + ToString(xs[n]) == init + (Concat(parts) + CommaThen(xs[n]));
    }
  }

  /** The accumulate solution writes exactly the text of the loop. */
  lemma JoinWithAccumulateIsListText(v: seq<int>)
    requires |v| > 0
    ensures JoinWithAccumulate(v) == ListText(v)
  {
    AccumulateAppends(v[1..], ToString(v[0]));
  }

  lemma JoinExample()
    ensures JoinWithAccumulate([1, 2, 3, 4, 5]) == "[1, 2, 3, 4, 5]"
  {
    JoinWithAccumulateIsListText([1, 2, 3, 4, 5]);
    ListTextExample();
  }

  /** The loop's text for the example vector. */
  lemma ListTextExample()
    ensures ListText([1, 2, 3, 4, 5]) == "[1, 2, 3, 4, 5]"
  {
    var v := [1, 2, 3, 4, 5];
    assert v[1..] == [2, 3, 4, 5];
    CommaPieces();
    ConcatPieces();
    assert ToString(1) == "1";
  }

  /** The pieces the example appends after its first element. */
  lemma CommaPieces()
    ensures Transform([2, 3, 4, 5], CommaThen) == [", 2", ", 3", ", 4", ", 5"]
  {
    var tail := [2, 3, 4, 5];
    forall k | 0 <= k < 4 ensures Transform(tail, CommaThen)[k] == [", 2", ", 3", ", 4", ", 5"][k] {
      TransformAt(tail, CommaThen, k);
    }
  }

  lemma ConcatPieces()
    ensures Concat([", 2", ", 3", ", 4", ", 5"]) == ", 2, 3, 4, 5"
  {
    var parts := [", 2", ", 3", ", 4", ", 5"];
    assert parts[1..][1..][1..][1..] == [];
  }

  // ---------------------------------------------------------------------
  // CountEqualElements: inner_product with plus and equal_to
  // ---------------------------------------------------------------------

  /** `std::equal_to<int>()`. */
  function EqualTo(x: int, y: int): bool { x == y }

  /** `std::plus<int>()` applied to an int and a bool, which converts to 0 or 1. */
  function PlusBool(acc: int, b: bool): int { acc + (if b then 1 else 0) }

  function CountEqualWithInnerProduct(a: seq<int>, b: seq<int>): int
    requires |a| <= |b|
  {
    InnerProduct(a, b, 0, PlusBool, EqualTo)
  }

  /** The inner_product solution counts the positions where the vectors agree,
      which is what the counting loop returns. */
  lemma {:induction false} InnerProductCountsMatches(a: seq<int>, b: seq<int>)
    requires |a| <= |b|
    ensures CountEqualWithInnerProduct(a, b) == |EqualPositions(a, b, |a|)|
  {
    if a != [] {
      var n := |a| - 1;
      InnerProductCountsMatches(a[..n], b);
      assert EqualPositions(a[..n], b, n) == EqualPositions(a, b, n);
      EqualPositionsStep(a, b, n);
    }
  }

  lemma CountEqualExample()
    ensures CountEqualWithInnerProduct([1, 2, 3, 4, 5], [10, 2, 30, 4, 50]) == 2
  {
    var a, b := [1, 2, 3, 4, 5], [10, 2, 30, 4, 50];
    InnerProductCountsMatches(a, b);
    assert EqualPositions(a, b, 5) == {1, 3};
  }

  // ---------------------------------------------------------------------
  // CreateMapFromKeysAndValues: transform into an inserter
  // ---------------------------------------------------------------------

  /** The lambda `std::make_pair(k, v)`. */
  function MakePair<K, V>(k: K, v: V): (K, V) { (k, v) }

  /** transform of keys and values into `std::inserter(population, ...)`:
      every pair goes through `map::insert`, so a repeated key keeps the
      value of its FIRST occurrence. */
  function PopulationWithTransform<K, V>(keys: seq<K>, values: seq<V>): map<K, V>
    requires |keys| <= |values|
  {
    InsertEach(map[], Transform2(keys, values, MakePair))
  }

  lemma PairsAt<K, V>(keys: seq<K>, values: seq<V>, i: nat)
    requires |keys| <= |values| && i < |keys|
    ensures Transform2(keys, values, MakePair)[i] == (keys[i], values[i])
  {
    Transform2At(keys, values, MakePair, i);
  }

  /** The map holds every key and only the keys. */
  lemma PopulationWithTransformKeys<K, V>(keys: seq<K>, values: seq<V>)
    requires |keys| <= |values|
    ensures PopulationWithTransform(keys, values).Keys == set i | 0 <= i < |keys| :: keys[i]
  {
    var pairs := Transform2(keys, values, MakePair);
    forall i | 0 <= i < |keys| ensures pairs[i].0 == keys[i] {
      PairsAt(keys, values, i);
    }
    assert (set i | 0 <= i < |pairs| :: pairs[i].0) == set i | 0 <= i < |keys| :: keys[i];
  }

  /** The first occurrence of a key decides its value. */
  lemma PopulationWithTransformFirstWins<K, V>(keys: seq<K>, values: seq<V>, i: nat)
    requires |keys| <= |values| && i < |keys|
    requires forall j :: 0 <= j < i ==> keys[j] != keys[i]
    ensures keys[i] in PopulationWithTransform(keys, values)
    ensures PopulationWithTransform(keys, values)[keys[i]] == values[i]
  {
    PopulationWithTransformKeys(keys, values);
    var pairs := Transform2(keys, values, MakePair);
    forall j | 0 <= j < i ensures pairs[j].0 != pairs[i].0 {
      PairsAt(keys, values, j);
      PairsAt(keys, values, i);
    }
    PairsAt(keys, values, i);
    InsertEachFirstWins(map[], pairs, i);
  }

  /** For distinct keys the map has one entry per key. */
  lemma PopulationWithTransformSize<K, V>(keys: seq<K>, values: seq<V>)
    requires |keys| <= |values| && Distinct(keys)
    ensures |PopulationWithTransform(keys, values)| == |keys|
  {
    PopulationWithTransformKeys(keys, values);
    DistinctCardinality(keys);
    assert |PopulationWithTransform(keys, values).Keys| == |keys|;
  }

  /** For distinct keys the inserter solution and the `operator[]` loop
      build the same map: both hold every key with its own value. */
  lemma PopulationAgreesForDistinctKeys<K, V>(keys: seq<K>, values: seq<V>, loop: map<K, V>)
    requires |keys| <= |values| && Distinct(keys)
    requires loop.Keys == set i | 0 <= i < |keys| :: keys[i]
    requires forall i :: 0 <= i < |keys| && LastBefore(keys, i, |keys|) ==> loop[keys[i]] == values[i]
    ensures PopulationWithTransform(keys, values) == loop
  {
    PopulationWithTransformKeys(keys, values);
    var m := PopulationWithTransform(keys, values);
    forall k | k in m.Keys ensures m[k] == loop[k] {
      var i :| 0 <= i < |keys| && keys[i] == k;
      assert LastBefore(keys, i, |keys|);
      PopulationWithTransformFirstWins(keys, values, i);
    }
  }

  /** With a repeated key the inserter keeps the first value. */
  lemma PopulationWithRepeatedKey()
    ensures PopulationWithTransform(["Espoo", "Espoo"], [1, 2]) == map["Espoo" := 1]
  {
    var keys, values := ["Espoo", "Espoo"], [1, 2];
    PopulationWithTransformKeys(keys, values);
    PopulationWithTransformFirstWins(keys, values, 0);
    var m := PopulationWithTransform(keys, values);
    assert m.Keys == {"Espoo"};
    assert m["Espoo"] == 1;
  }

  /** On the same repeated key the `operator[]` loop keeps the LAST value,
      so the loop and the transform solution build different maps. */
  method RepeatedKeyDiffers() returns (loop: map<string, int>)
    ensures loop == map["Espoo" := 2]
    ensures loop != PopulationWithTransform(["Espoo", "Espoo"], [1, 2])
  {
    var keys, values := ["Espoo", "Espoo"], [1, 2];
    loop := Population(keys, values);
    assert LastBefore(keys, 1, 2);
    assert loop.Keys == {"Espoo"};
    PopulationWithRepeatedKey();
  }

  lemma PopulationExample()
    ensures var m := PopulationWithTransform(
              ["Helsinki", "Espoo", "Tampere", "Vantaa", "Oulu"],
              [639222, 276087, 228942, 220908, 200600]);
      && |m| == 5
      && "Helsinki" in m && m["Helsinki"] == 639222
      && "Oulu" in m && m["Oulu"] == 200600
      && "Tampere" in m && m["Tampere"] == 228942
  {
    var keys := ["Helsinki", "Espoo", "Tampere", "Vantaa", "Oulu"];
    var values := [639222, 276087, 228942, 220908, 200600];
    assert |keys[0]| == 8 && |keys[1]| == 5 && |keys[2]| == 7 && |keys[3]| == 6 && |keys[4]| == 4;
    assert Distinct(keys);
    PopulationWithTransformSize(keys, values);
    PopulationWithTransformFirstWins(keys, values, 0);
    PopulationWithTransformFirstWins(keys, values, 2);
    PopulationWithTransformFirstWins(keys, values, 4);
  }

  // ---------------------------------------------------------------------
  // CalculatesHeightsFromDifferences and FindMinimumOfAdjacentNumbers
  // ---------------------------------------------------------------------

  lemma HeightsExample()
    ensures PartialSum([0, 1, 5, -2, 10, -12]) == [0, 1, 6, 4, 14, 2]
  {
    PartialSumSnoc([0], 1);
    assert [0] + [1] == [0, 1];
    PartialSumSnoc([0, 1], 5);
    assert [0, 1] + [5] == [0, 1, 5];
    PartialSumSnoc([0, 1, 5], -2);
    assert [0, 1, 5] + [-2] == [0, 1, 5, -2];
    PartialSumSnoc([0, 1, 5, -2], 10);
    assert [0, 1, 5, -2] + [10] == [0, 1, 5, -2, 10];
    PartialSumSnoc([0, 1, 5, -2, 10], -12);
    assert [0, 1, 5, -2, 10] + [-12] == [0, 1, 5, -2, 10, -12];
  }

  /** One more element adds one more running total. */
  lemma {:induction false} PartialSumSnoc(xs: seq<int>, x: int)
    requires |xs| > 0
    ensures PartialSum(xs + [x]) == PartialSum(xs) + [PartialSum(xs)[|xs| - 1] + x]
  {
    assert (xs + [x])[..|xs|] == xs;
  }

  lemma AdjacentMinimumsExample()
    ensures AdjacentDifference([1, 2, 1, 3, 1, 4], Min) == [1, 1, 1, 1, 1, 1]
  {
    var n := [1, 2, 1, 3, 1, 4];
    forall i | 0 <= i < 6 ensures AdjacentDifference(n, Min)[i] == 1 {
      AdjacentDifferenceAt(n, Min, i);
    }
  }

  // ---------------------------------------------------------------------
  // MoveMultipleElementsInAContainer: rotate
  // ---------------------------------------------------------------------

  /** `rotate(begin + 1, begin + 3, end - 1)` on 1..7 moves [2, 3] in front of the last element. */
  method RotateExample() returns (numbers: seq<int>)
    ensures numbers == [1, 4, 5, 6, 2, 3, 7]
  {
    var a := new int[7] [1, 2, 3, 4, 5, 6, 7];
    assert a[..] == [1, 2, 3, 4, 5, 6, 7];
    ghost var before := a[..];
    var pos := Rotate(a, 1, 3, 6);
    numbers := a[..];
    RotatedExample(numbers, before);
  }

  lemma RotatedExample(r: seq<int>, s: seq<int>)
    requires s == [1, 2, 3, 4, 5, 6, 7] && IsRotationOf(r, s, 1, 3, 6)
    ensures r == [1, 4, 5, 6, 2, 3, 7]
  {
    RotationIsSegmentSwap(r, s, 1, 3, 6);
    assert s[..1] == [1] && s[3..6] == [4, 5, 6] && s[1..3] == [2, 3] && s[6..] == [7];
  }

  // ---------------------------------------------------------------------
  // MoveMultipleElementsToBeginning/EndOfAContainer: stable_partition
  // ---------------------------------------------------------------------

  function IsTwo(x: int): bool { x == 2 }

  function IsNotTwo(x: int): bool { x != 2 }

  method PartitionTwosFirst() returns (numbers: seq<int>)
    ensures numbers == [2, 2, 2, 1, 3, 3, 4, 1, 5]
  {
    var a := new int[9] [1, 2, 3, 3, 2, 4, 2, 1, 5];
    assert a[..] == [1, 2, 3, 3, 2, 4, 2, 1, 5];
    ghost var before := a[..];
    var mid := StablePartition(a, IsTwo);
    numbers := a[..];
    TwosFirstExample(numbers, before);
  }

  lemma TwosFirstExample(r: seq<int>, s: seq<int>)
    requires s == [1, 2, 3, 3, 2, 4, 2, 1, 5] && IsStablePartitionOf(r, s, IsTwo)
    ensures r == [2, 2, 2, 1, 3, 3, 4, 1, 5]
  {
    PartitionedTestVectors();
    StablePartitionCharacterized(r, s, IsTwo);
    TwosFiltered(s);
  }

  method PartitionTwosLast() returns (numbers: seq<int>)
    ensures numbers == [1, 3, 3, 4, 1, 5, 2, 2, 2]
  {
    var a := new int[9] [1, 2, 3, 3, 2, 4, 2, 1, 5];
    assert a[..] == [1, 2, 3, 3, 2, 4, 2, 1, 5];
    ghost var before := a[..];
    var mid := StablePartition(a, IsNotTwo);
    numbers := a[..];
    TwosLastExample(numbers, before);
  }

  lemma TwosLastExample(r: seq<int>, s: seq<int>)
    requires s == [1, 2, 3, 3, 2, 4, 2, 1, 5] && IsStablePartitionOf(r, s, IsNotTwo)
    ensures r == [1, 3, 3, 4, 1, 5, 2, 2, 2]
  {
    PartitionedTestVectors();
    StablePartitionCharacterized(r, s, IsNotTwo);
    OthersFiltered(s);
  }

  /** The insert-at-lastMove loop and `std::stable_partition` give the same
      result on every input: the stable partition, which is unique. */
  method MoveToBeginAgreesWithStablePartition<T>(vals: seq<T>, pred: T -> bool) returns (moved: seq<T>, partitioned: seq<T>)
    ensures moved == partitioned
    ensures moved == Filter(vals, pred) + Filter(vals, Not(pred))
  {
    moved := MoveToBeginIfPredicate(vals, pred);
    var a := new T[|vals|](i requires 0 <= i < |vals| => vals[i]);
    assert a[..] == vals;
    var mid := StablePartition(a, pred);
    partitioned := a[..];
    StablePartitionCharacterized(partitioned, vals, pred);
  }

  /** The two expected vectors, each as its two groups. */
  lemma PartitionedTestVectors()
    ensures [2, 2, 2] + [1, 3, 3, 4, 1, 5] == [2, 2, 2, 1, 3, 3, 4, 1, 5]
    ensures [1, 3, 3, 4, 1, 5] + [2, 2, 2] == [1, 3, 3, 4, 1, 5, 2, 2, 2]
  {
  }

  /** Filter peels off the first element. */
  lemma FilterCons(x: int, xs: seq<int>, p: int -> bool)
    ensures Filter([x] + xs, p) == Keep(x, p) + Filter(xs, p)
  {
    assert ([x] + xs)[1..] == xs;
  }

  /** The 2s of the test vector, and the rest. */
  lemma TwosFiltered(s: seq<int>)
    requires s == [1, 2, 3, 3, 2, 4, 2, 1, 5]
    ensures Filter(s, IsTwo) == [2, 2, 2]
    ensures Filter(s, Not(IsTwo)) == [1, 3, 3, 4, 1, 5]
  {
    FilterSteps(s, IsTwo);
    FilterSteps(s, Not(IsTwo));
  }

  lemma OthersFiltered(s: seq<int>)
    requires s == [1, 2, 3, 3, 2, 4, 2, 1, 5]
    ensures Filter(s, IsNotTwo) == [1, 3, 3, 4, 1, 5]
    ensures Filter(s, Not(IsNotTwo)) == [2, 2, 2]
  {
    FilterSteps(s, IsNotTwo);
    FilterSteps(s, Not(IsNotTwo));
  }

  /** Filter of a nine-element sequence, one element at a time from the back. */
  lemma FilterSteps(s: seq<int>, p: int -> bool)
    requires |s| == 9
    ensures Filter(s, p) ==
      Keep(s[0], p) + (Keep(s[1], p) + (Keep(s[2], p) + (Keep(s[3], p) + (Keep(s[4], p) +
      (Keep(s[5], p) + (Keep(s[6], p) + (Keep(s[7], p) + Keep(s[8], p))))))))
  {
    assert s[9..] == [];
    FilterSuffix(s, 8, p);
    assert Filter(s[8..], p) == Keep(s[8], p);
    FilterSuffix(s, 7, p);
    assert Filter(s[7..], p) == Keep(s[7], p) + Keep(s[8], p);
    FilterSuffix(s, 6, p);
    assert Filter(s[6..], p) == Keep(s[6], p) + (Keep(s[7], p) + Keep(s[8], p));
    FilterSuffix(s, 5, p);
    assert Filter(s[5..], p) == Keep(s[5], p) + (Keep(s[6], p) + (Keep(s[7], p) + Keep(s[8], p)));
    FilterSuffix(s, 4, p);
    assert Filter(s[4..], p) == Keep(s[4], p) + (Keep(s[5], p) + (Keep(s[6], p) + (Keep(s[7], p) + Keep(s[8], p))));
    FilterSuffix(s, 3, p);
    assert Filter(s[3..], p) == Keep(s[3], p) + (Keep(s[4], p) + (Keep(s[5], p) + (Keep(s[6], p) + (Keep(s[7], p) + Keep(s[8], p)))));
    FilterSuffix(s, 2, p);
    assert Filter(s[2..], p) == Keep(s[2], p) + (Keep(s[3], p) + (Keep(s[4], p) + (Keep(s[5], p) + (Keep(s[6], p) + (Keep(s[7], p) + Keep(s[8], p))))));
    FilterSuffix(s, 1, p);
    assert Filter(s[1..], p) == Keep(s[1], p) + (Keep(s[2], p) + (Keep(s[3], p) + (Keep(s[4], p) + (Keep(s[5], p) + (Keep(s[6], p) + (Keep(s[7], p) + Keep(s[8], p)))))));
    FilterSuffix(s, 0, p);
    assert Filter(s[0..], p) == Keep(s[0], p) + (Keep(s[1], p) + (Keep(s[2], p) + (Keep(s[3], p) + (Keep(s[4], p) + (Keep(s[5], p) + (Keep(s[6], p) + (Keep(s[7], p) + Keep(s[8], p))))))));
    assert s[0..] == s;
  }

  /** Filter of a suffix peels off the suffix's first element. */
  lemma FilterSuffix(s: seq<int>, k: nat, p: int -> bool)
    requires k < |s|
    ensures Filter(s[k..], p) == Keep(s[k], p) + Filter(s[k + 1..], p)
  {
    FilterCons(s[k], s[k + 1..], p);
    assert s[k..] == [s[k]] + s[k + 1..];
  }

  /** The part of Filter contributed by one element. */
  function Keep(x: int, p: int -> bool): seq<int> {
    if p(x) then [x] else []
  }

  // ---------------------------------------------------------------------
  // The any_of / all_of checks
  // ---------------------------------------------------------------------

  function IsSpace(c: char): bool { c == ' ' }

  /** `any_of(s, c == ' ')` is exactly what the scanning loop computes. */
  lemma HasSpacesWithAnyOf(s: string)
    ensures AnyOf(s, IsSpace) <==> exists i :: 0 <= i < |s| && s[i] == ' '
  {
    if exists i :: 0 <= i < |s| && s[i] == ' ' {
      var i :| 0 <= i < |s| && s[i] == ' ';
      assert IsSpace(s[i]);
    }
  }

  lemma HasSpacesExample()
    ensures AnyOf("hello, world", IsSpace)
  {
    assert IsSpace("hello, world"[6]);
  }

  /** `any_of(s, isupper)` is exactly what the loop computes, and the test
      string has no upper-case letter. */
  lemma HasUppercaseWithAnyOf(s: string)
    ensures AnyOf(s, IsUpper) <==> exists i :: 0 <= i < |s| && IsUpper(s[i])
    ensures !AnyOf("hello, world", IsUpper)
  {
  }

  /** The lambda of the all_of solution as written: `n % 2 == 1` with the
      C++ remainder, which is -1 for a negative odd number. */
  function AllOddAsWritten(v: seq<int>): bool {
    AllOf(v, n => Rem(n, 2) == 1)
  }

  /** The oddness test the loop uses: the C++ remainder by 2 is not zero. */
  function IsOdd(n: int): bool { Rem(n, 2) != 0 }

  /** The all_of check as evidently intended. */
  function AllOddCorrected(v: seq<int>): bool {
    AllOf(v, IsOdd)
  }

  /** The intended check agrees with the loop's answer: every element is odd. */
  lemma AllOddIsOddness(v: seq<int>)
    ensures AllOddCorrected(v) <==> forall i :: 0 <= i < |v| ==> v[i] % 2 == 1
  {
    forall i | 0 <= i < |v| ensures IsOdd(v[i]) <==> v[i] % 2 == 1 {
      RemTwo(v[i]);
    }
  }

  /** On non-negative numbers the check as written is the intended one. */
  lemma AllOddAsWrittenOnNonNegatives(v: seq<int>)
    requires forall i :: 0 <= i < |v| ==> v[i] >= 0
    ensures AllOddAsWritten(v) == AllOddCorrected(v)
  {
    forall i | 0 <= i < |v| ensures (Rem(v[i], 2) == 1) == IsOdd(v[i]) {
      RemTwo(v[i]);
    }
  }

  /** A vector holding the odd number -3 is rejected by the check as written. */
  lemma AllOddAsWrittenRejectsNegativeOdd()
    ensures (-3) % 2 == 1
    ensures !AllOddAsWritten([-3]) && AllOddCorrected([-3])
  {
    var v := [-3];
    assert Rem(v[0], 2) == -1;
    assert !AllOf(v, n => Rem(n, 2) == 1);
    assert IsOdd(v[0]);
  }

  lemma AllOddExample()
    ensures AllOddCorrected([1, 3, 5, 7, 9, 11]) && AllOddAsWritten([1, 3, 5, 7, 9, 11])
  {
  }

  // ---------------------------------------------------------------------
  // FindMinimumAndMaximumElement: minmax_element
  // ---------------------------------------------------------------------

  method MinMaxExample() returns (min: int, max: int)
    ensures min == 1 && max == 12
  {
    var v := [1, 6, 3, 7, 9, 4, 12, 2];
    var lo, hi := MinmaxElement(v);
    min, max := v[lo], v[hi];
    assert min <= v[0] && v[6] <= max;
  }

  /** The two loops of the exercise and `minmax_element` find the same
      smallest and largest values. */
  method MinMaxAgrees(v: seq<int>) returns (min: int, max: int, lo: nat, hi: nat)
    requires |v| > 0
    ensures lo < |v| && hi < |v|
    ensures v[lo] == min && v[hi] == max
  {
    min, max := MinMax(v);
    lo, hi := MinmaxElement(v);
  }
}
