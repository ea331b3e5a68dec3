/** The hand-written index loops of the advanced algorithm exercises, each
    proved against a specification and, where the exercise has one, against
    the standard algorithm its solution uses instead. */
module AlgorithmsAdvanced {
  import opened CppBasics
  import opened StdNumeric
  import opened StdAlgorithm

  // ---------------------------------------------------------------------
  // ConvertAVectorToString
  // ---------------------------------------------------------------------

  /** The concatenation of a sequence of strings. */
  function Concat(parts: seq<string>): string {
    if parts == [] then "" else parts[0] + Concat(parts[1..])
  }

  lemma {:induction false} ConcatSnoc(parts: seq<string>, last: string)
    ensures Concat(parts + [last]) == Concat(parts) + last
  {
    if parts == [] {
      assert [] + [last] == [last];
    } else {
      assert (parts + [last])[1..] == parts[1..] + [last];
      ConcatSnoc(parts[1..], last);
    }
  }

  /** The piece written for every element after the first. */
  function CommaThen(x: int): string {
    ", " + ToString(x)
  }

  /** The text the exercise expects for a non-empty vector: "[", the first
      number, then ", " and the number for every later element, then "]". */
  function ListText(v: seq<int>): string
    requires |v| > 0
  {
    "[" + ToString(v[0]) + Concat(Transform(v[1..], CommaThen)) + "]"
  }

  /** What the loop has built after its first i elements. */
  function JoinedPrefix(v: seq<int>, i: nat): string
    requires 0 < i <= |v|
  {
    ToString(v[0]) + Concat(Transform(v[1..i], CommaThen))
  }

  /** One more element of the loop adds its piece at the end. */
  lemma JoinStep(v: seq<int>, i: nat)
    requires 0 < i < |v|
    ensures JoinedPrefix(v, i + 1) == JoinedPrefix(v, i) + CommaThen(v[i])
  {
    var parts := Transform(v[1..i], CommaThen);
    assert v[1..i + 1] == v[1..i] + [v[i]];
    assert Transform(v[1..i + 1], CommaThen) == parts + [CommaThen(v[i])];
    ConcatSnoc(parts, CommaThen(v[i]));
    assert ToString(v[0]) + (Concat(parts) + CommaThen(v[i])) == (ToString(v[0]) + Concat(parts)) + CommaThen(v[i]);
  }

  lemma JoinWhole(v: seq<int>)
    requires |v| > 0
    ensures ListText(v) == "[" + JoinedPrefix(v, |v|) + "]"
  {
    assert v[1..|v|] == v[1..];
  }

  /** The loop of ConvertAVectorToString. The source reads v[0] without a
      check, so the vector must not be empty. */
  method Join(v: seq<int>) returns (result: string)
    requires |v| > 0
    ensures result == ListText(v)
  {
    var s := ToString(v[0]);
    assert v[1..1] == [];
    assert s == JoinedPrefix(v, 1);
    for i := 1 to |v|
      invariant s == JoinedPrefix(v, i)
    {
      JoinStep(v, i);
      s := s + CommaThen(v[i]);
    }
    JoinWhole(v);
    result := "[" + s + "]";
  }

  // ---------------------------------------------------------------------
  // CountEqualElements
  // ---------------------------------------------------------------------

  /** The positions below n where the two vectors hold equal elements. */
  function EqualPositions(a: seq<int>, b: seq<int>, n: nat): set<int>
    requires n <= |a| && n <= |b|
  {
    set i | 0 <= i < n && a[i] == b[i]
  }

  lemma EqualPositionsStep(a: seq<int>, b: seq<int>, n: nat)
    requires n < |a| && n < |b|
    ensures EqualPositions(a, b, n + 1) == EqualPositions(a, b, n) + (if a[n] == b[n] then {n} else {})
    ensures n !in EqualPositions(a, b, n)
  {
  }

  /** The loop of CountEqualElements: b is read at every index of a, so it
      must be at least as long. */
  method CountEqual(a: seq<int>, b: seq<int>) returns (count: nat)
    requires |a| <= |b|
    ensures count == |EqualPositions(a, b, |a|)|
    ensures count <= |a|
  {
    count := 0;
    for i := 0 to |a|
      invariant count == |EqualPositions(a, b, i)|
      invariant count <= i
    {
      EqualPositionsStep(a, b, i);
      if a[i] == b[i] {
        count := count + 1;
      }
    }
  }

  // ---------------------------------------------------------------------
  // CreateMapFromKeysAndValues
  // ---------------------------------------------------------------------

  /** No key after position i (and before n) repeats keys[i]. */
  predicate LastBefore<K(==)>(keys: seq<K>, i: nat, n: nat)
    requires i < n <= |keys|
  {
    forall j :: i < j < n ==> keys[j] != keys[i]
  }

  /** The loop of CreateMapFromKeysAndValues: `population[keys[i]] =
      values[i]` overwrites, so a repeated key ends with the value of its
      LAST occurrence. values is read at every index of keys. */
  method Population<K, V>(keys: seq<K>, values: seq<V>) returns (population: map<K, V>)
    requires |keys| <= |values|
    ensures population.Keys == set i | 0 <= i < |keys| :: keys[i]
    ensures forall i :: 0 <= i < |keys| && LastBefore(keys, i, |keys|) ==> population[keys[i]] == values[i]
    ensures Distinct(keys) ==> |population| == |keys|
  {
    population := map[];
    for i := 0 to |keys|
      invariant population.Keys == set j | 0 <= j < i :: keys[j]
      invariant forall j :: 0 <= j < i && LastBefore(keys, j, i) ==> population[keys[j]] == values[j]
    {
      population := population[keys[i] := values[i]];
    }
    if Distinct(keys) {
      DistinctCardinality(keys);
      assert |population.Keys| == |keys|;
    }
  }

  // ---------------------------------------------------------------------
  // CalculatesHeightsFromDifferences
  // ---------------------------------------------------------------------

  /** The loop of CalculatesHeightsFromDifferences, over a vector of the
      input's size filled by index. The source reads diff[0] without a check. */
  method Heights(diff: seq<int>) returns (heights: seq<int>)
    requires |diff| > 0
    ensures |heights| == |diff|
    ensures forall i :: 0 <= i < |diff| ==> heights[i] == Sum(diff[..i + 1])
    ensures heights == PartialSum(diff)
  {
    var h := new int[|diff|];
    var cumulative := diff[0];
    h[0] := cumulative;
    assert diff[..1] == [diff[0]];
    assert Sum(diff[..1]) == diff[0] + Sum([]);
    for i := 1 to |diff|
      invariant cumulative == Sum(diff[..i])
      invariant forall k :: 0 <= k < i ==> h[k] == Sum(diff[..k + 1])
    {
      SumPrefixStep(diff, i);
      cumulative := cumulative + diff[i];
      h[i] := cumulative;
    }
    heights := h[..];
    forall i | 0 <= i < |diff| ensures heights[i] == PartialSum(diff)[i] {
      PartialSumIsPrefixSum(diff, i);
    }
  }

  // ---------------------------------------------------------------------
  // FindMinimumOfAdjacentNumbers
  // ---------------------------------------------------------------------

  /** The loop of FindMinimumOfAdjacentNumbers: every entry after the first
      is the smaller of an element and its predecessor. The source reads
      numbers[0] without a check. */
  method AdjacentMinimums(numbers: seq<int>) returns (minimums: seq<int>)
    requires |numbers| > 0
    ensures |minimums| == |numbers| && minimums[0] == numbers[0]
    ensures forall i :: 0 < i < |numbers| ==>
      minimums[i] <= numbers[i - 1] && minimums[i] <= numbers[i] &&
      (minimums[i] == numbers[i - 1] || minimums[i] == numbers[i])
    ensures minimums == AdjacentDifference(numbers, Min)
  {
    var m := new int[|numbers|];
    m[0] := numbers[0];
    for i := 1 to |numbers|
      invariant m[0] == numbers[0]
      invariant forall k :: 0 < k < i ==> m[k] == Min(numbers[k], numbers[k - 1])
    {
      if numbers[i - 1] < numbers[i] {
        m[i] := numbers[i - 1];
      } else {
        m[i] := numbers[i];
      }
    }
    minimums := m[..];
    forall i | 0 <= i < |numbers| ensures minimums[i] == AdjacentDifference(numbers, Min)[i] {
      AdjacentDifferenceAt(numbers, Min, i);
    }
    forall i | 0 < i < |numbers|
      ensures minimums[i] <= numbers[i - 1] && minimums[i] <= numbers[i] &&
              (minimums[i] == numbers[i - 1] || minimums[i] == numbers[i])
    {
      var r := Min(numbers[i], numbers[i - 1]);
      assert minimums[i] == r;
    }
  }

  // ---------------------------------------------------------------------
  // MoveMultipleElementsInAContainer
  // ---------------------------------------------------------------------

  /** The four loops of MoveMultipleElementsInAContainer, with the test's
      constants (1, 3 and size - 1) as parameters: the segment
      [first, nFirst) is moved behind [nFirst, last). The last loop starts at
      the result's size, which the first three loops have brought to last. */
  method MoveSegment(numbers: seq<int>, first: nat, nFirst: nat, last: nat) returns (result: seq<int>)
    requires first <= nFirst <= last <= |numbers|
    ensures result == numbers[..first] + numbers[nFirst..last] + numbers[first..nFirst] + numbers[last..]
    ensures IsRotationOf(result, numbers, first, nFirst, last)
    ensures |result| == |numbers| && multiset(result) == multiset(numbers)
  {
    result := AppendRange([], numbers, 0, first);
    assert numbers[0..first] == numbers[..first];
    result := AppendRange(result, numbers, nFirst, last);
    result := AppendRange(result, numbers, first, nFirst);
    assert |result| == last;
    result := AppendRange(result, numbers, |result|, |numbers|);
    assert numbers[last..|numbers|] == numbers[last..];
    SegmentSwapIsRotation(numbers, first, nFirst, last);
  }

  /** One loop of MoveMultipleElementsInAContainer: push_back of
      numbers[i] for every i from `from` up to `to`. */
  method AppendRange(acc: seq<int>, numbers: seq<int>, from: nat, to: nat) returns (result: seq<int>)
    requires from <= to <= |numbers|
    ensures result == acc + numbers[from..to]
  {
    result := acc;
    var i := from;
    while i < to
      invariant from <= i <= to && result == acc + numbers[from..i]
    {
      assert numbers[from..i + 1] == numbers[from..i] + [numbers[i]];
      result := result + [numbers[i]];
      i := i + 1;
    }
  }

  /** Swapping two adjacent segments is the rotation of their span, and it
      keeps every element. */
  lemma SegmentSwapIsRotation(numbers: seq<int>, first: nat, nFirst: nat, last: nat)
    requires first <= nFirst <= last <= |numbers|
    ensures var r := numbers[..first] + numbers[nFirst..last] + numbers[first..nFirst] + numbers[last..];
      IsRotationOf(r, numbers, first, nFirst, last) && |r| == |numbers| && multiset(r) == multiset(numbers)
  {
    var r := numbers[..first] + numbers[nFirst..last] + numbers[first..nFirst] + numbers[last..];
    RotationIsSegmentSwap(r, numbers, first, nFirst, last);
    assert numbers == numbers[..first] + numbers[first..nFirst] + numbers[nFirst..last] + numbers[last..];
  }

  // ---------------------------------------------------------------------
  // move_to_begin_if_predicate
  // ---------------------------------------------------------------------

  /** `move_to_begin_if_predicate(vals, pred)`: an element satisfying pred
      is inserted at `last_move`, just behind the earlier ones that satisfy
      it, and any other element is appended. The result is the stable
      partition of vals. */
  method MoveToBeginIfPredicate<T>(vals: seq<T>, pred: T -> bool) returns (result: seq<T>)
    ensures result == Filter(vals, pred) + Filter(vals, Not(pred))
    ensures IsStablePartitionOf(result, vals, pred)
    ensures |result| == |vals|
  {
    result := [];
    var lastMove := 0;
    for i := 0 to |vals|
      invariant result == Filter(vals[..i], pred) + Filter(vals[..i], Not(pred))
      invariant lastMove == |Filter(vals[..i], pred)|
    {
      FilterPrefixStep(vals, i, pred);
      FilterPrefixStep(vals, i, Not(pred));
      if pred(vals[i]) {
        result := result[..lastMove] + [vals[i]] + result[lastMove..];
        lastMove := lastMove + 1;
      } else {
        result := result + [vals[i]];
      }
    }
    assert vals[..|vals|] == vals;
    StablePartitionCharacterized(result, vals, pred);
    FilterLengths(vals, pred);
  }

  // ---------------------------------------------------------------------
  // The any / all / none scans
  // ---------------------------------------------------------------------

  /** The loop of CheckThatOneElementSatisfiesACondition. */
  method HasSpaces(s: string) returns (hasSpaces: bool)
    ensures hasSpaces <==> exists i :: 0 <= i < |s| && s[i] == ' '
  {
    hasSpaces := false;
    for i := 0 to |s|
      invariant hasSpaces <==> exists k :: 0 <= k < i && s[k] == ' '
    {
      if s[i] == ' ' {
        hasSpaces := true;
      }
    }
  }

  /** The loop of CheckThatAllElementsSatisfyACondition. It tests the C++
      remainder `v[i] % 2 == 0`, which is zero exactly for the even numbers,
      so the flag says that every element is odd (Dafny's `% 2 == 1`,
      negative numbers included). */
  method AllOdd(v: seq<int>) returns (allOdd: bool)
    ensures allOdd <==> forall i :: 0 <= i < |v| ==> Rem(v[i], 2) != 0
    ensures allOdd <==> forall i :: 0 <= i < |v| ==> v[i] % 2 == 1
  {
    allOdd := true;
    for i := 0 to |v|
      invariant allOdd <==> forall k :: 0 <= k < i ==> Rem(v[k], 2) != 0
    {
      if Rem(v[i], 2) == 0 {
        allOdd := false;
      }
    }
    forall i | 0 <= i < |v| ensures Rem(v[i], 2) != 0 <==> v[i] % 2 == 1 {
      RemTwo(v[i]);
    }
  }

  /** The loop of CheckThatNoElementSatisfiesCondition: is any character upper-case? */
  method HasUppercase(s: string) returns (isUppercase: bool)
    ensures isUppercase <==> exists i :: 0 <= i < |s| && IsUpper(s[i])
  {
    isUppercase := false;
    for i := 0 to |s|
      invariant isUppercase <==> exists k :: 0 <= k < i && IsUpper(s[k])
    {
      if IsUpper(s[i]) {
        isUppercase := true;
      }
    }
  }

  // ---------------------------------------------------------------------
  // FindMinimumAndMaximumElement
  // ---------------------------------------------------------------------

  /** The two loops of FindMinimumAndMaximumElement. The source reads v[0]
      without a check. */
  method MinMax(v: seq<int>) returns (min: int, max: int)
    requires |v| > 0
    ensures min in v && forall i :: 0 <= i < |v| ==> min <= v[i]
    ensures max in v && forall i :: 0 <= i < |v| ==> v[i] <= max
  {
    min := v[0];
    for i := 1 to |v|
      invariant min in v[..i] && forall k :: 0 <= k < i ==> min <= v[k]
    {
      if v[i] < min {
        min := v[i];
      }
    }
    max := v[0];
    for i := 1 to |v|
      invariant max in v[..i] && forall k :: 0 <= k < i ==> v[k] <= max
    {
      if max < v[i] {
        max := v[i];
      }
    }
    assert v[..|v|] == v;
  }
}
