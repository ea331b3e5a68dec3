# Modern C++ exercises: algorithms, functors and an instance-counted Name

This project models the sequential core of a set of C++ teaching exercises.

- **Hand-written index loops** (`algorithms/algorithms_advanced.cpp`). Each
  exercise's loop is a Dafny method with loop invariants, and its contract
  states what the loop computes. Each loop is also tied to the standard
  algorithm that the exercise's solution uses instead:
  - directly in the contract for `Heights`, `AdjacentMinimums`, `MoveSegment`
    and `MoveToBeginIfPredicate`; for the last one,
    `MoveToBeginAgreesWithStablePartition` also runs both versions on the
    same input and shows that they give the same result;
  - through a lemma or method of `AlgorithmsAdvancedSolutions` for the others:
    `JoinWithAccumulateIsListText`, `InnerProductCountsMatches`,
    `PopulationAgreesForDistinctKeys`, `HasSpacesWithAnyOf`,
    `HasUppercaseWithAnyOf`, `AllOddIsOddness` and `MinMaxAgrees`.
- **The standard-algorithm solutions** (`algorithms/algorithms_advanced_solutions.cpp`,
  `algorithms/algorithms_basic_solutions.cpp`). The `<numeric>` and
  `<algorithm>` calls are written from their definitions in the ISO C++
  standard: [accumulate], [inner.product], [partial.sum], [adjacent.difference],
  [alg.partitions], [alg.rotate], [lower.bound], [upper.bound] and
  [alg.min.max].
  - Folds are functions that peel off the last element.
  - `std::stable_partition` and `std::rotate` are in-place methods on an `array`.
  - The binary searches are halving loops.
  - `max_element` and `minmax_element` are scans.
  - Every expected value a test asserts is proved as a lemma or a method
    postcondition on the test's own input.
- **The functors of `lambda/main.cpp`**. `square` and `plus_n` are pure.
  `accumulator` is a class whose `Call` updates its `sum` field, and
  `std::for_each` takes a copy of it and returns that copy.
- **The `Name` and its two owners** (`namedvector/`). The static
  `Name::names_in_memory` becomes an explicit `NameRegistry` object passed to
  every constructor and destructor. C++ destruction becomes an explicit
  `Destroy` call. The registry also keeps ghost state: the set of Names ever
  constructed, the set destroyed since, and the owner of each owned Name. Its
  invariant `Valid()` says three things:
  - the counter is the number of constructions minus the number of destructions;
  - nothing is destroyed that was not constructed;
  - only live Names are owned.

  Because ownership is a function from Name to owner, no two vectors own the
  same `Name*` (`NamedVectors.ExclusiveOwnership`). Each gtest case is a
  method that starts from a fresh registry and ends with the counter at 0.

Modules:

| module | models |
|---|---|
| `CppBasics` | `std::to_string(int)`, C++ `%` (truncating), `std::isupper` in the "C" locale, `std::min` |
| `StdNumeric` | `<numeric>` |
| `StdAlgorithm` | `<algorithm>` and the `std::inserter` into a `std::map` |
| `AlgorithmsAdvanced` | the index loops of `algorithms_advanced.cpp` |
| `AlgorithmsAdvancedSolutions` | `algorithms_advanced_solutions.cpp` |
| `AlgorithmsBasicSolutions` | `algorithms_basic_solutions.cpp` |
| `Lambda` | `lambda/main.cpp` |
| `Names` | `namedvector/name.h` |
| `NamedVectors` | `namedvector/namedvector.cpp` |
| `NamedVectorValues` | `namedvector/namedvector_value.cpp` |

The source's `NamedVector` has none of the copy, move, assignment or
destructor members its tests need: it is an exercise stub that asks for
them (namedvector/namedvector.cpp:9-14). Those members are modelled with
the behaviour the tests demand, as listed under "## Left out".

Some lemmas and ghost methods are proof steps and have no row:
- `CommaPieces` and `ConcatPieces` (the example's join text);
- `PartitionedTestVectors` (the expected partitions as concatenations);
- `FilterCons` and `FilterSuffix` (one unfolding of the filter);
- `CppBasics.MultipleBound` (a step of `RemUnique`);
- `Names.NameRegistry.Adopt`, `Release` and `Transfer`, the ghost ownership
  steps that every NamedVector and NamedVectorValue member uses, and on which
  `NamedVectors.ExclusiveOwnership` rests.

`AlgorithmsAdvancedSolutions.HasSpacesWithAnyOf` and `HasUppercaseWithAnyOf`
only unfold `any_of`. Their substance is in the loops' own contracts.

## Model

| member | source | states |
|---|---|---|
| CppBasics.ToStringRoundTrip | algorithms/algorithms_advanced.cpp:12-15 | `std::to_string` writes a decimal numeral that reads back as the same int, for every int, negative ones included |
| CppBasics.ToStringInjective | algorithms/algorithms_advanced.cpp:15 | different ints never get the same text |
| CppBasics.NatDigitsValue | algorithms/algorithms_advanced.cpp:12 | the digits written for a natural number have that number as their value |
| CppBasics.NatDigits | algorithms/algorithms_advanced.cpp:12 | the digits of a natural number are non-empty decimal digits, with no leading zero unless the number is 0 |
| CppBasics.ToString | algorithms/algorithms_advanced.cpp:15 | the text is non-empty and starts with '-' exactly for negative numbers |
| CppBasics.DigitChar | algorithms/algorithms_advanced.cpp:15 | a digit's character lies in '0'..'9', at offset d from '0' |
| CppBasics.Rem | algorithms/algorithms_advanced.cpp:174 | the C++ remainder has the sign of the dividend and is smaller than the divisor in magnitude |
| CppBasics.RemQuotient | algorithms/algorithms_advanced.cpp:174 | `a == (a / b) * b + a % b` with the quotient truncated toward zero, the identity C++ guarantees |
| CppBasics.RemUnique | algorithms/algorithms_advanced.cpp:174 | the identity, the sign and the bound leave no other choice: any quotient and remainder meeting them are C++'s `a / b` and `a % b` |
| CppBasics.RemTwo | algorithms/algorithms_basic_solutions.cpp:53 | `n % 2 == 0` in C++ is evenness; `n % 2 == 1` holds only for positive odd n; a negative odd n gives -1 |
| CppBasics.Min | algorithms/algorithms_advanced_solutions.cpp:63 | `std::min(l, r)` is at most either argument, equals one of them, and is the first when they tie |
| StdNumeric.AccumulatePlusIsSum | algorithms/algorithms_basic_solutions.cpp:13 | `accumulate(v, init)` with `+` is init plus the sum of v |
| StdNumeric.InnerProductIsDot | algorithms/algorithms_basic_solutions.cpp:23 | `inner_product(v1, v2, init)` is init plus the sum of the products `v1[i] * v2[i]` |
| StdNumeric.PartialSum | algorithms/algorithms_basic_solutions.cpp:33 | `partial_sum` writes one output per input |
| StdNumeric.PartialSumIsPrefixSum | algorithms/algorithms_basic_solutions.cpp:33 | entry i of `partial_sum` is the sum of the first i + 1 inputs |
| StdNumeric.AdjacentDifference | algorithms/algorithms_advanced_solutions.cpp:61-63 | `adjacent_difference` writes one output per input |
| StdNumeric.AdjacentDifferenceAt | algorithms/algorithms_advanced_solutions.cpp:61-63 | entry 0 is the first input; entry i > 0 is `op(in[i], in[i - 1])` |
| StdNumeric.SumSnoc | algorithms/algorithms_basic_solutions.cpp:13 | the front-recursive sum also peels off the last element |
| StdNumeric.SumPrefixStep | algorithms/algorithms_advanced.cpp:60-62 | extending a prefix by one element adds that element to its sum |
| StdNumeric.DotSnoc | algorithms/algorithms_basic_solutions.cpp:23 | the sum of products peels off its last product |
| StdAlgorithm.CountIfIsSize | algorithms/algorithms_basic_solutions.cpp:52-54 | `count_if` is the number of positions whose element satisfies the predicate |
| StdAlgorithm.CountIsSize | algorithms/algorithms_basic_solutions.cpp:43 | `count` is the number of positions holding the value |
| StdAlgorithm.CountIsCountIf | algorithms/algorithms_basic_solutions.cpp:43 | `count(v, x)` is `count_if` with `== x` |
| StdAlgorithm.CountIfBound | algorithms/algorithms_basic_solutions.cpp:52-54 | a count never exceeds the length |
| StdAlgorithm.CountIfSnoc | algorithms/algorithms_basic_solutions.cpp:52-54 | appending an element adds one to the count exactly when the element satisfies the predicate |
| StdAlgorithm.Transform | lambda/main.cpp:51 | `transform` writes one output per input |
| StdAlgorithm.TransformAt | lambda/main.cpp:51 | output k of `transform` is `op(in[k])` |
| StdAlgorithm.Transform2 | algorithms/algorithms_advanced_solutions.cpp:35-37 | the binary `transform` writes one output per element of the first range |
| StdAlgorithm.Transform2At | algorithms/algorithms_advanced_solutions.cpp:35-37 | output k of the binary `transform` is `op(a[k], b[k])` |
| StdAlgorithm.InsertEach | algorithms/algorithms_advanced_solutions.cpp:36 | inserting pairs through `std::inserter` into a `std::map` leaves the old keys plus every pair's key |
| StdAlgorithm.InsertEachFirstWins | algorithms/algorithms_advanced_solutions.cpp:36 | `map::insert` keeps an existing key, so the first pair with a new key decides its value |
| StdAlgorithm.KeysSnoc | algorithms/algorithms_advanced_solutions.cpp:36 | the keys of a pair sequence are the keys of all but the last pair plus the last key |
| StdAlgorithm.DistinctCardinality | algorithms/algorithms_advanced_solutions.cpp:39 | a sequence of distinct keys has as many different keys as elements |
| StdAlgorithm.Filter | algorithms/algorithms_advanced_solutions.cpp:83 | the elements kept by the predicate are no more than the input, and all satisfy it |
| StdAlgorithm.FilterConcat | algorithms/algorithms_advanced_solutions.cpp:83 | the kept elements of a concatenation are those of each part, in order |
| StdAlgorithm.FilterSnoc | algorithms/algorithms_advanced.cpp:123-129 | appending an element appends it to the kept group exactly when it satisfies the predicate |
| StdAlgorithm.FilterPrefixStep | algorithms/algorithms_advanced.cpp:123-129 | extending a prefix by one element extends the kept group by exactly that element, when the element satisfies the predicate |
| StdAlgorithm.FilterMultiset | algorithms/algorithms_advanced_solutions.cpp:83 | the satisfying group and the rest together hold exactly the input's elements |
| StdAlgorithm.FilterLengths | algorithms/algorithms_advanced_solutions.cpp:83 | the two groups' lengths add up to the input's length |
| StdAlgorithm.FilterAllOrNone | algorithms/algorithms_advanced_solutions.cpp:83 | when all elements satisfy the predicate, nothing is dropped; when none does, nothing is kept |
| StdAlgorithm.PartitionedSplits | algorithms/algorithms_advanced_solutions.cpp:83 | a partitioned sequence is its satisfying elements followed by the others |
| StdAlgorithm.NotAllOf | algorithms/algorithms_advanced_solutions.cpp:93 | when no element satisfies p, the group of the others is the whole input |
| StdAlgorithm.SplitIsStablePartition | algorithms/algorithms_advanced_solutions.cpp:83 | the satisfying group followed by the rest is a stable partition of the input |
| StdAlgorithm.StablePartitionCharacterized | algorithms/algorithms_advanced_solutions.cpp:83 | a stable partition is unique in both directions: r is one exactly when r is the satisfying group followed by the rest |
| StdAlgorithm.StablePartition | algorithms/algorithms_advanced_solutions.cpp:83 | `std::stable_partition` rearranges the array into a stable partition: a permutation, satisfying elements first, both groups in original order, and the returned split point separates them |
| StdAlgorithm.PartitionAssembled | algorithms/algorithms_advanced_solutions.cpp:83 | an array holding the satisfying group followed by the rest is a stable partition, split at the group's length |
| StdAlgorithm.CompactSatisfying | algorithms/algorithms_advanced_solutions.cpp:83 | the first pass moves the satisfying elements, in order, to the front and collects the others, in order |
| StdAlgorithm.CopySegment | algorithms/algorithms_advanced_solutions.cpp:73 | copying a segment into the array changes exactly that segment |
| StdAlgorithm.RotatedPosition | algorithms/algorithms_advanced_solutions.cpp:73 | [alg.rotate] sends every position of [first, last) to a position of [first, last) |
| StdAlgorithm.RotationIsSegmentSwap | algorithms/algorithms_advanced_solutions.cpp:73 | rotation about middle is, in both directions, the swap of [first, middle) and [middle, last) |
| StdAlgorithm.RotationIsSwap | algorithms/algorithms_advanced_solutions.cpp:73 | a rotation is the segment swap |
| StdAlgorithm.SwapIsRotation | algorithms/algorithms_advanced_solutions.cpp:73 | the segment swap is a rotation |
| StdAlgorithm.SegmentSwapAt | algorithms/algorithms_advanced_solutions.cpp:73 | where each element lands in the segment swap: outside [first, last) nothing moves, and inside it each segment shifts by the other's length |
| StdAlgorithm.Rotate | algorithms/algorithms_advanced_solutions.cpp:73 | `std::rotate` leaves the array rotated as [alg.rotate] defines, and returns `first + (last - middle)` |
| StdAlgorithm.TwoCopiesRotate | algorithms/algorithms_advanced_solutions.cpp:73 | Rotate's two segment copies leave the rotation |
| StdAlgorithm.SegmentsAssemble | algorithms/algorithms_advanced_solutions.cpp:73 | a sequence that matches the four pieces is their concatenation |
| StdAlgorithm.LowerBound | algorithms/algorithms_basic_solutions.cpp:63 | on a range partitioned by `e < value`, every element before the result is less than value and none from the result on is (defined at algorithms/algorithms_basic.cpp:55-57) |
| StdAlgorithm.UpperBound | algorithms/algorithms_basic_solutions.cpp:72 | on a range partitioned by `!(value < e)`, no element before the result is greater than value and every element from the result on is (defined at algorithms/algorithms_basic.cpp:68-70) |
| StdAlgorithm.SortedIsPartitioned | algorithms/algorithms_basic_solutions.cpp:61-63 | a sorted vector meets both binary searches' preconditions for every value |
| StdAlgorithm.BoundsOrdered | algorithms/algorithms_basic_solutions.cpp:63-74 | the lower bound is unique, it is at most the upper bound, and between them lie only elements equal to value |
| StdAlgorithm.MaxElement | algorithms/algorithms_basic_solutions.cpp:81 | `max_element` is the first position of a largest element, or the end of an empty range |
| StdAlgorithm.MinmaxElement | algorithms/algorithms_advanced_solutions.cpp:130 | `minmax_element` gives the first smallest and the last largest position, or the end twice for an empty range |
| AlgorithmsAdvanced.ConcatSnoc | algorithms/algorithms_advanced.cpp:14-16 | appending one more piece appends its text |
| AlgorithmsAdvanced.JoinStep | algorithms/algorithms_advanced.cpp:14-16 | each iteration appends `", " + to_string(v[i])` to the text so far |
| AlgorithmsAdvanced.JoinWhole | algorithms/algorithms_advanced.cpp:17 | the bracketed text after the last iteration is the list text |
| AlgorithmsAdvanced.Join | algorithms/algorithms_advanced.cpp:9-20 | for a non-empty vector the loop builds `"[" + to_string(v[0]) + ", " + to_string(v[1]) + … + "]"` |
| AlgorithmsAdvanced.EqualPositionsStep | algorithms/algorithms_advanced.cpp:28-32 | looking at one more index adds it to the matching positions exactly when the elements there are equal |
| AlgorithmsAdvanced.CountEqual | algorithms/algorithms_advanced.cpp:22-35 | the count is the number of indices i < \|a\| with `a[i] == b[i]`, hence at most \|a\|; b must be at least as long as a |
| AlgorithmsAdvanced.Population | algorithms/algorithms_advanced.cpp:37-51 | `population[keys[i]] = values[i]` gives a map whose keys are exactly the keys; the last assignment to each key wins; distinct keys give \|keys\| entries |
| AlgorithmsAdvanced.Heights | algorithms/algorithms_advanced.cpp:53-67 | for a non-empty input, `heights[i]` is the sum of `diff[0..i]`, with one height per difference; the result is `partial_sum` of the differences |
| AlgorithmsAdvanced.AdjacentMinimums | algorithms/algorithms_advanced.cpp:69-84 | `minimums[0]` is `numbers[0]` and each later entry is the smaller of the two neighbours, one of them; the result is `adjacent_difference` with `std::min` |
| AlgorithmsAdvanced.MoveSegment | algorithms/algorithms_advanced.cpp:86-112 | the four loops give `numbers[..first] + numbers[nFirst..last] + numbers[first..nFirst] + numbers[last..]`, the `std::rotate` of [first, last) about nFirst, a permutation of the same length |
| AlgorithmsAdvanced.AppendRange | algorithms/algorithms_advanced.cpp:97-108 | each of the four loops pushes back exactly `numbers[from..to]` |
| AlgorithmsAdvanced.SegmentSwapIsRotation | algorithms/algorithms_advanced.cpp:86-112 | swapping the two segments is the rotation of their span, of the same length and with the same elements |
| AlgorithmsAdvanced.MoveToBeginIfPredicate | algorithms/algorithms_advanced.cpp:114-132 | the result is the elements satisfying pred in original order, then the rest in original order: a stable partition and a permutation of the input, of the same length, so it equals the `stable_partition` result |
| AlgorithmsAdvanced.HasSpaces | algorithms/algorithms_advanced.cpp:154-166 | the flag is set exactly when some character is `' '` |
| AlgorithmsAdvanced.AllOdd | algorithms/algorithms_advanced.cpp:168-180 | the flag stays set exactly when no element has C++ `v[i] % 2 == 0`, that is, when every element is odd, negative ones included |
| AlgorithmsAdvanced.HasUppercase | algorithms/algorithms_advanced.cpp:182-194 | the flag is set exactly when some character is upper case |
| AlgorithmsAdvanced.MinMax | algorithms/algorithms_advanced.cpp:196-216 | for a non-empty vector, min and max are elements of it, and min is at most and max at least every element |
| AlgorithmsAdvancedSolutions.AccumulateAppends | algorithms/algorithms_advanced_solutions.cpp:12-13 | accumulating with `acc + ", " + to_string(x)` appends the piece of every element, in order |
| AlgorithmsAdvancedSolutions.JoinWithAccumulateIsListText | algorithms/algorithms_advanced_solutions.cpp:12-15 | the accumulate solution builds exactly the text the loop builds |
| AlgorithmsAdvancedSolutions.JoinExample | algorithms/algorithms_advanced_solutions.cpp:11-16 | the accumulate solution gives "[1, 2, 3, 4, 5]" for {1, 2, 3, 4, 5} |
| AlgorithmsAdvancedSolutions.ListTextExample | algorithms/algorithms_advanced.cpp:11-19 | the loop's text for {1, 2, 3, 4, 5} is "[1, 2, 3, 4, 5]" |
| AlgorithmsAdvancedSolutions.InnerProductCountsMatches | algorithms/algorithms_advanced_solutions.cpp:24-25 | `inner_product` with `plus` and `equal_to` counts the matching positions, the same number the loop counts |
| AlgorithmsAdvancedSolutions.CountEqualExample | algorithms/algorithms_advanced_solutions.cpp:21-26 | it gives 2 for the test's vectors |
| AlgorithmsAdvancedSolutions.PairsAt | algorithms/algorithms_advanced_solutions.cpp:35-37 | the transform with `make_pair` pairs `keys[i]` with `values[i]` |
| AlgorithmsAdvancedSolutions.PopulationWithTransformKeys | algorithms/algorithms_advanced_solutions.cpp:34-37 | the map's keys are exactly the keys |
| AlgorithmsAdvancedSolutions.PopulationWithTransformFirstWins | algorithms/algorithms_advanced_solutions.cpp:34-37 | the first occurrence of a key decides its value (`insert` does not overwrite) |
| AlgorithmsAdvancedSolutions.PopulationWithTransformSize | algorithms/algorithms_advanced_solutions.cpp:39 | for distinct keys the map has \|keys\| entries |
| AlgorithmsAdvancedSolutions.PopulationAgreesForDistinctKeys | algorithms/algorithms_advanced_solutions.cpp:34-37 | for distinct keys the transform solution builds the same map as the `operator[]` loop |
| AlgorithmsAdvancedSolutions.PopulationWithRepeatedKey | algorithms/algorithms_advanced_solutions.cpp:36 | with the repeated key of {Espoo, Espoo} and {1, 2}, the transform keeps the first value: {Espoo: 1} |
| AlgorithmsAdvancedSolutions.RepeatedKeyDiffers | algorithms/algorithms_advanced.cpp:43-45 | on the same input the `operator[]` loop keeps the last value, {Espoo: 2}, so the two versions build different maps |
| AlgorithmsAdvancedSolutions.PopulationExample | algorithms/algorithms_advanced_solutions.cpp:31-42 | the test's map has 5 entries, with Helsinki 639222, Oulu 200600 and Tampere 228942 |
| AlgorithmsAdvancedSolutions.HeightsExample | algorithms/algorithms_advanced_solutions.cpp:47-53 | `partial_sum` of {0, 1, 5, -2, 10, -12} is {0, 1, 6, 4, 14, 2} |
| AlgorithmsAdvancedSolutions.PartialSumSnoc | algorithms/algorithms_advanced_solutions.cpp:50 | appending an input appends the previous running sum plus that input |
| AlgorithmsAdvancedSolutions.AdjacentMinimumsExample | algorithms/algorithms_advanced_solutions.cpp:58-66 | `adjacent_difference` with `std::min` of {1, 2, 1, 3, 1, 4} is all ones |
| AlgorithmsAdvancedSolutions.RotateExample | algorithms/algorithms_advanced_solutions.cpp:71-76 | `rotate(begin + 1, begin + 3, end - 1)` of {1, ..., 7} gives {1, 4, 5, 6, 2, 3, 7} |
| AlgorithmsAdvancedSolutions.RotatedExample | algorithms/algorithms_advanced_solutions.cpp:73-75 | the only rotation of the test vector about those positions is the expected one |
| AlgorithmsAdvancedSolutions.PartitionTwosFirst | algorithms/algorithms_advanced_solutions.cpp:81-86 | stable partition by `x == 2` gives {2, 2, 2, 1, 3, 3, 4, 1, 5} |
| AlgorithmsAdvancedSolutions.TwosFirstExample | algorithms/algorithms_advanced_solutions.cpp:83-85 | that is the only stable partition of the test vector by `x == 2` |
| AlgorithmsAdvancedSolutions.PartitionTwosLast | algorithms/algorithms_advanced_solutions.cpp:91-96 | stable partition by `x != 2` gives {1, 3, 3, 4, 1, 5, 2, 2, 2} |
| AlgorithmsAdvancedSolutions.TwosLastExample | algorithms/algorithms_advanced_solutions.cpp:93-95 | that is the only stable partition of the test vector by `x != 2` |
| AlgorithmsAdvancedSolutions.MoveToBeginAgreesWithStablePartition | algorithms/algorithms_advanced_solutions.cpp:83 | on every input and predicate, `move_to_begin_if_predicate` (algorithms_advanced.cpp:118-132) and `std::stable_partition` give the same sequence: the satisfying elements in order, then the rest in order |
| AlgorithmsAdvancedSolutions.TwosFiltered | algorithms/algorithms_advanced_solutions.cpp:81-85 | the 2s of the test vector and the rest, in order |
| AlgorithmsAdvancedSolutions.OthersFiltered | algorithms/algorithms_advanced_solutions.cpp:91-95 | the non-2s of the test vector and the rest, in order |
| AlgorithmsAdvancedSolutions.FilterSteps | algorithms/algorithms_advanced_solutions.cpp:83 | the kept elements of a nine-element range, element by element |
| AlgorithmsAdvancedSolutions.HasSpacesWithAnyOf | algorithms/algorithms_advanced_solutions.cpp:103 | `any_of` with `c == ' '` holds exactly when some character is a space, as the loop's flag does |
| AlgorithmsAdvancedSolutions.HasSpacesExample | algorithms/algorithms_advanced_solutions.cpp:101-105 | "hello, world" has a space |
| AlgorithmsAdvancedSolutions.HasUppercaseWithAnyOf | algorithms/algorithms_advanced_solutions.cpp:119-123 | `any_of` with `isupper` holds exactly when some character is upper case, as the loop's flag does, and "hello, world" has none |
| AlgorithmsAdvancedSolutions.AllOddIsOddness | algorithms/algorithms_advanced_solutions.cpp:112 | the corrected `all_of` holds exactly when every element is odd, negative ones included |
| AlgorithmsAdvancedSolutions.AllOddAsWrittenOnNonNegatives | algorithms/algorithms_advanced_solutions.cpp:112 | on non-negative elements `n % 2 == 1` agrees with the corrected oddness test |
| AlgorithmsAdvancedSolutions.AllOddAsWrittenRejectsNegativeOdd | algorithms/algorithms_advanced_solutions.cpp:112 | for {-3}, `all_of(n % 2 == 1)` as written is false, though -3 is odd and the loop calls it odd |
| AlgorithmsAdvancedSolutions.AllOddExample | algorithms/algorithms_advanced_solutions.cpp:110-114 | both versions accept {1, 3, 5, 7, 9, 11} |
| AlgorithmsAdvancedSolutions.MinMaxExample | algorithms/algorithms_advanced_solutions.cpp:128-133 | `minmax_element` finds 1 and 12 in the test vector |
| AlgorithmsAdvancedSolutions.MinMaxAgrees | algorithms/algorithms_advanced_solutions.cpp:130 | on any non-empty vector the two loops of the exercise (algorithms_advanced.cpp:200-212) and `minmax_element` find the same smallest and largest values |
| AlgorithmsBasicSolutions.SumExample | algorithms/algorithms_basic_solutions.cpp:11-15 | `accumulate({1, ..., 5}, 0)` is 15 |
| AlgorithmsBasicSolutions.InnerProductExample | algorithms/algorithms_basic_solutions.cpp:20-25 | the inner product of the test vectors is 30 |
| AlgorithmsBasicSolutions.PartialSumExample | algorithms/algorithms_basic_solutions.cpp:30-36 | `partial_sum` of five ones is {1, 2, 3, 4, 5} |
| AlgorithmsBasicSolutions.SumOfOnes | algorithms/algorithms_basic_solutions.cpp:30-33 | n ones sum to n |
| AlgorithmsBasicSolutions.CountZeroesExample | algorithms/algorithms_basic_solutions.cpp:41-45 | the test vector has 2 zeros |
| AlgorithmsBasicSolutions.CountEvensIsEvenCount | algorithms/algorithms_basic_solutions.cpp:52-54 | `count_if` with C++ `n % 2 == 0` counts the even elements, negative ones included |
| AlgorithmsBasicSolutions.CountEvensExample | algorithms/algorithms_basic_solutions.cpp:50-56 | the test vector has 3 even elements |
| AlgorithmsBasicSolutions.LowerBoundExample | algorithms/algorithms_basic_solutions.cpp:61-65 | `lower_bound` of 2 in {1, 1, 2, 3, 3, 3} is index 2 |
| AlgorithmsBasicSolutions.UpperBoundExample | algorithms/algorithms_basic_solutions.cpp:70-74 | `upper_bound` of 2 in {1, 1, 2, 3, 3, 3} is index 3 |
| AlgorithmsBasicSolutions.EqualRange | algorithms/algorithms_basic_solutions.cpp:63-74 | on a sorted vector, the elements before the lower bound are smaller, those between the bounds are equal, and those from the upper bound on are greater |
| AlgorithmsBasicSolutions.MaxExample | algorithms/algorithms_basic_solutions.cpp:79-83 | `max_element` finds 8 |
| Lambda.TransformSquare | lambda/main.cpp:10-12 | `transform` with `square()` gives the same length and `v[i] * v[i]` at each i |
| Lambda.TransformPlusN | lambda/main.cpp:15-24 | `transform` with `plus_n(n)` gives the same length and `v[i] + n` at each i, with the same n throughout |
| Lambda.UsingSimpleClosure | lambda/main.cpp:46-55 | squares of {1, ..., 5} are {1, 4, 9, 16, 25} |
| Lambda.UsingClosureToRememberState | lambda/main.cpp:58-67 | `plus_n(2)` of {1, ..., 5} is {3, ..., 7} |
| Lambda.Accumulator.constructor | lambda/main.cpp:27-33 | an accumulator starts with sum 0 |
| Lambda.Accumulator.Copy | lambda/main.cpp:27-33 | the implicit copy has the same sum |
| Lambda.Accumulator.Call | lambda/main.cpp:28 | each call adds its argument to sum |
| Lambda.ForEach | lambda/main.cpp:74 | `for_each` returns a new accumulator whose sum is the initial sum plus the sum of v |
| Lambda.TotalOfForEach | lambda/main.cpp:74-76 | the returned functor's `total()` is the sum of v, the same as `accumulate(v, 0)` |
| Lambda.UsingClosureToUpdateState | lambda/main.cpp:70-77 | the total for {1, ..., 5} is 15 |
| Lambda.ApplyHelpersAgree | lambda/main.cpp:36-42 | `apply_lambda(f, a)` and `apply_std_function(f, a)` both return `f(a)` |
| Names.NameRegistry.constructor | namedvector/namedvector.cpp:33-36 | the fixture's SetUp: the counter is 0 and nothing is constructed or owned |
| Names.NameRegistry.LiveCount | namedvector/name.h:46-47 | the counter is the number of live Names, so it is never negative |
| Names.NameRegistry.Register | namedvector/name.h:10 | a construction adds one to the counter and one Name to the constructed set |
| Names.NameRegistry.Unregister | namedvector/name.h:38 | a destruction takes one from the counter and marks the Name destroyed; only a live, unowned Name can be destroyed |
| Names.Name.Default | namedvector/name.h:8-11 | `Name()` leaves v empty and raises the counter by exactly 1 |
| Names.Name.FromString | namedvector/name.h:13-17 | `Name(s)` sets v to s and raises the counter by exactly 1 |
| Names.Name.Copy | namedvector/name.h:19-23 | the copy constructor copies v and raises the counter by exactly 1 |
| Names.Name.CopyOf | namedvector/name.h:43-44 | `Name::copy` makes a new Name with the same payload, raising the counter by 1 |
| Names.Name.Assign | namedvector/name.h:25-29 | `operator=` copies v, even on self-assignment, and leaves the counter alone |
| Names.Name.Destroy | namedvector/name.h:36-39 | the destructor lowers the counter by exactly 1 |
| Names.EqualsIsEquivalence | namedvector/name.h:31-34 | `operator==` compares payloads only, so it is reflexive, symmetric and transitive |
| Names.NameLifecycle | namedvector/name.h:8-39 | a constructed scenario, not a test of the source, that exercises every member of Name: the counter reads 1 after one construction, 2 after a copy, 3 after another construction, still 3 after assignment, and 0 once all three are destroyed; a copy and an assigned Name compare equal to their source |
| Names.DestroyAll | namedvector/name.h:36-39 | destroying three distinct live Names brings a counter of 3 back to 0 |
| NamedVectors.NamedVector.Default | namedvector/namedvector.cpp:16 | the default vector has no Name and both coordinates 0 |
| NamedVectors.NamedVector.constructor | namedvector/namedvector.cpp:17-22 | the vector stores a fresh copy made by `Name::copy`, not the argument, with the same payload; the counter rises by 1 |
| NamedVectors.NamedVector.Copy | namedvector/namedvector.cpp:51-60 | a copy has its own fresh Name with equal payload when the source has one; the counter rises by 1 per copied Name |
| NamedVectors.NamedVector.Move | namedvector/namedvector.cpp:76-86 | the Name passes to the new vector, the source is left with `nullptr` and its coordinates, and the counter does not move |
| NamedVectors.NamedVector.ReleaseName | namedvector/namedvector.cpp:62-74 | the Name held, if any, is destroyed and the vector holds none |
| NamedVectors.NamedVector.CopyAssign | namedvector/namedvector.cpp:62-74 | the old Name is destroyed and replaced by a fresh copy of the other's Name, with the same payload, and the coordinates are copied; self-assignment changes nothing: not the Name, the coordinates, the counter or the registry's ghost state |
| NamedVectors.NamedVector.TakeCopyOf | namedvector/namedvector.cpp:62-74 | an empty vector takes a fresh copy of the other's Name and its coordinates |
| NamedVectors.NamedVector.MoveAssign | namedvector/namedvector.cpp:76-86 | the old Name is destroyed, the other's Name and coordinates pass over, and the other is left with `nullptr` and its coordinates; self-assignment changes nothing |
| NamedVectors.NamedVector.Destroy | namedvector/namedvector.cpp:14 | the Name held, if any, is destroyed, so the counter falls by 1 exactly when there was one |
| NamedVectors.OwnedKeys | namedvector/namedvector.cpp:62-74 | taking ownership of a Name adds exactly that Name to the owned ones |
| NamedVectors.ExclusiveOwnership | namedvector/namedvector.cpp:24 | two different valid vectors never hold the same `Name*` |
| NamedVectors.DestroyBoth | namedvector/namedvector.cpp:33-41 | destroying two valid vectors frees the Names they hold, once each |
| NamedVectors.NameIsFreedOnDelete | namedvector/namedvector.cpp:44-49 | the counter ends at 0 |
| NamedVectors.NameIsCopiedOnCopy | namedvector/namedvector.cpp:51-60 | distinct vectors, distinct `Name*`, equal payloads, and the counter ends at 0 |
| NamedVectors.AssignedVectors | namedvector/namedvector.cpp:64-68 | after `nv2 = nv` both vectors hold distinct Names with equal payloads, two Names are owned, and the test's own Names stay live and unowned |
| NamedVectors.NameIsCopiedOnAssignment | namedvector/namedvector.cpp:62-74 | distinct vectors, distinct `Name*`, equal payloads, and the counter ends at 0 |
| NamedVectors.NamedVectorIsMovable | namedvector/namedvector.cpp:76-86 | distinct vectors, distinct `Name*`, the destination holds the original payload, the source's Name is `nullptr` or holds another payload, and the counter ends at 0 |
| NamedVectorValues.NamedVectorValue.Default | namedvector/namedvector_value.cpp:10 | the member Name is default-constructed: empty payload, counter up by 1 |
| NamedVectorValues.NamedVectorValue.constructor | namedvector/namedvector_value.cpp:11-16 | the member is copy-constructed from the argument, so it equals it and the counter rises by 1 |
| NamedVectorValues.NamedVectorValue.Copy | namedvector/namedvector_value.cpp:47 | the implicit copy constructor copies the member, equal to the source's, and raises the counter by 1; `std::move` selects it too |
| NamedVectorValues.NamedVectorValue.Assign | namedvector/namedvector_value.cpp:58 | the implicit assignment assigns the member, so the names compare equal and the counter does not move |
| NamedVectorValues.NamedVectorValue.Destroy | namedvector/namedvector_value.cpp:17 | the implicit destructor destroys the member, lowering the counter by 1 |
| NamedVectorValues.NameIsFreedOnDelete | namedvector/namedvector_value.cpp:37-41 | the counter ends at 0 |
| NamedVectorValues.NameIsCopiedOnCopy | namedvector/namedvector_value.cpp:43-50 | distinct vectors with equal names, and the counter ends at 0 |
| NamedVectorValues.NameIsCopiedOnAssignment | namedvector/namedvector_value.cpp:52-61 | distinct vectors with equal names, the assignment leaves the counter unchanged, and it ends at 0 |
| NamedVectorValues.NamedVectorIsMovable | namedvector/namedvector_value.cpp:63-70 | the "moved" vector's name equals the original, and the counter ends at 0 |

## Left out

- The cosine zero-crossing tests use `double` and `std::cos`, and floating point is not modelled (algorithms_advanced.cpp:218-239, algorithms_advanced_solutions.cpp:136-148).
- Reading numbers from a string depends on `std::istringstream` extraction, which is not modelled (algorithms_advanced.cpp:241-259, algorithms_advanced_solutions.cpp:150-163).
- The tests that pass lambdas over doubles are not modelled (lambda/main.cpp:80-101).
- C++ `int` is 32 bits. Sums, squares, `+ n` and the counter are unbounded integers here, so overflow is not modelled. No test comes near the bound.
- The `float` coordinates `x` and `y` of both vector types are `real`. No property depends on their rounding.
- `std::isupper` is taken in the "C" locale: 'A' to 'Z'. Other locales are not modelled.
- `Name::copy` is declared in `name.h` but its definition is not part of this model. `Names.Name.CopyOf` follows its comment: a new Name with the same payload. A null argument is not modelled.
- `NamedVector` declares none of its copy or move constructors, assignments or destructor; the exercise asks for them. They are modelled with the behaviour its tests require: a deep copy on copy, release of the old Name on assignment, and a null source after a move.
- NamedVectorValue's implicit move constructor and move assignment copy its Name member, because `Name` declares copy operations and a destructor and so has no move operations. `std::move` is therefore modelled by `NamedVectorValue.Copy` and a move assignment by `NamedVectorValue.Assign`.
- The gtest machinery is not modelled: `TEST`/`TEST_F`, `ASSERT_*` and the fixture classes. Each assertion is stated as a postcondition or a lemma. SetUp becomes the registry's constructor, and TearDown's check becomes the `namesInMemory == 0` postcondition.
- The scope-based destruction order of C++ is written out as `Destroy` calls in reverse order of construction.
- algorithms_basic.cpp holds empty exercise stubs with placeholder results. Only its definitions of lower and upper bound (lines 55-57, 68-70) are used.
- misc/miscellaneous-items.cpp only prints constructor traces, and the smart-ownership exercise is an unfinished demo that does not delete what it allocates. Neither is modelled.
- StdAlgorithm.StablePartition and StdAlgorithm.Rotate copy through a scratch buffer rather than use a library's in-place or buffered strategies. Their contracts fix only the result the standard requires, not complexity.
- StdAlgorithm.LowerBound and StdAlgorithm.UpperBound work on `seq<int>` with `<`. Custom comparators are not modelled, because no modelled test passes one; the only one is the `std::greater<double>()` at algorithms/algorithms_advanced_solutions.cpp:145, in the cosine test left out above.

## Findings

| source | as written | input that shows it | evidently intended | confidence | as-written member | corrected member |
|---|---|---|---|---|---|---|
| algorithms/algorithms_advanced_solutions.cpp:112 | `all_of` with the test `n % 2 == 1`: C++ `%` truncates toward zero, so a negative odd n gives -1 and is rejected | `{-3}`: the lambda gives false, while the loop version (algorithms_advanced.cpp:174, `v[i] % 2 == 0` means not odd) calls -3 odd | `n % 2 != 0`, true for every odd n, as in the loop version | medium, not executed; the test's own vector has no negative elements | AlgorithmsAdvancedSolutions.AllOddAsWrittenRejectsNegativeOdd | AlgorithmsAdvancedSolutions.AllOddIsOddness |
