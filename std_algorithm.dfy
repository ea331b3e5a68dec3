/** The algorithms of `<algorithm>` (and the map inserter) that the exercises
    call, written from their definitions in the ISO C++ standard: sections
    [alg.any.of], [alg.all.of], [alg.count], [alg.transform], [alg.rotate],
    [alg.partitions], [lower.bound], [upper.bound] and [alg.min.max]. The
    in-place ones work on an `array`; the read-only queries that the standard
    library implements with a loop are methods with loops. */
module StdAlgorithm {

  // ---------------------------------------------------------------------
  // Queries: any_of, all_of, count, count_if
  // ---------------------------------------------------------------------

  /** `std::any_of`: false for an empty range, otherwise true when some element satisfies p. */
  predicate AnyOf<T>(xs: seq<T>, p: T -> bool) {
    exists i :: 0 <= i < |xs| && p(xs[i])
  }

  /** `std::all_of`: true when no element fails p (so true for an empty range). */
  predicate AllOf<T>(xs: seq<T>, p: T -> bool) {
    forall i :: 0 <= i < |xs| ==> p(xs[i])
  }

  /** `std::count_if`: the number of positions whose element satisfies p. */
  function CountIf<T>(xs: seq<T>, p: T -> bool): nat {
    |set i | 0 <= i < |xs| && p(xs[i])|
  }

  /** `std::count`: the number of positions whose element equals value. */
  function Count<T(==)>(xs: seq<T>, value: T): nat {
    |set i | 0 <= i < |xs| && xs[i] == value|
  }

  /** Appending an element adds one to the count exactly when it satisfies p. */
  lemma CountIfSnoc<T>(xs: seq<T>, x: T, p: T -> bool)
    ensures CountIf(xs + [x], p) == CountIf(xs, p) + (if p(x) then 1 else 0)
  {
    var ys := xs + [x];
    var before := set i | 0 <= i < |xs| && p(xs[i]);
    var after := set i | 0 <= i < |ys| && p(ys[i]);
    assert after == before + (if p(x) then {|xs|} else {});
  }

  /** count_if is the size of any set that holds exactly the matching positions. */
  lemma CountIfIsSize<T>(xs: seq<T>, p: T -> bool, positions: set<int>)
    requires forall i :: i in positions <==> 0 <= i < |xs| && p(xs[i])
    ensures CountIf(xs, p) == |positions|
  {
    assert positions == set i | 0 <= i < |xs| && p(xs[i]);
  }

  /** count is the size of any set that holds exactly the positions of value. */
  lemma CountIsSize<T>(xs: seq<T>, value: T, positions: set<int>)
    requires forall i :: i in positions <==> 0 <= i < |xs| && xs[i] == value
    ensures Count(xs, value) == |positions|
  {
    assert positions == set i | 0 <= i < |xs| && xs[i] == value;
  }

  /** A count never exceeds the length of the range. */
  lemma {:induction false} CountIfBound<T>(xs: seq<T>, p: T -> bool)
    ensures CountIf(xs, p) <= |xs|
  {
    if xs != [] {
      var n := |xs| - 1;
      CountIfBound(xs[..n], p);
      assert xs == xs[..n] + [xs[n]];
      CountIfSnoc(xs[..n], xs[n], p);
    }
  }

  /** `count(v, value)` is `count_if` with the predicate "equals value". */
  lemma CountIsCountIf<T>(xs: seq<T>, value: T)
    ensures Count(xs, value) == CountIf(xs, x => x == value)
  {
    var a := set i | 0 <= i < |xs| && xs[i] == value;
    var b := set i | 0 <= i < |xs| && (x => x == value)(xs[i]);
    assert a == b;
  }

  // ---------------------------------------------------------------------
  // transform, and the insert_iterator over a std::map
  // ---------------------------------------------------------------------

  /** `std::transform(first, last, out, op)` through a `back_inserter`:
      op of every element, appended in order. */
  function Transform<T, U>(xs: seq<T>, op: T -> U): (r: seq<U>)
    ensures |r| == |xs|
  {
    if xs == [] then [] else Transform(xs[..|xs| - 1], op) + [op(xs[|xs| - 1])]
  }

  lemma {:induction false} TransformAt<T, U>(xs: seq<T>, op: T -> U, k: nat)
    requires k < |xs|
    ensures Transform(xs, op)[k] == op(xs[k])
    decreases |xs|
  {
    if k < |xs| - 1 {
      TransformAt(xs[..|xs| - 1], op, k);
    }
  }

  /** The binary `std::transform(first1, last1, first2, out, op)`: op of
      each element of the first range and the element at the same offset of
      the second, which must be at least as long. */
  function Transform2<T, U, V>(xs: seq<T>, ys: seq<U>, op: (T, U) -> V): (r: seq<V>)
    requires |xs| <= |ys|
    ensures |r| == |xs|
  {
    if xs == [] then [] else Transform2(xs[..|xs| - 1], ys, op) + [op(xs[|xs| - 1], ys[|xs| - 1])]
  }

  lemma {:induction false} Transform2At<T, U, V>(xs: seq<T>, ys: seq<U>, op: (T, U) -> V, k: nat)
    requires |xs| <= |ys| && k < |xs|
    ensures Transform2(xs, ys, op)[k] == op(xs[k], ys[k])
    decreases |xs|
  {
    if k < |xs| - 1 {
      Transform2At(xs[..|xs| - 1], ys, op, k);
    }
  }

  /** What writing the pairs through `std::inserter(m, ...)` leaves in a
      `std::map`: each write calls `insert`, which adds the pair only when its
      key is absent, so an existing key keeps its value. */
  function InsertEach<K, V>(m: map<K, V>, pairs: seq<(K, V)>): (r: map<K, V>)
    ensures r.Keys == m.Keys + set i | 0 <= i < |pairs| :: pairs[i].0
  {
    if pairs == [] then m
    else
      var n := |pairs| - 1;
      var m' := InsertEach(m, pairs[..n]);
      KeysSnoc(pairs);
      if pairs[n].0 in m' then m' else m'[pairs[n].0 := pairs[n].1]
  }

  /** The keys of a sequence of pairs, one pair at a time from the back. */
  lemma KeysSnoc<K, V>(pairs: seq<(K, V)>)
    requires |pairs| > 0
    ensures var n := |pairs| - 1;
      (set i | 0 <= i < |pairs| :: pairs[i].0) == (set i | 0 <= i < n :: pairs[..n][i].0) + {pairs[n].0}
  {
    var n := |pairs| - 1;
    assert forall i :: 0 <= i < n ==> pairs[..n][i] == pairs[i];
  }

  /** Keys already in the map keep their value; for a new key the FIRST
      pair that carries it wins. */
  lemma {:induction false} InsertEachFirstWins<K, V>(m: map<K, V>, pairs: seq<(K, V)>, i: nat)
    requires i < |pairs| && pairs[i].0 !in m
    requires forall j :: 0 <= j < i ==> pairs[j].0 != pairs[i].0
    ensures InsertEach(m, pairs)[pairs[i].0] == pairs[i].1
    decreases |pairs|
  {
    var n := |pairs| - 1;
    var m' := InsertEach(m, pairs[..n]);
    if i < n {
      InsertEachFirstWins(m, pairs[..n], i);
      assert pairs[..n][i] == pairs[i];
      assert pairs[i].0 in m';
    } else {
      assert forall k :: 0 <= k < n ==> pairs[..n][k] == pairs[k];
      assert pairs[n].0 !in m';
    }
  }

  /** A sequence without repetitions has as many distinct elements as entries. */
  predicate Distinct<T(==)>(xs: seq<T>) {
    forall i, j :: 0 <= i < j < |xs| ==> xs[i] != xs[j]
  }

  lemma {:induction false} DistinctCardinality<T>(xs: seq<T>)
    requires Distinct(xs)
    ensures |set i | 0 <= i < |xs| :: xs[i]| == |xs|
  {
    if xs != [] {
      var n := |xs| - 1;
      DistinctCardinality(xs[..n]);
      var front := set i | 0 <= i < n :: xs[..n][i];
      var all := set i | 0 <= i < |xs| :: xs[i];
      assert all == front + {xs[n]};
      assert xs[n] !in front;
    }
  }

  // ---------------------------------------------------------------------
  // stable_partition
  // ---------------------------------------------------------------------

  /** The elements of xs that satisfy p, in their original order. */
  function Filter<T>(xs: seq<T>, p: T -> bool): (r: seq<T>)
    ensures |r| <= |xs|
    ensures forall i :: 0 <= i < |r| ==> p(r[i])
  {
    if xs == [] then [] else (if p(xs[0]) then [xs[0]] else []) + Filter(xs[1..], p)
  }

  function Not<T>(p: T -> bool): T -> bool {
    x => !p(x)
  }

  lemma {:induction false} FilterConcat<T>(xs: seq<T>, ys: seq<T>, p: T -> bool)
    ensures Filter(xs + ys, p) == Filter(xs, p) + Filter(ys, p)
  {
    if xs == [] {
      assert [] + ys == ys;
    } else {
      assert (xs + ys)[1..] == xs[1..] + ys;
      FilterConcat(xs[1..], ys, p);
    }
  }

  lemma FilterSnoc<T>(xs: seq<T>, x: T, p: T -> bool)
    ensures Filter(xs + [x], p) == Filter(xs, p) + (if p(x) then [x] else [])
  {
    FilterConcat(xs, [x], p);
    assert Filter([x], p) == (if p(x) then [x] else []) + Filter([], p);
  }

  lemma FilterPrefixStep<T>(xs: seq<T>, i: nat, p: T -> bool)
    requires i < |xs|
    ensures Filter(xs[..i + 1], p) == Filter(xs[..i], p) + (if p(xs[i]) then [xs[i]] else [])
  {
    assert xs[..i + 1] == xs[..i] + [xs[i]];
    FilterSnoc(xs[..i], xs[i], p);
  }

  /** The two groups of a partition together hold exactly the original elements. */
  lemma {:induction false} FilterMultiset<T>(xs: seq<T>, p: T -> bool)
    ensures multiset(Filter(xs, p)) + multiset(Filter(xs, Not(p))) == multiset(xs)
  {
    if xs != [] {
      var x, tail := xs[0], xs[1..];
      FilterMultiset(tail, p);
      assert xs == [x] + tail;
      assert Filter(xs, p) == (if p(x) then [x] else []) + Filter(tail, p);
      assert Filter(xs, Not(p)) == (if p(x) then [] else [x]) + Filter(tail, Not(p));
      assert multiset(xs) == multiset([x]) + multiset(tail);
    }
  }

  lemma FilterLengths<T>(xs: seq<T>, p: T -> bool)
    ensures |Filter(xs, p)| + |Filter(xs, Not(p))| == |xs|
  {
    FilterMultiset(xs, p);
    assert |multiset(Filter(xs, p)) + multiset(Filter(xs, Not(p)))| == |multiset(xs)|;
  }

  lemma {:induction false} FilterAllOrNone<T>(xs: seq<T>, p: T -> bool)
    ensures AllOf(xs, p) ==> Filter(xs, p) == xs
    ensures AllOf(xs, Not(p)) ==> Filter(xs, p) == []
  {
    if xs != [] {
      FilterAllOrNone(xs[1..], p);
    }
  }

  /** Every element satisfying p comes before every element that does not. */
  predicate Partitioned<T>(xs: seq<T>, p: T -> bool) {
    forall i, j :: 0 <= i < j < |xs| && p(xs[j]) ==> p(xs[i])
  }

  /** [alg.partitions]: r is what `std::stable_partition(first, last, p)`
      makes of s. It is a permutation of s, all elements satisfying p come
      before all that do not, and each group keeps its relative order. */
  ghost predicate IsStablePartitionOf<T>(r: seq<T>, s: seq<T>, p: T -> bool) {
    && multiset(r) == multiset(s)
    && Partitioned(r, p)
    && Filter(r, p) == Filter(s, p)
    && Filter(r, Not(p)) == Filter(s, Not(p))
  }

  /** A partitioned sequence is its satisfying group followed by the rest. */
  lemma {:induction false} PartitionedSplits<T>(xs: seq<T>, p: T -> bool)
    requires Partitioned(xs, p)
    ensures xs == Filter(xs, p) + Filter(xs, Not(p))
  {
    if xs != [] {
      var x, tail := xs[0], xs[1..];
      assert Partitioned(tail, p) by {
        forall i, j | 0 <= i < j < |tail| && p(tail[j]) ensures p(tail[i]) {
          assert xs[i + 1] == tail[i] && xs[j + 1] == tail[j];
        }
      }
      if p(x) {
        PartitionedSplits(tail, p);
        assert Filter(xs, p) == [x] + Filter(tail, p);
        assert Filter(xs, Not(p)) == Filter(tail, Not(p));
      } else {
        assert AllOf(xs, Not(p)) by {
          forall i | 0 <= i < |xs| ensures Not(p)(xs[i]) {
            if i > 0 {
              var y := xs[i];
              assert p(y) ==> p(x);
            }
          }
        }
        FilterAllOrNone(xs, p);
        NotAllOf(xs, p);
      }
    }
  }

  /** When every element fails p, the failing group is the whole sequence. */
  lemma NotAllOf<T>(xs: seq<T>, p: T -> bool)
    requires AllOf(xs, Not(p))
    ensures Filter(xs, Not(p)) == xs
  {
    FilterAllOrNone(xs, Not(p));
  }

  /** The satisfying group followed by the failing group meets every
      requirement the standard puts on a stable partition. */
  lemma SplitIsStablePartition<T>(s: seq<T>, p: T -> bool)
    ensures IsStablePartitionOf(Filter(s, p) + Filter(s, Not(p)), s, p)
  {
    var a, b := Filter(s, p), Filter(s, Not(p));
    var r := a + b;
    assert multiset(r) == multiset(s) by {
      FilterMultiset(s, p);
    }
    assert Partitioned(r, p) by {
      forall i | 0 <= i < |r| ensures p(r[i]) <==> i < |a| {
        if i < |a| {
          assert r[i] == a[i];
        } else {
          assert r[i] == b[i - |a|];
          assert Not(p)(b[i - |a|]);
        }
      }
    }
    assert AllOf(b, Not(p));
    assert Filter(r, p) == a by {
      FilterConcat(a, b, p);
      FilterAllOrNone(a, p);
      FilterAllOrNone(b, p);
    }
    assert Filter(r, Not(p)) == b by {
      FilterConcat(a, b, Not(p));
      assert AllOf(a, Not(Not(p))) by {
        forall i | 0 <= i < |a| ensures Not(Not(p))(a[i]) {
          assert p(a[i]);
        }
      }
      FilterAllOrNone(a, Not(p));
      NotAllOf(b, p);
    }
  }

  /** The standard's requirements on a stable partition determine it: it is
      exactly the satisfying elements in order followed by the others in
      order. Both directions hold. */
  lemma StablePartitionCharacterized<T>(r: seq<T>, s: seq<T>, p: T -> bool)
    ensures IsStablePartitionOf(r, s, p) <==> r == Filter(s, p) + Filter(s, Not(p))
  {
    if IsStablePartitionOf(r, s, p) {
      PartitionedSplits(r, p);
    }
    SplitIsStablePartition(s, p);
  }

  /** `std::stable_partition(first, last, p)` on an array, with a scratch
      buffer for the elements that fail p (the strategy of the usual library
      implementations when memory is available). It returns the partition
      point: the elements before it satisfy p and those from it on do not. */
  method StablePartition<T>(a: array<T>, p: T -> bool) returns (mid: nat)
    modifies a
    ensures IsStablePartitionOf(a[..], old(a[..]), p)
    ensures mid <= a.Length
    ensures forall i :: 0 <= i < mid ==> p(a[i])
    ensures forall i :: mid <= i < a.Length ==> !p(a[i])
  {
    ghost var s := a[..];
    var rest;
    mid, rest := CompactSatisfying(a, p);
    CopySegment(a, rest, mid, 0, |rest|);
    PartitionAssembled(a[..], s, mid, p);
  }

  /** The array after StablePartition's second pass: the elements
      satisfying p, in order, then the others, in order. */
  lemma PartitionAssembled<T>(r: seq<T>, s: seq<T>, mid: nat, p: T -> bool)
    requires mid <= |r| && |r| == mid + |Filter(s, Not(p))|
    requires r[..mid] == Filter(s, p)
    requires r[mid..mid + |Filter(s, Not(p))|] == Filter(s, Not(p))[0..|Filter(s, Not(p))|]
    ensures IsStablePartitionOf(r, s, p)
    ensures forall i :: 0 <= i < mid ==> p(r[i])
    ensures forall i :: mid <= i < |r| ==> !p(r[i])
  {
    var rest := Filter(s, Not(p));
    assert r == Filter(s, p) + rest by {
      assert rest[0..|rest|] == rest;
      assert r == r[..mid] + r[mid..mid + |rest|];
    }
    assert forall i :: 0 <= i < mid ==> p(r[i]) by {
      assert forall i :: 0 <= i < mid ==> r[i] == Filter(s, p)[i];
    }
    assert forall i :: mid <= i < |r| ==> !p(r[i]) by {
      assert forall j :: 0 <= j < |rest| ==> Not(p)(rest[j]);
      assert forall i :: mid <= i < |r| ==> r[i] == rest[i - mid];
    }
    StablePartitionCharacterized(r, s, p);
  }

  /** The first pass of StablePartition: the elements satisfying p are
      moved, in order, to the front of the array; the others are collected,
      in order, in the buffer `rest`. */
  method CompactSatisfying<T>(a: array<T>, p: T -> bool) returns (mid: nat, rest: seq<T>)
    modifies a
    ensures mid <= a.Length && mid + |rest| == a.Length
    ensures a[..mid] == Filter(old(a[..]), p)
    ensures rest == Filter(old(a[..]), Not(p))
  {
    ghost var s := a[..];
    rest := [];
    mid := 0;
    var i := 0;
    while i < a.Length
      invariant 0 <= mid <= i <= a.Length
      invariant a[..mid] == Filter(s[..i], p)
      invariant rest == Filter(s[..i], Not(p))
      invariant forall k :: i <= k < a.Length ==> a[k] == s[k]
    {
      var x := a[i];
      FilterPrefixStep(s, i, p);
      FilterPrefixStep(s, i, Not(p));
      if p(x) {
        ghost var before := a[..];
        a[mid] := x;
        assert a[..mid + 1] == before[..mid] + [x];
        mid := mid + 1;
      } else {
        rest := rest + [x];
      }
      i := i + 1;
    }
    assert s[..a.Length] == s;
    FilterLengths(s, p);
  }

  // ---------------------------------------------------------------------
  // rotate
  // ---------------------------------------------------------------------

  /** [alg.rotate]: the position that `std::rotate(first, middle, last)`
      moves the element at position i of [first, last) to. The standard
      writes it first + ((i - first) + (last - middle)) mod (last - first);
      for i in range that is: [first, middle) moves up by last - middle, and
      [middle, last) moves down by middle - first. */
  function RotatedPosition(first: nat, middle: nat, last: nat, i: nat): (r: nat)
    requires first <= middle <= last && first <= i < last
    ensures first <= r < last
  {
    if i < middle then i + (last - middle) else i - (middle - first)
  }

  /** [alg.rotate]: r is what `std::rotate(first, middle, last)` makes of s.
      Every element of [first, last) is moved to its RotatedPosition; the
      elements outside [first, last) stay where they are. */
  ghost predicate IsRotationOf<T>(r: seq<T>, s: seq<T>, first: nat, middle: nat, last: nat)
    requires first <= middle <= last <= |s|
  {
    && |r| == |s|
    && (forall i :: first <= i < last ==> RotatedPosition(first, middle, last, i) < |r| && r[RotatedPosition(first, middle, last, i)] == s[i])
    && (forall k :: 0 <= k < first || last <= k < |s| ==> r[k] == s[k])
  }

  /** The rotation of [first, last) around middle is the segment
      [middle, last) followed by [first, middle); both directions hold. */
  lemma RotationIsSegmentSwap<T>(r: seq<T>, s: seq<T>, first: nat, middle: nat, last: nat)
    requires first <= middle <= last <= |s|
    ensures IsRotationOf(r, s, first, middle, last) <==>
            r == s[..first] + s[middle..last] + s[first..middle] + s[last..]
  {
    SegmentSwapAt(s, first, middle, last);
    if IsRotationOf(r, s, first, middle, last) {
      RotationIsSwap(r, s, first, middle, last);
    }
    if r == s[..first] + s[middle..last] + s[first..middle] + s[last..] {
      SwapIsRotation(r, s, first, middle, last);
    }
  }

  /** Where the elements of s land in the segment swap. */
  lemma SegmentSwapAt<T>(s: seq<T>, first: nat, middle: nat, last: nat)
    requires first <= middle <= last <= |s|
    ensures var t := s[..first] + s[middle..last] + s[first..middle] + s[last..];
      && |t| == |s|
      && (forall k :: 0 <= k < first || last <= k < |s| ==> t[k] == s[k])
      && (forall k :: first <= k < first + (last - middle) ==> t[k] == s[k + (middle - first)])
      && (forall k :: first + (last - middle) <= k < last ==> t[k] == s[k - (last - middle)])
  {
  }

  lemma RotationIsSwap<T>(r: seq<T>, s: seq<T>, first: nat, middle: nat, last: nat)
    requires first <= middle <= last <= |s|
    requires IsRotationOf(r, s, first, middle, last)
    ensures r == s[..first] + s[middle..last] + s[first..middle] + s[last..]
  {
    var t := s[..first] + s[middle..last] + s[first..middle] + s[last..];
    var d := last - middle;
    SegmentSwapAt(s, first, middle, last);
    forall k | 0 <= k < |s| ensures r[k] == t[k] {
      if first <= k < first + d {
        assert RotatedPosition(first, middle, last, k + (middle - first)) == k;
      } else if first + d <= k < last {
        assert RotatedPosition(first, middle, last, k - d) == k;
      }
    }
  }

  lemma SwapIsRotation<T>(r: seq<T>, s: seq<T>, first: nat, middle: nat, last: nat)
    requires first <= middle <= last <= |s|
    requires r == s[..first] + s[middle..last] + s[first..middle] + s[last..]
    ensures IsRotationOf(r, s, first, middle, last)
  {
    SegmentSwapAt(s, first, middle, last);
    forall i | first <= i < last
      ensures RotatedPosition(first, middle, last, i) < |r| && r[RotatedPosition(first, middle, last, i)] == s[i]
    {
    }
  }

  /** `std::rotate(first, middle, last)` on an array. It returns the new
      position of the element that was at first, `first + (last - middle)`.
      The implementation copies through a scratch sequence; the standard
      fixes only the result. */
  method Rotate<T>(a: array<T>, first: nat, middle: nat, last: nat) returns (pos: nat)
    requires first <= middle <= last <= a.Length
    modifies a
    ensures IsRotationOf(a[..], old(a[..]), first, middle, last)
    ensures pos == first + (last - middle)
  {
    var s := a[..];
    var d := last - middle;
    CopySegment(a, s, first, middle, d);
    ghost var t := a[..];
    CopySegment(a, s, first + d, first, middle - first);
    TwoCopiesRotate(s, t, a[..], first, middle, last);
    pos := first + d;
  }

  /** Copies src[from..from + len] over a[to..to + len] and leaves the rest of a alone. */
  method CopySegment<T>(a: array<T>, src: seq<T>, to: nat, from: nat, len: nat)
    requires to + len <= a.Length && from + len <= |src|
    modifies a
    ensures a[..to] == old(a[..to]) && a[to + len..] == old(a[to + len..])
    ensures a[to..to + len] == src[from..from + len]
  {
    for j := 0 to len
      invariant a[..to] == old(a[..to]) && a[to + len..] == old(a[to + len..])
      invariant a[to..to + j] == src[from..from + j]
    {
      a[to + j] := src[from + j];
      assert a[to..to + j + 1] == src[from..from + j + 1];
    }
  }

  /** The two copies Rotate makes, from s into t and then into r, leave the
      rotation of s. */
  lemma TwoCopiesRotate<T>(s: seq<T>, t: seq<T>, r: seq<T>, first: nat, middle: nat, last: nat)
    requires first <= middle <= last <= |s| == |t| == |r|
    requires t[..first] == s[..first] && t[first + (last - middle)..] == s[first + (last - middle)..]
    requires t[first..first + (last - middle)] == s[middle..last]
    requires r[..first + (last - middle)] == t[..first + (last - middle)] && r[last..] == t[last..]
    requires r[first + (last - middle)..last] == s[first..middle]
    ensures IsRotationOf(r, s, first, middle, last)
  {
    var d := last - middle;
    assert t[last..] == t[first + d..][last - (first + d)..];
    assert r[..first] == r[..first + d][..first];
    assert r[first..first + d] == r[..first + d][first..];
    assert t[..first] == t[..first + d][..first];
    assert t[first..first + d] == t[..first + d][first..];
    SegmentsAssemble(r, s, first, middle, last);
    RotationIsSegmentSwap(r, s, first, middle, last);
  }

  /** A sequence that agrees piece by piece with the swapped segments is
      their concatenation. */
  lemma SegmentsAssemble<T>(r: seq<T>, s: seq<T>, first: nat, middle: nat, last: nat)
    requires first <= middle <= last <= |s| == |r|
    requires r[..first] == s[..first] && r[last..] == s[last..]
    requires r[first..first + (last - middle)] == s[middle..last]
    requires r[first + (last - middle)..last] == s[first..middle]
    ensures r == s[..first] + s[middle..last] + s[first..middle] + s[last..]
  {
    var d := last - middle;
    assert r == r[..first] + r[first..first + d] + r[first + d..last] + r[last..];
  }

  // ---------------------------------------------------------------------
  // lower_bound, upper_bound (binary search)
  // ---------------------------------------------------------------------

  predicate Sorted(v: seq<int>) {
    forall i, j :: 0 <= i < j < |v| ==> v[i] <= v[j]
  }

  /** The precondition of `lower_bound`: the range is partitioned by `e < value`. */
  predicate PartitionedBelow(v: seq<int>, value: int) {
    forall i, j :: 0 <= i < j < |v| && v[j] < value ==> v[i] < value
  }

  /** The precondition of `upper_bound`: the range is partitioned by `!(value < e)`. */
  predicate PartitionedAtMost(v: seq<int>, value: int) {
    forall i, j :: 0 <= i < j < |v| && !(value < v[j]) ==> !(value < v[i])
  }

  /** [lower.bound]: r is the first position whose element is not less than value. */
  predicate IsLowerBound(v: seq<int>, value: int, r: nat) {
    && r <= |v|
    && (forall i :: 0 <= i < r ==> v[i] < value)
    && (forall i :: r <= i < |v| ==> !(v[i] < value))
  }

  /** [upper.bound]: r is the first position whose element is greater than value. */
  predicate IsUpperBound(v: seq<int>, value: int, r: nat) {
    && r <= |v|
    && (forall i :: 0 <= i < r ==> !(value < v[i]))
    && (forall i :: r <= i < |v| ==> value < v[i])
  }

  /** `std::lower_bound(first, last, value)`, the halving loop of the library. */
  method LowerBound(v: seq<int>, value: int) returns (r: nat)
    requires PartitionedBelow(v, value)
    ensures IsLowerBound(v, value, r)
  {
    r := 0;
    var len: nat := |v|;
    while len > 0
      invariant r + len <= |v|
      invariant forall i :: 0 <= i < r ==> v[i] < value
      invariant forall i :: r + len <= i < |v| ==> !(v[i] < value)
    {
      var half := len / 2;
      var middle := r + half;
      if v[middle] < value {
        r := middle + 1;
        len := len - half - 1;
      } else {
        len := half;
      }
    }
  }

  /** `std::upper_bound(first, last, value)`, the halving loop of the library. */
  method UpperBound(v: seq<int>, value: int) returns (r: nat)
    requires PartitionedAtMost(v, value)
    ensures IsUpperBound(v, value, r)
  {
    r := 0;
    var len: nat := |v|;
    while len > 0
      invariant r + len <= |v|
      invariant forall i :: 0 <= i < r ==> !(value < v[i])
      invariant forall i :: r + len <= i < |v| ==> value < v[i]
    {
      var half := len / 2;
      var middle := r + half;
      if !(value < v[middle]) {
        r := middle + 1;
        len := len - half - 1;
      } else {
        len := half;
      }
    }
  }

  /** A sorted range meets both preconditions, for every value. */
  lemma SortedIsPartitioned(v: seq<int>, value: int)
    requires Sorted(v)
    ensures PartitionedBelow(v, value) && PartitionedAtMost(v, value)
  {
  }

  /** The bounds are unique; the lower one never passes the upper one, and
      between them lie exactly the elements equal to value. */
  lemma BoundsOrdered(v: seq<int>, value: int, lo: nat, lo': nat, up: nat)
    requires IsLowerBound(v, value, lo) && IsLowerBound(v, value, lo') && IsUpperBound(v, value, up)
    ensures lo == lo' && lo <= up
    ensures forall i :: lo <= i < up ==> v[i] == value
  {
    if lo < |v| {
      assert !(v[lo] < value);
    }
    if lo' < |v| {
      assert !(v[lo'] < value);
    }
    if up < |v| {
      assert value < v[up];
    }
  }

  // ---------------------------------------------------------------------
  // max_element, minmax_element
  // ---------------------------------------------------------------------

  /** `std::max_element`: the FIRST position whose element no element
      exceeds; the end position (0) for an empty range. */
  method MaxElement(v: seq<int>) returns (r: nat)
    ensures |v| == 0 ==> r == 0
    ensures |v| > 0 ==> r < |v|
    ensures |v| > 0 ==> forall j :: 0 <= j < |v| ==> v[j] <= v[r]
    ensures |v| > 0 ==> forall j :: 0 <= j < r ==> v[j] < v[r]
  {
    r := 0;
    if |v| == 0 {
      return;
    }
    for i := 1 to |v|
      invariant r < i
      invariant forall j :: 0 <= j < i ==> v[j] <= v[r]
      invariant forall j :: 0 <= j < r ==> v[j] < v[r]
    {
      if v[r] < v[i] {
        r := i;
      }
    }
  }

  /** `std::minmax_element`: the FIRST position of a smallest element and
      the LAST position of a largest one; both the end position (0) for an
      empty range. */
  method MinmaxElement(v: seq<int>) returns (lo: nat, hi: nat)
    ensures |v| == 0 ==> lo == 0 && hi == 0
    ensures |v| > 0 ==> lo < |v| && hi < |v|
    ensures |v| > 0 ==> forall j :: 0 <= j < |v| ==> v[lo] <= v[j]
    ensures |v| > 0 ==> forall j :: 0 <= j < lo ==> v[lo] < v[j]
    ensures |v| > 0 ==> forall j :: 0 <= j < |v| ==> v[j] <= v[hi]
    ensures |v| > 0 ==> forall j :: hi < j < |v| ==> v[j] < v[hi]
  {
    lo, hi := 0, 0;
    if |v| == 0 {
      return;
    }
    for i := 1 to |v|
      invariant lo < i && hi < i
      invariant forall j :: 0 <= j < i ==> v[lo] <= v[j]
      invariant forall j :: 0 <= j < lo ==> v[lo] < v[j]
      invariant forall j :: 0 <= j < i ==> v[j] <= v[hi]
      invariant forall j :: hi < j < i ==> v[j] < v[hi]
    {
      if v[i] < v[lo] {
        lo := i;
      }
      if !(v[i] < v[hi]) {
        hi := i;
      }
    }
  }
}
