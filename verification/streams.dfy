/**
  Sequential `java.util.stream` operations the repository's code is built
  from: `map`, `filter`, `reduce(identity, op)`, `max`/`min` with a
  comparator, and the stable `sorted`. A sequential stream visits its
  elements in order, so `reduce` is a left fold.
*/
module Streams {
  import opened Wrappers
  import opened Comparators

  /** `Stream.map(f)`. */
  function Map<T, U>(xs: seq<T>, f: T -> U): (r: seq<U>)
    ensures |r| == |xs|
    ensures forall i :: 0 <= i < |xs| ==> r[i] == f(xs[i])
  {
    seq(|xs|, i requires 0 <= i < |xs| => f(xs[i]))
  }

  /** No element occurs twice. */
  ghost predicate Distinct<T>(ks: seq<T>) {
    forall i, j :: 0 <= i < j < |ks| ==> ks[i] != ks[j]
  }

  /** `Stream.filter(p)`: the elements satisfying `p`, in order. */
  function Filter<T>(xs: seq<T>, p: T -> bool): (r: seq<T>)
    ensures |r| <= |xs|
    ensures forall i :: 0 <= i < |r| ==> p(r[i])
  {
    if xs == [] then []
    else if p(xs[0]) then [xs[0]] + Filter(xs[1..], p)
    else Filter(xs[1..], p)
  }

  lemma {:induction false} FilterConcat<T>(xs: seq<T>, ys: seq<T>, p: T -> bool)
    ensures Filter(xs + ys, p) == Filter(xs, p) + Filter(ys, p)
  {
    if xs == [] {
      assert xs + ys == ys;
    } else {
      assert (xs + ys)[1..] == xs[1..] + ys;
      FilterConcat(xs[1..], ys, p);
    }
  }

  /** Every element of `xs` that satisfies `p` is kept, as often as it occurs. */
  lemma {:induction false} FilterMultiset<T>(xs: seq<T>, p: T -> bool)
    ensures multiset(Filter(xs, p)) <= multiset(xs)
    ensures forall x :: x in xs && p(x) ==> x in Filter(xs, p)
  {
    if xs != [] {
      FilterMultiset(xs[1..], p);
      assert xs == [xs[0]] + xs[1..];
    }
  }

  /** An element is in the filtered list exactly when it is in the list and satisfies `p`. */
  lemma {:induction false} FilterIn<T>(xs: seq<T>, p: T -> bool)
    ensures forall x :: x in Filter(xs, p) <==> x in xs && p(x)
  {
    if xs != [] {
      FilterIn(xs[1..], p);
      assert xs == [xs[0]] + xs[1..];
    }
  }

  /** `filter` keeps every occurrence of a satisfying element and none of the others. */
  lemma {:induction false} FilterCounts<T(!new)>(xs: seq<T>, p: T -> bool)
    ensures forall x :: multiset(Filter(xs, p))[x] == if p(x) then multiset(xs)[x] else 0
  {
    if xs != [] {
      FilterCounts(xs[1..], p);
      assert xs == [xs[0]] + xs[1..];
    }
  }

  /** Filtering two permutations of each other gives permutations of each other. */
  lemma FilterPermutation<T(!new)>(xs: seq<T>, ys: seq<T>, p: T -> bool)
    requires multiset(xs) == multiset(ys)
    ensures multiset(Filter(xs, p)) == multiset(Filter(ys, p))
  {
    FilterCounts(xs, p);
    FilterCounts(ys, p);
    var a, b := multiset(Filter(xs, p)), multiset(Filter(ys, p));
    forall x ensures a[x] == b[x] {
      assert multiset(xs)[x] == multiset(ys)[x];
    }
    assert a == b;
  }

  /** `Stream.reduce(identity, op)` on a sequential stream: a left fold. */
  function Reduce<T>(xs: seq<T>, identity: T, op: (T, T) -> T): T {
    if xs == [] then identity
    else op(Reduce(xs[..|xs| - 1], identity, op), xs[|xs| - 1])
  }

  /** The contract of the repository's `Monoid`: an associative operator with an identity. */
  ghost predicate IsMonoid<T(!new)>(identity: T, op: (T, T) -> T) {
    && (forall a :: op(identity, a) == a && op(a, identity) == a)
    && (forall a, b, c :: op(op(a, b), c) == op(a, op(b, c)))
  }

  /** Folding a concatenation folds each part and combines the two results. */
  lemma {:induction false} ReduceConcat<T(!new)>(xs: seq<T>, ys: seq<T>, identity: T, op: (T, T) -> T)
    requires IsMonoid(identity, op)
    ensures Reduce(xs + ys, identity, op) == op(Reduce(xs, identity, op), Reduce(ys, identity, op))
    decreases |ys|
  {
    if ys == [] {
      assert xs + ys == xs;
    } else {
      var init := ys[..|ys| - 1];
      assert (xs + ys)[..|xs + ys| - 1] == xs + init;
      ReduceConcat(xs, init, identity, op);
    }
  }

  /** `flatMap` of lists: the concatenation of the parts, in order. */
  function Flatten<T>(xss: seq<seq<T>>): seq<T> {
    if xss == [] then [] else xss[0] + Flatten(xss[1..])
  }

  /**
    Reducing each part and then reducing the partial results equals
    reducing the whole: the reason per-block results can be recombined.
    `part` is the per-part reduction.
  */
  lemma {:induction false} ReduceFlatten<T, M(!new)>(xss: seq<seq<T>>, lift: T -> M, identity: M, op: (M, M) -> M,
                                                     part: seq<T> -> M)
    requires IsMonoid(identity, op)
    requires forall xs :: part(xs) == Reduce(Map(xs, lift), identity, op)
    ensures Reduce(Map(Flatten(xss), lift), identity, op) == Reduce(Map(xss, part), identity, op)
  {
    if xss != [] {
      var head, tail := xss[0], Flatten(xss[1..]);
      ReduceFlatten(xss[1..], lift, identity, op, part);
      assert Map(head + tail, lift) == Map(head, lift) + Map(tail, lift);
      ReduceConcat(Map(head, lift), Map(tail, lift), identity, op);
      assert Map(xss, part) == [part(head)] + Map(xss[1..], part);
      ReduceConcat([part(head)], Map(xss[1..], part), identity, op);
      assert [part(head)][..0] == [];
    }
  }

  /** `BinaryOperator.maxBy(c)`: keeps the first argument on a tie. */
  function MaxBy<T>(c: (T, T) -> int, a: T, b: T): T {
    if c(a, b) >= 0 then a else b
  }

  /** `BinaryOperator.minBy(c)`: keeps the first argument on a tie. */
  function MinBy<T>(c: (T, T) -> int, a: T, b: T): T {
    if c(a, b) <= 0 then a else b
  }

  /** The accumulator of `Stream.max(c)`, with `None` for "no element yet". */
  function OptionMaxBy<T>(c: (T, T) -> int): (Option<T>, Option<T>) -> Option<T> {
    (a: Option<T>, b: Option<T>) =>
      if a.None? then b else if b.None? then a else Some(MaxBy(c, a.value, b.value))
  }

  /** The accumulator of `Stream.min(c)`. */
  function OptionMinBy<T>(c: (T, T) -> int): (Option<T>, Option<T>) -> Option<T> {
    (a: Option<T>, b: Option<T>) =>
      if a.None? then b else if b.None? then a else Some(MinBy(c, a.value, b.value))
  }

  function Present<T>(x: T): Option<T> {
    Some(x)
  }

  /** `Stream.max(c)`; `None` is the empty `Optional`. */
  function Max<T>(xs: seq<T>, c: (T, T) -> int): Option<T> {
    Reduce(Map(xs, Present), None, OptionMaxBy(c))
  }

  /** `Stream.min(c)`; `None` is the empty `Optional`. */
  function Min<T>(xs: seq<T>, c: (T, T) -> int): Option<T> {
    Reduce(Map(xs, Present), None, OptionMinBy(c))
  }

  /** `xs[k]` is the first element of `xs` that no element of `xs` exceeds. */
  ghost predicate IsFirstGreatest<T>(xs: seq<T>, c: (T, T) -> int, k: int) {
    && 0 <= k < |xs|
    && (forall i :: 0 <= i < |xs| ==> c(xs[k], xs[i]) >= 0)
    && (forall i :: 0 <= i < k ==> c(xs[i], xs[k]) < 0)
  }

  /** `xs[k]` is the first element of `xs` that no element of `xs` undercuts. */
  ghost predicate IsFirstLeast<T>(xs: seq<T>, c: (T, T) -> int, k: int) {
    && 0 <= k < |xs|
    && (forall i :: 0 <= i < |xs| ==> c(xs[i], xs[k]) >= 0)
    && (forall i :: 0 <= i < k ==> c(xs[k], xs[i]) < 0)
  }

  /**
    `Stream.max(c)` is empty exactly on an empty stream, and otherwise
    yields the first of the greatest elements.
  */
  lemma {:induction false} MaxSpec<T(!new)>(xs: seq<T>, c: (T, T) -> int)
    requires IsComparator(c)
    ensures Max(xs, c).None? <==> xs == []
    ensures xs != [] ==> exists k :: IsFirstGreatest(xs, c, k) && Max(xs, c).value == xs[k]
  {
    if xs != [] {
      var n := |xs|;
      var init, last := xs[..n - 1], xs[n - 1];
      MaxSnoc(init, last, c);
      assert xs == init + [last];
      MaxSpec(init, c);
      if init == [] {
        Laws(c, last, last, last);
        assert IsFirstGreatest(xs, c, 0);
      } else {
        var k :| IsFirstGreatest(init, c, k) && Max(init, c).value == init[k];
        if c(xs[k], last) >= 0 {
          MaxKeepsEarlier(xs, c, k);
        } else {
          MaxTakesLast(xs, c, k);
        }
      }
    }
  }

  lemma MaxSnoc<T>(xs: seq<T>, x: T, c: (T, T) -> int)
    ensures Max(xs + [x], c) == OptionMaxBy(c)(Max(xs, c), Some(x))
  {
    var ys := Map(xs + [x], Present);
    assert ys[..|ys| - 1] == Map(xs, Present);
  }

  lemma MaxKeepsEarlier<T>(xs: seq<T>, c: (T, T) -> int, k: int)
    requires |xs| > 1 && IsFirstGreatest(xs[..|xs| - 1], c, k) && c(xs[k], xs[|xs| - 1]) >= 0
    ensures IsFirstGreatest(xs, c, k)
  {
    var init := xs[..|xs| - 1];
    forall i | 0 <= i < |xs| ensures c(xs[k], xs[i]) >= 0 {
      if i < |xs| - 1 {
        assert xs[i] == init[i];
      }
    }
  }

  lemma MaxTakesLast<T(!new)>(xs: seq<T>, c: (T, T) -> int, k: int)
    requires IsComparator(c)
    requires |xs| > 1 && IsFirstGreatest(xs[..|xs| - 1], c, k) && c(xs[k], xs[|xs| - 1]) < 0
    ensures IsFirstGreatest(xs, c, |xs| - 1)
  {
    var n := |xs|;
    var init := xs[..n - 1];
    forall i | 0 <= i < n
      ensures c(xs[n - 1], xs[i]) >= 0 && (i < n - 1 ==> c(xs[i], xs[n - 1]) < 0)
    {
      if i < n - 1 {
        assert xs[i] == init[i];
        assert c(init[k], init[i]) >= 0;
        Laws(c, xs[i], xs[k], xs[n - 1]);
      } else {
        Laws(c, xs[i], xs[i], xs[i]);
      }
    }
  }

  /** `minBy(c)` is `maxBy` of the reversed comparator. */
  lemma {:induction false} MinIsReversedMax<T(!new)>(xs: seq<T>, c: (T, T) -> int)
    requires IsComparator(c)
    ensures Min(xs, c) == Max(xs, Reversed(c))
  {
    var ys := Map(xs, Present);
    forall a, b ensures OptionMinBy(c)(a, b) == OptionMaxBy(Reversed(c))(a, b) {
      if a.Some? && b.Some? {
        Laws(c, a.value, b.value, a.value);
      }
    }
    ReduceSameOperator(ys, None, OptionMinBy(c), OptionMaxBy(Reversed(c)));
  }

  lemma {:induction false} ReduceSameOperator<T>(xs: seq<T>, identity: T, op1: (T, T) -> T, op2: (T, T) -> T)
    requires forall a, b :: op1(a, b) == op2(a, b)
    ensures Reduce(xs, identity, op1) == Reduce(xs, identity, op2)
  {
    if xs != [] {
      ReduceSameOperator(xs[..|xs| - 1], identity, op1, op2);
    }
  }

  /**
    `Stream.min(c)` is empty exactly on an empty stream, and otherwise
    yields the first of the least elements.
  */
  lemma MinSpec<T(!new)>(xs: seq<T>, c: (T, T) -> int)
    requires IsComparator(c)
    ensures Min(xs, c).None? <==> xs == []
    ensures xs != [] ==> exists k :: IsFirstLeast(xs, c, k) && Min(xs, c).value == xs[k]
  {
    MinIsReversedMax(xs, c);
    ReversedIsComparator(c);
    MaxSpec(xs, Reversed(c));
    if xs != [] {
      var k :| IsFirstGreatest(xs, Reversed(c), k) && Max(xs, Reversed(c)).value == xs[k];
      assert IsFirstLeast(xs, c, k);
    }
  }

  /** The `maxBy` accumulator is associative under a lawful comparator. */
  lemma MaxByMonoid<T(!new)>(c: (T, T) -> int)
    requires IsComparator(c)
    ensures IsMonoid(None, OptionMaxBy(c))
  {
    var op := OptionMaxBy(c);
    forall a, b, d ensures op(op(a, b), d) == op(a, op(b, d)) {
      if a.Some? && b.Some? && d.Some? {
        Laws(c, a.value, b.value, d.value);
        Laws(c, d.value, b.value, a.value);
        Laws(c, a.value, d.value, b.value);
      }
    }
  }

  /** The `minBy` accumulator is associative under a lawful comparator. */
  lemma MinByMonoid<T(!new)>(c: (T, T) -> int)
    requires IsComparator(c)
    ensures IsMonoid(None, OptionMinBy(c))
  {
    var op := OptionMinBy(c);
    forall a, b, d ensures op(op(a, b), d) == op(a, op(b, d)) {
      if a.Some? && b.Some? && d.Some? {
        Laws(c, a.value, b.value, d.value);
        Laws(c, d.value, b.value, a.value);
        Laws(c, a.value, d.value, b.value);
      }
    }
  }

  /** `xs` is in non-decreasing order under `c`. */
  ghost predicate SortedBy<T>(xs: seq<T>, c: (T, T) -> int) {
    forall i, j :: 0 <= i < j < |xs| ==> c(xs[i], xs[j]) <= 0
  }

  /** Puts `x` in front of the first element that is not less than it. */
  function InsertSorted<T>(x: T, xs: seq<T>, c: (T, T) -> int): seq<T> {
    if xs == [] then [x]
    else if c(x, xs[0]) <= 0 then [x] + xs
    else [xs[0]] + InsertSorted(x, xs[1..], c)
  }

  /** `Stream.sorted(c)`: a stable sort (insertion sort from the back). */
  function Sorted<T>(xs: seq<T>, c: (T, T) -> int): seq<T> {
    if xs == [] then [] else InsertSorted(xs[0], Sorted(xs[1..], c), c)
  }

  /** No element of `xs` is below `b`. */
  ghost predicate LowerBound<T>(b: T, xs: seq<T>, c: (T, T) -> int) {
    forall i :: 0 <= i < |xs| ==> c(b, xs[i]) <= 0
  }

  lemma SortedCons<T>(h: T, xs: seq<T>, c: (T, T) -> int)
    requires LowerBound(h, xs, c) && SortedBy(xs, c)
    ensures SortedBy([h] + xs, c)
  {
    var r := [h] + xs;
    forall i, j | 0 <= i < j < |r| ensures c(r[i], r[j]) <= 0 {
      if i > 0 {
        assert r[i] == xs[i - 1] && r[j] == xs[j - 1];
      }
    }
  }

  lemma {:induction false} InsertSortedBound<T>(b: T, x: T, xs: seq<T>, c: (T, T) -> int)
    requires c(b, x) <= 0 && LowerBound(b, xs, c)
    ensures LowerBound(b, InsertSorted(x, xs, c), c)
  {
    if xs != [] && c(x, xs[0]) > 0 {
      InsertSortedBound(b, x, xs[1..], c);
    }
  }

  lemma {:induction false} InsertSortedMultiset<T>(x: T, xs: seq<T>, c: (T, T) -> int)
    ensures multiset(InsertSorted(x, xs, c)) == multiset(xs) + multiset{x}
  {
    if xs != [] && c(x, xs[0]) > 0 {
      InsertSortedMultiset(x, xs[1..], c);
      assert xs == [xs[0]] + xs[1..];
    }
  }

  lemma {:induction false} InsertSortedSorted<T(!new)>(x: T, xs: seq<T>, c: (T, T) -> int)
    requires IsComparator(c) && SortedBy(xs, c)
    ensures SortedBy(InsertSorted(x, xs, c), c)
  {
    if xs == [] {
    } else if c(x, xs[0]) <= 0 {
      forall i | 0 <= i < |xs| ensures c(x, xs[i]) <= 0 {
        Laws(c, x, xs[0], xs[i]);
      }
      SortedCons(x, xs, c);
    } else {
      var tail := xs[1..];
      assert SortedBy(tail, c) by {
        forall i, j | 0 <= i < j < |tail| ensures c(tail[i], tail[j]) <= 0 {
          assert tail[i] == xs[i + 1] && tail[j] == xs[j + 1];
        }
      }
      InsertSortedSorted(x, tail, c);
      Laws(c, x, xs[0], x);
      assert LowerBound(xs[0], tail, c) by {
        forall i | 0 <= i < |tail| ensures c(xs[0], tail[i]) <= 0 {
          assert tail[i] == xs[i + 1];
        }
      }
      InsertSortedBound(xs[0], x, tail, c);
      SortedCons(xs[0], InsertSorted(x, tail, c), c);
    }
  }

  /** The elements that compare equal to `k`. */
  function TiedWith<T>(c: (T, T) -> int, k: T): T -> bool {
    (y: T) => c(y, k) == 0
  }

  /**
    Inserting `x` passes over no element tied with `k` when `x` itself is
    tied with `k`, so among those elements `x` comes first.
  */
  lemma {:induction false} InsertSortedTied<T(!new)>(x: T, xs: seq<T>, c: (T, T) -> int, k: T)
    requires IsComparator(c)
    ensures Filter(InsertSorted(x, xs, c), TiedWith(c, k)) ==
              (if c(x, k) == 0 then [x] else []) + Filter(xs, TiedWith(c, k))
  {
    if xs == [] {
    } else if c(x, xs[0]) <= 0 {
      assert ([x] + xs)[1..] == xs;
    } else {
      InsertSortedTied(x, xs[1..], c, k);
      assert TieLaw(c, x, k, xs[0]) && SignLaw(c, k, xs[0]);
      assert ([xs[0]] + InsertSorted(x, xs[1..], c))[1..] == InsertSorted(x, xs[1..], c);
    }
  }

  /** The sort is stable: the elements tied with any `k` keep their relative order. */
  lemma {:induction false} SortedStable<T(!new)>(xs: seq<T>, c: (T, T) -> int, k: T)
    requires IsComparator(c)
    ensures Filter(Sorted(xs, c), TiedWith(c, k)) == Filter(xs, TiedWith(c, k))
  {
    if xs != [] {
      SortedStable(xs[1..], c, k);
      InsertSortedTied(xs[0], Sorted(xs[1..], c), c, k);
    }
  }

  /**
    `Stream.sorted(c)` returns a permutation of its input in non-decreasing
    order, and it is stable: the elements comparing equal to any `k` appear
    in their input order.
  */
  lemma {:induction false} SortedSpec<T(!new)>(xs: seq<T>, c: (T, T) -> int)
    requires IsComparator(c)
    ensures SortedBy(Sorted(xs, c), c)
    ensures multiset(Sorted(xs, c)) == multiset(xs)
    ensures forall k :: Filter(Sorted(xs, c), TiedWith(c, k)) == Filter(xs, TiedWith(c, k))
  {
    if xs != [] {
      SortedSpec(xs[1..], c);
      InsertSortedSorted(xs[0], Sorted(xs[1..], c), c);
      InsertSortedMultiset(xs[0], Sorted(xs[1..], c), c);
      assert xs == [xs[0]] + xs[1..];
    }
    forall k {
      SortedStable(xs, c, k);
    }
  }

  /** Filtering by two predicates that agree on every element gives the same result. */
  lemma {:induction false} FilterSamePredicate<T>(xs: seq<T>, p: T -> bool, q: T -> bool)
    requires forall i :: 0 <= i < |xs| ==> p(xs[i]) == q(xs[i])
    ensures Filter(xs, p) == Filter(xs, q)
  {
    if xs != [] {
      FilterSamePredicate(xs[1..], p, q);
    }
  }
}
