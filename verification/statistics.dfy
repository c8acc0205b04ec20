/**
  `StatisticData`: the values of one text statistic, counted. The
  constructor merges every value into a value-to-count map; the getters
  read totals, extremes and folds off that map.
*/
module Statistics {
  import opened Wrappers
  import opened Comparators
  import opened Streams

  /**
    `m` with key order `ks` is the value-to-count map of `xs`: the keys are
    exactly the distinct values of `xs`, listed once each in `ks`, and each
    maps to how often it occurs.
  */
  ghost predicate CountsOf<T(!new)>(ks: seq<T>, m: map<T, int>, xs: seq<T>) {
    && Distinct(ks)
    && (forall k :: k in m <==> k in ks)
    && (forall k :: k in m ==> m[k] == multiset(xs)[k])
    && (forall x :: x in m <==> x in xs)
  }

  /** The sum of the map's values, visited in the order `ks`. */
  function SumValues<T>(ks: seq<T>, m: map<T, int>): int {
    if ks == [] then 0 else (if ks[0] in m then m[ks[0]] else 0) + SumValues(ks[1..], m)
  }

  /** The map's entries in the order `ks`. */
  function EntriesOf<T>(ks: seq<T>, m: map<T, int>): (r: seq<(T, int)>)
    requires forall k :: k in ks ==> k in m
    ensures |r| == |ks|
    ensures forall i :: 0 <= i < |ks| ==> r[i] == (ks[i], m[ks[i]])
  {
    if ks == [] then [] else [(ks[0], m[ks[0]])] + EntriesOf(ks[1..], m)
  }

  class StatisticData<T(==, !new)> {
    /** The value-to-count map. */
    var valueToNumber: map<T, int>
    /**
      The order in which the map's iteration visits its keys. A hash map
      visits them in bucket order; the model lists them by first occurrence
      instead. Only the choice among ties in `getMinValue` and `getMaxValue`
      and the fold of a non-commutative reducer in `getReduced` follow this
      listing; the lemmas about them hold for any listing of the keys.
    */
    var order: seq<T>
    /** The list the data was built from. */
    ghost var instances: seq<T>

    ghost predicate Valid()
      reads this
    {
      CountsOf(order, valueToNumber, instances)
    }

    /** `new StatisticData(instances)`: every value merged into the map with `merge(it, 1, Integer::sum)`. */
    constructor (instances: seq<T>)
      ensures Valid() && this.instances == instances
      ensures forall x :: x in valueToNumber <==> x in instances
      ensures forall x :: x in valueToNumber ==> valueToNumber[x] == multiset(instances)[x]
    {
      var m: map<T, int> := map[];
      var ks: seq<T> := [];
      var i := 0;
      while i < |instances|
        invariant 0 <= i <= |instances|
        invariant CountsOf(ks, m, instances[..i])
      {
        var x := instances[i];
        assert instances[..i + 1] == instances[..i] + [x];
        if x in m {
          m := m[x := m[x] + 1];
        } else {
          m := m[x := 1];
          ks := ks + [x];
        }
        i := i + 1;
      }
      assert instances[..i] == instances;
      valueToNumber := m;
      order := ks;
      this.instances := instances;
    }

    /** `getNumberOfAll`: the sum of the counts. */
    function NumberOfAll(): int
      reads this
    {
      SumValues(order, valueToNumber)
    }

    /** `getNumberOfUnique`: the number of keys. */
    function NumberOfUnique(): int
      reads this
    {
      |valueToNumber|
    }

    /** `getMinValue`: the least mapped key under `comparator`, or null without data. */
    function GetMinValue<R>(mapper: T -> R, comparator: (R, R) -> int): Option<R>
      reads this
    {
      Min(Map(order, mapper), comparator)
    }

    /** `getMaxValue`: the greatest mapped key under `comparator`, or null without data. */
    function GetMaxValue<R>(mapper: T -> R, comparator: (R, R) -> int): Option<R>
      reads this
    {
      Max(Map(order, mapper), comparator)
    }

    /** The map's entries in iteration order. */
    function Entries(): seq<(T, int)>
      reads this
      requires Valid()
    {
      EntriesOf(order, valueToNumber)
    }

    /** `getReduced`: `mapper` of every entry folded into `startValue` with `reducer`. */
    function GetReduced<R>(mapper: ((T, int)) -> R, reducer: (R, R) -> R, startValue: R): R
      reads this
      requires Valid()
    {
      Reduce(Map(Entries(), mapper), startValue, reducer)
    }
  }

  // ---------------------------------------------------------------------
  // Totals
  // ---------------------------------------------------------------------

  /** The sum, over the distinct keys `ks`, of the multiplicities in `ms`. */
  ghost function TotalCount<T>(ks: seq<T>, ms: multiset<T>): int {
    if ks == [] then 0 else ms[ks[0]] + TotalCount(ks[1..], ms)
  }

  /** Adding one occurrence of `x` adds to the total once for every listing of `x` in `ks`. */
  lemma {:induction false} TotalCountAdd<T>(ks: seq<T>, ms: multiset<T>, x: T)
    ensures TotalCount(ks, ms + multiset{x}) == TotalCount(ks, ms) + multiset(ks)[x]
  {
    if ks != [] {
      TotalCountAdd(ks[1..], ms, x);
      assert ks == [ks[0]] + ks[1..];
    }
  }

  /** A distinct list holds each of its elements exactly once. */
  lemma {:induction false} DistinctOnce<T>(ks: seq<T>, x: T)
    requires Distinct(ks)
    ensures multiset(ks)[x] == if x in ks then 1 else 0
  {
    if ks != [] {
      var t := ks[1..];
      assert Distinct(t) by {
        forall i, j | 0 <= i < j < |t| ensures t[i] != t[j] {
          assert t[i] == ks[i + 1] && t[j] == ks[j + 1];
        }
      }
      DistinctOnce(t, x);
      assert ks == [ks[0]] + t;
    }
  }

  /** Summing the multiplicities over a distinct list of all the values counts every element once. */
  lemma {:induction false} TotalCountIsLength<T>(ks: seq<T>, xs: seq<T>)
    requires Distinct(ks) && forall x :: x in xs ==> x in ks
    ensures TotalCount(ks, multiset(xs)) == |xs|
  {
    if xs != [] {
      var init, last := xs[..|xs| - 1], xs[|xs| - 1];
      assert xs == init + [last];
      assert forall x :: x in init ==> x in xs;
      TotalCountIsLength(ks, init);
      assert multiset(xs) == multiset(init) + multiset{last};
      TotalCountAdd(ks, multiset(init), last);
      assert last in ks;
      DistinctOnce(ks, last);
      assert multiset(ks)[last] == 1;
    } else {
      TotalCountNone(ks);
    }
  }

  lemma {:induction false} TotalCountNone<T>(ks: seq<T>)
    ensures TotalCount(ks, multiset{}) == 0
  {
    if ks != [] {
      TotalCountNone(ks[1..]);
    }
  }

  lemma {:induction false} SumValuesIsTotal<T>(ks: seq<T>, m: map<T, int>, ms: multiset<T>)
    requires forall k :: k in ks ==> k in m && m[k] == ms[k]
    ensures SumValues(ks, m) == TotalCount(ks, ms)
  {
    if ks != [] {
      SumValuesIsTotal(ks[1..], m, ms);
    }
  }

  /** `getNumberOfAll` is the length of the list the data was built from. */
  lemma NumberOfAllSpec<T(!new)>(data: StatisticData<T>)
    requires data.Valid()
    ensures data.NumberOfAll() == |data.instances|
  {
    SumValuesIsTotal(data.order, data.valueToNumber, multiset(data.instances));
    TotalCountIsLength(data.order, data.instances);
  }

  /** A distinct list is as long as the set of its elements. */
  lemma {:induction false} DistinctLength<T>(ks: seq<T>)
    requires Distinct(ks)
    ensures |set k | k in ks| == |ks|
  {
    if ks != [] {
      var t := ks[1..];
      assert Distinct(t) by {
        forall i, j | 0 <= i < j < |t| ensures t[i] != t[j] {
          assert t[i] == ks[i + 1] && t[j] == ks[j + 1];
        }
      }
      DistinctLength(t);
      assert (set k | k in ks) == (set k | k in t) + {ks[0]};
      DistinctOnce(ks, ks[0]);
      assert ks == [ks[0]] + t;
      assert ks[0] !in t;
    }
  }

  /**
    `getNumberOfUnique` is the number of distinct values in the list; it
    never exceeds `getNumberOfAll`, and both are zero exactly when the list
    is empty.
  */
  lemma NumberOfUniqueSpec<T(!new)>(data: StatisticData<T>)
    requires data.Valid()
    ensures data.NumberOfUnique() == |set x | x in data.instances|
    ensures data.NumberOfUnique() <= data.NumberOfAll()
    ensures data.NumberOfUnique() == 0 <==> data.instances == []
    ensures data.NumberOfAll() == 0 <==> data.instances == []
  {
    var m, ks, xs := data.valueToNumber, data.order, data.instances;
    assert m.Keys == set x | x in xs;
    assert m.Keys == set k | k in ks;
    DistinctLength(ks);
    NumberOfAllSpec(data);
    assert |set x | x in xs| <= |xs| by {
      SumValuesIsTotal(ks, m, multiset(xs));
      CountsAtLeastOne(ks, multiset(xs));
    }
    if xs != [] {
      assert xs[0] in m.Keys;
    }
  }

  /** When every listed key occurs, the total is at least the number of keys. */
  lemma {:induction false} CountsAtLeastOne<T>(ks: seq<T>, ms: multiset<T>)
    requires forall k :: k in ks ==> ms[k] >= 1
    ensures TotalCount(ks, ms) >= |ks|
  {
    if ks != [] {
      CountsAtLeastOne(ks[1..], ms);
    }
  }

  // ---------------------------------------------------------------------
  // Extremes
  // ---------------------------------------------------------------------

  /**
    `getMinValue` is null exactly when there is no data, and otherwise
    `mapper` of some value of the list that no mapped value is below.
  */
  lemma MinValueSpec<T(!new), R(!new)>(data: StatisticData<T>, mapper: T -> R, comparator: (R, R) -> int)
    requires data.Valid() && IsComparator(comparator)
    ensures data.GetMinValue(mapper, comparator).None? <==> data.instances == []
    ensures data.GetMinValue(mapper, comparator).Some? ==>
              && (exists x :: x in data.instances && data.GetMinValue(mapper, comparator).value == mapper(x))
              && forall x :: x in data.instances ==> comparator(mapper(x), data.GetMinValue(mapper, comparator).value) >= 0
  {
    var ks := data.order;
    var ys := Map(ks, mapper);
    MinSpec(ys, comparator);
    if data.instances != [] {
      assert data.instances[0] in ks;
    }
    if ys != [] {
      var k :| IsFirstLeast(ys, comparator, k) && Min(ys, comparator).value == ys[k];
      assert ks[k] in data.valueToNumber;
      forall x | x in data.instances ensures comparator(mapper(x), ys[k]) >= 0 {
        var i :| 0 <= i < |ks| && ks[i] == x;
        assert ys[i] == mapper(x);
      }
    }
  }

  /**
    `getMaxValue` is null exactly when there is no data, and otherwise
    `mapper` of some value of the list that no mapped value exceeds.
  */
  lemma MaxValueSpec<T(!new), R(!new)>(data: StatisticData<T>, mapper: T -> R, comparator: (R, R) -> int)
    requires data.Valid() && IsComparator(comparator)
    ensures data.GetMaxValue(mapper, comparator).None? <==> data.instances == []
    ensures data.GetMaxValue(mapper, comparator).Some? ==>
              && (exists x :: x in data.instances && data.GetMaxValue(mapper, comparator).value == mapper(x))
              && forall x :: x in data.instances ==> comparator(data.GetMaxValue(mapper, comparator).value, mapper(x)) >= 0
  {
    var ks := data.order;
    var ys := Map(ks, mapper);
    MaxSpec(ys, comparator);
    if data.instances != [] {
      assert data.instances[0] in ks;
    }
    if ys != [] {
      var k :| IsFirstGreatest(ys, comparator, k) && Max(ys, comparator).value == ys[k];
      assert ks[k] in data.valueToNumber;
      forall x | x in data.instances ensures comparator(ys[k], mapper(x)) >= 0 {
        var i :| 0 <= i < |ks| && ks[i] == x;
        assert ys[i] == mapper(x);
      }
    }
  }

  // ---------------------------------------------------------------------
  // Folds
  // ---------------------------------------------------------------------

  ghost predicate CommutativeAssociative<R(!new)>(op: (R, R) -> R) {
    && (forall a, b :: Commutes(op, a, b))
    && (forall a, b, c :: Associates(op, a, b, c))
  }

  ghost predicate Commutes<R>(op: (R, R) -> R, a: R, b: R) {
    op(a, b) == op(b, a)
  }

  ghost predicate Associates<R>(op: (R, R) -> R, a: R, b: R, c: R) {
    op(op(a, b), c) == op(a, op(b, c))
  }

  /** Under a commutative, associative operator any one element can be folded in last. */
  lemma {:induction false} ReduceRemove<R(!new)>(xs: seq<R>, j: int, start: R, op: (R, R) -> R)
    requires CommutativeAssociative(op) && 0 <= j < |xs|
    ensures Reduce(xs, start, op) == op(Reduce(xs[..j] + xs[j + 1..], start, op), xs[j])
  {
    var n := |xs|;
    if j < n - 1 {
      var init := xs[..n - 1];
      ReduceRemove(init, j, start, op);
      var rest := init[..j] + init[j + 1..];
      assert xs[..j] + xs[j + 1..] == rest + [xs[n - 1]];
      assert (rest + [xs[n - 1]])[..|rest|] == rest;
      var acc := Reduce(rest, start, op);
      assert op(op(acc, xs[j]), xs[n - 1]) == op(op(acc, xs[n - 1]), xs[j]) by {
        assert Associates(op, acc, xs[j], xs[n - 1]);
        assert Commutes(op, xs[j], xs[n - 1]);
        assert Associates(op, acc, xs[n - 1], xs[j]);
      }
    } else {
      assert xs[..j] + xs[j + 1..] == xs[..n - 1];
    }
  }

  /** Removing the element at `j` removes one occurrence of it. */
  lemma RemoveAt<T>(ys: seq<T>, j: int)
    requires 0 <= j < |ys|
    ensures multiset(ys[..j] + ys[j + 1..]) == multiset(ys) - multiset{ys[j]}
  {
    assert ys == ys[..j] + [ys[j]] + ys[j + 1..];
  }

  /** Mapping commutes with removing the element at `j`. */
  lemma MapRemoveAt<T, U>(ys: seq<T>, j: int, f: T -> U)
    requires 0 <= j < |ys|
    ensures Map(ys[..j] + ys[j + 1..], f) == Map(ys, f)[..j] + Map(ys, f)[j + 1..]
  {
    var rest := ys[..j] + ys[j + 1..];
    var m := Map(ys, f);
    var a, b := Map(rest, f), m[..j] + m[j + 1..];
    assert |a| == |b|;
    forall i | 0 <= i < |a| ensures a[i] == b[i] {
      if i < j {
        calc {
          a[i];
          f(rest[i]);
          { assert rest[i] == ys[i]; }
          f(ys[i]);
          m[i];
          { assert b[i] == m[..j][i]; }
          b[i];
        }
      } else {
        calc {
          a[i];
          f(rest[i]);
          { assert rest[i] == ys[i + 1]; }
          f(ys[i + 1]);
          m[i + 1];
          { assert b[i] == m[j + 1..][i - j]; }
          b[i];
        }
      }
    }
  }

  /** The last element of `xs` sits somewhere in a permutation `ys`; the rest of each are permutations too. */
  lemma PermutationRemoveLast<T>(xs: seq<T>, ys: seq<T>) returns (j: int)
    requires xs != [] && multiset(xs) == multiset(ys)
    ensures 0 <= j < |ys| && ys[j] == xs[|xs| - 1]
    ensures multiset(xs[..|xs| - 1]) == multiset(ys[..j] + ys[j + 1..])
  {
    var n := |xs|;
    assert xs[n - 1] in multiset(ys);
    j :| 0 <= j < |ys| && ys[j] == xs[n - 1];
    RemoveAt(ys, j);
    RemoveAt(xs, n - 1);
    assert xs[..n - 1] + xs[n..] == xs[..n - 1];
  }

  /**
    Mapping and then folding with a commutative, associative operator does
    not depend on the order of the elements.
  */
  lemma {:induction false} ReduceMapPermutation<T, R(!new)>(xs: seq<T>, ys: seq<T>, f: T -> R, start: R, op: (R, R) -> R)
    requires CommutativeAssociative(op) && multiset(xs) == multiset(ys)
    ensures Reduce(Map(xs, f), start, op) == Reduce(Map(ys, f), start, op)
    decreases |xs|
  {
    if xs != [] {
      var n := |xs|;
      var j := PermutationRemoveLast(xs, ys);
      var init, rest := xs[..n - 1], ys[..j] + ys[j + 1..];
      ReduceMapPermutation(init, rest, f, start, op);
      var mx, my := Map(xs, f), Map(ys, f);
      MapRemoveAt(ys, j, f);
      ReduceRemove(my, j, start, op);
      assert mx[..n - 1] == Map(init, f);
      calc {
        Reduce(mx, start, op);
        op(Reduce(Map(init, f), start, op), f(xs[n - 1]));
        op(Reduce(Map(rest, f), start, op), my[j]);
        Reduce(my, start, op);
      }
    } else {
      assert ys == [];
    }
  }

  /** `getReduced` returns `startValue` when there is no data. */
  lemma GetReducedEmpty<T(!new), R>(data: StatisticData<T>, mapper: ((T, int)) -> R, reducer: (R, R) -> R, startValue: R)
    requires data.Valid() && data.instances == []
    ensures data.GetReduced(mapper, reducer, startValue) == startValue
  {
    assert data.order == [] by {
      DistinctLength(data.order);
      assert (set k | k in data.order) == {};
    }
    assert data.Entries() == [];
  }

  /** Two distinct lists of the same elements are permutations of each other. */
  lemma DistinctSameElements<T>(xs: seq<T>, ys: seq<T>)
    requires Distinct(xs) && Distinct(ys) && forall k :: k in xs <==> k in ys
    ensures multiset(xs) == multiset(ys)
  {
    forall k ensures multiset(xs)[k] == multiset(ys)[k] {
      DistinctOnce(xs, k);
      DistinctOnce(ys, k);
    }
  }

  /** The entries listed in the order of a distinct `ks` are distinct, and are exactly the pairs of a listed key with its count. */
  lemma EntriesOfSpec<T(!new)>(ks: seq<T>, m: map<T, int>)
    requires Distinct(ks) && forall k :: k in ks ==> k in m
    ensures Distinct(EntriesOf(ks, m))
    ensures forall e :: e in EntriesOf(ks, m) <==> e.0 in ks && e.1 == m[e.0]
  {
    var es := EntriesOf(ks, m);
    forall e ensures e in es <==> e.0 in ks && e.1 == m[e.0] {
      if e.0 in ks && e.1 == m[e.0] {
        var i :| 0 <= i < |ks| && ks[i] == e.0;
        assert es[i] == e;
      }
    }
  }

  /**
    With a commutative, associative reducer, `getReduced` folds the same
    value whatever order the map visits its entries in: `visit` is any
    listing of the distinct values.
  */
  lemma GetReducedOrderIndependent<T(!new), R(!new)>(data: StatisticData<T>, mapper: ((T, int)) -> R, reducer: (R, R) -> R,
                                                      startValue: R, visit: seq<T>)
    requires data.Valid() && CommutativeAssociative(reducer)
    requires Distinct(visit) && forall k :: k in visit <==> k in data.valueToNumber
    ensures data.GetReduced(mapper, reducer, startValue) ==
              Reduce(Map(EntriesOf(visit, data.valueToNumber), mapper), startValue, reducer)
  {
    var m := data.valueToNumber;
    var entries := EntriesOf(data.order, m);
    var visited := EntriesOf(visit, m);
    EntriesOfSpec(data.order, m);
    EntriesOfSpec(visit, m);
    DistinctSameElements(entries, visited);
    ReduceMapPermutation(entries, visited, mapper, startValue, reducer);
  }
}
