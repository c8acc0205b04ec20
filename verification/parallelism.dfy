/**
  `IterativeParallelism`: a list is cut into at most `threads` contiguous
  blocks, one function runs on every block, and a collector combines the
  block results in block order. Threads only decide *when* each block is
  processed; the results are stored by block index, so the outcome is the
  sequential one modelled here.
*/
module Parallelism {
  import opened Wrappers
  import opened Comparators
  import opened Streams

  function MinInt(a: int, b: int): int {
    if a <= b then a else b
  }

  /** `IntStream.range(0, Math.min(threads, size))` has this many indices. */
  function BlockCount(threads: int, n: nat): nat {
    if MinInt(threads, n) <= 0 then 0 else MinInt(threads, n)
  }

  /** Where block `index` starts: `blockSize * index + min(index, tailSize)`, or `index` for one-element blocks. */
  function From(threads: int, n: nat, index: nat): int {
    if 0 < threads < n then (n / threads) * index + MinInt(index, n % threads)
    else index
  }

  /** How long block `index` is: `blockSize + (index < tailSize ? 1 : 0)`, or 1 for one-element blocks. */
  function Len(threads: int, n: nat, index: nat): int {
    if 0 < threads < n then n / threads + (if index < n % threads then 1 else 0)
    else 1
  }

  /** The division-free core of the split arithmetic: consecutive blocks abut and the last one ends at the end. */
  lemma BlockArithmetic(q: nat, t: nat, threads: nat, i: nat)
    requires t < threads && i < threads
    ensures q * i + MinInt(i, t) + q + (if i < t then 1 else 0) == q * (i + 1) + MinInt(i + 1, t)
    ensures q * (i + 1) + MinInt(i + 1, t) <= q * threads + t
    ensures q * threads + MinInt(threads, t) == q * threads + t
  {
    assert q * (i + 1) == q * i + q;
    MulMonotone(q, i + 1, threads);
  }

  lemma MulMonotone(a: nat, b: nat, c: nat)
    requires b <= c
    ensures a * b <= a * c
  {
  }

  /** Every block lies inside the list and ends where the next one starts. */
  lemma BlockBounds(threads: int, n: nat, index: nat)
    requires index < BlockCount(threads, n)
    ensures 0 <= From(threads, n, index)
    ensures From(threads, n, index) + Len(threads, n, index) == From(threads, n, index + 1) <= n
  {
    if threads < n {
      var q, t := n / threads, n % threads;
      BlockArithmetic(q, t, threads, index);
      assert n == q * threads + t;
    }
  }

  /** The end of the last block is the end of the list. */
  lemma LastBlockEnd(threads: int, n: nat)
    requires threads >= 1
    ensures From(threads, n, BlockCount(threads, n)) == n
  {
    if threads < n {
      var q, t := n / threads, n % threads;
      BlockArithmetic(q, t, threads, 0);
      assert n == q * threads + t;
    }
  }

  /** The list slice that block `index` covers (the lambda of `mapToObj`). */
  function Block<T>(threads: int, values: seq<T>, index: nat): seq<T>
    requires index < BlockCount(threads, |values|)
  {
    BlockBounds(threads, |values|, index);
    var from := From(threads, |values|, index);
    values[from .. from + Len(threads, |values|, index)]
  }

  /** The split of lines 30-39: the blocks in index order. */
  function Split<T>(threads: int, values: seq<T>): (r: seq<seq<T>>)
    ensures |r| == BlockCount(threads, |values|)
    ensures forall i :: 0 <= i < |r| ==> r[i] == Block(threads, values, i)
  {
    seq(BlockCount(threads, |values|), (i: int) requires 0 <= i < BlockCount(threads, |values|) =>
      Block(threads, values, i))
  }

  /**
    The shape of the split: `min(threads, size)` blocks, none when there
    are no threads; every block is non-empty; the block lengths differ by
    at most one, the first `size % threads` blocks being the longer ones;
    and with at least as many threads as elements each element is its own
    block.
  */
  lemma SplitShape<T>(threads: int, values: seq<T>)
    ensures threads <= 0 ==> Split(threads, values) == []
    ensures threads >= 1 ==> |Split(threads, values)| == MinInt(threads, |values|)
    ensures forall i :: 0 <= i < |Split(threads, values)| ==> Split(threads, values)[i] != []
    ensures threads < |values| ==> forall i :: 0 <= i < |Split(threads, values)| ==>
              |Split(threads, values)[i]| == |values| / threads + (if i < |values| % threads then 1 else 0)
    ensures forall i, j :: 0 <= i < |Split(threads, values)| && 0 <= j < |Split(threads, values)| ==>
              |Split(threads, values)[i]| <= |Split(threads, values)[j]| + 1
    ensures threads >= |values| ==> forall i :: 0 <= i < |Split(threads, values)| ==>
              Split(threads, values)[i] == [values[i]]
  {
    SplitLen(threads, values);
    var n := |values|;
    if 0 < threads < n {
      assert n / threads >= 1 by {
        assert n == (n / threads) * threads + n % threads;
      }
    }
  }

  lemma SplitLen<T>(threads: int, values: seq<T>)
    ensures forall i :: 0 <= i < |Split(threads, values)| ==> |Split(threads, values)[i]| == Len(threads, |values|, i)
  {
    forall i | 0 <= i < |Split(threads, values)|
      ensures |Split(threads, values)[i]| == Len(threads, |values|, i)
    {
      BlockBounds(threads, |values|, i);
    }
  }

  /** Block `i` is the slice between consecutive start positions. */
  lemma BlockIsSlice<T>(threads: int, values: seq<T>, i: nat)
    requires i < BlockCount(threads, |values|)
    ensures 0 <= From(threads, |values|, i) <= From(threads, |values|, i + 1) <= |values|
    ensures Block(threads, values, i) == values[From(threads, |values|, i) .. From(threads, |values|, i + 1)]
  {
    BlockBounds(threads, |values|, i);
  }

  /** The blocks from `k` on concatenate to the list from block `k`'s start on. */
  lemma {:induction false} SplitSuffix<T>(threads: int, values: seq<T>, k: nat)
    requires threads >= 1 && k <= BlockCount(threads, |values|)
    ensures 0 <= From(threads, |values|, k) <= |values|
    ensures Flatten(Split(threads, values)[k..]) == values[From(threads, |values|, k)..]
    decreases BlockCount(threads, |values|) - k
  {
    var r := Split(threads, values);
    var n := |values|;
    if k == |r| {
      LastBlockEnd(threads, n);
      assert r[k..] == [];
    } else {
      SplitSuffix(threads, values, k + 1);
      BlockIsSlice(threads, values, k);
      assert r[k..][1..] == r[k + 1..];
      var a, b := From(threads, n, k), From(threads, n, k + 1);
      assert values[a..] == values[a..b] + values[b..];
    }
  }

  /** The blocks are contiguous, disjoint and concatenate to the whole list. */
  lemma SplitFlatten<T>(threads: int, values: seq<T>)
    requires threads >= 1
    ensures Flatten(Split(threads, values)) == values
  {
    SplitSuffix(threads, values, 0);
    assert Split(threads, values)[0..] == Split(threads, values);
  }

  /** `parallelRunning`: apply `perBlock` (the source's `function`) to every block, then `collector` to the results in block order. */
  function ParallelRunning<T, P, U>(threads: int, values: seq<T>, perBlock: seq<T> -> P, collector: seq<P> -> U): U {
    collector(Map(Split(threads, values), perBlock))
  }

  function And(a: bool, b: bool): bool {
    a && b
  }

  function Plus(a: int, b: int): int {
    a + b
  }

  function Concat<T>(a: seq<T>, b: seq<T>): seq<T> {
    a + b
  }

  function Identity<T>(x: T): T {
    x
  }

  function Indicator<T>(p: T -> bool): T -> int {
    (x: T) => if p(x) then 1 else 0
  }

  /** `Stream.allMatch(p)`. */
  function AllMatch<T>(xs: seq<T>, p: T -> bool): bool {
    Reduce(Map(xs, p), true, And)
  }

  /** `Collectors.joining("")` and `String.join("", ...)`. */
  function Joining(ss: seq<string>): string {
    Reduce(ss, "", Concat)
  }

  // The per-block functions of the public operations.

  function MaxBlock<T>(c: (T, T) -> int): seq<T> -> Option<T> {
    (xs: seq<T>) => Max(xs, c)
  }

  function MinBlock<T>(c: (T, T) -> int): seq<T> -> Option<T> {
    (xs: seq<T>) => Min(xs, c)
  }

  function AllBlock<T>(p: T -> bool): seq<T> -> bool {
    (xs: seq<T>) => AllMatch(xs, p)
  }

  function CountBlock<T>(p: T -> bool): seq<T> -> int {
    (xs: seq<T>) => |Filter(xs, p)|
  }

  function JoinBlock<T>(show: T -> string): seq<T> -> string {
    (xs: seq<T>) => Joining(Map(xs, show))
  }

  function FilterBlock<T>(p: T -> bool): seq<T> -> seq<T> {
    (xs: seq<T>) => Filter(xs, p)
  }

  function MapBlock<T, U>(f: T -> U): seq<T> -> seq<U> {
    (xs: seq<T>) => Map(xs, f)
  }

  function ReduceBlock<T>(identity: T, op: (T, T) -> T): seq<T> -> T {
    (xs: seq<T>) => Reduce(xs, identity, op)
  }

  function MapReduceBlock<T, R>(lift: T -> R, identity: R, op: (R, R) -> R): seq<T> -> R {
    (xs: seq<T>) => Reduce(Map(xs, lift), identity, op)
  }

  /** `maximum`: the maximum of every block, then the maximum of the block maxima. */
  function Maximum<T>(threads: int, values: seq<T>, c: (T, T) -> int): Option<T> {
    ParallelRunning(threads, values, MaxBlock(c), (rs: seq<Option<T>>) => Reduce(rs, None, OptionMaxBy(c)))
  }

  /** `minimum`: the minimum of every block, then the minimum of the block minima. */
  function Minimum<T>(threads: int, values: seq<T>, c: (T, T) -> int): Option<T> {
    ParallelRunning(threads, values, MinBlock(c), (rs: seq<Option<T>>) => Reduce(rs, None, OptionMinBy(c)))
  }

  /** `all`: `allMatch` in every block, then `allMatch(it -> it)` of the block results. */
  function All<T>(threads: int, values: seq<T>, p: T -> bool): bool {
    ParallelRunning(threads, values, AllBlock(p), (rs: seq<bool>) => AllMatch(rs, Identity))
  }

  /** `any`: the negation of `all` with the negated predicate. */
  function Any<T>(threads: int, values: seq<T>, p: T -> bool): bool {
    !All(threads, values, (x: T) => !p(x))
  }

  /** `count`: the size of every filtered block, then the sum of those sizes. */
  function Count<T>(threads: int, values: seq<T>, p: T -> bool): int {
    ParallelRunning(threads, values, CountBlock(p), (rs: seq<int>) => Reduce(rs, 0, Plus))
  }

  /** `join`: the joined `toString` forms of every block, then those joined. */
  function Join<T>(threads: int, values: seq<T>, show: T -> string): string {
    ParallelRunning(threads, values, JoinBlock(show), Joining)
  }

  /** `listConverter`: convert every block, then concatenate the block results in order. */
  function ListConverter<T, U>(threads: int, values: seq<T>, converter: seq<T> -> seq<U>): seq<U> {
    ParallelRunning(threads, values, converter, Flatten)
  }

  /** `filter`. */
  function FilterList<T>(threads: int, values: seq<T>, p: T -> bool): seq<T> {
    ListConverter(threads, values, FilterBlock(p))
  }

  /** `map`. */
  function MapList<T, U>(threads: int, values: seq<T>, f: T -> U): seq<U> {
    ListConverter(threads, values, MapBlock(f))
  }

  /** `reduce`: every block folded from the identity, then the block results folded. */
  function ReduceList<T>(threads: int, values: seq<T>, identity: T, op: (T, T) -> T): T {
    ParallelRunning(threads, values, ReduceBlock(identity, op), (rs: seq<T>) => Reduce(rs, identity, op))
  }

  /** `mapReduce`: every block lifted and folded, then the block results folded. */
  function MapReduce<T, R>(threads: int, values: seq<T>, lift: T -> R, identity: R, op: (R, R) -> R): R {
    ParallelRunning(threads, values, MapReduceBlock(lift, identity, op), (rs: seq<R>) => Reduce(rs, identity, op))
  }

  // ---------------------------------------------------------------------
  // Splitting and recombining equals the sequential computation.
  // ---------------------------------------------------------------------

  lemma MapIdentity<T>(xs: seq<T>)
    ensures Map(xs, Identity) == xs
  {
  }

  lemma AndMonoid()
    ensures IsMonoid(true, And)
  {
  }

  lemma PlusMonoid()
    ensures IsMonoid(0, Plus)
  {
  }

  lemma ConcatMonoid<T(!new)>()
    ensures IsMonoid([], Concat<T>)
  {
    forall a: seq<T> ensures Concat([], a) == a && Concat(a, []) == a {
      assert [] + a == a && a + [] == a;
    }
    forall a: seq<T>, b: seq<T>, d: seq<T> ensures Concat(Concat(a, b), d) == Concat(a, Concat(b, d)) {
      assert (a + b) + d == a + (b + d);
    }
  }

  /**
    The core fact: for a monoid, folding the per-block folds equals folding
    the whole list, whatever the number of threads (at least one).
  */
  lemma SplitFold<T, M(!new)>(threads: int, values: seq<T>, lift: T -> M, identity: M, op: (M, M) -> M,
                              part: seq<T> -> M)
    requires threads >= 1 && IsMonoid(identity, op)
    requires forall xs :: part(xs) == Reduce(Map(xs, lift), identity, op)
    ensures Reduce(Map(Split(threads, values), part), identity, op) == Reduce(Map(values, lift), identity, op)
  {
    SplitFlatten(threads, values);
    ReduceFlatten(Split(threads, values), lift, identity, op, part);
  }

  /**
    `maximum` equals the sequential `max`: null exactly for an empty list,
    otherwise the first of the greatest elements.
  */
  lemma MaximumSpec<T(!new)>(threads: int, values: seq<T>, c: (T, T) -> int)
    requires threads >= 1 && IsComparator(c)
    ensures Maximum(threads, values, c) == Max(values, c)
    ensures Maximum(threads, values, c).None? <==> values == []
    ensures values != [] ==> exists k :: IsFirstGreatest(values, c, k) && Maximum(threads, values, c).value == values[k]
  {
    MaxByMonoid(c);
    SplitFold(threads, values, Present, None, OptionMaxBy(c), MaxBlock(c));
    MaxSpec(values, c);
  }

  /**
    `minimum` equals the sequential `min`: null exactly for an empty list,
    otherwise the first of the least elements.
  */
  lemma MinimumSpec<T(!new)>(threads: int, values: seq<T>, c: (T, T) -> int)
    requires threads >= 1 && IsComparator(c)
    ensures Minimum(threads, values, c) == Min(values, c)
    ensures Minimum(threads, values, c).None? <==> values == []
    ensures values != [] ==> exists k :: IsFirstLeast(values, c, k) && Minimum(threads, values, c).value == values[k]
  {
    MinByMonoid(c);
    SplitFold(threads, values, Present, None, OptionMinBy(c), MinBlock(c));
    MinSpec(values, c);
  }

  /** `allMatch` holds exactly when every element satisfies the predicate. */
  lemma {:induction false} AllMatchSpec<T>(xs: seq<T>, p: T -> bool)
    ensures AllMatch(xs, p) <==> forall i :: 0 <= i < |xs| ==> p(xs[i])
  {
    if xs != [] {
      var init := xs[..|xs| - 1];
      AllMatchSpec(init, p);
      assert Map(xs, p)[..|xs| - 1] == Map(init, p);
      assert forall i :: 0 <= i < |init| ==> init[i] == xs[i];
    }
  }

  /**
    With no threads there are no blocks, so every operation returns what its
    collector makes of no results: `all` is vacuously true, `any` false,
    `maximum` and `minimum` absent, `count` zero, `join` empty, `filter` and
    `map` empty lists, and `reduce` and `mapReduce` the identity.
  */
  lemma NoThreads<T, U, R>(threads: int, values: seq<T>, p: T -> bool, c: (T, T) -> int,
                           show: T -> string, f: T -> U, identity: T, op: (T, T) -> T,
                           lift: T -> R, unit: R, combine: (R, R) -> R)
    requires threads <= 0
    ensures All(threads, values, p)
    ensures !Any(threads, values, p)
    ensures Maximum(threads, values, c) == None && Minimum(threads, values, c) == None
    ensures Count(threads, values, p) == 0
    ensures Join(threads, values, show) == ""
    ensures FilterList(threads, values, p) == [] && MapList(threads, values, f) == []
    ensures ReduceList(threads, values, identity, op) == identity
    ensures MapReduce(threads, values, lift, unit, combine) == unit
  {
    SplitShape(threads, values);
  }

  /** `all` holds exactly when every element satisfies the predicate (so it is true on an empty list). */
  lemma AllSpec<T>(threads: int, values: seq<T>, p: T -> bool)
    requires threads >= 1
    ensures All(threads, values, p) <==> forall i :: 0 <= i < |values| ==> p(values[i])
  {
    MapIdentity(Map(Split(threads, values), AllBlock(p)));
    AndMonoid();
    SplitFold(threads, values, p, true, And, AllBlock(p));
    AllMatchSpec(values, p);
  }

  /** `any` holds exactly when some element satisfies the predicate (so it is false on an empty list). */
  lemma AnySpec<T>(threads: int, values: seq<T>, p: T -> bool)
    requires threads >= 1
    ensures Any(threads, values, p) <==> exists i :: 0 <= i < |values| && p(values[i])
  {
    AllSpec(threads, values, (x: T) => !p(x));
  }

  /** The size of a filtered list is the fold of the 0/1 indicator. */
  lemma {:induction false} FilterCount<T>(xs: seq<T>, p: T -> bool)
    ensures |Filter(xs, p)| == Reduce(Map(xs, Indicator(p)), 0, Plus)
  {
    if xs != [] {
      FilterCount(xs[1..], p);
      var head := [Indicator(p)(xs[0])];
      assert Map(xs, Indicator(p)) == head + Map(xs[1..], Indicator(p));
      PlusMonoid();
      ReduceConcat(head, Map(xs[1..], Indicator(p)), 0, Plus);
      assert head[..0] == [];
    }
  }

  /** `count` equals the number of elements satisfying the predicate. */
  lemma CountSpec<T>(threads: int, values: seq<T>, p: T -> bool)
    requires threads >= 1
    ensures Count(threads, values, p) == |Filter(values, p)|
  {
    forall xs ensures CountBlock(p)(xs) == Reduce(Map(xs, Indicator(p)), 0, Plus) {
      FilterCount(xs, p);
    }
    PlusMonoid();
    SplitFold(threads, values, Indicator(p), 0, Plus, CountBlock(p));
    FilterCount(values, p);
  }

  /** Joining strings concatenates them in order. */
  lemma {:induction false} JoiningSpec(ss: seq<string>)
    ensures Joining(ss) == Flatten(ss)
  {
    if ss != [] {
      JoiningSpec(ss[1..]);
      assert ss == [ss[0]] + ss[1..];
      ConcatMonoid<char>();
      ReduceConcat([ss[0]], ss[1..], "", Concat);
      assert [ss[0]][..0] == [];
    }
  }

  /** `join` concatenates the `toString` forms of all elements, in list order. */
  lemma JoinSpec<T>(threads: int, values: seq<T>, show: T -> string)
    requires threads >= 1
    ensures Join(threads, values, show) == Flatten(Map(values, show))
  {
    ConcatMonoid<char>();
    SplitFold(threads, values, show, "", Concat, JoinBlock(show));
    JoiningSpec(Map(Split(threads, values), JoinBlock(show)));
    JoiningSpec(Map(values, show));
  }

  /** Concatenating per-part conversions equals converting the concatenation, for a converter that distributes over `+`. */
  lemma {:induction false} FlattenConverted<T, U>(xss: seq<seq<T>>, converter: seq<T> -> seq<U>)
    requires converter([]) == []
    requires forall xs, ys :: converter(xs + ys) == converter(xs) + converter(ys)
    ensures Flatten(Map(xss, converter)) == converter(Flatten(xss))
  {
    if xss != [] {
      FlattenConverted(xss[1..], converter);
      assert Map(xss, converter)[1..] == Map(xss[1..], converter);
    }
  }

  lemma {:induction false} MapConcat<T, U>(xs: seq<T>, ys: seq<T>, f: T -> U)
    ensures Map(xs + ys, f) == Map(xs, f) + Map(ys, f)
  {
  }

  /** `filter` keeps the elements satisfying the predicate, in list order. */
  lemma FilterSpec<T>(threads: int, values: seq<T>, p: T -> bool)
    requires threads >= 1
    ensures FilterList(threads, values, p) == Filter(values, p)
  {
    forall xs, ys ensures FilterBlock(p)(xs + ys) == FilterBlock(p)(xs) + FilterBlock(p)(ys) {
      FilterConcat(xs, ys, p);
    }
    FlattenConverted(Split(threads, values), FilterBlock(p));
    SplitFlatten(threads, values);
  }

  /** `map` applies the function to every element, in list order. */
  lemma MapSpec<T, U>(threads: int, values: seq<T>, f: T -> U)
    requires threads >= 1
    ensures MapList(threads, values, f) == Map(values, f)
  {
    forall xs, ys ensures MapBlock(f)(xs + ys) == MapBlock(f)(xs) + MapBlock(f)(ys) {
      MapConcat(xs, ys, f);
    }
    FlattenConverted(Split(threads, values), MapBlock(f));
    SplitFlatten(threads, values);
  }

  /** `reduce` equals the sequential fold, for an associative operator with an identity. */
  lemma ReduceSpec<T(!new)>(threads: int, values: seq<T>, identity: T, op: (T, T) -> T)
    requires threads >= 1 && IsMonoid(identity, op)
    ensures ReduceList(threads, values, identity, op) == Reduce(values, identity, op)
  {
    forall xs ensures ReduceBlock(identity, op)(xs) == Reduce(Map(xs, Identity), identity, op) {
      MapIdentity(xs);
    }
    SplitFold(threads, values, Identity, identity, op, ReduceBlock(identity, op));
    MapIdentity(values);
  }

  /** `mapReduce` equals lifting every element and folding sequentially. */
  lemma MapReduceSpec<T, R(!new)>(threads: int, values: seq<T>, lift: T -> R, identity: R, op: (R, R) -> R)
    requires threads >= 1 && IsMonoid(identity, op)
    ensures MapReduce(threads, values, lift, identity, op) == Reduce(Map(values, lift), identity, op)
  {
    SplitFold(threads, values, lift, identity, op, MapReduceBlock(lift, identity, op));
  }
}
