/**
  `ArraySet`: an immutable navigable set kept as a sorted list. The list is
  wrapped in an `InvertibleList`, which reads its items backwards when
  inverted; this is how `descendingSet` reuses the same items under the
  reversed comparator. Every lookup is a binary search over the list as the
  set presents it (`View`), followed by index arithmetic in `getIndex`.

  The comparator is kept in its effective form: where the source stores
  `null` and lets `TreeSet` and `Collections.binarySearch` fall back to the
  natural order, the model stores the natural order itself.
*/
module ArraySets {
  import opened Wrappers
  import opened Comparators
  import opened Streams
  import opened TreeSets

  /** The exceptions the set's operations throw. */
  datatype SetError = NoSuchElement | IllegalArgument | UnsupportedOperation

  /** `InvertibleList`: the underlying items and whether they are read backwards. */
  datatype InvertibleList<T> = InvertibleList(items: seq<T>, isInverted: bool)

  /** `InvertibleList.get`. */
  function Get<T>(l: InvertibleList<T>, index: int): T
    requires 0 <= index < |l.items|
  {
    l.items[if l.isInverted then |l.items| - 1 - index else index]
  }

  /** The list as iteration and `get` present it. */
  function View<T>(l: InvertibleList<T>): seq<T> {
    seq(|l.items|, (i: int) requires 0 <= i < |l.items| => Get(l, i))
  }

  function Reverse<T>(xs: seq<T>): seq<T> {
    seq(|xs|, (i: int) requires 0 <= i < |xs| => xs[|xs| - 1 - i])
  }

  /** An inverted list presents its items in reverse order, and otherwise as they are. */
  lemma ViewSpec<T>(l: InvertibleList<T>)
    ensures |View(l)| == |l.items|
    ensures !l.isInverted ==> View(l) == l.items
    ensures l.isInverted ==> View(l) == Reverse(l.items)
    ensures forall i :: 0 <= i < |l.items| ==> View(l)[i] == l.items[if l.isInverted then |l.items| - 1 - i else i]
  {
  }

  datatype ArraySet<!T> = ArraySet(list: InvertibleList<T>, cmp: (T, T) -> int)

  /** The elements in iteration order. */
  function Elements<T>(s: ArraySet<T>): seq<T> {
    View(s.list)
  }

  /** The class invariant: the set presents its elements strictly ascending under its comparator. */
  ghost predicate Valid<T>(s: ArraySet<T>) {
    StrictlySorted(Elements(s), s.cmp)
  }

  /**
    `ArraySet(collection, comparator)`: the collection is poured into a
    `TreeSet` with that comparator (the natural order when absent) and the
    result copied into a list read forwards. The no-comparator and empty
    constructors are this with `None` and an empty collection.
  */
  function New<T>(collection: seq<T>, comparator: Option<(T, T) -> int>, natural: (T, T) -> int): ArraySet<T> {
    var c := comparator.GetOr(natural);
    ArraySet(InvertibleList(TreeSetOf(collection, c), false), c)
  }

  /**
    A new set holds the collection's elements strictly ascending: every
    element of the collection has a comparator-equal element in the set,
    and every element of the set is the first of its comparator class in
    the collection.
  */
  lemma NewSpec<T(!new)>(collection: seq<T>, comparator: Option<(T, T) -> int>, natural: (T, T) -> int)
    requires IsComparator(comparator.GetOr(natural))
    ensures Valid(New(collection, comparator, natural))
    ensures New(collection, comparator, natural).cmp == comparator.GetOr(natural)
    ensures forall i :: 0 <= i < |collection| ==>
              Represented(Elements(New(collection, comparator, natural)), comparator.GetOr(natural), collection[i])
    ensures forall k :: 0 <= k < |Elements(New(collection, comparator, natural))| ==>
              exists i :: FirstOfClass(collection, comparator.GetOr(natural), i) &&
                          Elements(New(collection, comparator, natural))[k] == collection[i]
  {
    var c := comparator.GetOr(natural);
    var s, ts := New(collection, comparator, natural), TreeSetOf(collection, c);
    assert s.list == InvertibleList(ts, false);
    ViewSpec(s.list);
    assert Elements(s) == ts;
    TreeSetOfSorted(collection, c);
    TreeSetOfRepresents(collection, c);
    TreeSetOfKeepsFirst(collection, c);
  }

  /** `size()`. */
  function Size<T>(s: ArraySet<T>): nat {
    |s.list.items|
  }

  // ---------------------------------------------------------------------
  // Binary search
  // ---------------------------------------------------------------------

  /** How many leading elements of `view` are below `key`. */
  function CountBelow<T>(view: seq<T>, c: (T, T) -> int, key: T): nat {
    if view == [] || c(view[0], key) >= 0 then 0 else 1 + CountBelow(view[1..], c, key)
  }

  /**
    The result `Collections.binarySearch` promises: the index of the
    element equal to `key`, or `-(insertion point) - 1` when there is none.
  */
  function Search<T>(view: seq<T>, c: (T, T) -> int, key: T): int {
    var ip := CountBelow(view, c, key);
    if ip < |view| && c(view[ip], key) == 0 then ip else -(ip + 1)
  }

  /**
    In a strictly ascending list the elements below `key` form a prefix,
    the element at its end (if any) is the only candidate equal to `key`,
    and everything after it is above `key`.
  */
  lemma {:induction false} CountBelowSpec<T(!new)>(view: seq<T>, c: (T, T) -> int, key: T)
    requires IsComparator(c) && StrictlySorted(view, c)
    ensures CountBelow(view, c, key) <= |view|
    ensures forall i :: 0 <= i < CountBelow(view, c, key) ==> c(view[i], key) < 0
    ensures forall i :: CountBelow(view, c, key) <= i < |view| ==> c(view[i], key) >= 0
    ensures forall i :: CountBelow(view, c, key) < i < |view| ==> c(view[i], key) > 0
  {
    if view != [] && c(view[0], key) < 0 {
      StrictlySortedTail(view, c);
      CountBelowSpec(view[1..], c, key);
      forall i | 0 < i < CountBelow(view, c, key) ensures c(view[i], key) < 0 {
        assert view[i] == view[1..][i - 1];
      }
      forall i | CountBelow(view, c, key) < i < |view| ensures c(view[i], key) > 0 {
        assert view[i] == view[1..][i - 1];
      }
    } else if view != [] {
      forall i | 0 < i < |view| ensures c(view[i], key) > 0 {
        Laws(c, view[0], view[i], key);
        Laws(c, key, view[0], view[i]);
      }
    }
  }

  /** The meaning of `Search`: found exactly when some element equals `key`, otherwise the insertion point. */
  lemma SearchSpec<T(!new)>(view: seq<T>, c: (T, T) -> int, key: T)
    requires IsComparator(c) && StrictlySorted(view, c)
    ensures Search(view, c, key) >= 0 <==> exists k :: 0 <= k < |view| && c(view[k], key) == 0
    ensures Search(view, c, key) >= 0 ==>
              Search(view, c, key) < |view| && c(view[Search(view, c, key)], key) == 0
    ensures Search(view, c, key) < 0 ==>
              var ip := -(Search(view, c, key) + 1);
              && 0 <= ip <= |view|
              && (forall i :: 0 <= i < ip ==> c(view[i], key) < 0)
              && (forall i :: ip <= i < |view| ==> c(view[i], key) > 0)
  {
    CountBelowSpec(view, c, key);
  }

  /**
    `Collections.binarySearch(list, key, c)` on a random-access list: the
    loop of `indexedBinarySearch`, which returns the index found or
    `-(low + 1)`.
  */
  method BinarySearch<T(!new)>(view: seq<T>, c: (T, T) -> int, key: T) returns (r: int)
    requires IsComparator(c) && StrictlySorted(view, c)
    ensures r == Search(view, c, key)
  {
    var low, high := 0, |view| - 1;
    while low <= high
      invariant 0 <= low <= high + 1 <= |view|
      invariant forall i :: 0 <= i < low ==> c(view[i], key) < 0
      invariant forall i :: high < i < |view| ==> c(view[i], key) > 0
      decreases high - low
    {
      var mid := (low + high) / 2;
      var cmp := c(view[mid], key);
      if cmp < 0 {
        forall i | 0 <= i <= mid ensures c(view[i], key) < 0 {
          Laws(c, view[i], view[mid], key);
        }
        low := mid + 1;
      } else if cmp > 0 {
        forall i | mid <= i < |view| ensures c(view[i], key) > 0 {
          Laws(c, key, view[mid], view[i]);
        }
        high := mid - 1;
      } else {
        forall i | 0 <= i < |view| ensures c(view[i], key) < 0 <==> i < mid {
          Laws(c, view[i], view[mid], key);
          Laws(c, key, view[mid], view[i]);
        }
        CountBelowExact(view, c, key, mid);
        return mid;
      }
    }
    CountBelowExact(view, c, key, low);
    return -(low + 1);
  }

  /** When exactly the first `k` elements are below `key`, `CountBelow` is `k`. */
  lemma {:induction false} CountBelowExact<T>(view: seq<T>, c: (T, T) -> int, key: T, k: nat)
    requires k <= |view|
    requires forall i :: 0 <= i < |view| ==> (c(view[i], key) < 0 <==> i < k)
    ensures CountBelow(view, c, key) == k
  {
    if view != [] && k > 0 {
      var t := view[1..];
      forall i | 0 <= i < |t| ensures c(t[i], key) < 0 <==> i < k - 1 {
        assert t[i] == view[i + 1];
      }
      CountBelowExact(t, c, key, k - 1);
    }
  }

  // ---------------------------------------------------------------------
  // getIndex / getElement and the navigation methods
  // ---------------------------------------------------------------------

  /** `isValidIndex`. */
  predicate IsValidIndex<T>(s: ArraySet<T>, index: int) {
    0 <= index < Size(s)
  }

  /** `getIndex`: the binary search result adjusted for the kind of bound, or -1. */
  function GetIndex<T>(s: ArraySet<T>, element: T, isFrom: bool, isInclusive: bool): int {
    var ifNotExist := if isFrom then 0 else -1;
    var ifExist := if isInclusive then 0 else 1 + 2 * ifNotExist;
    var index := Search(Elements(s), s.cmp, element);
    var uncheckedAnswer := if index < 0 then -(index + 1) + ifNotExist else index + ifExist;
    if IsValidIndex(s, uncheckedAnswer) then uncheckedAnswer else -1
  }

  /** `getElement`: the element at `getIndex`, or null. */
  function GetElement<T>(s: ArraySet<T>, t: T, isFrom: bool, isInclusive: bool): Option<T> {
    var index := GetIndex(s, t, isFrom, isInclusive);
    if IsValidIndex(s, index) then Some(Get(s.list, index)) else None
  }

  /** The bound a "from" element sets: at or above it, or strictly above it. */
  function Above<T>(c: (T, T) -> int, from: T, inclusive: bool): T -> bool {
    (x: T) => if inclusive then c(x, from) >= 0 else c(x, from) > 0
  }

  /** The bound a "to" element sets: at or below it, or strictly below it. */
  function Below<T>(c: (T, T) -> int, to: T, inclusive: bool): T -> bool {
    (x: T) => if inclusive then c(x, to) <= 0 else c(x, to) < 0
  }

  /**
    For a "from" bound `getIndex` returns the first index whose element
    satisfies it (or -1 when none does); the elements satisfying it are
    exactly those from that index on.
  */
  lemma FromIndexSpec<T(!new)>(s: ArraySet<T>, e: T, inclusive: bool)
    requires Valid(s) && IsComparator(s.cmp)
    ensures var v, lo := Elements(s), GetIndex(s, e, true, inclusive);
      && -1 <= lo < |v|
      && (lo == -1 ==> forall i :: 0 <= i < |v| ==> !Above(s.cmp, e, inclusive)(v[i]))
      && (lo >= 0 ==> forall i :: 0 <= i < |v| ==> (Above(s.cmp, e, inclusive)(v[i]) <==> lo <= i))
  {
    var v := Elements(s);
    ViewSpec(s.list);
    SearchSpec(v, s.cmp, e);
    CountBelowSpec(v, s.cmp, e);
  }

  /**
    For a "to" bound `getIndex` returns the last index whose element
    satisfies it (or -1 when none does); the elements satisfying it are
    exactly those up to that index.
  */
  lemma ToIndexSpec<T(!new)>(s: ArraySet<T>, e: T, inclusive: bool)
    requires Valid(s) && IsComparator(s.cmp)
    ensures var v, hi := Elements(s), GetIndex(s, e, false, inclusive);
      && -1 <= hi < |v|
      && forall i :: 0 <= i < |v| ==> (Below(s.cmp, e, inclusive)(v[i]) <==> i <= hi)
  {
    var v := Elements(s);
    ViewSpec(s.list);
    SearchSpec(v, s.cmp, e);
    CountBelowSpec(v, s.cmp, e);
  }

  /** `getElement` for a "to" bound yields the greatest element within it, or null when there is none. */
  lemma GreatestWithin<T(!new)>(s: ArraySet<T>, t: T, inclusive: bool)
    requires Valid(s) && IsComparator(s.cmp)
    ensures var v, r := Elements(s), GetElement(s, t, false, inclusive);
      && (r.None? <==> forall i :: 0 <= i < |v| ==> !Below(s.cmp, t, inclusive)(v[i]))
      && (r.Some? ==> r.value in v && Below(s.cmp, t, inclusive)(r.value))
      && (r.Some? ==> forall i :: 0 <= i < |v| && Below(s.cmp, t, inclusive)(v[i]) ==> s.cmp(v[i], r.value) <= 0)
  {
    var v := Elements(s);
    ToIndexSpec(s, t, inclusive);
    var hi := GetIndex(s, t, false, inclusive);
    if hi >= 0 {
      assert Get(s.list, hi) == v[hi];
      forall i | 0 <= i < |v| && Below(s.cmp, t, inclusive)(v[i]) ensures s.cmp(v[i], v[hi]) <= 0 {
        if i < hi {
        } else {
          Laws(s.cmp, v[i], v[i], v[i]);
        }
      }
    }
  }

  /** `getElement` for a "from" bound yields the least element within it, or null when there is none. */
  lemma LeastWithin<T(!new)>(s: ArraySet<T>, t: T, inclusive: bool)
    requires Valid(s) && IsComparator(s.cmp)
    ensures var v, r := Elements(s), GetElement(s, t, true, inclusive);
      && (r.None? <==> forall i :: 0 <= i < |v| ==> !Above(s.cmp, t, inclusive)(v[i]))
      && (r.Some? ==> r.value in v && Above(s.cmp, t, inclusive)(r.value))
      && (r.Some? ==> forall i :: 0 <= i < |v| && Above(s.cmp, t, inclusive)(v[i]) ==> s.cmp(r.value, v[i]) <= 0)
  {
    var v := Elements(s);
    FromIndexSpec(s, t, inclusive);
    var lo := GetIndex(s, t, true, inclusive);
    if lo >= 0 {
      assert Get(s.list, lo) == v[lo];
      forall i | 0 <= i < |v| && Above(s.cmp, t, inclusive)(v[i]) ensures s.cmp(v[lo], v[i]) <= 0 {
        if lo < i {
        } else {
          Laws(s.cmp, v[i], v[i], v[i]);
        }
      }
    }
  }

  /** `lower(t)`. */
  function Lower<T>(s: ArraySet<T>, t: T): Option<T> {
    GetElement(s, t, false, false)
  }

  /** `floor(t)`. */
  function Floor<T>(s: ArraySet<T>, t: T): Option<T> {
    GetElement(s, t, false, true)
  }

  /** `ceiling(t)`. */
  function Ceiling<T>(s: ArraySet<T>, t: T): Option<T> {
    GetElement(s, t, true, true)
  }

  /** `higher(t)`. */
  function Higher<T>(s: ArraySet<T>, t: T): Option<T> {
    GetElement(s, t, true, false)
  }

  /** `lower(t)` is the greatest element strictly below `t`, or null. */
  lemma LowerSpec<T(!new)>(s: ArraySet<T>, t: T)
    requires Valid(s) && IsComparator(s.cmp)
    ensures Lower(s, t).None? <==> forall x :: x in Elements(s) ==> s.cmp(x, t) >= 0
    ensures Lower(s, t).Some? ==> Lower(s, t).value in Elements(s) && s.cmp(Lower(s, t).value, t) < 0
    ensures Lower(s, t).Some? ==>
              forall x :: x in Elements(s) && s.cmp(x, t) < 0 ==> s.cmp(x, Lower(s, t).value) <= 0
  {
    GreatestWithin(s, t, false);
  }

  /** `floor(t)` is the greatest element at or below `t`, or null. */
  lemma FloorSpec<T(!new)>(s: ArraySet<T>, t: T)
    requires Valid(s) && IsComparator(s.cmp)
    ensures Floor(s, t).None? <==> forall x :: x in Elements(s) ==> s.cmp(x, t) > 0
    ensures Floor(s, t).Some? ==> Floor(s, t).value in Elements(s) && s.cmp(Floor(s, t).value, t) <= 0
    ensures Floor(s, t).Some? ==>
              forall x :: x in Elements(s) && s.cmp(x, t) <= 0 ==> s.cmp(x, Floor(s, t).value) <= 0
  {
    GreatestWithin(s, t, true);
  }

  /** `ceiling(t)` is the least element at or above `t`, or null. */
  lemma CeilingSpec<T(!new)>(s: ArraySet<T>, t: T)
    requires Valid(s) && IsComparator(s.cmp)
    ensures Ceiling(s, t).None? <==> forall x :: x in Elements(s) ==> s.cmp(x, t) < 0
    ensures Ceiling(s, t).Some? ==> Ceiling(s, t).value in Elements(s) && s.cmp(Ceiling(s, t).value, t) >= 0
    ensures Ceiling(s, t).Some? ==>
              forall x :: x in Elements(s) && s.cmp(x, t) >= 0 ==> s.cmp(Ceiling(s, t).value, x) <= 0
  {
    LeastWithin(s, t, true);
  }

  /** `higher(t)` is the least element strictly above `t`, or null. */
  lemma HigherSpec<T(!new)>(s: ArraySet<T>, t: T)
    requires Valid(s) && IsComparator(s.cmp)
    ensures Higher(s, t).None? <==> forall x :: x in Elements(s) ==> s.cmp(x, t) <= 0
    ensures Higher(s, t).Some? ==> Higher(s, t).value in Elements(s) && s.cmp(Higher(s, t).value, t) > 0
    ensures Higher(s, t).Some? ==>
              forall x :: x in Elements(s) && s.cmp(x, t) > 0 ==> s.cmp(Higher(s, t).value, x) <= 0
  {
    LeastWithin(s, t, false);
  }

  /** `contains(o)`: the binary search finds `o`. */
  function Contains<T>(s: ArraySet<T>, o: T): bool {
    Search(Elements(s), s.cmp, o) >= 0
  }

  /** `contains(o)` holds exactly when some element compares equal to `o`. */
  lemma ContainsSpec<T(!new)>(s: ArraySet<T>, o: T)
    requires Valid(s) && IsComparator(s.cmp)
    ensures Contains(s, o) <==> Represented(Elements(s), s.cmp, o)
  {
    SearchSpec(Elements(s), s.cmp, o);
  }

  // ---------------------------------------------------------------------
  // first / last / pollFirst / pollLast
  // ---------------------------------------------------------------------

  /** `getElementFromIndex`: the element at `index`, or `NoSuchElementException` for an empty set. */
  function GetElementFromIndex<T>(s: ArraySet<T>, index: int): Result<T, SetError>
    requires Size(s) > 0 ==> 0 <= index < Size(s)
  {
    if Size(s) > 0 then Success(Get(s.list, index)) else Failure(NoSuchElement)
  }

  /** `first()`. */
  function First<T>(s: ArraySet<T>): Result<T, SetError> {
    GetElementFromIndex(s, 0)
  }

  /** `last()`. */
  function Last<T>(s: ArraySet<T>): Result<T, SetError> {
    GetElementFromIndex(s, Size(s) - 1)
  }

  /** `first()` throws exactly on an empty set and otherwise is the least element. */
  lemma FirstSpec<T(!new)>(s: ArraySet<T>)
    requires Valid(s) && IsComparator(s.cmp)
    ensures First(s).Failure? <==> Elements(s) == []
    ensures First(s).Failure? ==> First(s).error == NoSuchElement
    ensures First(s).Success? ==> First(s).value in Elements(s)
    ensures First(s).Success? ==> forall x :: x in Elements(s) ==> s.cmp(First(s).value, x) <= 0
  {
    var v := Elements(s);
    if v != [] {
      assert First(s).value == v[0];
      forall x | x in v ensures s.cmp(v[0], x) <= 0 {
        Laws(s.cmp, x, x, x);
      }
    }
  }

  /** `last()` throws exactly on an empty set and otherwise is the greatest element. */
  lemma LastSpec<T(!new)>(s: ArraySet<T>)
    requires Valid(s) && IsComparator(s.cmp)
    ensures Last(s).Failure? <==> Elements(s) == []
    ensures Last(s).Failure? ==> Last(s).error == NoSuchElement
    ensures Last(s).Success? ==> Last(s).value in Elements(s)
    ensures Last(s).Success? ==> forall x :: x in Elements(s) ==> s.cmp(x, Last(s).value) <= 0
  {
    var v := Elements(s);
    if v != [] {
      assert Last(s).value == v[|v| - 1];
      forall x | x in v ensures s.cmp(x, v[|v| - 1]) <= 0 {
        Laws(s.cmp, x, x, x);
      }
    }
  }

  /** `pollFirst()`: the set is immutable, so this always throws. */
  function PollFirst<T>(s: ArraySet<T>): (r: Result<T, SetError>)
    ensures r == Failure(UnsupportedOperation)
  {
    Failure(UnsupportedOperation)
  }

  /** `pollLast()`: the set is immutable, so this always throws. */
  function PollLast<T>(s: ArraySet<T>): (r: Result<T, SetError>)
    ensures r == Failure(UnsupportedOperation)
  {
    Failure(UnsupportedOperation)
  }

  // ---------------------------------------------------------------------
  // descendingSet
  // ---------------------------------------------------------------------

  /** `descendingSet()`: the same items read the other way, under the reversed comparator. */
  function DescendingSet<T>(s: ArraySet<T>): ArraySet<T> {
    ArraySet(InvertibleList(s.list.items, !s.list.isInverted), Reversed(s.cmp))
  }

  /**
    The descending set has the same elements in reverse order and is again
    a valid set.
  */
  lemma DescendingSetSpec<T(!new)>(s: ArraySet<T>)
    requires Valid(s)
    ensures Size(DescendingSet(s)) == Size(s)
    ensures Elements(DescendingSet(s)) == Reverse(Elements(s))
    ensures Valid(DescendingSet(s))
  {
    var d := DescendingSet(s);
    var v, w := Elements(s), Elements(d);
    DescendingElements(s);
    forall i, j | 0 <= i < j < |w| ensures d.cmp(w[i], w[j]) < 0 {
      assert w[i] == v[|v| - 1 - i] && w[j] == v[|v| - 1 - j];
    }
  }

  lemma DescendingElements<T>(s: ArraySet<T>)
    ensures Elements(DescendingSet(s)) == Reverse(Elements(s))
  {
    ViewSpec(s.list);
    ViewSpec(DescendingSet(s).list);
  }

  /** Descending twice gives back the original elements, order and comparator. */
  lemma DescendingTwice<T>(s: ArraySet<T>)
    ensures Elements(DescendingSet(DescendingSet(s))) == Elements(s)
    ensures forall a, b :: DescendingSet(DescendingSet(s)).cmp(a, b) == s.cmp(a, b)
  {
    ViewSpec(s.list);
    ViewSpec(DescendingSet(DescendingSet(s)).list);
  }

  // ---------------------------------------------------------------------
  // subSet / headSet / tailSet
  // ---------------------------------------------------------------------

  /** The elements a sub-range keeps. */
  function InBounds<T>(c: (T, T) -> int, from: T, fromInclusive: bool, to: T, toInclusive: bool): T -> bool {
    (x: T) => Above(c, from, fromInclusive)(x) && Below(c, to, toInclusive)(x)
  }

  /**
    The slice `[from, to]` of the presented list, as a list with the same
    orientation flag: when inverted the slice is taken on the underlying
    items so that reading it backwards presents the slice in order.
  */
  function Slice<T>(l: InvertibleList<T>, from: int, to: int): (r: InvertibleList<T>)
    requires 0 <= from <= to < |l.items|
    ensures View(r) == View(l)[from .. to + 1]
  {
    var n := |l.items|;
    ViewSpec(l);
    if l.isInverted then
      var r := InvertibleList(l.items[n - 1 - to .. n - from], true);
      ViewSpec(r);
      r
    else
      InvertibleList(l.items[from .. to + 1], false)
  }

  /** `getSubSet`: the elements between the "from" and the "to" index, or an empty set. */
  function GetSubSet<T>(s: ArraySet<T>, fromElement: T, fromInclusive: bool, toElement: T, toInclusive: bool): ArraySet<T> {
    var from := GetIndex(s, fromElement, true, fromInclusive);
    var to := GetIndex(s, toElement, false, toInclusive);
    if !IsValidIndex(s, to) || !IsValidIndex(s, from) || from > to then
      ArraySet(InvertibleList([], s.list.isInverted), s.cmp)
    else
      ArraySet(Slice(s.list, from, to), s.cmp)
  }

  /** Filtering by a predicate that holds exactly on an index interval yields that slice. */
  lemma {:induction false} FilterInterval<T>(xs: seq<T>, p: T -> bool, lo: int, hi: int)
    requires 0 <= lo <= hi <= |xs|
    requires forall i :: 0 <= i < |xs| ==> (p(xs[i]) <==> lo <= i < hi)
    ensures Filter(xs, p) == xs[lo..hi]
  {
    if xs != [] {
      var t := xs[1..];
      var lo', hi' := if lo > 0 then lo - 1 else 0, if hi > 0 then hi - 1 else 0;
      forall i | 0 <= i < |t| ensures p(t[i]) <==> lo' <= i < hi' {
        assert t[i] == xs[i + 1];
      }
      FilterInterval(t, p, lo', hi');
      if p(xs[0]) {
        assert lo == 0 && Filter(xs, p) == [xs[0]] + t[0..hi - 1];
        assert xs[0..hi] == [xs[0]] + t[0..hi - 1];
      } else {
        assert Filter(xs, p) == t[lo'..hi'];
        assert lo > 0 || hi == 0;
        assert xs[lo..hi] == t[lo'..hi'];
      }
    }
  }

  /**
    `getSubSet` keeps exactly the elements within both bounds, in the
    set's order, under the same comparator, and the result is again a
    valid set.
  */
  lemma GetSubSetSpec<T(!new)>(s: ArraySet<T>, from: T, fi: bool, to: T, ti: bool)
    requires Valid(s) && IsComparator(s.cmp)
    ensures GetSubSet(s, from, fi, to, ti).cmp == s.cmp
    ensures Elements(GetSubSet(s, from, fi, to, ti)) == Filter(Elements(s), InBounds(s.cmp, from, fi, to, ti))
    ensures Valid(GetSubSet(s, from, fi, to, ti))
  {
    var v := Elements(s);
    var p := InBounds(s.cmp, from, fi, to, ti);
    var lo, hi := GetIndex(s, from, true, fi), GetIndex(s, to, false, ti);
    BoundsInterval(s, from, fi, to, ti);
    var r := GetSubSet(s, from, fi, to, ti);
    if lo < 0 || hi < 0 || lo > hi {
      FilterInterval(v, p, 0, 0);
      assert Elements(r) == [];
    } else {
      FilterInterval(v, p, lo, hi + 1);
      assert Elements(r) == v[lo .. hi + 1];
      StrictlySortedSlice(v, s.cmp, lo, hi + 1);
    }
  }

  /** The elements within both bounds are those between the "from" and the "to" index, or none. */
  lemma BoundsInterval<T(!new)>(s: ArraySet<T>, from: T, fi: bool, to: T, ti: bool)
    requires Valid(s) && IsComparator(s.cmp)
    ensures var v, lo, hi := Elements(s), GetIndex(s, from, true, fi), GetIndex(s, to, false, ti);
            && -1 <= lo < |v| && -1 <= hi < |v|
            && (lo < 0 || hi < 0 || lo > hi ==> forall i :: 0 <= i < |v| ==> !InBounds(s.cmp, from, fi, to, ti)(v[i]))
            && (0 <= lo <= hi ==> forall i :: 0 <= i < |v| ==> (InBounds(s.cmp, from, fi, to, ti)(v[i]) <==> lo <= i < hi + 1))
  {
    FromIndexSpec(s, from, fi);
    ToIndexSpec(s, to, ti);
  }

  /** A slice of a strictly ascending sequence is strictly ascending. */
  lemma StrictlySortedSlice<T>(v: seq<T>, c: (T, T) -> int, lo: int, hi: int)
    requires StrictlySorted(v, c) && 0 <= lo <= hi <= |v|
    ensures StrictlySorted(v[lo..hi], c)
  {
    var w := v[lo..hi];
    forall i, j | 0 <= i < j < |w| ensures c(w[i], w[j]) < 0 {
      assert w[i] == v[lo + i] && w[j] == v[lo + j];
    }
  }

  /** `subSet(from, fromInclusive, to, toInclusive)`: rejects `from > to`, otherwise `getSubSet`. */
  function SubSet<T>(s: ArraySet<T>, from: T, fi: bool, to: T, ti: bool): Result<ArraySet<T>, SetError> {
    if s.cmp(from, to) > 0 then Failure(IllegalArgument) else Success(GetSubSet(s, from, fi, to, ti))
  }

  /**
    `subSet` throws `IllegalArgumentException` exactly when `from > to`,
    and otherwise keeps exactly the elements within the bounds, in order.
  */
  lemma SubSetSpec<T(!new)>(s: ArraySet<T>, from: T, fi: bool, to: T, ti: bool)
    requires Valid(s) && IsComparator(s.cmp)
    ensures SubSet(s, from, fi, to, ti).Failure? <==> s.cmp(from, to) > 0
    ensures SubSet(s, from, fi, to, ti).Failure? ==> SubSet(s, from, fi, to, ti).error == IllegalArgument
    ensures SubSet(s, from, fi, to, ti).Success? ==>
              && Elements(SubSet(s, from, fi, to, ti).value) == Filter(Elements(s), InBounds(s.cmp, from, fi, to, ti))
              && Valid(SubSet(s, from, fi, to, ti).value)
  {
    GetSubSetSpec(s, from, fi, to, ti);
  }

  /** `headSet(to, inclusive)`: the set itself when empty, otherwise `getSubSet(first(), true, to, inclusive)`. */
  function HeadSet<T>(s: ArraySet<T>, to: T, inclusive: bool): ArraySet<T> {
    if Size(s) == 0 then s else GetSubSet(s, First(s).value, true, to, inclusive)
  }

  /** `tailSet(from, inclusive)`: the set itself when empty, otherwise `getSubSet(from, inclusive, last(), true)`. */
  function TailSet<T>(s: ArraySet<T>, from: T, inclusive: bool): ArraySet<T> {
    if Size(s) == 0 then s else GetSubSet(s, from, inclusive, Last(s).value, true)
  }

  /** `headSet` is the set itself when empty, and otherwise keeps exactly the elements below the bound, in order. */
  lemma HeadSetSpec<T(!new)>(s: ArraySet<T>, to: T, inclusive: bool)
    requires Valid(s) && IsComparator(s.cmp)
    ensures Size(s) == 0 ==> HeadSet(s, to, inclusive) == s
    ensures Elements(HeadSet(s, to, inclusive)) == Filter(Elements(s), Below(s.cmp, to, inclusive))
    ensures Valid(HeadSet(s, to, inclusive))
  {
    var v := Elements(s);
    if Size(s) > 0 {
      FirstSpec(s);
      var first := First(s).value;
      GetSubSetSpec(s, first, true, to, inclusive);
      forall i | 0 <= i < |v|
        ensures InBounds(s.cmp, first, true, to, inclusive)(v[i]) == Below(s.cmp, to, inclusive)(v[i])
      {
        Laws(s.cmp, first, v[i], first);
      }
      FilterSamePredicate(v, InBounds(s.cmp, first, true, to, inclusive), Below(s.cmp, to, inclusive));
    }
  }

  /** `tailSet` is the set itself when empty, and otherwise keeps exactly the elements above the bound, in order. */
  lemma TailSetSpec<T(!new)>(s: ArraySet<T>, from: T, inclusive: bool)
    requires Valid(s) && IsComparator(s.cmp)
    ensures Size(s) == 0 ==> TailSet(s, from, inclusive) == s
    ensures Elements(TailSet(s, from, inclusive)) == Filter(Elements(s), Above(s.cmp, from, inclusive))
    ensures Valid(TailSet(s, from, inclusive))
  {
    var v := Elements(s);
    if Size(s) > 0 {
      LastSpec(s);
      var last := Last(s).value;
      GetSubSetSpec(s, from, inclusive, last, true);
      forall i | 0 <= i < |v|
        ensures InBounds(s.cmp, from, inclusive, last, true)(v[i]) == Above(s.cmp, from, inclusive)(v[i])
      {
        Laws(s.cmp, v[i], last, v[i]);
      }
      FilterSamePredicate(v, InBounds(s.cmp, from, inclusive, last, true), Above(s.cmp, from, inclusive));
    }
  }

  /** `subSet(from, to)` is `subSet(from, true, to, false)`: the half-open range. */
  lemma SubSetHalfOpenSpec<T(!new)>(s: ArraySet<T>, from: T, to: T)
    requires Valid(s) && IsComparator(s.cmp)
    ensures SubSet(s, from, true, to, false).Failure? <==> s.cmp(from, to) > 0
    ensures SubSet(s, from, true, to, false).Success? ==>
              forall x :: x in Elements(SubSet(s, from, true, to, false).value) <==>
                          x in Elements(s) && s.cmp(x, from) >= 0 && s.cmp(x, to) < 0
  {
    SubSetSpec(s, from, true, to, false);
    var p := InBounds(s.cmp, from, true, to, false);
    FilterIn(Elements(s), p);
    forall x ensures p(x) <==> s.cmp(x, from) >= 0 && s.cmp(x, to) < 0 {
      assert p(x) == (Above(s.cmp, from, true)(x) && Below(s.cmp, to, false)(x));
    }
  }

  /** `headSet(to)` is `headSet(to, false)` and `tailSet(from)` is `tailSet(from, true)`. */
  lemma DefaultBoundsSpec<T(!new)>(s: ArraySet<T>, e: T)
    requires Valid(s) && IsComparator(s.cmp)
    ensures forall x :: x in Elements(HeadSet(s, e, false)) <==> x in Elements(s) && s.cmp(x, e) < 0
    ensures forall x :: x in Elements(TailSet(s, e, true)) <==> x in Elements(s) && s.cmp(x, e) >= 0
  {
    HeadSetSpec(s, e, false);
    TailSetSpec(s, e, true);
    FilterIn(Elements(s), Below(s.cmp, e, false));
    FilterIn(Elements(s), Above(s.cmp, e, true));
  }

  // ---------------------------------------------------------------------
  // getSubSet as written
  // ---------------------------------------------------------------------

  /**
    `getSubSet` as the source writes it: `list.subList(from, to + 1)` is a
    slice of the presented list, and it is wrapped again with the current
    `isInverted` flag, so an inverted set reads the slice backwards a
    second time.
  */
  function GetSubSetAsWritten<T>(s: ArraySet<T>, fromElement: T, fromInclusive: bool, toElement: T, toInclusive: bool): (r: ArraySet<T>)
    ensures !s.list.isInverted ==> r == GetSubSet(s, fromElement, fromInclusive, toElement, toInclusive)
  {
    var from := GetIndex(s, fromElement, true, fromInclusive);
    var to := GetIndex(s, toElement, false, toInclusive);
    if !IsValidIndex(s, to) || !IsValidIndex(s, from) || from > to then
      ArraySet(InvertibleList([], s.list.isInverted), s.cmp)
    else
      ViewSpec(s.list);
      ArraySet(InvertibleList(View(s.list)[from .. to + 1], s.list.isInverted), s.cmp)
  }

  /** On the descending view of {1, 2, 3}, the bounds 3 and 1, both inclusive, are the indices 0 and 2. */
  lemma DescendingExampleBounds()
    ensures Elements(DescendingExample()) == [3, 2, 1]
    ensures DescendingExample().list == InvertibleList([1, 2, 3], true)
    ensures GetIndex(DescendingExample(), 3, true, true) == 0
    ensures GetIndex(DescendingExample(), 1, false, true) == 2
  {
    var d := DescendingExample();
    var v := Elements(d);
    ViewSpec(d.list);
    assert v == [3, 2, 1];
    assert d.cmp == Reversed(IntCompare);
    assert forall a: int, b: int :: d.cmp(a, b) == IntCompare(b, a);
    assert CountBelow(v, d.cmp, 3) == 0;
    assert CountBelow(v[1..], d.cmp, 1) == 1 by {
      assert v[1..][1..] == [1];
    }
    assert CountBelow(v, d.cmp, 1) == 2;
  }

  /** The descending view of {1, 2, 3}. */
  function DescendingExample(): ArraySet<int> {
    DescendingSet(ArraySet(InvertibleList([1, 2, 3], false), IntCompare))
  }

  /** As written, the sub-set from 3 down to 1 of the descending view iterates 1, 2, 3. */
  lemma DescendingExampleAsWritten()
    ensures Elements(GetSubSetAsWritten(DescendingExample(), 3, true, 1, true)) == [1, 2, 3]
    ensures GetSubSetAsWritten(DescendingExample(), 3, true, 1, true).cmp == Reversed(IntCompare)
  {
    var d := DescendingExample();
    DescendingExampleBounds();
    ViewSpec(d.list);
    var w := GetSubSetAsWritten(d, 3, true, 1, true);
    assert w.list == InvertibleList([3, 2, 1], true);
    ViewSpec(w.list);
  }

  /** Corrected, the sub-set from 3 down to 1 of the descending view iterates 3, 2, 1. */
  lemma DescendingExampleCorrected()
    ensures Elements(GetSubSet(DescendingExample(), 3, true, 1, true)) == [3, 2, 1]
  {
    var d := DescendingExample();
    DescendingExampleBounds();
    var g := GetSubSet(d, 3, true, 1, true);
    assert g.list == Slice(d.list, 0, 2);
    ViewSpec(d.list);
    ViewSpec(g.list);
    assert Elements(g) == Elements(d)[0..3];
  }

  /**
    On the descending view of {1, 2, 3}, `subSet(3, true, 1, true)` as
    written iterates 1, 2, 3 -- ascending under a descending comparator,
    so the result breaks the set invariant -- where the elements in range
    in descending order are 3, 2, 1.
  */
  lemma DescendingSubSetAsWritten()
    ensures Elements(GetSubSetAsWritten(DescendingExample(), 3, true, 1, true)) == [1, 2, 3]
    ensures !Valid(GetSubSetAsWritten(DescendingExample(), 3, true, 1, true))
    ensures Elements(GetSubSet(DescendingExample(), 3, true, 1, true)) == [3, 2, 1]
  {
    DescendingExampleAsWritten();
    DescendingExampleCorrected();
    var w := GetSubSetAsWritten(DescendingExample(), 3, true, 1, true);
    var e := Elements(w);
    assert e[0] == 1 && e[1] == 2;
    assert Reversed(IntCompare)(1, 2) == IntCompare(2, 1) == 1;
    assert w.cmp(e[0], e[1]) == 1;
  }
}
