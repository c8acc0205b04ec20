/**
  `java.util.TreeSet` as the repository uses it: filled with `addAll` and
  read back in ascending order (`List.copyOf(set)`, iteration). An element
  is added only when no element already present compares equal to it, so
  of each comparator class the first element offered is the one kept.
*/
module TreeSets {
  import opened Comparators

  /** Strictly ascending under `c`: no two elements compare equal. */
  ghost predicate StrictlySorted<T>(xs: seq<T>, c: (T, T) -> int) {
    forall i, j :: 0 <= i < j < |xs| ==> c(xs[i], xs[j]) < 0
  }

  /** Some element of `xs` compares equal to `x`. */
  ghost predicate Represented<T>(xs: seq<T>, c: (T, T) -> int, x: T) {
    exists k :: 0 <= k < |xs| && c(xs[k], x) == 0
  }

  /** `xs[i]` is the first element of `xs` in its comparator class. */
  ghost predicate FirstOfClass<T>(xs: seq<T>, c: (T, T) -> int, i: int) {
    0 <= i < |xs| && forall j :: 0 <= j < i ==> c(xs[j], xs[i]) != 0
  }

  /** `TreeSet.add(x)` on the ascending contents `s`. */
  function Add<T>(s: seq<T>, x: T, c: (T, T) -> int): seq<T> {
    if s == [] then [x]
    else if c(x, s[0]) < 0 then [x] + s
    else if c(x, s[0]) == 0 then s
    else [s[0]] + Add(s[1..], x, c)
  }

  /** The ascending contents of `new TreeSet<>(c)` after `addAll(xs)`. */
  function TreeSetOf<T>(xs: seq<T>, c: (T, T) -> int): seq<T> {
    if xs == [] then [] else Add(TreeSetOf(xs[..|xs| - 1], c), xs[|xs| - 1], c)
  }

  lemma StrictlySortedTail<T>(s: seq<T>, c: (T, T) -> int)
    requires s != [] && StrictlySorted(s, c)
    ensures StrictlySorted(s[1..], c)
  {
    var t := s[1..];
    forall i, j | 0 <= i < j < |t| ensures c(t[i], t[j]) < 0 {
      assert t[i] == s[i + 1] && t[j] == s[j + 1];
    }
  }

  /** `add` leaves the set alone when an element comparing equal to `x` is present. */
  lemma {:induction false} AddPresent<T(!new)>(s: seq<T>, x: T, c: (T, T) -> int)
    requires IsComparator(c) && StrictlySorted(s, c) && Represented(s, c, x)
    ensures Add(s, x, c) == s
  {
    var k :| 0 <= k < |s| && c(s[k], x) == 0;
    if k > 0 {
      Laws(c, s[0], s[k], x);
      StrictlySortedTail(s, c);
      assert c(s[1..][k - 1], x) == 0;
      AddPresent(s[1..], x, c);
      assert s == [s[0]] + s[1..];
    } else {
      Laws(c, s[0], x, x);
    }
  }

  /** `add` either changes nothing or adds exactly `x`. */
  lemma {:induction false} AddContents<T>(s: seq<T>, x: T, c: (T, T) -> int)
    ensures Add(s, x, c) == s || multiset(Add(s, x, c)) == multiset(s) + multiset{x}
  {
    if s != [] && c(x, s[0]) > 0 {
      AddContents(s[1..], x, c);
      assert s == [s[0]] + s[1..];
    }
  }

  /** After `add`, some element compares equal to `x`. */
  lemma {:induction false} AddRepresents<T(!new)>(s: seq<T>, x: T, c: (T, T) -> int)
    requires IsComparator(c)
    ensures Represented(Add(s, x, c), c, x)
  {
    Laws(c, x, x, x);
    if s == [] || c(x, s[0]) < 0 {
      assert c(Add(s, x, c)[0], x) == 0;
    } else if c(x, s[0]) == 0 {
      Laws(c, x, s[0], x);
      assert c(s[0], x) == 0;
    } else {
      AddRepresents(s[1..], x, c);
      var a := Add(s[1..], x, c);
      var k :| 0 <= k < |a| && c(a[k], x) == 0;
      assert Add(s, x, c)[k + 1] == a[k];
    }
  }

  /** Every element of a strictly ascending `s` exceeds its head. */
  lemma HeadBelow<T(!new)>(s: seq<T>, c: (T, T) -> int, y: T)
    requires s != [] && StrictlySorted(s, c) && y in s[1..]
    ensures c(s[0], y) < 0
  {
    var m :| 0 <= m < |s[1..]| && s[1..][m] == y;
    assert s[m + 1] == y;
  }

  /** An element below every element of a strictly ascending sequence can head it. */
  lemma ConsSorted<T>(h: T, a: seq<T>, c: (T, T) -> int)
    requires StrictlySorted(a, c) && forall j :: 0 <= j < |a| ==> c(h, a[j]) < 0
    ensures StrictlySorted([h] + a, c)
  {
    var r := [h] + a;
    forall i, j | 0 <= i < j < |r| ensures c(r[i], r[j]) < 0 {
      if i > 0 {
        assert r[i] == a[i - 1] && r[j] == a[j - 1];
      } else {
        assert r[j] == a[j - 1];
      }
    }
  }

  /** The head of a strictly ascending `s` stays below everything `add` puts after it. */
  lemma AddAfterHead<T(!new)>(s: seq<T>, x: T, c: (T, T) -> int)
    requires IsComparator(c) && s != [] && StrictlySorted(s, c) && c(x, s[0]) > 0
    ensures forall j :: 0 <= j < |Add(s[1..], x, c)| ==> c(s[0], Add(s[1..], x, c)[j]) < 0
  {
    var t := s[1..];
    AddContents(t, x, c);
    var a := Add(t, x, c);
    forall j | 0 <= j < |a| ensures c(s[0], a[j]) < 0 {
      assert a[j] in multiset(a);
      if a[j] != x {
        assert a[j] in multiset(t);
        HeadBelow(s, c, a[j]);
      } else {
        Laws(c, x, s[0], x);
      }
    }
  }

  /** `add` keeps the contents strictly ascending. */
  lemma {:induction false} AddSorted<T(!new)>(s: seq<T>, x: T, c: (T, T) -> int)
    requires IsComparator(c) && StrictlySorted(s, c)
    ensures StrictlySorted(Add(s, x, c), c)
  {
    if s == [] {
    } else if c(x, s[0]) < 0 {
      forall j | 0 <= j < |s| ensures c(x, s[j]) < 0 {
        if j > 0 {
          Laws(c, x, s[0], s[j]);
        }
      }
      ConsSorted(x, s, c);
    } else if c(x, s[0]) > 0 {
      StrictlySortedTail(s, c);
      AddSorted(s[1..], x, c);
      AddAfterHead(s, x, c);
      ConsSorted(s[0], Add(s[1..], x, c), c);
    }
  }

  /** A TreeSet filled from `xs` is strictly ascending. */
  lemma {:induction false} TreeSetOfSorted<T(!new)>(xs: seq<T>, c: (T, T) -> int)
    requires IsComparator(c)
    ensures StrictlySorted(TreeSetOf(xs, c), c)
  {
    if xs != [] {
      TreeSetOfSorted(xs[..|xs| - 1], c);
      AddSorted(TreeSetOf(xs[..|xs| - 1], c), xs[|xs| - 1], c);
    }
  }

  /** What is represented before `add` stays represented. */
  lemma AddKeepsRepresented<T>(s: seq<T>, x: T, c: (T, T) -> int, y: T)
    requires Represented(s, c, y)
    ensures Represented(Add(s, x, c), c, y)
  {
    var k :| 0 <= k < |s| && c(s[k], y) == 0;
    AddContents(s, x, c);
    var r := Add(s, x, c);
    assert s[k] in multiset(s);
    assert s[k] in multiset(r);
    var m :| 0 <= m < |r| && r[m] == s[k];
  }

  /** Every element offered to the TreeSet has a comparator-equal element in it. */
  lemma {:induction false} TreeSetOfRepresents<T(!new)>(xs: seq<T>, c: (T, T) -> int)
    requires IsComparator(c)
    ensures forall i :: 0 <= i < |xs| ==> Represented(TreeSetOf(xs, c), c, xs[i])
  {
    if xs != [] {
      var n := |xs|;
      var init, last := xs[..n - 1], xs[n - 1];
      var s := TreeSetOf(init, c);
      TreeSetOfRepresents(init, c);
      AddRepresents(s, last, c);
      forall i | 0 <= i < n - 1 ensures Represented(Add(s, last, c), c, xs[i]) {
        assert xs[i] == init[i];
        AddKeepsRepresented(s, last, c, xs[i]);
      }
    }
  }

  /** Every element of the TreeSet is the first of its comparator class in `xs`. */
  lemma {:induction false} TreeSetOfKeepsFirst<T(!new)>(xs: seq<T>, c: (T, T) -> int)
    requires IsComparator(c)
    ensures forall k :: 0 <= k < |TreeSetOf(xs, c)| ==>
              exists i :: FirstOfClass(xs, c, i) && TreeSetOf(xs, c)[k] == xs[i]
  {
    if xs != [] {
      var n := |xs|;
      var init, last := xs[..n - 1], xs[n - 1];
      var s := TreeSetOf(init, c);
      TreeSetOfKeepsFirst(init, c);
      TreeSetOfSorted(init, c);
      AddContents(s, last, c);
      var r := Add(s, last, c);
      assert TreeSetOf(xs, c) == r;
      forall k | 0 <= k < |r| ensures exists i :: FirstOfClass(xs, c, i) && r[k] == xs[i] {
        assert r[k] in multiset(r);
        if r[k] in multiset(s) {
          var m :| 0 <= m < |s| && s[m] == r[k];
          var i :| FirstOfClass(init, c, i) && s[m] == init[i];
          forall j | 0 <= j < i ensures c(xs[j], xs[i]) != 0 {
            assert xs[j] == init[j];
          }
          assert FirstOfClass(xs, c, i) && r[k] == xs[i];
        } else {
          assert r != s && r[k] == last;
          if Represented(s, c, last) {
            AddPresent(s, last, c);
          }
          TreeSetOfRepresents(init, c);
          forall j | 0 <= j < n - 1 ensures c(xs[j], last) != 0 {
            assert xs[j] == init[j];
            var m :| 0 <= m < |s| && c(s[m], init[j]) == 0;
            Laws(c, s[m], xs[j], last);
          }
          assert FirstOfClass(xs, c, n - 1);
        }
      }
      assert forall k :: 0 <= k < |TreeSetOf(xs, c)| ==>
               exists i :: FirstOfClass(xs, c, i) && TreeSetOf(xs, c)[k] == xs[i];
    } else {
      assert TreeSetOf(xs, c) == [];
    }
  }

  /** A comparator that finds a tie only between equal values. */
  ghost predicate TiesAreEqual<T(!new)>(c: (T, T) -> int) {
    forall a, b :: c(a, b) == 0 ==> a == b
  }

  /**
    Under a comparator whose ties are equal values, the TreeSet holds
    exactly the distinct input values, each once.
  */
  lemma TreeSetOfElements<T(!new)>(xs: seq<T>, c: (T, T) -> int)
    requires IsComparator(c) && TiesAreEqual(c)
    ensures forall x :: x in TreeSetOf(xs, c) <==> x in xs
    ensures forall i, j :: 0 <= i < j < |TreeSetOf(xs, c)| ==> TreeSetOf(xs, c)[i] != TreeSetOf(xs, c)[j]
  {
    var r := TreeSetOf(xs, c);
    TreeSetOfSorted(xs, c);
    TreeSetOfRepresents(xs, c);
    TreeSetOfKeepsFirst(xs, c);
    forall x | x in xs ensures x in r {
      var i :| 0 <= i < |xs| && xs[i] == x;
      var k :| 0 <= k < |r| && c(r[k], xs[i]) == 0;
    }
    forall x | x in r ensures x in xs {
      var k :| 0 <= k < |r| && r[k] == x;
      var i :| FirstOfClass(xs, c, i) && r[k] == xs[i];
    }
    forall i, j | 0 <= i < j < |r| ensures r[i] != r[j] {
      Laws(c, r[i], r[j], r[i]);
    }
  }
}
