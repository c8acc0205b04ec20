/**
  The `java.util.Comparator` contract and the comparator combinators the
  repository builds its orders from (`reversed`, `thenComparing`,
  `comparing`, `comparingInt`, `Collections.reverseOrder`), together with
  `Integer.compare` and `String.compareTo`.

  A comparator is a function `(T, T) -> int` whose sign says how its two
  arguments are ordered; `IsComparator` is the contract every
  `Comparator.compare` must meet.
*/
module Comparators {

  /** `Integer.signum`. */
  function Signum(x: int): int {
    if x < 0 then -1 else if x > 0 then 1 else 0
  }

  /**
    The three laws of `Comparator.compare`: the sign is antisymmetric,
    "greater than" is transitive, and comparator-equal elements compare
    alike against every third element.
  */
  ghost predicate IsComparator<T(!new)>(c: (T, T) -> int) {
    && (forall x, y :: SignLaw(c, x, y))
    && (forall x, y, z :: TransitiveLaw(c, x, y, z))
    && (forall x, y, z :: TieLaw(c, x, y, z))
  }

  ghost predicate SignLaw<T>(c: (T, T) -> int, x: T, y: T) {
    Signum(c(x, y)) == -Signum(c(y, x))
  }

  ghost predicate TransitiveLaw<T>(c: (T, T) -> int, x: T, y: T, z: T) {
    c(x, y) > 0 && c(y, z) > 0 ==> c(x, z) > 0
  }

  ghost predicate TieLaw<T>(c: (T, T) -> int, x: T, y: T, z: T) {
    c(x, y) == 0 ==> Signum(c(x, z)) == Signum(c(y, z))
  }

  /** The consequences of the comparator laws used throughout the model. */
  lemma Laws<T(!new)>(c: (T, T) -> int, x: T, y: T, z: T)
    requires IsComparator(c)
    ensures c(x, x) == 0
    ensures c(x, y) < 0 <==> c(y, x) > 0
    ensures c(x, y) == 0 <==> c(y, x) == 0
    ensures c(y, z) < 0 <==> c(z, y) > 0
    ensures c(y, z) == 0 <==> c(z, y) == 0
    ensures c(x, z) < 0 <==> c(z, x) > 0
    ensures c(x, z) == 0 <==> c(z, x) == 0
    ensures c(x, y) <= 0 && c(y, z) <= 0 ==> c(x, z) <= 0
    ensures c(x, y) < 0 && c(y, z) <= 0 ==> c(x, z) < 0
    ensures c(x, y) <= 0 && c(y, z) < 0 ==> c(x, z) < 0
    ensures c(x, y) == 0 && c(y, z) == 0 ==> c(x, z) == 0
  {
    assert SignLaw(c, x, x) && SignLaw(c, x, y) && SignLaw(c, y, z) && SignLaw(c, x, z);
    assert TieLaw(c, x, y, z) && TieLaw(c, y, z, x);
    assert TransitiveLaw(c, z, y, x);
  }

  /** `Comparator.reversed()` and `Collections.reverseOrder(c)`: the arguments swapped. */
  function Reversed<T>(c: (T, T) -> int): (T, T) -> int {
    (a: T, b: T) => c(b, a)
  }

  /** `c1.thenComparing(c2)`: `c2` decides only where `c1` finds a tie. */
  function ThenComparing<T>(c1: (T, T) -> int, c2: (T, T) -> int): (T, T) -> int {
    (a: T, b: T) => if c1(a, b) != 0 then c1(a, b) else c2(a, b)
  }

  /** `Comparator.comparing(key, keyOrder)`: compare by an extracted key. */
  function Comparing<T, K>(key: T -> K, keyOrder: (K, K) -> int): (T, T) -> int {
    (a: T, b: T) => keyOrder(key(a), key(b))
  }

  /** `Integer.compare`. */
  function IntCompare(x: int, y: int): int {
    if x < y then -1 else if x == y then 0 else 1
  }

  /**
    `String.compareTo`: the difference of the first differing characters,
    or the difference of the lengths when one string is a prefix of the other.
  */
  function StringCompare(a: string, b: string): int
    decreases |a|
  {
    if |a| == 0 || |b| == 0 then |a| - |b|
    else if a[0] != b[0] then a[0] as int - b[0] as int
    else StringCompare(a[1..], b[1..])
  }

  lemma ReversedIsComparator<T(!new)>(c: (T, T) -> int)
    requires IsComparator(c)
    ensures IsComparator(Reversed(c))
  {
    var r := Reversed(c);
    forall x, y ensures SignLaw(r, x, y) {
      assert SignLaw(c, y, x);
    }
    forall x, y, z ensures TransitiveLaw(r, x, y, z) {
      assert TransitiveLaw(c, z, y, x);
    }
    forall x, y, z ensures TieLaw(r, x, y, z) {
      Laws(c, x, y, z);
      Laws(c, z, x, y);
      Laws(c, z, y, x);
    }
  }

  lemma ThenComparingIsComparator<T(!new)>(c1: (T, T) -> int, c2: (T, T) -> int)
    requires IsComparator(c1) && IsComparator(c2)
    ensures IsComparator(ThenComparing(c1, c2))
  {
    var c := ThenComparing(c1, c2);
    forall x, y ensures SignLaw(c, x, y) {
      Laws(c1, x, y, x);
      Laws(c2, x, y, x);
    }
    forall x, y, z ensures TransitiveLaw(c, x, y, z) {
      Laws(c1, x, y, z);
      Laws(c1, z, y, x);
      Laws(c2, x, y, z);
      Laws(c2, z, y, x);
    }
    forall x, y, z ensures TieLaw(c, x, y, z) {
      Laws(c1, x, y, z);
      Laws(c1, y, x, z);
      Laws(c2, x, y, z);
      Laws(c2, y, x, z);
      Laws(c1, z, x, y);
      Laws(c2, z, x, y);
    }
  }

  lemma ComparingIsComparator<T(!new), K(!new)>(key: T -> K, keyOrder: (K, K) -> int)
    requires IsComparator(keyOrder)
    ensures IsComparator(Comparing(key, keyOrder))
  {
    var c := Comparing(key, keyOrder);
    forall x, y ensures SignLaw(c, x, y) {
      Laws(keyOrder, key(x), key(y), key(x));
    }
    forall x, y, z ensures TransitiveLaw(c, x, y, z) {
      assert TransitiveLaw(keyOrder, key(x), key(y), key(z));
    }
    forall x, y, z ensures TieLaw(c, x, y, z) {
      Laws(keyOrder, key(x), key(y), key(z));
      Laws(keyOrder, key(y), key(x), key(z));
      Laws(keyOrder, key(z), key(x), key(y));
    }
  }

  lemma IntCompareIsComparator()
    ensures IsComparator(IntCompare)
  {
  }

  /** `String.compareTo` is zero exactly on equal strings and antisymmetric. */
  lemma {:induction false} StringCompareBasics(a: string, b: string)
    ensures StringCompare(a, b) == 0 <==> a == b
    ensures StringCompare(a, b) == -StringCompare(b, a)
    decreases |a|
  {
    if |a| == 0 || |b| == 0 {
    } else if a[0] != b[0] {
    } else {
      StringCompareBasics(a[1..], b[1..]);
      if a[1..] == b[1..] {
        assert a == [a[0]] + a[1..] && b == [b[0]] + b[1..];
      }
    }
  }

  /** Lexicographic order is transitive. */
  lemma {:induction false} StringCompareTransitive(a: string, b: string, c: string)
    requires StringCompare(a, b) > 0 && StringCompare(b, c) > 0
    ensures StringCompare(a, c) > 0
    decreases |a|
  {
    if |a| == 0 || |b| == 0 || |c| == 0 {
    } else if a[0] != b[0] || b[0] != c[0] {
    } else {
      StringCompareTransitive(a[1..], b[1..], c[1..]);
    }
  }

  lemma StringCompareIsComparator()
    ensures IsComparator(StringCompare)
  {
    forall x, y ensures SignLaw(StringCompare, x, y) {
      StringCompareBasics(x, y);
    }
    forall x, y, z ensures TransitiveLaw(StringCompare, x, y, z) {
      if StringCompare(x, y) > 0 && StringCompare(y, z) > 0 {
        StringCompareTransitive(x, y, z);
      }
    }
    forall x, y, z ensures TieLaw(StringCompare, x, y, z) {
      StringCompareBasics(x, y);
    }
  }
}
