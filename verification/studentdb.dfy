/**
  `StudentDB`: queries over student records, each a stream pipeline of
  `map`, `filter`, `sorted`, `groupingBy`, `toMap` and `max` with the
  comparators below.
*/
module StudentDb {
  import opened Wrappers
  import opened Comparators
  import opened Streams
  import opened TreeSets

  /** A group name: an enum constant, ordered by its position in the enum. */
  datatype GroupName = GroupName(ordinal: nat)

  datatype Student = Student(id: int, firstName: string, lastName: string, group: GroupName)

  datatype Group = Group(name: GroupName, students: seq<Student>)

  /** A map entry as the grouping queries compare them: a key and a size. */
  datatype Entry<K> = Entry(key: K, size: int)

  /** The exceptions the id-indexed lookups throw. */
  datatype DbError = DuplicateKey | NullPointer

  function Id(s: Student): int { s.id }
  function FirstName(s: Student): string { s.firstName }
  function LastName(s: Student): string { s.lastName }
  function GroupOf(s: Student): GroupName { s.group }

  /** `getFullName`. */
  function FullName(s: Student): string {
    s.firstName + " " + s.lastName
  }

  function EntryKey<K>(e: Entry<K>): K { e.key }
  function EntrySize<K>(e: Entry<K>): int { e.size }

  /** `Enum.compareTo`: the difference of the ordinals. */
  function GroupCompare(a: GroupName, b: GroupName): int {
    a.ordinal - b.ordinal
  }

  // ---------------------------------------------------------------------
  // The two comparators
  // ---------------------------------------------------------------------

  /** `ID_COMPARATOR = Comparator.comparingInt(Student::getId)`. */
  function IdComparator(): (Student, Student) -> int {
    Comparing(Id, IntCompare)
  }

  /**
    `NAME_ID_COMPARATOR`: by last name then first name, the two together
    reversed, then by id.
  */
  function NameIdComparator(): (Student, Student) -> int {
    ThenComparing(
      Reversed(ThenComparing(Comparing(LastName, StringCompare), Comparing(FirstName, StringCompare))),
      Comparing(Id, IntCompare))
  }

  lemma GroupCompareIsComparator()
    ensures IsComparator(GroupCompare)
    ensures TiesAreEqual(GroupCompare)
  {
  }

  lemma StringTiesAreEqual()
    ensures IsComparator(StringCompare)
    ensures TiesAreEqual(StringCompare)
  {
    StringCompareIsComparator();
    forall a, b ensures StringCompare(a, b) == 0 ==> a == b {
      StringCompareBasics(a, b);
    }
  }

  /** Both student comparators obey the comparator contract. */
  lemma StudentComparatorsAreComparators()
    ensures IsComparator(IdComparator())
    ensures IsComparator(NameIdComparator())
  {
    IntCompareIsComparator();
    StringCompareIsComparator();
    ComparingIsComparator(Id, IntCompare);
    ComparingIsComparator(LastName, StringCompare);
    ComparingIsComparator(FirstName, StringCompare);
    ThenComparingIsComparator(Comparing(LastName, StringCompare), Comparing(FirstName, StringCompare));
    ReversedIsComparator(ThenComparing(Comparing(LastName, StringCompare), Comparing(FirstName, StringCompare)));
    ThenComparingIsComparator(
      Reversed(ThenComparing(Comparing(LastName, StringCompare), Comparing(FirstName, StringCompare))),
      Comparing(Id, IntCompare));
  }

  /**
    `NAME_ID_COMPARATOR` puts `a` first exactly when its last name is
    greater, or the last names are equal and its first name is greater, or
    both names are equal and its id is smaller: `reversed()` covers both
    name keys, and the id is compared ascending.
  */
  lemma NameIdComparatorSpec(a: Student, b: Student)
    ensures NameIdComparator()(a, b) < 0 <==>
              || StringCompare(a.lastName, b.lastName) > 0
              || (a.lastName == b.lastName && StringCompare(a.firstName, b.firstName) > 0)
              || (a.lastName == b.lastName && a.firstName == b.firstName && a.id < b.id)
  {
    StringCompareBasics(a.lastName, b.lastName);
    StringCompareBasics(a.firstName, b.firstName);
    var byLast, byFirst := Comparing(LastName, StringCompare), Comparing(FirstName, StringCompare);
    assert byLast(b, a) == StringCompare(LastName(b), LastName(a));
    assert byFirst(b, a) == StringCompare(FirstName(b), FirstName(a));
    assert Comparing(Id, IntCompare)(a, b) == IntCompare(Id(a), Id(b));
  }

  /** `ID_COMPARATOR` compares the ids. */
  lemma IdOrder(a: Student, b: Student)
    ensures IdComparator()(a, b) == IntCompare(a.id, b.id)
  {
    assert Comparing(Id, IntCompare)(a, b) == IntCompare(Id(a), Id(b));
  }

  // ---------------------------------------------------------------------
  // Mappings
  // ---------------------------------------------------------------------

  /** `getFirstNames`. */
  function GetFirstNames(students: seq<Student>): (r: seq<string>)
    ensures |r| == |students| && forall i :: 0 <= i < |r| ==> r[i] == students[i].firstName
  {
    Map(students, FirstName)
  }

  /** `getLastNames`. */
  function GetLastNames(students: seq<Student>): (r: seq<string>)
    ensures |r| == |students| && forall i :: 0 <= i < |r| ==> r[i] == students[i].lastName
  {
    Map(students, LastName)
  }

  /** `getGroups`. */
  function GetGroups(students: seq<Student>): (r: seq<GroupName>)
    ensures |r| == |students| && forall i :: 0 <= i < |r| ==> r[i] == students[i].group
  {
    Map(students, GroupOf)
  }

  /** `getFullNames`: first name, one space, last name. */
  function GetFullNames(students: seq<Student>): (r: seq<string>)
    ensures |r| == |students|
    ensures forall i :: 0 <= i < |r| ==>
              && |r[i]| == |students[i].firstName| + 1 + |students[i].lastName|
              && r[i][..|students[i].firstName|] == students[i].firstName
              && r[i][|students[i].firstName|] == ' '
              && r[i][|students[i].firstName| + 1..] == students[i].lastName
  {
    Map(students, FullName)
  }

  /** `getDistinctFirstNames`: the first names in a `TreeSet` under `String.compareTo`. */
  function GetDistinctFirstNames(students: seq<Student>): seq<string> {
    TreeSetOf(GetFirstNames(students), StringCompare)
  }

  /** The distinct first names: each student's first name once, in ascending order. */
  lemma DistinctFirstNamesSpec(students: seq<Student>)
    ensures StrictlySorted(GetDistinctFirstNames(students), StringCompare)
    ensures forall n :: n in GetDistinctFirstNames(students) <==> exists s :: s in students && s.firstName == n
    ensures forall i, j :: 0 <= i < j < |GetDistinctFirstNames(students)| ==>
              GetDistinctFirstNames(students)[i] != GetDistinctFirstNames(students)[j]
  {
    StringTiesAreEqual();
    TreeSetOfSorted(GetFirstNames(students), StringCompare);
    TreeSetOfElements(GetFirstNames(students), StringCompare);
    var names := GetFirstNames(students);
    forall n ensures n in names <==> exists s :: s in students && s.firstName == n {
      if n in names {
        var i :| 0 <= i < |names| && names[i] == n;
        assert students[i] in students;
      }
      if exists s :: s in students && s.firstName == n {
        var s :| s in students && s.firstName == n;
        var i :| 0 <= i < |students| && students[i] == s;
        assert names[i] == n;
      }
    }
  }

  /** `getMaxStudentFirstName`: the first name of the student found by `max(ID_COMPARATOR)`, or "". */
  function GetMaxStudentFirstName(students: seq<Student>): string {
    match Max(students, IdComparator())
    case Some(s) => s.firstName
    case None => ""
  }

  /** "" for no students, otherwise the first name of the first student with the greatest id. */
  lemma MaxStudentFirstNameSpec(students: seq<Student>)
    ensures students == [] ==> GetMaxStudentFirstName(students) == ""
    ensures students != [] ==>
              exists k :: 0 <= k < |students|
                && GetMaxStudentFirstName(students) == students[k].firstName
                && (forall i :: 0 <= i < |students| ==> students[i].id <= students[k].id)
                && (forall i :: 0 <= i < k ==> students[i].id < students[k].id)
  {
    StudentComparatorsAreComparators();
    MaxSpec(students, IdComparator());
    if students != [] {
      var k :| IsFirstGreatest(students, IdComparator(), k) && Max(students, IdComparator()).value == students[k];
      forall i | 0 <= i < |students| ensures students[i].id <= students[k].id {
        IdOrder(students[k], students[i]);
      }
      forall i | 0 <= i < k ensures students[i].id < students[k].id {
        IdOrder(students[i], students[k]);
      }
    }
  }

  // ---------------------------------------------------------------------
  // Sorting and searching
  // ---------------------------------------------------------------------

  /** `sortByComparator`: `Stream.sorted(comparator)`. */
  function SortByComparator(students: seq<Student>, comparator: (Student, Student) -> int): seq<Student> {
    Sorted(students, comparator)
  }

  /** `sortStudentsById`. */
  function SortStudentsById(students: seq<Student>): seq<Student> {
    SortByComparator(students, IdComparator())
  }

  /** `sortStudentsByName`. */
  function SortStudentsByName(students: seq<Student>): seq<Student> {
    SortByComparator(students, NameIdComparator())
  }

  /** Under `ID_COMPARATOR` two students are tied exactly when their ids are equal. */
  lemma IdTie(a: Student, k: Student)
    ensures TiedWith(IdComparator(), k)(a) == HasAttribute(Id, k.id)(a)
  {
    IdOrder(a, k);
    assert TiedWith(IdComparator(), k)(a) == (IdComparator()(a, k) == 0);
    assert HasAttribute(Id, k.id)(a) == (Id(a) == k.id);
  }

  /**
    Sorting by id returns the same students with non-decreasing ids, and
    students sharing an id keep their input order.
  */
  lemma SortStudentsByIdSpec(students: seq<Student>)
    ensures multiset(SortStudentsById(students)) == multiset(students)
    ensures forall i, j :: 0 <= i < j < |SortStudentsById(students)| ==>
              SortStudentsById(students)[i].id <= SortStudentsById(students)[j].id
    ensures forall id: int :: Filter(SortStudentsById(students), HasAttribute(Id, id)) ==
              Filter(students, HasAttribute(Id, id))
  {
    StudentComparatorsAreComparators();
    SortedSpec(students, IdComparator());
    var r := SortStudentsById(students);
    forall i, j | 0 <= i < j < |r| ensures r[i].id <= r[j].id {
      IdOrder(r[i], r[j]);
    }
    forall id: int ensures Filter(r, HasAttribute(Id, id)) == Filter(students, HasAttribute(Id, id)) {
      var k := Student(id, "", "", GroupName(0));
      SortedStable(students, IdComparator(), k);
      forall i | 0 <= i < |r| ensures TiedWith(IdComparator(), k)(r[i]) == HasAttribute(Id, id)(r[i]) {
        IdTie(r[i], k);
      }
      forall i | 0 <= i < |students|
        ensures TiedWith(IdComparator(), k)(students[i]) == HasAttribute(Id, id)(students[i])
      {
        IdTie(students[i], k);
      }
      FilterSamePredicate(r, TiedWith(IdComparator(), k), HasAttribute(Id, id));
      FilterSamePredicate(students, TiedWith(IdComparator(), k), HasAttribute(Id, id));
    }
  }

  /** Sorting by name returns the same students in `NAME_ID_COMPARATOR` order. */
  lemma SortStudentsByNameSpec(students: seq<Student>)
    ensures multiset(SortStudentsByName(students)) == multiset(students)
    ensures SortedBy(SortStudentsByName(students), NameIdComparator())
  {
    StudentComparatorsAreComparators();
    SortedSpec(students, NameIdComparator());
  }

  function HasAttribute<T(==)>(f: Student -> T, value: T): Student -> bool {
    (s: Student) => f(s) == value
  }

  /** `findStudentsByAttribute`: the students whose attribute equals `value`, sorted by `NAME_ID_COMPARATOR`. */
  function FindStudentsByAttribute<T(==)>(students: seq<Student>, value: T, f: Student -> T): seq<Student> {
    Sorted(Filter(students, HasAttribute(f, value)), NameIdComparator())
  }

  /** `findStudentsByFirstName`. */
  function FindStudentsByFirstName(students: seq<Student>, name: string): seq<Student> {
    FindStudentsByAttribute(students, name, FirstName)
  }

  /** `findStudentsByLastName`. */
  function FindStudentsByLastName(students: seq<Student>, name: string): seq<Student> {
    FindStudentsByAttribute(students, name, LastName)
  }

  /** `findStudentsByGroup`. */
  function FindStudentsByGroup(students: seq<Student>, group: GroupName): seq<Student> {
    FindStudentsByAttribute(students, group, GroupOf)
  }

  /**
    The search returns exactly the students with the attribute value, each
    as often as it occurs, in `NAME_ID_COMPARATOR` order.
  */
  lemma FindStudentsSpec<T(!new)>(students: seq<Student>, value: T, f: Student -> T)
    ensures multiset(FindStudentsByAttribute(students, value, f)) == multiset(Filter(students, HasAttribute(f, value)))
    ensures forall s :: s in FindStudentsByAttribute(students, value, f) <==> s in students && f(s) == value
    ensures SortedBy(FindStudentsByAttribute(students, value, f), NameIdComparator())
  {
    StudentComparatorsAreComparators();
    var filtered := Filter(students, HasAttribute(f, value));
    SortedSpec(filtered, NameIdComparator());
    FilterIn(students, HasAttribute(f, value));
    var r := FindStudentsByAttribute(students, value, f);
    forall s ensures s in r <==> s in filtered {
      assert s in r <==> s in multiset(r);
      assert s in filtered <==> s in multiset(filtered);
    }
  }

  /**
    `toMap(getLastName, getFirstName, minBy(String::compareTo))`: every
    last name maps to the least first name seen with it.
  */
  function LastToMinFirst(xs: seq<Student>): map<string, string> {
    if xs == [] then map[]
    else
      var m := LastToMinFirst(xs[..|xs| - 1]);
      var s := xs[|xs| - 1];
      m[s.lastName := if s.lastName in m then MinBy(StringCompare, m[s.lastName], s.firstName) else s.firstName]
  }

  /** The keys are exactly the last names present. */
  lemma {:induction false} LastToMinFirstKeys(xs: seq<Student>)
    ensures forall l :: l in LastToMinFirst(xs) <==> exists s :: s in xs && s.lastName == l
  {
    if xs != [] {
      var init, last := xs[..|xs| - 1], xs[|xs| - 1];
      LastToMinFirstKeys(init);
      assert xs == init + [last];
      forall l | l in LastToMinFirst(xs) ensures exists s :: s in xs && s.lastName == l {
        if l != last.lastName {
          assert l in LastToMinFirst(init);
          var s :| s in init && s.lastName == l;
          assert s in xs;
        } else {
          assert last in xs;
        }
      }
    }
  }

  /** Each value is not above the first name of any student with that last name. */
  lemma {:induction false} LastToMinFirstLeast(xs: seq<Student>)
    ensures forall s :: s in xs ==>
              s.lastName in LastToMinFirst(xs) && StringCompare(LastToMinFirst(xs)[s.lastName], s.firstName) <= 0
  {
    if xs != [] {
      var init, last := xs[..|xs| - 1], xs[|xs| - 1];
      LastToMinFirstLeast(init);
      var m := LastToMinFirst(init);
      var m' := LastToMinFirst(xs);
      assert xs == init + [last];
      StringCompareIsComparator();
      forall s | s in xs ensures s.lastName in m' && StringCompare(m'[s.lastName], s.firstName) <= 0 {
        if s.lastName == last.lastName {
          if s == last || s !in init {
            Laws(StringCompare, m'[s.lastName], s.firstName, s.firstName);
          } else {
            Laws(StringCompare, m'[s.lastName], m[s.lastName], s.firstName);
          }
        }
      }
    }
  }

  /** Each value is the first name of some student with that last name. */
  lemma {:induction false} LastToMinFirstWitness(xs: seq<Student>)
    ensures forall l :: l in LastToMinFirst(xs) ==>
              exists s :: s in xs && s.lastName == l && s.firstName == LastToMinFirst(xs)[l]
  {
    if xs != [] {
      var init, last := xs[..|xs| - 1], xs[|xs| - 1];
      LastToMinFirstWitness(init);
      var m := LastToMinFirst(init);
      var m' := LastToMinFirst(xs);
      assert xs == init + [last];
      forall l | l in m' ensures exists s :: s in xs && s.lastName == l && s.firstName == m'[l] {
        if l != last.lastName || (l in m && m'[l] == m[l]) {
          var s :| s in init && s.lastName == l && s.firstName == m[l];
          assert s in xs;
        } else {
          assert last in xs;
        }
      }
    }
  }

  /**
    The keys are the last names present; each value is the first name of a
    student with that last name and is not above any such student's first
    name.
  */
  lemma LastToMinFirstSpec(xs: seq<Student>)
    ensures forall l :: l in LastToMinFirst(xs) <==> exists s :: s in xs && s.lastName == l
    ensures forall s :: s in xs ==> StringCompare(LastToMinFirst(xs)[s.lastName], s.firstName) <= 0
    ensures forall l :: l in LastToMinFirst(xs) ==>
              exists s :: s in xs && s.lastName == l && s.firstName == LastToMinFirst(xs)[l]
  {
    LastToMinFirstKeys(xs);
    LastToMinFirstLeast(xs);
    LastToMinFirstWitness(xs);
  }

  /** `findStudentNamesByGroup`. */
  function FindStudentNamesByGroup(students: seq<Student>, group: GroupName): map<string, string> {
    LastToMinFirst(FindStudentsByGroup(students, group))
  }

  /**
    Each last name in the group maps to the lexicographically least first
    name among the group's students with that last name.
  */
  lemma FindStudentNamesByGroupSpec(students: seq<Student>, group: GroupName)
    ensures forall l :: l in FindStudentNamesByGroup(students, group) <==>
              exists s :: s in students && s.group == group && s.lastName == l
    ensures forall s :: s in students && s.group == group ==>
              StringCompare(FindStudentNamesByGroup(students, group)[s.lastName], s.firstName) <= 0
    ensures forall l :: l in FindStudentNamesByGroup(students, group) ==>
              exists s :: s in students && s.group == group && s.lastName == l &&
                          s.firstName == FindStudentNamesByGroup(students, group)[l]
  {
    FindStudentsSpec(students, group, GroupOf);
    LastToMinFirstSpec(FindStudentsByGroup(students, group));
  }

  // ---------------------------------------------------------------------
  // Grouping
  // ---------------------------------------------------------------------

  function InGroup(g: GroupName): Student -> bool {
    (s: Student) => s.group == g
  }

  /** `groupingBy(getGroup)` applied after `sorted(comparing(getGroup))`: the list collected for `g`. */
  function Grouped(students: seq<Student>, g: GroupName): seq<Student> {
    Filter(Sorted(students, Comparing(GroupOf, GroupCompare)), InGroup(g))
  }

  /** The keys of the grouping map, in ascending order (the order of the final `sorted(comparing(getName))`). */
  function GroupNames(students: seq<Student>): seq<GroupName> {
    TreeSetOf(GetGroups(students), GroupCompare)
  }

  /** The groups are named in strictly ascending order, one per group that has students. */
  lemma GroupNamesSpec(students: seq<Student>)
    ensures StrictlySorted(GroupNames(students), GroupCompare)
    ensures forall g :: g in GroupNames(students) <==> exists s :: s in students && s.group == g
  {
    GroupCompareIsComparator();
    TreeSetOfSorted(GetGroups(students), GroupCompare);
    TreeSetOfElements(GetGroups(students), GroupCompare);
    var gs := GetGroups(students);
    forall g ensures g in gs <==> exists s :: s in students && s.group == g {
      if g in gs {
        var i :| 0 <= i < |gs| && gs[i] == g;
        assert students[i] in students;
      }
      if exists s :: s in students && s.group == g {
        var s :| s in students && s.group == g;
        var i :| 0 <= i < |students| && students[i] == s;
        assert gs[i] == g;
      }
    }
  }

  /** The list collected for `g` holds exactly the students of `g`. */
  lemma GroupedSpec(students: seq<Student>, g: GroupName)
    ensures multiset(Grouped(students, g)) == multiset(Filter(students, InGroup(g)))
    ensures forall s :: s in Grouped(students, g) <==> s in students && s.group == g
    ensures |Grouped(students, g)| == |Filter(students, InGroup(g))|
  {
    GroupCompareIsComparator();
    ComparingIsComparator(GroupOf, GroupCompare);
    var sorted := Sorted(students, Comparing(GroupOf, GroupCompare));
    SortedSpec(students, Comparing(GroupOf, GroupCompare));
    FilterPermutation(sorted, students, InGroup(g));
    FilterIn(students, InGroup(g));
    var r := Grouped(students, g);
    forall s ensures s in r <==> s in Filter(students, InGroup(g)) {
      assert s in r <==> s in multiset(r);
      assert s in Filter(students, InGroup(g)) <==> s in multiset(Filter(students, InGroup(g)));
    }
    assert |multiset(r)| == |multiset(Filter(students, InGroup(g)))|;
  }

  /** `getGroupsByFunction`: one group per name, its students given to `perGroup`, the groups in name order. */
  function GetGroupsByFunction(students: seq<Student>, perGroup: seq<Student> -> seq<Student>): seq<Group> {
    Map(GroupNames(students), (g: GroupName) => Group(g, perGroup(Grouped(students, g))))
  }

  /** `getGroupsByName`. */
  function GetGroupsByName(students: seq<Student>): seq<Group> {
    GetGroupsByFunction(students, SortStudentsByName)
  }

  /** `getGroupsById`. */
  function GetGroupsById(students: seq<Student>): seq<Group> {
    GetGroupsByFunction(students, SortStudentsById)
  }

  /** The group at each position is named by the group name at that position and holds `perGroup` of its list. */
  lemma GroupsByFunctionAt(students: seq<Student>, perGroup: seq<Student> -> seq<Student>)
    ensures |GetGroupsByFunction(students, perGroup)| == |GroupNames(students)|
    ensures forall i :: 0 <= i < |GroupNames(students)| ==>
              GetGroupsByFunction(students, perGroup)[i] ==
                Group(GroupNames(students)[i], perGroup(Grouped(students, GroupNames(students)[i])))
  {
  }

  /** The groups come in strictly ascending name order. */
  lemma GroupsByFunctionOrder(students: seq<Student>, perGroup: seq<Student> -> seq<Student>)
    ensures forall i, j :: 0 <= i < j < |GetGroupsByFunction(students, perGroup)| ==>
              GetGroupsByFunction(students, perGroup)[i].name.ordinal < GetGroupsByFunction(students, perGroup)[j].name.ordinal
  {
    var names := GroupNames(students);
    var r := GetGroupsByFunction(students, perGroup);
    GroupsByFunctionAt(students, perGroup);
    GroupNamesSpec(students);
    forall i, j | 0 <= i < j < |r| ensures r[i].name.ordinal < r[j].name.ordinal {
      assert GroupCompare(names[i], names[j]) < 0;
    }
  }

  /**
    There is a group for every group name some student has and for no
    other, and each holds `perGroup` of the list collected for it.
  */
  lemma GroupsByFunctionMembers(students: seq<Student>, perGroup: seq<Student> -> seq<Student>)
    ensures forall s :: s in students ==>
              exists i :: 0 <= i < |GetGroupsByFunction(students, perGroup)| && GetGroupsByFunction(students, perGroup)[i].name == s.group
    ensures forall i :: 0 <= i < |GetGroupsByFunction(students, perGroup)| ==>
              && (exists s :: s in students && s.group == GetGroupsByFunction(students, perGroup)[i].name)
              && GetGroupsByFunction(students, perGroup)[i].students ==
                 perGroup(Grouped(students, GetGroupsByFunction(students, perGroup)[i].name))
  {
    var names := GroupNames(students);
    var r := GetGroupsByFunction(students, perGroup);
    GroupsByFunctionAt(students, perGroup);
    GroupNamesSpec(students);
    forall s | s in students ensures exists i :: 0 <= i < |r| && r[i].name == s.group {
      assert s.group in names;
      var i :| 0 <= i < |names| && names[i] == s.group;
      assert r[i].name == s.group;
    }
    forall i | 0 <= i < |r| ensures exists s :: s in students && s.group == r[i].name {
      assert names[i] in names;
    }
  }

  /** The list `getGroupsByName` builds for group `g`: its students, sorted by `NAME_ID_COMPARATOR`. */
  lemma GroupByNameList(students: seq<Student>, g: GroupName)
    ensures multiset(SortStudentsByName(Grouped(students, g))) == multiset(Filter(students, InGroup(g)))
    ensures SortedBy(SortStudentsByName(Grouped(students, g)), NameIdComparator())
  {
    GroupedSpec(students, g);
    SortStudentsByNameSpec(Grouped(students, g));
  }

  /** Every group of `getGroupsByName` holds exactly its students, sorted by `NAME_ID_COMPARATOR`. */
  lemma GroupsByNameSpec(students: seq<Student>)
    ensures forall i :: 0 <= i < |GetGroupsByName(students)| ==>
              && multiset(GetGroupsByName(students)[i].students) ==
                 multiset(Filter(students, InGroup(GetGroupsByName(students)[i].name)))
              && SortedBy(GetGroupsByName(students)[i].students, NameIdComparator())
  {
    var r := GetGroupsByName(students);
    GroupsByFunctionAt(students, SortStudentsByName);
    forall i | 0 <= i < |r|
      ensures multiset(r[i].students) == multiset(Filter(students, InGroup(r[i].name)))
      ensures SortedBy(r[i].students, NameIdComparator())
    {
      assert r[i].students == SortStudentsByName(Grouped(students, r[i].name));
      GroupByNameList(students, r[i].name);
    }
  }

  /** The list `getGroupsById` builds for group `g`: its students, in non-decreasing id order. */
  lemma GroupByIdList(students: seq<Student>, g: GroupName)
    ensures multiset(SortStudentsById(Grouped(students, g))) == multiset(Filter(students, InGroup(g)))
    ensures forall a, b :: 0 <= a < b < |SortStudentsById(Grouped(students, g))| ==>
              SortStudentsById(Grouped(students, g))[a].id <= SortStudentsById(Grouped(students, g))[b].id
  {
    GroupedSpec(students, g);
    SortStudentsByIdSpec(Grouped(students, g));
  }

  /** Every group of `getGroupsById` holds exactly its students, in non-decreasing id order. */
  lemma GroupsByIdSpec(students: seq<Student>)
    ensures forall i :: 0 <= i < |GetGroupsById(students)| ==>
              && multiset(GetGroupsById(students)[i].students) ==
                 multiset(Filter(students, InGroup(GetGroupsById(students)[i].name)))
              && forall a, b :: 0 <= a < b < |GetGroupsById(students)[i].students| ==>
                   GetGroupsById(students)[i].students[a].id <= GetGroupsById(students)[i].students[b].id
  {
    var r := GetGroupsById(students);
    GroupsByFunctionAt(students, SortStudentsById);
    forall i | 0 <= i < |r|
      ensures multiset(r[i].students) == multiset(Filter(students, InGroup(r[i].name)))
      ensures forall a, b :: 0 <= a < b < |r[i].students| ==> r[i].students[a].id <= r[i].students[b].id
    {
      assert r[i].students == SortStudentsById(Grouped(students, r[i].name));
      GroupByIdList(students, r[i].name);
    }
  }

  // ---------------------------------------------------------------------
  // Largest group and most popular name
  // ---------------------------------------------------------------------

  /** `comparingInt(Map.Entry::getValue)`. */
  function BySize<K>(): (Entry<K>, Entry<K>) -> int {
    Comparing(EntrySize, IntCompare)
  }

  /** `comparingInt(getValue)` compares the sizes. */
  lemma SizeOrder<K>(a: Entry<K>, b: Entry<K>)
    ensures BySize()(a, b) == IntCompare(a.size, b.size)
  {
    assert Comparing(EntrySize, IntCompare)(a, b) == IntCompare(EntrySize(a), EntrySize(b));
  }

  /** `max` by size: the first entry of the greatest size. */
  lemma MaxBySize<K(!new)>(entries: seq<Entry<K>>) returns (k: int)
    requires entries != []
    ensures 0 <= k < |entries| && Max(entries, BySize()) == Some(entries[k])
    ensures forall i :: 0 <= i < |entries| ==> entries[i].size <= entries[k].size
    ensures forall i :: 0 <= i < k ==> entries[i].size < entries[k].size
  {
    var c := BySize<K>();
    IntCompareIsComparator();
    ComparingIsComparator(EntrySize<K>, IntCompare);
    MaxSpec(entries, c);
    k :| IsFirstGreatest(entries, c, k) && Max(entries, c).value == entries[k];
    forall i | 0 <= i < |entries| ensures entries[i].size <= entries[k].size {
      SizeOrder(entries[k], entries[i]);
    }
    forall i | 0 <= i < k ensures entries[i].size < entries[k].size {
      SizeOrder(entries[i], entries[k]);
    }
  }

  /** `max` by size, then by `keyOrder`: an entry of the greatest size that `keyOrder` puts last among those. */
  lemma MaxBySizeThen<K(!new)>(entries: seq<Entry<K>>, keyOrder: (Entry<K>, Entry<K>) -> int) returns (k: int)
    requires IsComparator(keyOrder) && entries != []
    ensures 0 <= k < |entries| && Max(entries, ThenComparing(BySize(), keyOrder)) == Some(entries[k])
    ensures forall i :: 0 <= i < |entries| ==>
              || entries[i].size < entries[k].size
              || (entries[i].size == entries[k].size && keyOrder(entries[k], entries[i]) >= 0)
  {
    var c := ThenComparing(BySize<K>(), keyOrder);
    IntCompareIsComparator();
    ComparingIsComparator(EntrySize<K>, IntCompare);
    ThenComparingIsComparator(BySize<K>(), keyOrder);
    MaxSpec(entries, c);
    k :| IsFirstGreatest(entries, c, k) && Max(entries, c).value == entries[k];
    forall i | 0 <= i < |entries|
      ensures || entries[i].size < entries[k].size
              || (entries[i].size == entries[k].size && keyOrder(entries[k], entries[i]) >= 0)
    {
      assert c(entries[k], entries[i]) >= 0;
      SizeOrder(entries[k], entries[i]);
    }
  }

  /** How many students a group has. */
  function GroupSize(students: seq<Student>, g: GroupName): nat {
    |Filter(students, InGroup(g))|
  }

  /** The entries of the grouping map: each group name with the size of its list. */
  function GroupEntries(students: seq<Student>): seq<Entry<GroupName>> {
    Map(GroupNames(students), (g: GroupName) => Entry(g, |Grouped(students, g)|))
  }

  /** `comparingInt(size).thenComparing(getKey)` on grouping entries. */
  function SizeThenName(): (Entry<GroupName>, Entry<GroupName>) -> int {
    ThenComparing(BySize(), Comparing(EntryKey, GroupCompare))
  }

  /** `getLargestGroup`: the key of the entry that `max(SizeThenName)` finds, or null. */
  function GetLargestGroup(students: seq<Student>): Option<GroupName> {
    match Max(GroupEntries(students), SizeThenName())
    case Some(e) => Some(e.key)
    case None => None
  }

  /** Each entry of the grouping map pairs a group name with the number of students in that group. */
  lemma GroupEntriesSpec(students: seq<Student>)
    ensures |GroupEntries(students)| == |GroupNames(students)|
    ensures forall i :: 0 <= i < |GroupNames(students)| ==>
              GroupEntries(students)[i] == Entry(GroupNames(students)[i], GroupSize(students, GroupNames(students)[i]))
  {
    var names := GroupNames(students);
    forall i | 0 <= i < |names|
      ensures GroupEntries(students)[i] == Entry(names[i], GroupSize(students, names[i]))
    {
      GroupedSpec(students, names[i]);
    }
  }

  /** There are no group names exactly when there are no students. */
  lemma GroupNamesEmpty(students: seq<Student>)
    ensures GroupNames(students) == [] <==> students == []
  {
    GroupNamesSpec(students);
    if students != [] {
      assert students[0] in students;
      assert students[0].group in GroupNames(students);
    }
  }

  /** Over the ascending group names, `getLargestGroup` picks a largest group, the last among the largest. */
  lemma LargestGroupIndex(students: seq<Student>) returns (k: int)
    requires students != []
    ensures 0 <= k < |GroupNames(students)| && GetLargestGroup(students) == Some(GroupNames(students)[k])
    ensures forall i :: 0 <= i < |GroupNames(students)| ==>
              || GroupSize(students, GroupNames(students)[i]) < GroupSize(students, GroupNames(students)[k])
              || (GroupSize(students, GroupNames(students)[i]) == GroupSize(students, GroupNames(students)[k]) &&
                  GroupNames(students)[i].ordinal <= GroupNames(students)[k].ordinal)
  {
    var names := GroupNames(students);
    var entries := GroupEntries(students);
    GroupNamesEmpty(students);
    GroupEntriesSpec(students);
    GroupCompareIsComparator();
    ComparingIsComparator(EntryKey<GroupName>, GroupCompare);
    k := MaxBySizeThen(entries, Comparing(EntryKey<GroupName>, GroupCompare));
    var g := names[k];
    assert entries[k] == Entry(g, GroupSize(students, g));
    assert GetLargestGroup(students) == Some(g);
    forall i | 0 <= i < |names|
      ensures || GroupSize(students, names[i]) < GroupSize(students, g)
              || (GroupSize(students, names[i]) == GroupSize(students, g) && names[i].ordinal <= g.ordinal)
    {
      assert entries[i] == Entry(names[i], GroupSize(students, names[i]));
      assert Comparing(EntryKey<GroupName>, GroupCompare)(entries[k], entries[i]) ==
             GroupCompare(EntryKey(entries[k]), EntryKey(entries[i]));
    }
  }

  /**
    The group with the most students, size ties going to the greater group
    name; null exactly when there are no students.
  */
  lemma LargestGroupSpec(students: seq<Student>)
    ensures GetLargestGroup(students).None? <==> students == []
    ensures GetLargestGroup(students).Some? ==>
              && (exists s :: s in students && s.group == GetLargestGroup(students).value)
              && forall s :: s in students ==>
                   || GroupSize(students, s.group) < GroupSize(students, GetLargestGroup(students).value)
                   || (GroupSize(students, s.group) == GroupSize(students, GetLargestGroup(students).value) &&
                       s.group.ordinal <= GetLargestGroup(students).value.ordinal)
  {
    var names := GroupNames(students);
    GroupNamesEmpty(students);
    GroupEntriesSpec(students);
    if students != [] {
      var k := LargestGroupIndex(students);
      var g := names[k];
      GroupNamesSpec(students);
      assert g in names;
      forall s | s in students
        ensures || GroupSize(students, s.group) < GroupSize(students, g)
                || (GroupSize(students, s.group) == GroupSize(students, g) && s.group.ordinal <= g.ordinal)
      {
        assert s.group in names;
        var i :| 0 <= i < |names| && names[i] == s.group;
      }
    }
  }

  /** The number of different first names among a group's students. */
  function DistinctFirstNameCount(students: seq<Student>, g: GroupName): nat {
    |set s | s in students && s.group == g :: s.firstName|
  }

  /** The entries `getLargestGroupFirstName` compares: each group with its number of distinct first names. */
  function FirstNameEntries(students: seq<Student>): seq<Entry<GroupName>> {
    Map(GetGroupsByName(students), (grp: Group) => Entry(grp.name, |GetDistinctFirstNames(grp.students)|))
  }

  /** `getLargestGroupFirstName`: over `getGroupsByName`, the first group with the most distinct first names, or null. */
  function GetLargestGroupFirstName(students: seq<Student>): Option<GroupName> {
    match Max(FirstNameEntries(students), BySize())
    case Some(e) => Some(e.key)
    case None => None
  }

  /** A list without repeated elements has as many elements as its set. */
  lemma {:induction false} DistinctCard<T(!new)>(xs: seq<T>)
    requires forall i, j :: 0 <= i < j < |xs| ==> xs[i] != xs[j]
    ensures |set x | x in xs| == |xs|
  {
    if xs != [] {
      var t := xs[1..];
      DistinctCard(t);
      assert (set x | x in xs) == (set x | x in t) + {xs[0]};
      assert xs[0] !in t;
    }
  }

  /** The number of distinct first names of a list of students. */
  lemma DistinctFirstNamesCount(xs: seq<Student>)
    ensures |GetDistinctFirstNames(xs)| == |set s | s in xs :: s.firstName|
  {
    DistinctFirstNamesSpec(xs);
    var r := GetDistinctFirstNames(xs);
    DistinctCard(r);
    assert (set x | x in r) == (set s | s in xs :: s.firstName);
  }

  /** The entry `getLargestGroupFirstName` builds for a group counts its distinct first names. */
  lemma GroupFirstNameCount(students: seq<Student>, g: GroupName)
    ensures |GetDistinctFirstNames(SortStudentsByName(Grouped(students, g)))| == DistinctFirstNameCount(students, g)
  {
    var sorted := SortStudentsByName(Grouped(students, g));
    GroupedSpec(students, g);
    SortStudentsByNameSpec(Grouped(students, g));
    DistinctFirstNamesCount(sorted);
    forall s ensures s in sorted <==> s in students && s.group == g {
      assert s in sorted <==> s in multiset(sorted);
      assert s in Grouped(students, g) <==> s in multiset(Grouped(students, g));
    }
    assert (set s | s in sorted :: s.firstName) == (set s | s in students && s.group == g :: s.firstName);
  }

  /** The entries of `getLargestGroupFirstName` name the groups in ascending order with their distinct first-name counts. */
  lemma FirstNameEntriesSpec(students: seq<Student>)
    ensures |FirstNameEntries(students)| == |GroupNames(students)|
    ensures forall i :: 0 <= i < |FirstNameEntries(students)| ==>
              FirstNameEntries(students)[i] == Entry(GroupNames(students)[i], DistinctFirstNameCount(students, GroupNames(students)[i]))
  {
    var names := GroupNames(students);
    var entries := FirstNameEntries(students);
    forall i | 0 <= i < |entries|
      ensures entries[i] == Entry(names[i], DistinctFirstNameCount(students, names[i]))
    {
      GroupFirstNameCount(students, names[i]);
    }
  }

  /** Over entries keyed by ascending group names, `max` by size finds a largest entry with the smallest name among the largest. */
  lemma MaxBySizeKeepsSmallestName(entries: seq<Entry<GroupName>>) returns (k: int)
    requires entries != []
    requires forall i, j :: 0 <= i < j < |entries| ==> entries[i].key.ordinal < entries[j].key.ordinal
    ensures 0 <= k < |entries| && Max(entries, BySize()) == Some(entries[k])
    ensures forall i :: 0 <= i < |entries| ==>
              || entries[i].size < entries[k].size
              || (entries[i].size == entries[k].size && entries[k].key.ordinal <= entries[i].key.ordinal)
  {
    k := MaxBySize(entries);
    forall i | 0 <= i < |entries|
      ensures || entries[i].size < entries[k].size
              || (entries[i].size == entries[k].size && entries[k].key.ordinal <= entries[i].key.ordinal)
    {
      if i < k {
        assert entries[i].size < entries[k].size;
      } else if k < i {
        assert entries[k].key.ordinal < entries[i].key.ordinal;
      }
    }
  }

  /** Over the ascending group names, `getLargestGroupFirstName` picks the first with the most distinct first names. */
  lemma LargestGroupFirstNameIndex(students: seq<Student>) returns (k: int)
    requires students != []
    ensures 0 <= k < |GroupNames(students)| && GetLargestGroupFirstName(students) == Some(GroupNames(students)[k])
    ensures forall i :: 0 <= i < |GroupNames(students)| ==>
              || DistinctFirstNameCount(students, GroupNames(students)[i]) <
                   DistinctFirstNameCount(students, GroupNames(students)[k])
              || (DistinctFirstNameCount(students, GroupNames(students)[i]) ==
                    DistinctFirstNameCount(students, GroupNames(students)[k]) &&
                  GroupNames(students)[k].ordinal <= GroupNames(students)[i].ordinal)
  {
    var names := GroupNames(students);
    var entries := FirstNameEntries(students);
    GroupNamesEmpty(students);
    FirstNameEntriesSpec(students);
    GroupNamesSpec(students);
    forall i, j | 0 <= i < j < |entries| ensures entries[i].key.ordinal < entries[j].key.ordinal {
      assert GroupCompare(names[i], names[j]) < 0;
    }
    k := MaxBySizeKeepsSmallestName(entries);
    var g := names[k];
    assert entries[k] == Entry(g, DistinctFirstNameCount(students, g));
    assert GetLargestGroupFirstName(students) == Some(g);
    forall i | 0 <= i < |names|
      ensures || DistinctFirstNameCount(students, names[i]) < DistinctFirstNameCount(students, g)
              || (DistinctFirstNameCount(students, names[i]) == DistinctFirstNameCount(students, g) &&
                  g.ordinal <= names[i].ordinal)
    {
      assert entries[i] == Entry(names[i], DistinctFirstNameCount(students, names[i]));
    }
  }

  /**
    The group with the most distinct first names, ties going to the
    smaller group name; null exactly when there are no students.
  */
  lemma LargestGroupFirstNameSpec(students: seq<Student>)
    ensures GetLargestGroupFirstName(students).None? <==> students == []
    ensures GetLargestGroupFirstName(students).Some? ==>
              && (exists s :: s in students && s.group == GetLargestGroupFirstName(students).value)
              && forall s :: s in students ==>
                   || DistinctFirstNameCount(students, s.group) <
                        DistinctFirstNameCount(students, GetLargestGroupFirstName(students).value)
                   || (DistinctFirstNameCount(students, s.group) ==
                         DistinctFirstNameCount(students, GetLargestGroupFirstName(students).value) &&
                       GetLargestGroupFirstName(students).value.ordinal <= s.group.ordinal)
  {
    var names := GroupNames(students);
    GroupNamesEmpty(students);
    FirstNameEntriesSpec(students);
    if students != [] {
      var k := LargestGroupFirstNameIndex(students);
      var g := names[k];
      GroupNamesSpec(students);
      assert g in names;
      forall s | s in students
        ensures || DistinctFirstNameCount(students, s.group) < DistinctFirstNameCount(students, g)
                || (DistinctFirstNameCount(students, s.group) == DistinctFirstNameCount(students, g) &&
                    g.ordinal <= s.group.ordinal)
      {
        assert s.group in names;
        var i :| 0 <= i < |names| && names[i] == s.group;
      }
    }
  }

  /** The groups in which some student has first name `n`. */
  function GroupsWithName(students: seq<Student>, n: string): set<GroupName> {
    set s | s in students && s.firstName == n :: s.group
  }

  /** The entries `getMostPopularName` compares: each first name with the number of groups it occurs in. */
  function PopularityEntries(students: seq<Student>): seq<Entry<string>> {
    Map(GetDistinctFirstNames(students), (n: string) => Entry(n, |GroupsWithName(students, n)|))
  }

  /** `comparingInt(size).thenComparing(comparing(getKey).reversed())` on the name entries. */
  function SizeThenReversedName(): (Entry<string>, Entry<string>) -> int {
    ThenComparing(BySize(), Reversed(Comparing(EntryKey, StringCompare)))
  }

  /** `getMostPopularName`: the key of the entry `max(SizeThenReversedName)` finds, or "". */
  function GetMostPopularName(students: seq<Student>): string {
    match Max(PopularityEntries(students), SizeThenReversedName())
    case Some(e) => e.key
    case None => ""
  }

  /** Each popularity entry pairs a distinct first name with the number of groups it occurs in. */
  lemma PopularityEntriesSpec(students: seq<Student>)
    ensures |PopularityEntries(students)| == |GetDistinctFirstNames(students)|
    ensures forall i :: 0 <= i < |GetDistinctFirstNames(students)| ==>
              PopularityEntries(students)[i] ==
                Entry(GetDistinctFirstNames(students)[i], |GroupsWithName(students, GetDistinctFirstNames(students)[i])|)
  {
  }

  /** There are no distinct first names exactly when there are no students. */
  lemma DistinctFirstNamesEmpty(students: seq<Student>)
    ensures GetDistinctFirstNames(students) == [] <==> students == []
  {
    DistinctFirstNamesSpec(students);
    if students != [] {
      assert students[0] in students;
      assert students[0].firstName in GetDistinctFirstNames(students);
    }
  }

  /** Of two entries, the one with the lexicographically smaller name is the greater under the reversed key order. */
  lemma ReversedNameOrder(a: Entry<string>, b: Entry<string>)
    ensures Reversed(Comparing(EntryKey, StringCompare))(a, b) == StringCompare(b.key, a.key)
  {
    assert Comparing(EntryKey, StringCompare)(b, a) == StringCompare(EntryKey(b), EntryKey(a));
  }

  /**
    "" when there are no students; otherwise the first name found in the
    most distinct groups, ties going to the lexicographically least name.
  */
  lemma MostPopularNameSpec(students: seq<Student>)
    ensures students == [] ==> GetMostPopularName(students) == ""
    ensures students != [] ==>
              && (exists s :: s in students && s.firstName == GetMostPopularName(students))
              && forall s :: s in students ==>
                   || |GroupsWithName(students, s.firstName)| < |GroupsWithName(students, GetMostPopularName(students))|
                   || (|GroupsWithName(students, s.firstName)| == |GroupsWithName(students, GetMostPopularName(students))| &&
                       StringCompare(GetMostPopularName(students), s.firstName) <= 0)
  {
    var names := GetDistinctFirstNames(students);
    var entries := PopularityEntries(students);
    DistinctFirstNamesEmpty(students);
    PopularityEntriesSpec(students);
    if students != [] {
      var keyOrder := Reversed(Comparing(EntryKey<string>, StringCompare));
      StringCompareIsComparator();
      ComparingIsComparator(EntryKey<string>, StringCompare);
      ReversedIsComparator(Comparing(EntryKey<string>, StringCompare));
      var k := MaxBySizeThen(entries, keyOrder);
      var n := names[k];
      assert GetMostPopularName(students) == n;
      DistinctFirstNamesSpec(students);
      assert n in names;
      forall s | s in students
        ensures || |GroupsWithName(students, s.firstName)| < |GroupsWithName(students, n)|
                || (|GroupsWithName(students, s.firstName)| == |GroupsWithName(students, n)| &&
                    StringCompare(n, s.firstName) <= 0)
      {
        assert s.firstName in names;
        var i :| 0 <= i < |names| && names[i] == s.firstName;
        ReversedNameOrder(entries[k], entries[i]);
        StringCompareBasics(n, s.firstName);
      }
    }
  }

  // ---------------------------------------------------------------------
  // Lookups by id
  // ---------------------------------------------------------------------

  /** `toMap(getId, identity())`: throws on a repeated id. */
  function IndexById(students: seq<Student>): Result<map<int, Student>, DbError> {
    if students == [] then Success(map[])
    else
      match IndexById(students[..|students| - 1])
      case Failure(e) => Failure(e)
      case Success(m) =>
        var s := students[|students| - 1];
        if s.id in m then Failure(DuplicateKey) else Success(m[s.id := s])
  }

  /** No two students share an id. */
  ghost predicate UniqueIds(students: seq<Student>) {
    forall i, j :: 0 <= i < j < |students| ==> students[i].id != students[j].id
  }

  /** When the index is built, it maps exactly the ids present, each to its student. */
  lemma {:induction false} IndexByIdContents(students: seq<Student>)
    ensures IndexById(students).Failure? ==> IndexById(students).error == DuplicateKey
    ensures IndexById(students).Success? ==>
              && (forall id :: id in IndexById(students).value <==> exists s :: s in students && s.id == id)
              && (forall s :: s in students ==> IndexById(students).value[s.id] == s)
  {
    if students != [] {
      var init := students[..|students| - 1];
      IndexByIdContents(init);
      assert students == init + [students[|students| - 1]];
    }
  }

  lemma UniqueIdsSnoc(init: seq<Student>, last: Student)
    ensures UniqueIds(init + [last]) <==> UniqueIds(init) && forall s :: s in init ==> s.id != last.id
  {
    var xs := init + [last];
    if UniqueIds(xs) {
      forall i, j | 0 <= i < j < |init| ensures init[i].id != init[j].id {
        assert xs[i] == init[i] && xs[j] == init[j];
      }
      forall s | s in init ensures s.id != last.id {
        var i :| 0 <= i < |init| && init[i] == s;
        assert xs[i] == s && xs[|init|] == last;
      }
    }
    if UniqueIds(init) && forall s :: s in init ==> s.id != last.id {
      forall i, j | 0 <= i < j < |xs| ensures xs[i].id != xs[j].id {
        if j == |init| {
          assert xs[i] in init;
        } else {
          assert xs[i] == init[i] && xs[j] == init[j];
        }
      }
    }
  }

  /** The index is built exactly when no two students share an id. */
  lemma {:induction false} IndexByIdSpec(students: seq<Student>)
    ensures IndexById(students).Success? <==> UniqueIds(students)
  {
    if students != [] {
      var init, last := students[..|students| - 1], students[|students| - 1];
      IndexByIdSpec(init);
      IndexByIdContents(init);
      UniqueIdsSnoc(init, last);
      assert students == init + [last];
    }
  }

  /** `getWithIDsFromMap`: apply `f` to the student of every id, in order; a missing id throws. */
  function LookupIds<T>(index: map<int, Student>, ids: seq<int>, f: Student -> T): Result<seq<T>, DbError> {
    if ids == [] then Success([])
    else if ids[0] !in index then Failure(NullPointer)
    else
      match LookupIds(index, ids[1..], f)
      case Failure(e) => Failure(e)
      case Success(rest) => Success([f(index[ids[0]])] + rest)
  }

  /** `getWithIDsFromArray`: index the students by id, then look the ids up. */
  function GetWithIds<T>(students: seq<Student>, ids: seq<int>, f: Student -> T): Result<seq<T>, DbError> {
    match IndexById(students)
    case Failure(e) => Failure(e)
    case Success(index) => LookupIds(index, ids, f)
  }

  /** `getFirstNames(students, ids)`. */
  function GetFirstNamesById(students: seq<Student>, ids: seq<int>): Result<seq<string>, DbError> {
    GetWithIds(students, ids, FirstName)
  }

  /** `getLastNames(students, ids)`. */
  function GetLastNamesById(students: seq<Student>, ids: seq<int>): Result<seq<string>, DbError> {
    GetWithIds(students, ids, LastName)
  }

  /** `getGroups(students, ids)`. */
  function GetGroupsOfIds(students: seq<Student>, ids: seq<int>): Result<seq<GroupName>, DbError> {
    GetWithIds(students, ids, GroupOf)
  }

  /** `getFullNames(students, ids)`. */
  function GetFullNamesById(students: seq<Student>, ids: seq<int>): Result<seq<string>, DbError> {
    GetWithIds(students, ids, FullName)
  }

  /** The lookup succeeds exactly when every id is in the map, and then maps `f` over the students in id order. */
  lemma {:induction false} LookupIdsSpec<T>(index: map<int, Student>, ids: seq<int>, f: Student -> T)
    ensures LookupIds(index, ids, f).Success? <==> forall i :: 0 <= i < |ids| ==> ids[i] in index
    ensures LookupIds(index, ids, f).Failure? ==> LookupIds(index, ids, f).error == NullPointer
    ensures LookupIds(index, ids, f).Success? ==>
              && |LookupIds(index, ids, f).value| == |ids|
              && forall i :: 0 <= i < |ids| ==> LookupIds(index, ids, f).value[i] == f(index[ids[i]])
  {
    if ids != [] {
      LookupIdsSpec(index, ids[1..], f);
      if ids[0] in index && LookupIds(index, ids[1..], f).Failure? {
        var i :| 0 <= i < |ids[1..]| && ids[1..][i] !in index;
        assert ids[i + 1] !in index;
      }
      if LookupIds(index, ids, f).Success? {
        var r := LookupIds(index, ids, f).value;
        forall i | 0 <= i < |ids| ensures r[i] == f(index[ids[i]]) {
          if i > 0 {
            assert ids[i] == ids[1..][i - 1];
          }
        }
      }
    }
  }

  /**
    The id lookups fail with `IllegalStateException` (a duplicate key) when
    two students share an id, with `NullPointerException` when an id has no
    student, and otherwise return `f` of the student with each id, in the
    order of the ids.
  */
  lemma GetWithIdsSpec<T>(students: seq<Student>, ids: seq<int>, f: Student -> T)
    ensures !UniqueIds(students) ==> GetWithIds(students, ids, f) == Failure(DuplicateKey)
    ensures UniqueIds(students) ==>
              (GetWithIds(students, ids, f).Success? <==>
                 forall i :: 0 <= i < |ids| ==> exists s :: s in students && s.id == ids[i])
    ensures UniqueIds(students) && GetWithIds(students, ids, f).Failure? ==>
              GetWithIds(students, ids, f).error == NullPointer
    ensures GetWithIds(students, ids, f).Success? ==>
              && |GetWithIds(students, ids, f).value| == |ids|
              && forall i :: 0 <= i < |ids| ==>
                   exists s :: s in students && s.id == ids[i] && GetWithIds(students, ids, f).value[i] == f(s)
  {
    IndexByIdSpec(students);
    IndexByIdContents(students);
    if IndexById(students).Success? {
      var index := IndexById(students).value;
      LookupIdsSpec(index, ids, f);
      if GetWithIds(students, ids, f).Success? {
        forall i | 0 <= i < |ids|
          ensures exists s :: s in students && s.id == ids[i] && GetWithIds(students, ids, f).value[i] == f(s)
        {
          var s :| s in students && s.id == ids[i];
          assert index[ids[i]] == s;
        }
      }
    }
  }
}
