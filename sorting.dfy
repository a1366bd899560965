/** `sortStudents`: the view sorted in place by one field, ascending or descending. */
module Sorting {
  import opened JsText
  import opened Records

  /** The sort fields modelled: `age` compares as a number, the others as lowered strings. */
  datatype SortField = ByName | ByAge | ByGender | ByGrade

  function TextKey(s: Student, field: SortField): string
    requires field != ByAge
  {
    match field
    case ByName => Lower(s.name)
    case ByGender => Lower(s.gender)
    case ByGrade => Lower(s.grade)
  }

  /** `aValue > bValue` in the comparator. */
  predicate KeyGreater(a: Student, b: Student, field: SortField) {
    if field == ByAge then a.age > b.age else LexLess(TextKey(b, field), TextKey(a, field))
  }

  /**
   * The comparator of `sortStudents`; `ascending` stands for `order === 'asc'`.
   * It never returns 0, so two records with equal keys each compare as smaller.
   */
  function Compare(a: Student, b: Student, field: SortField, ascending: bool): (c: int)
    ensures c == 1 || c == -1
  {
    if ascending then (if KeyGreater(a, b, field) then 1 else -1)
    else (if KeyGreater(b, a, field) then 1 else -1)
  }

  /** `a` may stand before `b`: the comparator does not put `a` after `b`. */
  predicate Before(a: Student, b: Student, field: SortField, ascending: bool) {
    Compare(a, b, field, ascending) < 0
  }

  predicate SortedBy(v: seq<Student>, field: SortField, ascending: bool) {
    forall i, j :: 0 <= i < j < |v| ==> Before(v[i], v[j], field, ascending)
  }

  /** Of any two records, one may stand before the other. */
  lemma BeforeTotal(a: Student, b: Student, field: SortField, ascending: bool)
    ensures Before(a, b, field, ascending) || Before(b, a, field, ascending)
  {
    if field != ByAge {
      var ka, kb := TextKey(a, field), TextKey(b, field);
      if LexLess(ka, kb) {
        LexLessAsymmetric(ka, kb);
      }
    }
  }

  lemma BeforeTransitive(a: Student, b: Student, c: Student, field: SortField, ascending: bool)
    requires Before(a, b, field, ascending) && Before(b, c, field, ascending)
    ensures Before(a, c, field, ascending)
  {
    if field != ByAge {
      var ka, kb, kc := TextKey(a, field), TextKey(b, field), TextKey(c, field);
      if ascending {
        TextNotGreaterTransitive(ka, kb, kc);
      } else {
        TextNotGreaterTransitive(kc, kb, ka);
      }
    }
  }

  /** "Not after" on strings is transitive. */
  lemma TextNotGreaterTransitive(x: string, y: string, z: string)
    requires !LexLess(y, x) && !LexLess(z, y)
    ensures !LexLess(z, x)
  {
    if x != y && y != z {
      LexLessTotal(x, y);
      LexLessTotal(y, z);
      LexLessTransitive(x, y, z);
      LexLessAsymmetric(x, z);
    }
  }

  /** Inserts `x` before the first record it may stand before. */
  function Insert(x: Student, v: seq<Student>, field: SortField, ascending: bool): (r: seq<Student>)
    ensures multiset(r) == multiset(v) + multiset{x}
  {
    if v == [] then [x]
    else if Before(x, v[0], field, ascending) then [x] + v
    else
      assert v == [v[0]] + v[1..];
      [v[0]] + Insert(x, v[1..], field, ascending)
  }

  /** A record that may stand before every record of a sorted view may head it. */
  lemma SortedCons(y: Student, v: seq<Student>, field: SortField, ascending: bool)
    requires SortedBy(v, field, ascending)
    requires forall k :: 0 <= k < |v| ==> Before(y, v[k], field, ascending)
    ensures SortedBy([y] + v, field, ascending)
  {
    var w := [y] + v;
    forall i, j | 0 <= i < j < |w| ensures Before(w[i], w[j], field, ascending) {
      assert w[j] == v[j - 1];
      if i > 0 { assert w[i] == v[i - 1]; }
    }
  }

  /** Inserting into a sorted view keeps it sorted. */
  lemma {:induction false} InsertSorted(x: Student, v: seq<Student>, field: SortField, ascending: bool)
    requires SortedBy(v, field, ascending)
    ensures SortedBy(Insert(x, v, field, ascending), field, ascending)
  {
    if v == [] {
    } else if Before(x, v[0], field, ascending) {
      forall k | 0 <= k < |v| ensures Before(x, v[k], field, ascending) {
        if k > 0 { BeforeTransitive(x, v[0], v[k], field, ascending); }
      }
      SortedCons(x, v, field, ascending);
    } else {
      var tail := v[1..];
      assert SortedBy(tail, field, ascending) by {
        forall i, j | 0 <= i < j < |tail| ensures Before(tail[i], tail[j], field, ascending) {
          assert tail[i] == v[i + 1] && tail[j] == v[j + 1];
        }
      }
      InsertSorted(x, tail, field, ascending);
      var rest := Insert(x, tail, field, ascending);
      BeforeTotal(x, v[0], field, ascending);
      forall k | 0 <= k < |rest| ensures Before(v[0], rest[k], field, ascending) {
        HeadBeforeInserted(x, v, field, ascending, k);
      }
      SortedCons(v[0], rest, field, ascending);
    }
  }

  /** In the case where `x` goes behind the head, the head may stand before every record of the rest. */
  lemma HeadBeforeInserted(x: Student, v: seq<Student>, field: SortField, ascending: bool, k: int)
    requires SortedBy(v, field, ascending) && v != []
    requires Before(v[0], x, field, ascending)
    requires 0 <= k < |Insert(x, v[1..], field, ascending)|
    ensures Before(v[0], Insert(x, v[1..], field, ascending)[k], field, ascending)
  {
    var rest := Insert(x, v[1..], field, ascending);
    var y := rest[k];
    assert y in multiset(rest);
    if y != x {
      assert y in multiset(v[1..]);
      var j :| 0 <= j < |v[1..]| && v[1..][j] == y;
      assert v[j + 1] == y;
    }
  }

  /**
   * `filteredStudents.sort(comparator)`: a permutation of the view in which no record
   * stands after one the comparator puts it before. The order of records with equal
   * keys is not specified by the source; this insertion sort is one admissible order.
   */
  function Sort(v: seq<Student>, field: SortField, ascending: bool): (r: seq<Student>)
    ensures SortedBy(r, field, ascending)
    ensures multiset(r) == multiset(v)
  {
    if v == [] then []
    else
      assert v == [v[0]] + v[1..];
      var sortedTail := Sort(v[1..], field, ascending);
      InsertSorted(v[0], sortedTail, field, ascending);
      Insert(v[0], sortedTail, field, ascending)
  }

  /** Ascending by age: every earlier record is at most as old as every later one. */
  lemma SortedByAgeAscending(v: seq<Student>)
    requires SortedBy(v, ByAge, true)
    ensures forall i, j :: 0 <= i < j < |v| ==> v[i].age <= v[j].age
  {
    forall i, j | 0 <= i < j < |v| ensures v[i].age <= v[j].age {
      assert Before(v[i], v[j], ByAge, true);
    }
  }
}
