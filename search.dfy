/** `searchStudents`: case-insensitive substring search over name, grade and subjects. */
module StudentSearch {
  import opened JsText
  import opened Records

  /** The search term: the query lowered, then trimmed. */
  function SearchTerm(query: string): string {
    Trim(Lower(query))
  }

  /** Some subject of `s`, lowered, includes `term`. */
  predicate SubjectMatches(s: Student, term: string) {
    exists j | 0 <= j < |s.subjects| :: Includes(Lower(s.subjects[j]), term)
  }

  /** The filter callback of `searchStudents`. */
  predicate Matches(s: Student, term: string) {
    Includes(Lower(s.name), term) || Includes(Lower(s.grade), term) || SubjectMatches(s, term)
  }

  /** `students.filter(s => Matches(s, term))`. */
  function Filter(students: seq<Student>, term: string): (r: seq<Student>)
    ensures |r| <= |students|
  {
    if students == [] then []
    else Kept(students[0], term) + Filter(students[1..], term)
  }

  /** The filtered view holds exactly the records that match. */
  lemma {:induction false} FilterMembers(students: seq<Student>, term: string)
    ensures forall x :: x in Filter(students, term) <==> x in students && Matches(x, term)
  {
    if students != [] {
      FilterMembers(students[1..], term);
      assert students == [students[0]] + students[1..];
    }
  }

  /** What the filter keeps of one record: the record itself, or nothing. */
  function Kept(x: Student, term: string): seq<Student> {
    if Matches(x, term) then [x] else []
  }

  /** The filter keeps the input order: filtering a concatenation filters each part. */
  lemma {:induction false} FilterAppend(a: seq<Student>, b: seq<Student>, term: string)
    ensures Filter(a + b, term) == Filter(a, term) + Filter(b, term)
  {
    if a == [] {
      assert a + b == b;
    } else {
      assert (a + b)[0] == a[0] && (a + b)[1..] == a[1..] + b;
      FilterAppend(a[1..], b, term);
      FilterAppendStep(a[0], a[1..], b, term);
      assert [a[0]] + a[1..] == a;
    }
  }

  /** One record in front of both sides of `FilterAppend` keeps it true. */
  lemma FilterAppendStep(x: Student, a: seq<Student>, b: seq<Student>, term: string)
    requires Filter(a + b, term) == Filter(a, term) + Filter(b, term)
    ensures Filter([x] + (a + b), term) == Filter([x] + a, term) + Filter(b, term)
  {
    FilterCons(x, a + b, term);
    FilterCons(x, a, term);
    ConcatAssoc(Kept(x, term), Filter(a, term), Filter(b, term));
  }

  lemma ConcatAssoc<T>(h: seq<T>, p: seq<T>, q: seq<T>)
    ensures h + (p + q) == (h + p) + q
  {
  }

  /** How one leading record extends the filtered sequence. */
  lemma FilterCons(x: Student, s: seq<Student>, term: string)
    ensures Filter([x] + s, term) == Kept(x, term) + Filter(s, term)
  {
    assert ([x] + s)[0] == x && ([x] + s)[1..] == s;
  }

  /** Everything includes the empty term, so filtering by it keeps everything. */
  lemma {:induction false} FilterEmptyTerm(students: seq<Student>)
    ensures Filter(students, []) == students
  {
    if students != [] {
      IncludesTrivial(Lower(students[0].name));
      FilterEmptyTerm(students[1..]);
    }
  }

  /** The view `searchStudents(query)` computes from the stored students. */
  function Search(students: seq<Student>, query: string): (r: seq<Student>)
    ensures SearchTerm(query) == [] ==> r == students
    ensures forall x :: x in r <==> x in students && Matches(x, SearchTerm(query))
  {
    var term := SearchTerm(query);
    FilterMembers(students, term);
    if term == [] then
      assert students == Filter(students, term) by { FilterEmptyTerm(students); }
      students
    else Filter(students, term)
  }

  /** Both branches of `searchStudents` are one filter: the empty term matches every record. */
  lemma SearchIsFilter(students: seq<Student>, query: string)
    ensures Search(students, query) == Filter(students, SearchTerm(query))
  {
    if SearchTerm(query) == [] {
      FilterEmptyTerm(students);
    }
  }

  /** Search preserves order: the view of a concatenation is the concatenation of the views. */
  lemma SearchAppend(a: seq<Student>, b: seq<Student>, query: string)
    ensures Search(a + b, query) == Search(a, query) + Search(b, query)
  {
    SearchIsFilter(a + b, query);
    SearchIsFilter(a, query);
    SearchIsFilter(b, query);
    FilterAppend(a, b, SearchTerm(query));
  }

  /** Search ignores the case of the query: "JOHN" and "john" give the same view. */
  lemma SearchIgnoresCase(students: seq<Student>, q1: string, q2: string)
    requires Lower(q1) == Lower(q2)
    ensures Search(students, q1) == Search(students, q2)
  {
  }

  /** A query and its lowered form search alike. */
  lemma SearchLoweredQuery(students: seq<Student>, query: string)
    ensures Search(students, Lower(query)) == Search(students, query)
  {
    LowerIdempotent(query);
  }
}
