/**
 * Student records, the form that creates and edits them, its validation, and the
 * array operations (`findIndex` by id, `splice`) through which records are located
 * and removed.
 */
module Records {
  import opened Wrappers
  import opened JsText

  /** A stored student. `id` comes from `Date.now()` at creation and is taken as given. */
  datatype Student = Student(
    id: int,
    name: string,
    age: int,
    gender: string,
    grade: string,
    subjects: seq<string>,
    createdAt: string,
    updatedAt: Option<string>)

  /**
   * The form inputs as read from the page: name and grade boxes, the age box after
   * `parseInt` (None when that gives NaN), the gender choice and the subjects box.
   */
  datatype RawForm = RawForm(name: string, age: Option<int>, gender: string, grade: string, subjects: string)

  /** What `getFormData` hands to validation. */
  datatype FormData = FormData(name: string, age: Option<int>, gender: string, grade: string, subjects: seq<string>)

  /** The fields of a form that passed validation; the age is then a number. */
  datatype Fields = Fields(name: string, age: int, gender: string, grade: string, subjects: seq<string>)

  /** The three alerts with which validation refuses a form. */
  datatype Rejection = MissingField | DuplicateName | AgeOutOfRange

  // ----- cleaning the subjects text -----

  /** A subject entry as the form keeps it: not empty, no comma, no white space at either end. */
  predicate CleanEntry(e: string) {
    e != [] && ',' !in e && !IsSpace(e[0]) && !IsSpace(e[|e| - 1])
  }

  /** `pieces.map(s => s.trim())`. */
  function TrimAll(pieces: seq<string>): (r: seq<string>)
    ensures |r| == |pieces|
    ensures forall i :: 0 <= i < |r| ==> r[i] == Trim(pieces[i])
  {
    seq(|pieces|, i requires 0 <= i < |pieces| => Trim(pieces[i]))
  }

  /** `pieces.filter(s => s !== '')`. */
  function DropEmpty(pieces: seq<string>): (r: seq<string>)
    ensures |r| <= |pieces|
    ensures forall i :: 0 <= i < |r| ==> r[i] != [] && r[i] in pieces
    ensures forall e :: e in pieces && e != [] ==> e in r
  {
    if pieces == [] then []
    else if pieces[0] == [] then DropEmpty(pieces[1..])
    else [pieces[0]] + DropEmpty(pieces[1..])
  }

  /** The subjects box, cleaned: `text.trim().split(',').map(s => s.trim()).filter(s => s !== '')`. */
  function CleanSubjects(text: string): (r: seq<string>)
    ensures forall i :: 0 <= i < |r| ==> CleanEntry(r[i])
  {
    var pieces := Split(Trim(text));
    SplitPiecesCommaFree(Trim(text));
    CleanPiecesAreClean(pieces);
    DropEmpty(TrimAll(pieces))
  }

  /** Comma-free pieces, trimmed and with empty ones dropped, are clean entries. */
  lemma CleanPiecesAreClean(pieces: seq<string>)
    requires forall i :: 0 <= i < |pieces| ==> ',' !in pieces[i]
    ensures forall i :: 0 <= i < |DropEmpty(TrimAll(pieces))| ==> CleanEntry(DropEmpty(TrimAll(pieces))[i])
  {
    var kept := DropEmpty(TrimAll(pieces));
    forall i | 0 <= i < |kept| ensures CleanEntry(kept[i]) {
      TrimmedPieceIsClean(pieces, kept[i]);
    }
  }

  /** A non-empty trimmed comma-free piece is a clean entry. */
  lemma TrimmedPieceIsClean(pieces: seq<string>, e: string)
    requires forall i :: 0 <= i < |pieces| ==> ',' !in pieces[i]
    requires e in TrimAll(pieces) && e != []
    ensures CleanEntry(e)
  {
    var trimmed := TrimAll(pieces);
    var j :| 0 <= j < |trimmed| && trimmed[j] == e;
    TrimHasNoNewComma(pieces[j]);
  }

  /** Trimming removes characters and adds none, so it cannot introduce a comma. */
  lemma TrimHasNoNewComma(s: string)
    requires ',' !in s
    ensures ',' !in Trim(s)
  {
    var k :| StrippedAt(s, Trim(s), k);
    NoCommaInSlice(s, k, k + |Trim(s)|);
  }

  lemma NoCommaInSlice(s: string, lo: int, hi: int)
    requires ',' !in s && 0 <= lo <= hi <= |s|
    ensures ',' !in s[lo..hi]
  {
    forall i | 0 <= i < hi - lo ensures s[lo..hi][i] != ',' {
      assert s[lo..hi][i] == s[lo + i];
    }
  }

  /**
   * The outer `trim` of the subjects text changes nothing: the entries are the
   * comma-separated pieces of the text itself, each trimmed, empty ones dropped,
   * in the order of the text.
   */
  lemma CleanSubjectsPieces(text: string)
    ensures CleanSubjects(text) == DropEmpty(TrimAll(Split(text)))
  {
    var t := Trim(text);
    var k :| StrippedAt(text, t, k);
    StrippedParts(text, t, k);
    SpacedPiecesTrimAlike(text[..k], t, text[k + |t|..]);
  }

  /** A string stripped at `k` is white space, then what is left, then white space. */
  lemma StrippedParts(s: string, r: string, k: int)
    requires StrippedAt(s, r, k)
    ensures s == s[..k] + r + s[k + |r|..]
    ensures AllSpace(s[..k]) && AllSpace(s[k + |r|..])
  {
    var w1, w2 := s[..k], s[k + |r|..];
    assert s == w1 + r + w2;
    forall i | 0 <= i < |w1| ensures IsSpace(w1[i]) { assert w1[i] == s[i]; }
    forall i | 0 <= i < |w2| ensures IsSpace(w2[i]) { assert w2[i] == s[k + |r| + i]; }
  }

  /** White space (hence no comma) before and after a text leaves its trimmed pieces as they are. */
  lemma SpacedPiecesTrimAlike(w1: string, t: string, w2: string)
    requires AllSpace(w1) && AllSpace(w2)
    ensures TrimAll(Split(w1 + t + w2)) == TrimAll(Split(t))
  {
    NoCommaInSpace(w1);
    NoCommaInSpace(w2);
    var p, q := Split(t), Split(t + w2);
    SplitAppendText(t, w2);
    assert w1 + t + w2 == w1 + (t + w2);
    SplitPrepend(w1, t + w2);
    PiecesTrimAlike(w1, w2, p, q, Split(w1 + t + w2));
  }

  /** The pieces of the spaced text and of the text itself trim to the same entries. */
  lemma PiecesTrimAlike(w1: string, w2: string, p: seq<string>, q: seq<string>, r: seq<string>)
    requires AllSpace(w1) && AllSpace(w2)
    requires |p| >= 1 && |q| == |p| && q[..|p| - 1] == p[..|p| - 1] && q[|p| - 1] == p[|p| - 1] + w2
    requires r == [w1 + q[0]] + q[1..]
    ensures TrimAll(r) == TrimAll(p)
  {
    forall i | 0 <= i < |p| ensures Trim(r[i]) == Trim(p[i]) {
      SpacedPieceTrims(w1, w2, p, q, r, i);
    }
  }

  lemma NoCommaInSpace(w: string)
    requires AllSpace(w)
    ensures ',' !in w
  {
    assert !IsSpace(',');
    forall i | 0 <= i < |w| ensures w[i] != ',' { assert IsSpace(w[i]); }
  }

  /** One piece at a time: the first piece gains `w1`, the last gains `w2`, and trimming drops both. */
  lemma SpacedPieceTrims(w1: string, w2: string, p: seq<string>, q: seq<string>, r: seq<string>, i: int)
    requires AllSpace(w1) && AllSpace(w2)
    requires |p| >= 1 && |q| == |p| && q[..|p| - 1] == p[..|p| - 1] && q[|p| - 1] == p[|p| - 1] + w2
    requires r == [w1 + q[0]] + q[1..]
    requires 0 <= i < |p|
    ensures Trim(r[i]) == Trim(p[i])
  {
    var n := |p|;
    if i == 0 && n == 1 {
      assert r[0] == w1 + (p[0] + w2) == w1 + p[0] + w2;
      TrimSpaceAround(w1, p[0], w2);
    } else if i == 0 {
      assert q[0] == q[..n - 1][0] == p[..n - 1][0];
      assert r[0] == w1 + p[0] + [];
      TrimSpaceAround(w1, p[0], []);
    } else if i == n - 1 {
      assert r[i] == q[i] == [] + p[i] + w2;
      TrimSpaceAround([], p[i], w2);
    } else {
      assert r[i] == q[i] == q[..n - 1][i] == p[..n - 1][i];
    }
  }

  /** `subjects.join(', ')`, how `editStudent` writes a record's subjects back into the box. */
  function JoinSubjects(subjects: seq<string>): string
    requires |subjects| >= 1
  {
    if |subjects| == 1 then subjects[0] else subjects[0] + ", " + JoinSubjects(subjects[1..])
  }

  /**
   * Editing a record and submitting the form unchanged keeps its subjects: cleaning
   * the text written by `join(', ')` gives back the same entries in the same order.
   */
  lemma CleanJoinedSubjects(subjects: seq<string>)
    requires |subjects| >= 1
    requires forall i :: 0 <= i < |subjects| ==> CleanEntry(subjects[i])
    ensures CleanSubjects(JoinSubjects(subjects)) == subjects
  {
    var text := JoinSubjects(subjects);
    JoinedIsTrimmed(subjects);
    JoinedSplits(subjects);
    TrimAllPadded(subjects);
    DropEmptyKeeps(subjects);
    calc {
      CleanSubjects(text);
      DropEmpty(TrimAll(Split(Trim(text))));
      DropEmpty(TrimAll(Padded(subjects)));
      DropEmpty(subjects);
    }
  }

  lemma JoinedIsTrimmed(subjects: seq<string>)
    requires |subjects| >= 1
    requires forall i :: 0 <= i < |subjects| ==> CleanEntry(subjects[i])
    ensures Trim(JoinSubjects(subjects)) == JoinSubjects(subjects)
  {
    var first, last := subjects[0], subjects[|subjects| - 1];
    assert CleanEntry(first) && CleanEntry(last);
    JoinSubjectsEnds(subjects);
    BetweenCleanEntriesIsTrimmed(JoinSubjects(subjects), first, last);
  }

  /** A text that starts with one clean entry and ends with another is left alone by `trim`. */
  lemma BetweenCleanEntriesIsTrimmed(t: string, first: string, last: string)
    requires CleanEntry(first) && CleanEntry(last)
    requires |first| <= |t| && t[..|first|] == first
    requires |last| <= |t| && t[|t| - |last|..] == last
    ensures Trim(t) == t
  {
    assert t[0] == first[0];
    assert t[|t| - 1] == last[|last| - 1];
    TrimKeepsEnds(t);
  }

  lemma JoinedSplits(subjects: seq<string>)
    requires |subjects| >= 1
    requires forall i :: 0 <= i < |subjects| ==> CleanEntry(subjects[i])
    ensures Split(JoinSubjects(subjects)) == Padded(subjects)
  {
    var padded := Padded(subjects);
    JoinPadded(subjects);
    forall i | 0 <= i < |padded| ensures ',' !in padded[i] {
      assert CleanEntry(subjects[i]);
    }
    SplitJoin(padded);
  }

  lemma TrimAllPadded(subjects: seq<string>)
    requires forall i :: 0 <= i < |subjects| ==> CleanEntry(subjects[i])
    ensures TrimAll(Padded(subjects)) == subjects
  {
    forall i | 0 <= i < |subjects| ensures Trim(Padded(subjects)[i]) == subjects[i] {
      PaddedEntryTrims(subjects, i);
    }
  }

  lemma PaddedEntryTrims(subjects: seq<string>, i: int)
    requires 0 <= i < |subjects| && CleanEntry(subjects[i])
    ensures Trim(Padded(subjects)[i]) == subjects[i]
  {
    TrimKeepsEnds(subjects[i]);
    if i > 0 {
      var e := subjects[i];
      var p := [' '] + e;
      assert Padded(subjects)[i] == p;
      assert p[1..] == e;
      assert TrimStart(p) == TrimStart(e);
    }
  }

  /** The pieces `JoinSubjects` separates by commas: every entry after the first gets a leading blank. */
  function Padded(subjects: seq<string>): (r: seq<string>)
    ensures |r| == |subjects|
    ensures |r| >= 1 ==> r[0] == subjects[0]
    ensures forall i :: 1 <= i < |r| ==> r[i] == [' '] + subjects[i]
  {
    seq(|subjects|, i requires 0 <= i < |subjects| => if i == 0 then subjects[0] else [' '] + subjects[i])
  }

  lemma {:induction false} JoinPadded(subjects: seq<string>)
    requires |subjects| >= 1
    ensures JoinSubjects(subjects) == Join(Padded(subjects))
  {
    if |subjects| > 1 {
      JoinPadded(subjects[1..]);
      var p := Padded(subjects);
      var q := Padded(subjects[1..]);
      assert Join(p[1..]) == [' '] + Join(q) by {
        JoinFirstPadded(q, p[1..]);
      }
    }
  }

  /** Putting a blank before the first piece puts it before the joined text. */
  lemma JoinFirstPadded(q: seq<string>, p: seq<string>)
    requires |q| >= 1 && |p| == |q|
    requires p[0] == [' '] + q[0] && p[1..] == q[1..]
    ensures Join(p) == [' '] + Join(q)
  {
  }

  /** The joined text starts with the first entry and ends with the last. */
  lemma {:induction false} JoinSubjectsEnds(subjects: seq<string>)
    requires |subjects| >= 1
    ensures var t, first, last := JoinSubjects(subjects), subjects[0], subjects[|subjects| - 1];
      |first| <= |t| && t[..|first|] == first && |last| <= |t| && t[|t| - |last|..] == last
  {
    if |subjects| > 1 {
      JoinSubjectsEnds(subjects[1..]);
      var t, rest := JoinSubjects(subjects), JoinSubjects(subjects[1..]);
      assert t == subjects[0] + (", " + rest);
      assert t[|t| - |rest|..] == rest;
    }
  }

  lemma {:induction false} DropEmptyKeeps(pieces: seq<string>)
    requires forall i :: 0 <= i < |pieces| ==> pieces[i] != []
    ensures DropEmpty(pieces) == pieces
  {
    if pieces != [] {
      DropEmptyKeeps(pieces[1..]);
    }
  }

  /** `getFormData`: trims the name and the grade and cleans the subjects; the gender choice is kept as it is. */
  function GetFormData(raw: RawForm): (d: FormData)
    ensures d.name == Trim(raw.name) && d.grade == Trim(raw.grade)
    ensures d.age == raw.age && d.gender == raw.gender
    ensures d.subjects == CleanSubjects(raw.subjects)
    ensures forall i :: 0 <= i < |d.subjects| ==> CleanEntry(d.subjects[i])
  {
    FormData(Trim(raw.name), raw.age, raw.gender, Trim(raw.grade), CleanSubjects(raw.subjects))
  }

  // ----- validation -----

  /** The first check of `validateForm`: no field is falsy (an age of NaN or 0 counts as missing). */
  predicate AllFilled(data: FormData) {
    && data.name != []
    && data.age.Some? && data.age.value != 0
    && data.gender != []
    && data.grade != []
    && |data.subjects| != 0
  }

  /** Some stored student has this name, ignoring case. */
  predicate NameTaken(students: seq<Student>, name: string) {
    exists i | 0 <= i < |students| :: Lower(students[i].name) == Lower(name)
  }

  /**
   * `validateForm`: a form is accepted exactly when all fields are filled, it does not
   * repeat an existing name while adding (the duplicate check is skipped while
   * editing), and the age lies in 1..100. On acceptance the form's fields are passed on.
   */
  function ValidateForm(data: FormData, students: seq<Student>, editingIndex: int): (r: Result<Fields, Rejection>)
    ensures r.Success? <==>
      AllFilled(data) && (editingIndex == -1 ==> !NameTaken(students, data.name)) && 1 <= data.age.value <= 100
    ensures r.Success? ==>
      r.value == Fields(data.name, data.age.value, data.gender, data.grade, data.subjects)
    ensures r.Failure? && r.error == DuplicateName ==> editingIndex == -1 && NameTaken(students, data.name)
  {
    if !AllFilled(data) then Failure(MissingField)
    else if editingIndex == -1 && NameTaken(students, data.name) then Failure(DuplicateName)
    else if data.age.value < 1 || data.age.value > 100 then Failure(AgeOutOfRange)
    else Success(Fields(data.name, data.age.value, data.gender, data.grade, data.subjects))
  }

  /** The age bounds: 0 reads as a missing field, 101 is out of range, 1 and 100 pass. */
  lemma AgeBoundaries(data: FormData, students: seq<Student>)
    requires data.name != [] && data.gender != [] && data.grade != [] && |data.subjects| != 0
    requires !NameTaken(students, data.name)
    ensures ValidateForm(data.(age := Some(0)), students, -1) == Failure(MissingField)
    ensures ValidateForm(data.(age := Some(101)), students, -1) == Failure(AgeOutOfRange)
    ensures ValidateForm(data.(age := Some(1)), students, -1).Success?
    ensures ValidateForm(data.(age := Some(100)), students, -1).Success?
  {
  }

  /** A name equal to a stored one up to case is refused while adding, whatever the rest of the form. */
  lemma DuplicateRefused(data: FormData, students: seq<Student>, i: int)
    requires 0 <= i < |students| && Lower(students[i].name) == Lower(data.name)
    ensures ValidateForm(data, students, -1).Failure?
  {
  }

  // ----- locating and removing records -----

  /** `students.findIndex(s => s.id === id)`: the first position with that id, or -1 when there is none. */
  function FindIndexById(students: seq<Student>, id: int): (r: int)
    ensures -1 <= r < |students|
    ensures r >= 0 ==> students[r].id == id && forall j :: 0 <= j < r ==> students[j].id != id
    ensures r == -1 <==> forall j :: 0 <= j < |students| ==> students[j].id != id
  {
    if students == [] then -1
    else if students[0].id == id then 0
    else
      var k := FindIndexById(students[1..], id);
      if k == -1 then -1 else k + 1
  }

  /** The position `splice(start, ...)` works at: a negative start counts from the end; both ends clamp. */
  function SpliceStart(length: nat, start: int): (k: nat)
    ensures k <= length
    ensures 0 <= start <= length ==> k == start
    ensures start < 0 && length + start >= 0 ==> k == length + start
    ensures length + start < 0 ==> k == 0
    ensures start > length ==> k == length
  {
    if start < 0 then (if length + start < 0 then 0 else length + start)
    else if start > length then length
    else start
  }

  /** The array left after `s.splice(start, 1)`. */
  function SpliceOne<T>(s: seq<T>, start: int): seq<T> {
    var k := SpliceStart(|s|, start);
    if k < |s| then s[..k] + s[k + 1..] else s
  }

  /**
   * What `splice(start, 1)` does: the element at the resolved start is gone, those
   * before it stay in place, those after it move down one; a start that resolves to
   * the end removes nothing.
   */
  lemma SpliceOneRemovesAt<T>(s: seq<T>, start: int)
    ensures var r, k := SpliceOne(s, start), SpliceStart(|s|, start);
      k < |s| ==>
        && |r| == |s| - 1
        && (forall i :: 0 <= i < k ==> r[i] == s[i])
        && (forall i :: k <= i < |r| ==> r[i] == s[i + 1])
        && multiset(r) + multiset{s[k]} == multiset(s)
    ensures SpliceStart(|s|, start) == |s| ==> SpliceOne(s, start) == s
  {
    var k := SpliceStart(|s|, start);
    if k < |s| {
      assert s == s[..k] + [s[k]] + s[k + 1..];
    }
  }

  /** `splice(-1, 1)`, what `deleteStudent` does when `findIndex` finds nothing, drops the last record. */
  lemma SpliceMinusOne<T>(s: seq<T>)
    requires s != []
    ensures SpliceOne(s, -1) == s[..|s| - 1]
  {
  }

  /** Ids are meant to be unique; `Date.now()` does not guarantee it, so this is an assumption where used. */
  predicate UniqueIds(students: seq<Student>) {
    forall i, j :: 0 <= i < j < |students| ==> students[i].id != students[j].id
  }

  /** The records whose id is not `id`, in their order. */
  function WithoutId(students: seq<Student>, id: int): (r: seq<Student>)
    ensures |r| <= |students|
    ensures forall x :: x in r <==> x in students && x.id != id
  {
    if students == [] then []
    else if students[0].id == id then WithoutId(students[1..], id)
    else [students[0]] + WithoutId(students[1..], id)
  }

  /**
   * With unique ids, splicing at the index `findIndex` gives for a stored id removes
   * exactly the record with that id and keeps the others in order.
   */
  lemma SpliceFoundRemovesThatRecord(students: seq<Student>, id: int)
    requires UniqueIds(students)
    requires FindIndexById(students, id) != -1
    ensures SpliceOne(students, FindIndexById(students, id)) == WithoutId(students, id)
  {
    SpliceAtIdRemovesThatRecord(students, id, FindIndexById(students, id));
  }

  /** With unique ids, splicing at any position holding `id` removes exactly that record. */
  lemma {:induction false} SpliceAtIdRemovesThatRecord(students: seq<Student>, id: int, k: int)
    requires UniqueIds(students)
    requires 0 <= k < |students| && students[k].id == id
    ensures SpliceOne(students, k) == WithoutId(students, id)
  {
    if k == 0 {
      SpliceHeadRemovesThatRecord(students, id);
    } else {
      var tail := students[1..];
      UniqueIdsTail(students);
      assert tail[k - 1] == students[k];
      SpliceAtIdRemovesThatRecord(tail, id, k - 1);
      SpliceFoundStep(students, id, k - 1);
    }
  }

  /** Splicing past a head with another id removes from the tail what removal by id does. */
  lemma SpliceFoundStep(students: seq<Student>, id: int, k: int)
    requires students != [] && students[0].id != id && 0 <= k < |students| - 1
    requires SpliceOne(students[1..], k) == WithoutId(students[1..], id)
    ensures SpliceOne(students, k + 1) == WithoutId(students, id)
  {
    SpliceOneCons(students, k);
    WithoutIdKeepsHead(students, id);
  }

  /** A head with another id stays in front of what removal leaves of the tail. */
  lemma WithoutIdKeepsHead(students: seq<Student>, id: int)
    requires students != [] && students[0].id != id
    ensures WithoutId(students, id) == [students[0]] + WithoutId(students[1..], id)
  {
  }

  /** The record at the head is the only one with its id; splicing it off leaves the rest. */
  lemma SpliceHeadRemovesThatRecord(students: seq<Student>, id: int)
    requires UniqueIds(students) && students != [] && students[0].id == id
    ensures SpliceOne(students, 0) == WithoutId(students, id)
  {
    var tail := students[1..];
    forall j | 0 <= j < |tail| ensures tail[j].id != id {
      assert tail[j] == students[j + 1];
    }
    WithoutIdAbsent(tail, id);
  }

  lemma UniqueIdsTail(students: seq<Student>)
    requires students != [] && UniqueIds(students)
    ensures UniqueIds(students[1..])
  {
    var tail := students[1..];
    forall i, j | 0 <= i < j < |tail| ensures tail[i].id != tail[j].id {
      assert tail[i] == students[i + 1] && tail[j] == students[j + 1];
    }
  }

  /** Splicing one position further into a longer array keeps its head. */
  lemma SpliceOneCons<T>(s: seq<T>, k: nat)
    requires k < |s| - 1
    ensures SpliceOne(s, k + 1) == [s[0]] + SpliceOne(s[1..], k)
  {
    assert s[..k + 1] == [s[0]] + s[1..][..k];
    assert s[k + 2..] == s[1..][k + 1..];
  }

  /** Removing an id no record has changes nothing. */
  lemma {:induction false} WithoutIdAbsent(students: seq<Student>, id: int)
    requires forall j :: 0 <= j < |students| ==> students[j].id != id
    ensures WithoutId(students, id) == students
  {
    if students != [] {
      WithoutIdAbsent(students[1..], id);
    }
  }

  /**
   * Removal by id as `deleteStudent` evidently intends it: when no stored record
   * has the id, nothing is removed.
   */
  function RemoveById(students: seq<Student>, id: int): (r: seq<Student>)
  {
    var k := FindIndexById(students, id);
    if k == -1 then students else SpliceOne(students, k)
  }

  /** With unique ids, `RemoveById` removes exactly the records with that id, and nothing when there is none. */
  lemma RemoveByIdExact(students: seq<Student>, id: int)
    requires UniqueIds(students)
    ensures RemoveById(students, id) == WithoutId(students, id)
  {
    if FindIndexById(students, id) == -1 {
      WithoutIdAbsent(students, id);
    } else {
      SpliceFoundRemovesThatRecord(students, id);
    }
  }

  /**
   * The delete as written removes the wrong record when the view is stale: for any
   * non-empty stored list without the row's id (after `a` was deleted, the view still
   * shows `a`; deleting it again), `findIndex` returns -1 and `splice(-1, 1)` removes
   * the last stored record, while the corrected removal keeps the list as it is.
   */
  lemma StaleDeleteRemovesOtherRecord(students: seq<Student>, id: int)
    requires students != [] && forall j :: 0 <= j < |students| ==> students[j].id != id
    ensures FindIndexById(students, id) == -1
    ensures SpliceOne(students, FindIndexById(students, id)) == students[..|students| - 1]
    ensures RemoveById(students, id) == students
  {
  }
}
