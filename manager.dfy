/**
 * `StudentManager`: the stored students, the view the table shows, the edit cursor
 * and the current page, and the operations the page's buttons and form invoke.
 */
module Manager {
  import opened Wrappers
  import opened Records
  import opened StudentSearch
  import opened Sorting
  import opened Paging

  /** The record `addStudent` builds: a fresh id and creation time, never updated yet. */
  function NewStudent(id: int, f: Fields, createdAt: string): Student {
    Student(id, f.name, f.age, f.gender, f.grade, f.subjects, createdAt, None)
  }

  /** `{...old, ...data, updatedAt}`: the form's fields over the stored record. */
  function Updated(s: Student, f: Fields, updatedAt: string): Student {
    s.(name := f.name, age := f.age, gender := f.gender, grade := f.grade, subjects := f.subjects,
       updatedAt := Some(updatedAt))
  }

  class StudentManager {
    /** The stored students, in insertion order. */
    var students: seq<Student>
    /** The view: what the table pages through; not refreshed by add, update or delete. */
    var filteredStudents: seq<Student>
    /** The position in `students` being edited, or -1 while adding. */
    var editingIndex: int
    /** The page shown, counted from 1. */
    var currentPage: int

    ghost predicate Valid()
      reads this
    {
      editingIndex >= -1 && currentPage >= 1
    }

    /**
     * The constructor with `loadFromLocalStorage`: `stored` is the parsed stored array,
     * None when nothing is stored or it does not parse.
     */
    constructor (stored: Option<seq<Student>>)
      ensures Valid()
      ensures editingIndex == -1 && currentPage == 1
      ensures stored.Some? ==> students == stored.value && filteredStudents == stored.value
      ensures stored.None? ==> students == [] && filteredStudents == []
    {
      editingIndex := -1;
      currentPage := 1;
      match stored
      case Some(parsed) =>
        students := parsed;
        filteredStudents := parsed;
      case None =>
        students := [];
        filteredStudents := [];
    }

    /** `handleFormSubmit`: validate, then update the record being edited or add a new one. */
    method HandleFormSubmit(data: FormData, id: int, now: string) returns (outcome: Result<Fields, Rejection>)
      requires Valid()
      modifies this
      ensures Valid()
      ensures outcome == ValidateForm(data, old(students), old(editingIndex))
      ensures outcome.Failure? ==> unchanged(this)
      ensures outcome.Success? && old(editingIndex) == -1 ==>
        students == old(students) + [NewStudent(id, outcome.value, now)] && editingIndex == -1
      ensures outcome.Success? && 0 <= old(editingIndex) < |old(students)| ==>
        students == old(students)[old(editingIndex) := Updated(old(students)[old(editingIndex)], outcome.value, now)]
        && editingIndex == -1
      ensures outcome.Success? && old(editingIndex) >= |old(students)| ==> unchanged(this)
      ensures filteredStudents == old(filteredStudents) && currentPage == old(currentPage)
    {
      outcome := ValidateForm(data, students, editingIndex);
      if outcome.Failure? {
        return;
      }
      if editingIndex >= 0 {
        UpdateStudent(outcome.value, now);
      } else {
        AddStudent(outcome.value, id, now);
      }
    }

    /**
     * `addStudent`: appends one record with the given id and creation time. Ids stay
     * unique when the given one is not in use, which `Date.now()` does not promise.
     */
    method AddStudent(f: Fields, id: int, createdAt: string)
      requires Valid()
      modifies this`students
      ensures Valid()
      ensures students == old(students) + [NewStudent(id, f, createdAt)]
      ensures UniqueIds(old(students)) && FindIndexById(old(students), id) == -1 ==> UniqueIds(students)
    {
      students := students + [NewStudent(id, f, createdAt)];
    }

    /**
     * `updateStudent`: with the cursor on a stored record, overwrites that record's
     * fields, keeps its id and creation time, stamps the update time and ends editing;
     * with any other cursor it does nothing.
     */
    method UpdateStudent(f: Fields, updatedAt: string)
      requires Valid()
      modifies this`students, this`editingIndex
      ensures Valid()
      ensures 0 <= old(editingIndex) < |old(students)| ==>
        && |students| == |old(students)|
        && students[old(editingIndex)] == Updated(old(students)[old(editingIndex)], f, updatedAt)
        && (forall j :: 0 <= j < |students| && j != old(editingIndex) ==> students[j] == old(students)[j])
        && editingIndex == -1
      ensures !(0 <= old(editingIndex) < |old(students)|) ==>
        students == old(students) && editingIndex == old(editingIndex)
      ensures UniqueIds(old(students)) ==> UniqueIds(students)
    {
      if 0 <= editingIndex < |students| {
        students := students[editingIndex := Updated(students[editingIndex], f, updatedAt)];
        editingIndex := -1;
      }
    }

    /**
     * `editStudent`: for a row of the view, puts the cursor on the stored record with
     * the same id; -1 (adding) when none has it. A row outside the view does nothing.
     */
    method EditStudent(index: int)
      requires Valid()
      modifies this`editingIndex
      ensures Valid()
      ensures 0 <= index < |filteredStudents| ==>
        var k := FindIndexById(students, filteredStudents[index].id);
        && editingIndex == k
        && (k >= 0 ==> students[k].id == filteredStudents[index].id)
        && (k == -1 ==> forall j :: 0 <= j < |students| ==> students[j].id != filteredStudents[index].id)
      ensures !(0 <= index < |filteredStudents|) ==> editingIndex == old(editingIndex)
    {
      if 0 <= index < |filteredStudents| {
        editingIndex := FindIndexById(students, filteredStudents[index].id);
      }
    }

    /**
     * `deleteStudent`: for a row of the view and a confirmed prompt, removes the stored
     * record with the row's id, found by `findIndex`. The view is not refreshed. The
     * source splices at -1 when no stored record has the id, removing the last one;
     * here nothing is removed then (see `Records.StaleDeleteRemovesOtherRecord`).
     */
    method DeleteStudent(index: int, confirmed: bool)
      requires Valid()
      modifies this`students
      ensures Valid()
      ensures 0 <= index < |filteredStudents| && confirmed ==>
        students == RemoveById(old(students), filteredStudents[index].id)
      ensures 0 <= index < |filteredStudents| && confirmed && UniqueIds(old(students)) ==>
        students == WithoutId(old(students), filteredStudents[index].id)
      ensures !(0 <= index < |filteredStudents| && confirmed) ==> students == old(students)
    {
      if 0 <= index < |filteredStudents| && confirmed {
        var id := filteredStudents[index].id;
        var k := FindIndexById(students, id);
        if UniqueIds(students) {
          RemoveByIdExact(students, id);
        }
        if k != -1 {
          students := SpliceOne(students, k);
        }
      }
    }

    /** `searchStudents`: recomputes the view from the stored students and returns to page 1. */
    method SearchStudents(query: string)
      requires Valid()
      modifies this`filteredStudents, this`currentPage
      ensures Valid()
      ensures filteredStudents == Search(students, query) && currentPage == 1
    {
      var view := Search(students, query);
      filteredStudents := view;
      currentPage := 1;
    }

    /**
     * `sortStudents`: reorders the view by one field, ascending when `order` is "asc"
     * and descending otherwise, and returns to page 1.
     */
    method SortStudents(field: SortField, order: string)
      requires Valid()
      modifies this`filteredStudents, this`currentPage
      ensures Valid()
      ensures SortedBy(filteredStudents, field, order == "asc")
      ensures multiset(filteredStudents) == multiset(old(filteredStudents))
      ensures currentPage == 1
    {
      filteredStudents := Sort(filteredStudents, field, order == "asc");
      currentPage := 1;
    }

    /** `goToPage`: moves to `page` when the view has such a page; otherwise does nothing. */
    method GoToPage(page: int)
      requires Valid()
      modifies this`currentPage
      ensures Valid()
      ensures 1 <= page <= TotalPages(|filteredStudents|) ==> currentPage == page
      ensures !(1 <= page <= TotalPages(|filteredStudents|)) ==> currentPage == old(currentPage)
    {
      var totalPages := TotalPages(|filteredStudents|);
      if 1 <= page <= totalPages {
        currentPage := page;
      }
    }

    /** The rows `displayStudents` shows: the current page of the view. */
    function CurrentPageStudents(): (rows: seq<Student>)
      reads this
      requires Valid()
      ensures |rows| <= PageSize
      ensures forall i :: 0 <= i < |rows| ==>
        (currentPage - 1) * PageSize + i < |filteredStudents| && rows[i] == filteredStudents[(currentPage - 1) * PageSize + i]
      ensures rows == [] <==> currentPage > TotalPages(|filteredStudents|)
      ensures rows == filteredStudents[Min((currentPage - 1) * PageSize, |filteredStudents|)..Min(currentPage * PageSize, |filteredStudents|)]
    {
      PageSliceStretch(filteredStudents, currentPage);
      PageSlice(filteredStudents, currentPage)
    }

    /** `cancelEdit`: back to adding. */
    method CancelEdit()
      requires Valid()
      modifies this`editingIndex
      ensures Valid()
      ensures editingIndex == -1
    {
      editingIndex := -1;
    }

    /**
     * `clearAllStudents`: with stored students and a confirmed prompt, empties both
     * lists, returns to page 1 and ends editing. With no stored students it does
     * nothing, even if the view still shows records.
     */
    method ClearAllStudents(confirmed: bool)
      requires Valid()
      modifies this
      ensures Valid()
      ensures |old(students)| != 0 && confirmed ==>
        students == [] && filteredStudents == [] && currentPage == 1 && editingIndex == -1
      ensures !(|old(students)| != 0 && confirmed) ==> unchanged(this)
    {
      if |students| == 0 {
        return;
      }
      if confirmed {
        students := [];
        filteredStudents := [];
        currentPage := 1;
        editingIndex := -1;
      }
    }

    /**
     * `importData`: `parsed` is the imported text once parsed, None when it does not
     * parse to an array. An array replaces both lists; the page and the cursor stay.
     */
    method ImportData(parsed: Option<seq<Student>>) returns (ok: bool)
      requires Valid()
      modifies this`students, this`filteredStudents
      ensures Valid()
      ensures ok <==> parsed.Some?
      ensures ok ==> students == parsed.value && filteredStudents == parsed.value
      ensures !ok ==> students == old(students) && filteredStudents == old(filteredStudents)
    {
      match parsed
      case Some(list) =>
        students := list;
        filteredStudents := list;
        ok := true;
      case None =>
        ok := false;
    }
  }
}
