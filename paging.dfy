/** The pagination of the view: five records per page, pages numbered from 1. */
module Paging {

  /** `studentsPerPage`. */
  const PageSize: nat := 5

  /** `Math.ceil(n / studentsPerPage)`: the fewest pages that hold `n` records. */
  function TotalPages(n: nat): (r: nat)
    ensures r * PageSize >= n
    ensures r > 0 ==> (r - 1) * PageSize < n
  {
    (n + PageSize - 1) / PageSize
  }

  /**
   * The slice `displayStudents` shows for page `page`:
   * `view.slice((page - 1) * 5, (page - 1) * 5 + 5)`, both ends clamped to the view.
   */
  function PageSlice<T>(view: seq<T>, page: int): (r: seq<T>)
    requires page >= 1
    ensures |r| <= PageSize
    ensures page <= TotalPages(|view|) ==> r != []
    ensures page > TotalPages(|view|) ==> r == []
    ensures forall i :: 0 <= i < |r| ==> (page - 1) * PageSize + i < |view| && r[i] == view[(page - 1) * PageSize + i]
  {
    var start := (page - 1) * PageSize;
    var end := start + PageSize;
    if start >= |view| then [] else view[start..if end > |view| then |view| else end]
  }

  /** Pages 1 to `k`, one after the other. */
  function PagesUpTo<T>(view: seq<T>, k: nat): seq<T> {
    if k == 0 then [] else PagesUpTo(view, k - 1) + PageSlice(view, k)
  }

  function Min(a: int, b: int): int {
    if a < b then a else b
  }

  /** Page `k` is the stretch of the view from `5(k-1)` to `5k`, both clamped to its end. */
  lemma PageSliceStretch<T>(view: seq<T>, k: int)
    requires k >= 1
    ensures PageSlice(view, k) == view[Min((k - 1) * PageSize, |view|)..Min(k * PageSize, |view|)]
  {
    assert (k - 1) * PageSize + PageSize == k * PageSize;
  }

  /** The first `k` pages are the first `5k` records of the view (or all of them). */
  lemma {:induction false} PagesUpToPrefix<T>(view: seq<T>, k: nat)
    ensures PagesUpTo(view, k) == view[..Min(k * PageSize, |view|)]
  {
    if k > 0 {
      PagesUpToPrefix(view, k - 1);
      PageSliceStretch(view, k);
      assert (k - 1) * PageSize <= k * PageSize;
      PrefixThenStretch(view, Min((k - 1) * PageSize, |view|), Min(k * PageSize, |view|));
    }
  }

  lemma PrefixThenStretch<T>(view: seq<T>, a: nat, b: nat)
    requires a <= b <= |view|
    ensures view[..b] == view[..a] + view[a..b]
  {
  }

  /** Pages 1 to `TotalPages` together are the view: every record on exactly one page, in order. */
  lemma PagesCoverView<T>(view: seq<T>)
    ensures PagesUpTo(view, TotalPages(|view|)) == view
  {
    PagesUpToPrefix(view, TotalPages(|view|));
  }

  /** Twelve records: page 1 holds records 1-5, page 3 records 11-12, and there is no page 4. */
  lemma TwelveRecords<T>(view: seq<T>)
    requires |view| == 12
    ensures TotalPages(12) == 3
    ensures PageSlice(view, 1) == view[..5]
    ensures PageSlice(view, 3) == view[10..]
    ensures PageSlice(view, 4) == []
  {
  }
}
