/** `paginate_questions`: a fixed window of ten over an ordered selection,
    cut with Python's slice `questions[start:end]`. */
module Pagination {
  import opened Models

  const QuestionsPerPage: nat := 10

  /** `request.args.get('page', 1, type=int)`: an absent or non-integer
      argument is page 1. */
  function PageNumber(arg: Option<int>): int {
    arg.GetOr(1)
  }

  /** Python's normalisation of one slice bound against a length `n`:
      a negative bound counts from the end, and the result is clamped to [0, n]. */
  function SliceBound(i: int, n: nat): (b: nat)
    ensures b <= n
  {
    if i < 0 then (if i + n < 0 then 0 else i + n)
    else if i > n then n
    else i
  }

  /** Python's `s[a:b]` with step 1. */
  function PySlice<T>(s: seq<T>, a: int, b: int): (r: seq<T>)
    ensures SliceBound(a, |s|) + |r| <= |s|
    ensures r == s[SliceBound(a, |s|)..SliceBound(a, |s|) + |r|]
    ensures |r| == if SliceBound(a, |s|) <= SliceBound(b, |s|)
                   then SliceBound(b, |s|) - SliceBound(a, |s|) else 0
  {
    var lo, hi := SliceBound(a, |s|), SliceBound(b, |s|);
    if lo <= hi then s[lo..hi] else []
  }

  function Min(a: int, b: int): int { if a <= b then a else b }

  /** `paginate_questions(request, selection)` with `page` already read. From
      page 1 on, the page is the window [(page-1)*10, page*10) clipped to the
      selection, in selection order. */
  function Paginate<T>(selection: seq<T>, page: int): (r: seq<T>)
    ensures |r| <= QuestionsPerPage
    ensures var lo := SliceBound((page - 1) * QuestionsPerPage, |selection|);
      lo + |r| <= |selection| && r == selection[lo..lo + |r|]
    ensures page >= 1 ==>
      var start := (page - 1) * QuestionsPerPage;
      && r == selection[Min(start, |selection|)..Min(start + QuestionsPerPage, |selection|)]
      && forall k :: 0 <= k < |r| ==> r[k] == selection[start + k]
  {
    var start := (page - 1) * QuestionsPerPage;
    PySlice(selection, start, start + QuestionsPerPage)
  }

  /** Exactly when a page comes out empty: from page 1 on, once its start is at
      or past the end; page 0 always; a negative page counts back from the end
      and is empty once its end reaches back to the beginning. */
  lemma PageEmptyIff<T>(selection: seq<T>, page: int)
    ensures Paginate(selection, page) == [] <==>
      if page >= 1 then (page - 1) * QuestionsPerPage >= |selection|
      else if page == 0 then true
      else |selection| + page * QuestionsPerPage <= 0
  {
  }

  /** A negative page is the window of ten that ends |page|*10 rows before
      the end of the selection. */
  lemma NegativePage<T>(selection: seq<T>, page: int)
    requires page < 0
    requires |selection| + page * QuestionsPerPage >= 0
    ensures Paginate(selection, page) ==
      selection[SliceBound(page * QuestionsPerPage - QuestionsPerPage, |selection|)..|selection| + page * QuestionsPerPage]
  {
  }

  /** Every row of the selection is on exactly one page from 1 on: row i is
      item i % 10 of page i / 10 + 1. */
  lemma RowOnItsPage<T>(selection: seq<T>, i: int)
    requires 0 <= i < |selection|
    ensures var page := i / QuestionsPerPage + 1;
      |Paginate(selection, page)| > i % QuestionsPerPage &&
      Paginate(selection, page)[i % QuestionsPerPage] == selection[i]
  {
  }

  /** A row appended to a selection is the last item of the last page. */
  lemma AppendedRowEndsLastPage<T>(selection: seq<T>, x: T)
    ensures var page := Paginate(selection + [x], |selection| / QuestionsPerPage + 1);
      page != [] && page[|page| - 1] == x
  {
    var s := selection + [x];
    var page := |selection| / QuestionsPerPage + 1;
    RowOnItsPage(s, |selection|);
    assert (page - 1) * QuestionsPerPage + QuestionsPerPage > |selection|;
  }
}
