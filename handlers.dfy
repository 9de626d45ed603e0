/** The read-only request handlers: the category listing, the paged question
    listing, the search, the per-category listing and the quiz query. Each
    takes the table's rows in storage order and orders them by id itself. */
module Handlers {
  import opened Models
  import opened Query
  import opened Pagination
  import opened Text

  /** `Question.query.filter(keep).order_by(Question.id).all()` */
  function Selection(table: seq<Question>, keep: Question -> bool): (r: seq<Question>)
    ensures SortedBy(r, QuestionId)
    ensures |r| == |Filter(table, keep)|
    ensures forall q :: q in r ==> q in table && keep(q)
    ensures forall q :: q in table && keep(q) ==> q in r
  {
    var rows := Filter(table, keep);
    var r := SortBy(rows, QuestionId);
    assert forall q :: q in r <==> q in multiset(r);
    assert forall q :: q in rows <==> q in multiset(rows);
    r
  }

  function Everything(): Question -> bool { (q: Question) => true }

  function InCategory(category: string): Question -> bool {
    (q: Question) => q.category == category
  }

  function Matching(term: string): Question -> bool {
    (q: Question) => ContainsIgnoringCase(q.question, term)
  }

  /** The quiz's candidates: in `category` and not shown before. */
  function Unseen(category: string, previous: seq<int>): Question -> bool {
    (q: Question) => q.category == category && q.id !in previous
  }

  /** A page cut from an id-ordered selection is itself id-ordered and holds
      only rows of the selection. */
  lemma PageOfSelection(selection: seq<Question>, page: int)
    requires SortedBy(selection, QuestionId)
    ensures SortedBy(Paginate(selection, page), QuestionId)
    ensures forall q :: q in Paginate(selection, page) ==> q in selection
  {
    var lo := SliceBound((page - 1) * QuestionsPerPage, |selection|);
    var r := Paginate(selection, page);
    RunOfSorted(selection, lo, lo + |r|);
  }

  lemma RunOfSorted(s: seq<Question>, lo: int, hi: int)
    requires 0 <= lo <= hi <= |s| && SortedBy(s, QuestionId)
    ensures SortedBy(s[lo..hi], QuestionId)
    ensures forall q :: q in s[lo..hi] ==> q in s
  {
    var r := s[lo..hi];
    forall i, j | 0 <= i < j < |r| ensures r[i].id <= r[j].id {
      assert r[i] == s[lo + i] && r[j] == s[lo + j];
    }
  }

  /** GET /categories: every category, ascending by id, with their count;
      404 when there is none. */
  function RetrieveCategories(categories: seq<Category>): (r: Result<CategoryList>)
    ensures r.Err? <==> categories == []
    ensures r.Err? ==> r.status == NotFound
    ensures r.Ok? ==>
      && SortedBy(r.value.categories, CategoryId)
      && multiset(r.value.categories) == multiset(categories)
      && r.value.total == |categories|
  {
    var ordered := SortBy(categories, CategoryId);
    if |ordered| == 0 then Err(NotFound) else Ok(CategoryList(ordered, |categories|))
  }

  /** The shared tail of the listing handlers: paginate, and abort with 404
      when the page is empty. */
  function PageOr404(selection: seq<Question>, pageArg: Option<int>): (r: Result<QuestionPage>)
    requires SortedBy(selection, QuestionId)
    ensures r.Err? ==> r.status == NotFound
    ensures r.Err? <==> Paginate(selection, PageNumber(pageArg)) == []
    ensures r.Ok? ==> r.value.questions == Paginate(selection, PageNumber(pageArg))
    ensures r.Ok? ==>
      && r.value.total == |selection|
      && 1 <= |r.value.questions| <= QuestionsPerPage
      && SortedBy(r.value.questions, QuestionId)
      && (forall q :: q in r.value.questions ==> q in selection)
    ensures PageNumber(pageArg) >= 1 ==>
      var start := (PageNumber(pageArg) - 1) * QuestionsPerPage;
      && (r.Err? <==> start >= |selection|)
      && (r.Ok? ==> r.value.questions == selection[start..Min(start + QuestionsPerPage, |selection|)])
  {
    var page := Paginate(selection, PageNumber(pageArg));
    PageOfSelection(selection, PageNumber(pageArg));
    PageEmptyIff(selection, PageNumber(pageArg));
    if |page| == 0 then Err(NotFound) else Ok(QuestionPage(page, |selection|))
  }

  /** GET /questions: a page of all questions in id order with the size of the
      whole table; 404 exactly when the page is empty. */
  function RetrieveQuestions(table: seq<Question>, pageArg: Option<int>): (r: Result<QuestionPage>)
    ensures r.Err? ==> r.status == NotFound
    ensures r.Err? <==> Paginate(SortBy(table, QuestionId), PageNumber(pageArg)) == []
    ensures r.Ok? ==> r.value.questions == Paginate(SortBy(table, QuestionId), PageNumber(pageArg))
    ensures r.Ok? && PageNumber(pageArg) >= 1 ==>
      var start := (PageNumber(pageArg) - 1) * QuestionsPerPage;
      r.value.questions == SortBy(table, QuestionId)[start..Min(start + QuestionsPerPage, |table|)]
    ensures r.Ok? ==>
      && r.value.total == |table|
      && 1 <= |r.value.questions| <= QuestionsPerPage
      && SortedBy(r.value.questions, QuestionId)
      && (forall q :: q in r.value.questions ==> q in table)
    ensures PageNumber(pageArg) >= 1 ==>
      (r.Err? <==> (PageNumber(pageArg) - 1) * QuestionsPerPage >= |table|)
  {
    FilterAll(table, Everything());
    PageOr404(Selection(table, Everything()), pageArg)
  }

  /** The search branch of POST /questions: a page of the questions whose text
      contains the term up to case, in id order, with the number of all such
      questions. No match is a success with total 0, never an error. */
  function SearchQuestions(table: seq<Question>, term: string, pageArg: Option<int>): (r: QuestionPage)
    ensures |r.questions| <= QuestionsPerPage && |r.questions| <= r.total
    ensures SortedBy(r.questions, QuestionId)
    ensures r.total == |Filter(table, Matching(term))|
    ensures r.questions == Paginate(Selection(table, Matching(term)), PageNumber(pageArg))
    ensures PageNumber(pageArg) >= 1 ==>
      var start := (PageNumber(pageArg) - 1) * QuestionsPerPage;
      r.questions == Selection(table, Matching(term))[Min(start, r.total)..Min(start + QuestionsPerPage, r.total)]
    ensures forall q :: q in r.questions ==> q in table && ContainsIgnoringCase(q.question, term)
    ensures r.total == 0 <==> forall q :: q in table ==> !ContainsIgnoringCase(q.question, term)
    ensures PageNumber(pageArg) == 1 ==>
      forall q :: q in table && ContainsIgnoringCase(q.question, term) && r.total <= QuestionsPerPage
        ==> q in r.questions
  {
    var selection := Selection(table, Matching(term));
    var page := Paginate(selection, PageNumber(pageArg));
    PageOfSelection(selection, PageNumber(pageArg));
    SelectionEmptyIff(table, Matching(term));
    MatchesOfPage(table, term, page, selection);
    QuestionPage(page, |selection|)
  }

  /** Rows drawn from the search's selection are matching rows of the table. */
  lemma MatchesOfPage(table: seq<Question>, term: string, page: seq<Question>, selection: seq<Question>)
    requires selection == Selection(table, Matching(term))
    requires forall q :: q in page ==> q in selection
    ensures forall q :: q in page ==> q in table && ContainsIgnoringCase(q.question, term)
  {
    forall q | q in page ensures q in table && ContainsIgnoringCase(q.question, term) {
      assert Matching(term)(q);
    }
  }

  /** A selection is empty exactly when no row of the table is accepted. */
  lemma SelectionEmptyIff(table: seq<Question>, keep: Question -> bool)
    ensures |Selection(table, keep)| == 0 <==> forall q :: q in table ==> !keep(q)
  {
    if forall q :: q in table ==> !keep(q) {
      FilterNone(table, keep);
    } else {
      var q :| q in table && keep(q);
      assert q in Selection(table, keep);
    }
  }

  /** GET /questions/<category>: a page of the questions of that category in
      id order with their number; 404 exactly when the page is empty. */
  function RetrieveCategoryBasedQuestions(table: seq<Question>, category: string, pageArg: Option<int>)
    : (r: Result<QuestionPage>)
    ensures r.Err? ==> r.status == NotFound
    ensures r.Err? <==> Paginate(Selection(table, InCategory(category)), PageNumber(pageArg)) == []
    ensures r.Ok? ==> r.value.questions == Paginate(Selection(table, InCategory(category)), PageNumber(pageArg))
    ensures r.Ok? && PageNumber(pageArg) >= 1 ==>
      var start := (PageNumber(pageArg) - 1) * QuestionsPerPage;
      r.value.questions == Selection(table, InCategory(category))[start..Min(start + QuestionsPerPage, |Filter(table, InCategory(category))|)]
    ensures r.Ok? ==>
      && r.value.total == |Filter(table, InCategory(category))|
      && 1 <= |r.value.questions| <= QuestionsPerPage
      && SortedBy(r.value.questions, QuestionId)
      && (forall q :: q in r.value.questions ==> q in table && q.category == category)
    ensures PageNumber(pageArg) >= 1 ==>
      (r.Err? <==> (PageNumber(pageArg) - 1) * QuestionsPerPage >= |Filter(table, InCategory(category))|)
  {
    PageOr404(Selection(table, InCategory(category)), pageArg)
  }

  /** The category the quiz draws from: the body's, or "1" when absent. */
  function QuizCategory(body: QuizBody): string {
    body.category.GetOr("1")
  }

  /** How many questions the quiz can still serve for this body. */
  function CandidateCount(table: seq<Question>, body: QuizBody): nat {
    |Filter(table, Unseen(QuizCategory(body), body.previousQuestions))|
  }

  /** The quiz query: a page of the questions of the chosen category whose ids
      are not among the previous ones, in id order, with their number; 404
      exactly when the page is empty. */
  function RetrieveQuizQuestions(table: seq<Question>, body: QuizBody, pageArg: Option<int>)
    : (r: Result<QuestionPage>)
    ensures r.Err? ==> r.status == NotFound
    ensures r.Err? <==> Paginate(Selection(table, Unseen(QuizCategory(body), body.previousQuestions)), PageNumber(pageArg)) == []
    ensures r.Ok? ==> r.value.questions == Paginate(Selection(table, Unseen(QuizCategory(body), body.previousQuestions)), PageNumber(pageArg))
    ensures r.Ok? && PageNumber(pageArg) >= 1 ==>
      var start := (PageNumber(pageArg) - 1) * QuestionsPerPage;
      r.value.questions == Selection(table, Unseen(QuizCategory(body), body.previousQuestions))[start..Min(start + QuestionsPerPage, CandidateCount(table, body))]
    ensures r.Ok? ==>
      && r.value.total == CandidateCount(table, body)
      && 1 <= |r.value.questions| <= QuestionsPerPage
      && SortedBy(r.value.questions, QuestionId)
      && (forall q :: q in r.value.questions ==>
            q in table && q.category == QuizCategory(body) && q.id !in body.previousQuestions)
    ensures PageNumber(pageArg) >= 1 ==>
      (r.Err? <==> (PageNumber(pageArg) - 1) * QuestionsPerPage >= CandidateCount(table, body))
  {
    PageOr404(Selection(table, Unseen(QuizCategory(body), body.previousQuestions)), pageArg)
  }

  /** A category that no question has is 404 on every page; the handler never
      answers 422 for it. */
  lemma CategoryWithoutQuestionsIsNotFound(table: seq<Question>, category: string, pageArg: Option<int>)
    requires forall q :: q in table ==> q.category != category
    ensures RetrieveCategoryBasedQuestions(table, category, pageArg) == Err(NotFound)
  {
    FilterNone(table, InCategory(category));
    var selection := Selection(table, InCategory(category));
    assert selection == [];
    PageEmptyIff(selection, PageNumber(pageArg));
  }

  /** Once every question of the quiz category has been shown, the quiz
      answers 404 on every page. */
  lemma QuizExhausted(table: seq<Question>, body: QuizBody, pageArg: Option<int>)
    requires forall q :: q in table && q.category == QuizCategory(body) ==> q.id in body.previousQuestions
    ensures RetrieveQuizQuestions(table, body, pageArg) == Err(NotFound)
  {
    FilterNone(table, Unseen(QuizCategory(body), body.previousQuestions));
    var selection := Selection(table, Unseen(QuizCategory(body), body.previousQuestions));
    assert selection == [];
    PageEmptyIff(selection, PageNumber(pageArg));
  }

  /** Sending back the id of any question the quiz can serve (and so of any
      question it returned) leaves strictly fewer candidates, so a client that
      accumulates returned ids reaches the 404 in finitely many calls. */
  lemma QuizProgress(table: seq<Question>, body: QuizBody, q: Question)
    requires q in table && q.category == QuizCategory(body) && q.id !in body.previousQuestions
    ensures CandidateCount(table, QuizBody(body.previousQuestions + [q.id], body.category))
          < CandidateCount(table, body)
  {
    var c := QuizCategory(body);
    var prev := body.previousQuestions;
    forall y | Unseen(c, prev + [q.id])(y) ensures Unseen(c, prev)(y) {
      assert y.id !in prev + [q.id];
    }
    assert q.id in prev + [q.id];
    FilterShrinks(table, Unseen(c, prev), Unseen(c, prev + [q.id]), q);
  }

  /** With no previous questions the quiz query is the category listing. */
  lemma QuizWithoutPrevious(table: seq<Question>, category: string, pageArg: Option<int>)
    ensures RetrieveQuizQuestions(table, QuizBody([], Some(category)), pageArg)
         == RetrieveCategoryBasedQuestions(table, category, pageArg)
  {
    var body := QuizBody([], Some(category));
    assert QuizCategory(body) == category;
    FilterAgrees(table, Unseen(category, []), InCategory(category));
    var rows := Filter(table, InCategory(category));
    assert Selection(table, Unseen(category, [])) == SortBy(rows, QuestionId);
    assert Selection(table, InCategory(category)) == SortBy(rows, QuestionId);
  }
}
