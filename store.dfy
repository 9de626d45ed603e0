/** The catalog as the database holds it, and the two handlers that change it:
    DELETE /questions/<id> and the insert branch of POST /questions. Both
    re-read the whole table after the change. */
module Store {
  import opened Models
  import opened Query
  import opened Pagination
  import opened Handlers

  /** `Question.query.filter(Question.id == id).one_or_none()` */
  function FindById(table: seq<Question>, id: int): (r: Option<Question>)
    ensures r.Some? ==> r.value in table && r.value.id == id
    ensures r.None? <==> forall q :: q in table ==> q.id != id
  {
    if table == [] then None
    else if table[0].id == id then Some(table[0])
    else
      assert forall q :: q in table ==> q == table[0] || q in table[1..];
      FindById(table[1..], id)
  }

  /** The rows that survive `question.delete()` of the row with id `id`. */
  function OtherThan(id: int): Question -> bool {
    (q: Question) => q.id != id
  }

  /** The search branch is taken when `search` is present and truthy, that is
      a non-empty string. */
  predicate SearchRequested(body: PostBody) {
    body.search.Some? && body.search.value != ""
  }

  /** The store accepts a new row when it has all four fields. */
  predicate Complete(body: PostBody) {
    body.question.Some? && body.answer.Some? && body.category.Some? && body.difficulty.Some?
  }

  function NewQuestion(id: int, body: PostBody): Question
    requires Complete(body)
  {
    Question(id, body.question.value, body.answer.value, body.category.value, body.difficulty.value)
  }

  /** Removing the row of an id that occurs in a strictly ascending table
      drops exactly that row and keeps the table ascending and below `bound`. */
  lemma RemovalFacts(table: seq<Question>, id: int, bound: int)
    requires StrictlySortedBy(table, QuestionId)
    requires forall q :: q in table ==> q.id < bound
    requires FindById(table, id).Some?
    ensures var rest := Filter(table, OtherThan(id));
      && |rest| == |table| - 1
      && StrictlySortedBy(rest, QuestionId)
      && (forall q :: q in rest ==> q.id < bound)
      && (forall q :: q in rest <==> q in table && q.id != id)
  {
    var q := FindById(table, id).value;
    var k :| 0 <= k < |table| && table[k] == q;
    assert QuestionId(table[k]) == id;
    FilterDropsOne(table, OtherThan(id), QuestionId, id);
    FilterKeepsStrictOrder(table, OtherThan(id), QuestionId);
  }

  class Catalog {
    /** The question table, in insertion order. */
    var questions: seq<Question>
    /** The category table. */
    var categories: seq<Category>
    /** The id the store gives the next inserted question. */
    var nextId: int

    /** Ids rise strictly in insertion order and stay below the next one. */
    ghost predicate Valid()
      reads this
    {
      && StrictlySortedBy(questions, QuestionId)
      && forall q :: q in questions ==> q.id < nextId
    }

    constructor (rows: seq<Question>, categoryRows: seq<Category>)
      requires StrictlySortedBy(rows, QuestionId)
      ensures Valid()
      ensures questions == rows && categories == categoryRows
    {
      questions := rows;
      categories := categoryRows;
      var next := if rows == [] then 1 else rows[|rows| - 1].id + 1;
      forall q | q in rows ensures q.id < next {
        var i :| 0 <= i < |rows| && rows[i] == q;
        assert i < |rows| - 1 ==> QuestionId(rows[i]) < QuestionId(rows[|rows| - 1]);
      }
      nextId := next;
    }

    /** `Question.query.order_by(Question.id).all()` over the current table. */
    function Listing(): (r: seq<Question>)
      reads this
      requires Valid()
      ensures r == questions
    {
      FilterAll(questions, Everything());
      assert SortedBy(questions, QuestionId);
      SortByOfSorted(questions, QuestionId);
      Selection(questions, Everything())
    }

    /** DELETE /questions/<id>: a missing id ends in 422 (the 404 raised for it
        is caught by the handler's catch-all) with nothing changed; an existing
        id loses exactly its row, and the reply echoes the id with a page of the
        new listing and the new table size. */
    method DeleteQuestion(questionId: int, pageArg: Option<int>) returns (r: Result<Removal>)
      requires Valid()
      modifies this
      ensures Valid()
      ensures categories == old(categories) && nextId == old(nextId)
      ensures FindById(old(questions), questionId).None? ==>
        r == Err(Unprocessable) && questions == old(questions)
      ensures FindById(old(questions), questionId).Some? ==>
        && questions == Filter(old(questions), OtherThan(questionId))
        && |questions| == |old(questions)| - 1
        && (forall q :: q in questions <==> q in old(questions) && q.id != questionId)
        && r == Ok(Removal(questionId,
                 QuestionPage(Paginate(questions, PageNumber(pageArg)), |questions|)))
    {
      var found := FindById(questions, questionId);
      if found.None? {
        r := Err(Unprocessable);
        return;
      }
      RemovalFacts(questions, questionId, nextId);
      questions := Filter(questions, OtherThan(questionId));
      var listing := Listing();
      r := Ok(Removal(questionId, QuestionPage(Paginate(listing, PageNumber(pageArg)), |questions|)));
    }

    /** POST /questions. A non-empty `search` runs the search and changes
        nothing. Otherwise a complete body is inserted under the next id, at the
        end of the listing, and the reply gives that id with a page of the new
        listing and the new table size; an incomplete body is 422 with nothing
        changed. */
    method CreateQuestion(body: PostBody, pageArg: Option<int>) returns (r: Result<PostReply>)
      requires Valid()
      modifies this
      ensures Valid()
      ensures categories == old(categories)
      ensures SearchRequested(body) ==>
        && questions == old(questions) && nextId == old(nextId)
        && r == Ok(Searched(SearchQuestions(questions, body.search.value, pageArg)))
      ensures !SearchRequested(body) && !Complete(body) ==>
        r == Err(Unprocessable) && questions == old(questions) && nextId == old(nextId)
      ensures !SearchRequested(body) && Complete(body) ==>
        && questions == old(questions) + [NewQuestion(old(nextId), body)]
        && (forall q :: q in old(questions) ==> q.id < old(nextId))
        && nextId == old(nextId) + 1
        && r == Ok(Created(old(nextId),
                 QuestionPage(Paginate(questions, PageNumber(pageArg)), |questions|)))
    {
      if SearchRequested(body) {
        r := Ok(Searched(SearchQuestions(questions, body.search.value, pageArg)));
      } else if Complete(body) {
        var question := NewQuestion(nextId, body);
        ghost var before := questions;
        questions := questions + [question];
        nextId := nextId + 1;
        assert forall i :: 0 <= i < |before| ==> questions[i] == before[i];
        var listing := Listing();
        r := Ok(Created(question.id, QuestionPage(Paginate(listing, PageNumber(pageArg)), |questions|)));
      } else {
        r := Err(Unprocessable);
      }
    }
  }
}
