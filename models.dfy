/** Records of the trivia catalog and the shapes of the handlers' replies. */
module Models {

  /** A request argument that may be absent. */
  datatype Option<+T> = None | Some(value: T) {
    function GetOr(default: T): T {
      match this
      case Some(v) => v
      case None => default
    }
  }

  /** One row of the question table; `format()` is the identity on it. */
  datatype Question = Question(
    id: int,
    question: string,
    answer: string,
    category: string,
    difficulty: int)

  /** One row of the category table. */
  datatype Category = Category(id: int, kind: string)

  function QuestionId(q: Question): int { q.id }

  function CategoryId(c: Category): int { c.id }

  /** The two error statuses the handlers abort with: 404 and 422. */
  datatype Status = NotFound | Unprocessable

  /** A handler either answers with a JSON body or aborts with a status. */
  datatype Result<+T> = Ok(value: T) | Err(status: Status)

  /** `{'questions': ..., 'total_questions': ...}` */
  datatype QuestionPage = QuestionPage(questions: seq<Question>, total: nat)

  /** `{'categories': ..., 'total_categories': ...}` */
  datatype CategoryList = CategoryList(categories: seq<Category>, total: nat)

  /** `{'deleted': id, 'questions': ..., 'total_questions': ...}` */
  datatype Removal = Removal(deleted: int, listing: QuestionPage)

  /** What POST /questions answers: a search page or a creation. */
  datatype PostReply =
    | Searched(found: QuestionPage)
    | Created(created: int, listing: QuestionPage)

  /** The JSON body of POST /questions; an absent key is None. */
  datatype PostBody = PostBody(
    question: Option<string>,
    answer: Option<string>,
    category: Option<string>,
    difficulty: Option<int>,
    search: Option<string>)

  /** The JSON body of the quiz request. */
  datatype QuizBody = QuizBody(previousQuestions: seq<int>, category: Option<string>)
}
