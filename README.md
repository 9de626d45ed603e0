# Trivia API query engine, modelled in Dafny

This project models the question and category selection logic of the trivia
service's Flask handlers (`starter/backend/flaskr/__init__.py`). The database
is abstracted as two tables of records:

- `Question{id, question, answer, category, difficulty}`;
- `Category{id, type}`.

Each handler becomes an operation that answers with a JSON body or aborts
with 404 or 422.

Modules, in dependency order:

- `Models` (`models.dfy`): the records, the request bodies, the reply bodies and the two error statuses.
- `Query` (`query.dfy`): the two things the handlers ask of the database.
  - `filter(...)` is `Filter`. The lemma `FilterMultiplicity` proves that it keeps each accepted row exactly as often as it occurs.
  - `order_by(key)` is `SortBy`, an insertion sort proved sorted and a permutation, and the identity on already-sorted rows.
- `Pagination` (`pagination.dfy`): `paginate_questions`, a ten-row window cut with Python's slice semantics.
  - Negative bounds count from the end and are clamped.
  - So page 0 is always empty and a negative page is a window counted back from the end.
- `Text` (`text.dfy`): the `ilike('%term%')` match. It is a substring test after folding ASCII letters to lower case, proved equal to a window definition.
- `Handlers` (`handlers.dfy`): the read-only handlers as functions over the table's rows, which may be in any storage order:
  - category listing;
  - paged question listing;
  - search;
  - per-category listing;
  - quiz query.
- `Store` (`store.dfy`): the `Catalog` class holding the tables and the next id. Its methods are the two handlers that change the table, each followed by a fresh listing:
  - `DeleteQuestion`;
  - `CreateQuestion`, the POST handler with its search branch and its insert branch.
  - Its invariant `Valid()` holds ids strictly ascending in insertion order and below the next id.

Behaviour of the code worth noting, which the model follows:

- Categories are not paginated (lines 49-61); every category is returned.
- The question listing returns the page and the total only (lines 85-89), although the comment above it (lines 67-70) also asks for the current category and the categories.
- A category filter that matches no question is 404, not 422 (lines 196-197).
- The comment above the quiz handler (lines 209-215) asks for a random question and an "All" category. The code (lines 220-236) makes no random choice and has no "all" category. It returns a page of the unseen questions of one category, default `"1"`, and the reported total is the count after excluding previous questions.
- An empty `search` string is falsy (line 142), so such a request takes the insert branch rather than being treated as a search.

## Model

| member | source | states |
|---|---|---|
| `Pagination.Paginate` | starter/backend/flaskr/__init__.py:13-21 | at most 10 items, a contiguous run of the selection; for page >= 1 exactly `selection[(page-1)*10 .. min(page*10, n))`, item k being row (page-1)*10+k |
| `Pagination.PageEmptyIff` | starter/backend/flaskr/__init__.py:15-19 | a page is empty exactly when: page >= 1 and its start is at or past the end; or page 0; or a negative page whose end reaches back past the start of the selection |
| `Pagination.NegativePage` | starter/backend/flaskr/__init__.py:15-19 | a negative page is the window ending abs(page)*10 rows before the end of the selection |
| `Pagination.RowOnItsPage` | starter/backend/flaskr/__init__.py:13-21 | every row i of the selection is item i mod 10 of page i div 10 + 1, so pages 1, 2, ... cover the selection |
| `Pagination.AppendedRowEndsLastPage` | starter/backend/flaskr/__init__.py:127-129 | a row appended to a selection is the last item of the last page |
| `Query.Filter` | starter/backend/flaskr/__init__.py:193 | the filtered rows are rows of the table that the filter accepts, every accepted row of the table is among them, and there are no more of them than rows |
| `Query.FilterMultiplicity` | starter/backend/flaskr/__init__.py:193 | each accepted row occurs in the result exactly as often as in the table, and a rejected row not at all |
| `Query.SortBy` | starter/backend/flaskr/__init__.py:79 | `order_by` yields the same rows (a permutation) ascending by key |
| `Query.SortByOfSorted` | starter/backend/flaskr/__init__.py:108 | ordering rows already in key order leaves them unchanged |
| `Query.FilterShrinks` | starter/backend/flaskr/__init__.py:226 | a stronger filter keeps no more rows, and strictly fewer when some row passes only the weaker one |
| `Query.FilterKeepsStrictOrder` | starter/backend/flaskr/__init__.py:107-108 | filtering a strictly ascending table keeps it strictly ascending |
| `Query.FilterDropsOne` | starter/backend/flaskr/__init__.py:107 | dropping the one row with a given key from a table with distinct keys shortens it by exactly one |
| `Text.OccursIff` | starter/backend/flaskr/__init__.py:143 | the recursive substring test agrees with "some window of the text equals the term" |
| `Text.ContainsIgnoringCaseIff` | starter/backend/flaskr/__init__.py:143 | a question matches exactly when some window of its text equals the term after folding both to lower case |
| `Text.TermCaseIrrelevant` | starter/backend/flaskr/__init__.py:143 | the case of the search term does not change the match |
| `Text.ContainsItself` | starter/backend/flaskr/__init__.py:143 | every text matches itself |
| `Handlers.Selection` | starter/backend/flaskr/__init__.py:193 | a filtered, id-ordered query result: sorted by id and holding exactly the accepted rows of the table |
| `Handlers.SelectionEmptyIff` | starter/backend/flaskr/__init__.py:193-196 | a query result is empty exactly when no row of the table is accepted |
| `Handlers.PageOfSelection` | starter/backend/flaskr/__init__.py:18-19 | a page of an id-ordered selection is id-ordered and holds only rows of the selection |
| `Handlers.RetrieveCategories` | starter/backend/flaskr/__init__.py:49-61 | 404 exactly when there is no category; otherwise every category (same multiset) ascending by id, with `total_categories` equal to their count |
| `Handlers.PageOr404` | starter/backend/flaskr/__init__.py:80-83 | on every page number, 404 exactly when `paginate_questions` of the selection is empty, and otherwise exactly that page (1 to 10 id-ordered rows of the selection) with the selection size as total. For page >= 1 it is 404 exactly when the page start is at or past the end, and an answer is the window `[(page-1)*10, min(page*10, n))` |
| `Handlers.RetrieveQuestions` | starter/backend/flaskr/__init__.py:77-89 | 404 exactly when the page of the id-ordered table is empty. Otherwise the questions are exactly that page: for page >= 1 the rows `[(page-1)*10, min(page*10, n))` of the table in id order, 1 to 10 of them. `total_questions` is the size of the table. For page >= 1 it is 404 exactly when (page-1)*10 >= size (e.g. page 1000) |
| `Handlers.SearchQuestions` | starter/backend/flaskr/__init__.py:142-150 | never an error. The questions are exactly the requested page of the id-ordered matches: for page >= 1 the matches `[(page-1)*10, min(page*10, total))`, so at most 10 and only matching questions of the table. The total is the number of matches, 0 exactly when nothing matches. On page 1 with at most 10 matches every match is on the page |
| `Handlers.RetrieveCategoryBasedQuestions` | starter/backend/flaskr/__init__.py:191-203 | 404 exactly when the page of the id-ordered questions of that category is empty. Otherwise the questions are exactly that page: for page >= 1 the rows `[(page-1)*10, min(page*10, n))` of those questions in id order, 1 to 10 of them, each of the table with the category equal to the argument. The total is the unpaginated match count n. For page >= 1 it is 404 exactly when the page start is at or past n |
| `Handlers.RetrieveQuizQuestions` | starter/backend/flaskr/__init__.py:220-236 | 404 exactly when the page of the id-ordered candidates is empty. A candidate is a question of the table with the body's category (default "1") and an id outside `previous_questions`. Otherwise the questions are exactly that page: for page >= 1 the candidates `[(page-1)*10, min(page*10, n))` in id order, 1 to 10 of them. The total is the candidate count n. For page >= 1 it is 404 exactly when the page start is at or past n |
| `Handlers.CategoryWithoutQuestionsIsNotFound` | starter/backend/flaskr/__init__.py:193-197 | a category no question has is 404 on every page |
| `Handlers.QuizExhausted` | starter/backend/flaskr/__init__.py:226-230 | when every question of the quiz category is among the previous ones, the quiz is 404 on every page |
| `Handlers.QuizProgress` | starter/backend/flaskr/__init__.py:223-235 | adding the id of any question the quiz can serve (every returned one is such) to `previous_questions` strictly lowers the candidate count, so accumulating ids reaches the 404 |
| `Handlers.QuizWithoutPrevious` | starter/backend/flaskr/__init__.py:224-226 | with no previous ids, the quiz query equals the category listing |
| `Store.FindById` | starter/backend/flaskr/__init__.py:103 | `one_or_none` by id: a row of the table with that id, or none exactly when no row has it |
| `Store.RemovalFacts` | starter/backend/flaskr/__init__.py:107 | deleting an existing id from a valid table leaves one row fewer, exactly the rows with other ids, still strictly ascending and below the next id |
| `Store.Catalog.Listing` | starter/backend/flaskr/__init__.py:108 | re-reading the table in id order yields the stored rows as they are |
| `Store.Catalog.DeleteQuestion` | starter/backend/flaskr/__init__.py:100-119 | missing id: 422 and nothing changes. Existing id: exactly that row is removed and the count drops by one. The reply echoes `deleted = id` with a page of the new listing and the new size. The invariant is kept |
| `Store.Catalog.CreateQuestion` | starter/backend/flaskr/__init__.py:131-168 | Non-empty `search`: the search result, nothing changed. Complete body: appended under the next id, which is above every existing id; the reply gives that id, a page of the new listing and the new size. Incomplete body: 422, nothing changed. The invariant is kept |

## Left out

- Flask application setup, routing, CORS and the `after_request` headers (lines 23-41): plumbing with no selection logic.
- The error handlers the source leaves as a to-do (lines 238-242): the model returns only the status, not the Flask error page.
- SQLAlchemy, `setup_db` and `models.py`: `models.py` is not part of this model. `format()` is the identity, the tables are sequences, `insert()` appends and `delete()` removes.
- Store failures: a delete of an existing row and an insert of a complete body always succeed.
- `Store.Complete`: the store is assumed to accept a new row exactly when all four fields are present, because the column constraints live in `models.py`. The source itself catches any insert failure and answers 422 (lines 152-168).
- `Store.FindById`: returns the first row with the id. `one_or_none` would raise on several such rows, but the catalog invariant keeps ids unique.
- `Text.ContainsIgnoringCase`: does not model `ILIKE`'s wildcards. The term is not escaped (line 143), so `%` and `_` in it match any run of characters and any single character. Nor does it model the backslash, which is `LIKE`'s default escape character in PostgreSQL: a term `a\b` matches `ab`, and a term ending in `\` escapes the closing `%`: the term `abc\` gives the pattern `%abc\%`, which matches only text ending in `abc%` with a literal percent sign. Only ASCII letters are folded rather than the database's locale rules.
- An absent request body makes `body.get` raise an `AttributeError` (lines 135 and 223). An absent `previous_questions` makes the query raise a `TypeError` (line 226). Both end in HTTP 500 and are outside the model: a body is always present, and so is `QuizBody.previousQuestions`.
- JSON values of other types: a non-string `search`, or a numeric `category`. The model takes strings.
- The `page` query argument is modelled as already converted: `None` stands for absent or not an integer, which Flask turns into page 1.
- Route precedence between `/questions/quiz` and `/questions/<category>`: a framework concern.
- The unused `random` and `colorama` imports.
- The code has no category creation, so none is modelled.
- Concurrency between requests, and the database transactions behind each call, are not modelled.
- `Store.Catalog.CreateQuestion`: the model keeps `nextId` on a rejected insert and gives the next consecutive id. A PostgreSQL sequence may skip an id after a failed insert. The source promises only a fresh id above the existing ones, and the contract states that too.
