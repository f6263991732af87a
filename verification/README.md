# Library catalogue: normaliser and check-then-write rules

This project models, in Dafny, the core of a small library-catalogue web API
(FastAPI over a relational store). It has two layers.

- **The text normaliser `sanitize`.** It keeps only alphanumeric and
  whitespace characters. It splits on runs of whitespace, joins the words
  with one space and lowercases the result. Every stored username, author
  name and book title passes through it.
- **The users, authors and books tables, and the handlers that write them.**
  Each write handler runs a fixed sequence of checks. The checks are
  permission, existence of the target, emptiness of the sanitized text,
  uniqueness against the stored rows, and existence of the referenced
  author. Only after all of them does the handler add, change or delete a
  row.

The modules follow the program's structure.

- `Seqs`: sequence helpers.
  - `Filter`, `FindFirst` and `Contains` stand for SQL `WHERE`, for
    `session.scalar` (the first matching row) and for SQL `contains`.
  - `Page` stands for `OFFSET`/`LIMIT`.
  - The table-invariant building blocks `Keyed`, `Distinct` and `All`.
- `Sanitizer`: `sanitize`, with `str.split`, `' '.join` and `str.lower`,
  and its properties.
- `SanitizeExamples`: the normaliser on inputs from the test-suite.
- `Models`: the records, the request-side truth test on optional fields,
  and every error response (kind, status, detail).
- `Tables`: well-formed tables, lookups by id, and how appending, replacing
  and deleting a row keep a table well formed.
- `Database`: the store as a class `Session`, and the five guards of
  `fast/fast/database.py` as pure functions.
- `Users`, `Authors`, `Books`: the route handlers. The read-only queries
  are functions. The writes are methods on a `Session`, each with its
  complete outcome and new state in its contract.

Every write handler's contract states the following.

- Which error is raised, in the source's order of checks.
- That `Ok` comes back exactly when every check passes.
- That an error leaves the store unchanged.
- The exact new table on success, and that the other tables and id
  counters are untouched.
- That the store's invariants are kept. `Valid` (positive increasing ids
  below the next id, stored names clean) holds in every store the constructor
  and the handlers produce.
- That `Unique` is preserved. `Unique` means no repeated sanitized
  username, email, author name, or (title, author id) pair.
- That the book writes keep every book referring to a stored author.

Behaviour of the code that the model keeps as written:

- **User conflicts are status 400.** A username or email that already
  exists gives status 400 (`fast/fast/database.py:28-36`). The tests expect
  409 (`fast/tests/test_users.py:46,59`). The model follows the code.
- **Permission failures are 400 as well**, with detail
  'Not enough permissions'.
- **No guard leaves the caller's own row out.** A user's PUT or PATCH that
  resubmits its own username is refused, and so is renaming an author to
  its current name. So is patching a book to the title and author it
  already has. The tests expect it for users
  (`fast/tests/test_users.py:226-251`).
- **Deleting an author leaves its books in place.** Such books then refer to
  an author that is gone (`Database.Session.RemoveAuthor`).
- **The `Book` record is not defined in the models file.** Its mapped class
  is commented out (`fast/fast/models.py:42-56`). Its shape here is
  `(id, year, title, authorId)`, taken from those lines and from
  `fast/fast/routers/books.py`.
- **Ids are never reused.** They come from per-table counters that only
  move forward, as the store's id sequences do.

## Model

| member | source | states |
|---|---|---|
| Sanitizer.IsAlnum | fast/fast/utils/sanitize.py:3 | `str.isalnum` over Latin-1: ASCII digits and letters, the ordinal indicators, superscript digits, MICRO SIGN, vulgar fractions and the accented letters |
| Sanitizer.IsSpace | fast/fast/utils/sanitize.py:3 | `str.isspace` over Latin-1: TAB to CR, the information separators, SPACE, NEXT LINE and NO-BREAK SPACE |
| Sanitizer.KeepChar | fast/fast/utils/sanitize.py:3 | the test the comprehension applies: alphanumeric or whitespace |
| Seqs.Filter | fast/fast/utils/sanitize.py:2-4 | the characters (or, for SQL `WHERE`, the rows) that pass a test, in their original order, never more than the input |
| Sanitizer.Sanitize | fast/fast/utils/sanitize.py:1-6 | `sanitize` itself: keep the alphanumeric and whitespace characters, split, join with one space, lowercase; its properties are the `Sanitize…` lemmas below |
| Sanitizer.Join | fast/fast/utils/sanitize.py:5 | `' '.join`: the words with one space between consecutive ones; its properties are `JoinSingleSpaced`, `JoinNotSpace` and `SplitJoin` |
| Sanitizer.Lower | fast/fast/utils/sanitize.py:5 | `str.lower` on a Latin-1 character: the result is never upper-case, keeps the character's alphanumeric and whitespace class, and leaves non-upper-case characters alone |
| Sanitizer.LowerAll | fast/fast/utils/sanitize.py:5 | `str.lower` on a string: same length, each character lowercased in place |
| Sanitizer.Split | fast/fast/utils/sanitize.py:5 | `str.split()` yields only non-empty words without whitespace; where the words break is stated by `SplitGaps` and `SplitWeave` |
| Sanitizer.SplitGaps | fast/fast/utils/sanitize.py:5 | every string is the words of `str.split()` with whitespace gaps around and between them, the gaps between two words non-empty: each word is a maximal run of non-whitespace characters |
| Sanitizer.SplitWeave | fast/fast/utils/sanitize.py:5 | conversely, words laid out with whitespace gaps (non-empty between words) split back into exactly those words |
| Sanitizer.SplitJoin | fast/fast/utils/sanitize.py:5 | round trip: `' '.join(ws).split() == ws` for words without whitespace |
| Sanitizer.SplitConcat | fast/fast/utils/sanitize.py:5 | the words of `str.split()` concatenated are exactly the input's non-whitespace characters, in order |
| Sanitizer.JoinSplit | fast/fast/utils/sanitize.py:5 | round trip: a single-spaced string is `' '.join` of its own `split()` |
| Sanitizer.JoinSingleSpaced | fast/fast/utils/sanitize.py:5 | joining words with one space gives a string with no leading, trailing or doubled space, empty exactly when there are no words |
| Sanitizer.JoinNotSpace | fast/fast/utils/sanitize.py:5 | dropping the spaces of the joined words gives their concatenation |
| Sanitizer.SanitizeSingleSpaced | fast/fast/utils/sanitize.py:1-6 | the output has no leading, trailing or doubled space and no whitespace other than `' '` |
| Sanitizer.SanitizeLetters | fast/fast/utils/sanitize.py:2-5 | deleting the spaces of the output gives the input's alphanumeric characters, lowercased, in their original order |
| Sanitizer.SanitizeChars | fast/fast/utils/sanitize.py:2-5 | every output character is `' '` or a lowercase alphanumeric; punctuation is dropped |
| Sanitizer.SanitizeLowercase | fast/fast/utils/sanitize.py:5 | the output is its own lowercase form |
| Sanitizer.SanitizeEmpty | fast/fast/utils/sanitize.py:2-5 | the output is empty if and only if the input has no alphanumeric character |
| Sanitizer.SanitizeClean | fast/fast/utils/sanitize.py:1-6 | a single-spaced string of alphanumerics and spaces is only lowercased |
| Sanitizer.SanitizeForm | fast/fast/utils/sanitize.py:1-6 | every output is in sanitized form (single-spaced, lowercase alphanumerics and spaces) |
| Sanitizer.SanitizedFormFixed | fast/fast/utils/sanitize.py:1-6 | the strings in sanitized form are exactly the fixed points of `sanitize`, over Latin-1 (see "Left out") |
| Sanitizer.SanitizeIdempotent | fast/fast/utils/sanitize.py:1-6 | `sanitize(sanitize(s)) == sanitize(s)`, over Latin-1 (see "Left out") |
| Sanitizer.SplitLower | fast/fast/utils/sanitize.py:5 | splitting a lowercased string gives the lowercased words of the original |
| Sanitizer.JoinLower | fast/fast/utils/sanitize.py:5 | joining lowercased words is lowercasing the joined words |
| Sanitizer.FilterLower | fast/fast/utils/sanitize.py:2-4 | lowercasing commutes with keeping only alphanumeric and whitespace characters |
| Sanitizer.SanitizeIgnoresCase | fast/fast/utils/sanitize.py:1-6 | a string and its lowercase form sanitize alike |
| Sanitizer.SanitizeWords | fast/fast/utils/sanitize.py:1-6 | the words of the output are the words of the kept characters, lowercased: word boundaries stay where the whitespace runs were |
| SanitizeExamples.TrailingSpacesExample | fast/tests/test_utils.py:4-6 | `'user     '` sanitizes to `'user'` |
| SanitizeExamples.BlankExample | fast/tests/test_utils.py:9-11 | a blank string sanitizes to `''` |
| SanitizeExamples.AccentedTitleExample | fast/tests/test_books.py:172-184 | `'Segunda Fundação'` sanitizes to `'segunda fundação'`: letters outside ASCII are kept and lowercased |
| Seqs.FindFirst | fast/fast/database.py:20-25 | `session.scalar`: the index of the first row satisfying the condition, none exactly when no row does |
| Seqs.Contains | fast/fast/routers/authors.py:60 | SQL `contains`: true exactly when the text occurs at some position |
| Seqs.Page | fast/fast/routers/books.py:67 | `OFFSET`/`LIMIT`: a window of consecutive rows in order, at most `limit` long and cut short only by the end of the table |
| Tables.UserIndex | fast/fast/routers/users.py:65 | the row `select(User).where(User.id == id)` finds, none exactly when no row has that id |
| Tables.AuthorIndex | fast/fast/routers/authors.py:85 | the author row with the given id; an absent id matches nothing |
| Tables.BookIndex | fast/fast/routers/books.py:90 | the book row with the given id, none exactly when no row has it |
| Tables.UsersAppend | fast/fast/routers/users.py:44-52 | adding a user with the next id and a clean name keeps the table well formed, and unique when the user is fresh |
| Tables.UsersReplace | fast/fast/routers/users.py:95-103 | overwriting a user keeps its id, the table well formed, and unique when the new values are fresh |
| Tables.UsersRemove | fast/fast/routers/users.py:149-150 | deleting a user keeps the table well formed and unique |
| Tables.AuthorsAppend | fast/fast/routers/authors.py:42-45 | adding an author keeps the table well formed, unique when fresh, and every book's author stored |
| Tables.AuthorsReplace | fast/fast/routers/authors.py:101-105 | renaming an author keeps the table well formed, unique when fresh, and every book's author stored |
| Tables.AuthorsRemove | fast/fast/routers/authors.py:119-120 | deleting an author keeps the table well formed and unique |
| Tables.BooksAppend | fast/fast/routers/books.py:41-47 | adding a book keeps the table well formed, unique when fresh, and every book's author stored when the new one's is |
| Tables.BooksReplace | fast/fast/routers/books.py:106-114 | changing a book keeps the table well formed, unique when fresh, and every book's author stored when the new one's is |
| Tables.BooksRemove | fast/fast/routers/books.py:128-129 | deleting a book keeps the table well formed, unique, and every book's author stored |
| Tables.SanitizedClean | fast/fast/utils/sanitize.py:1-6 | a non-empty sanitized text is fit to store |
| Tables.CleanFixed | fast/fast/utils/sanitize.py:1-6 | a stored name is its own sanitized form, over Latin-1 (see "Left out") |
| Database.Session.constructor | fast/fast/models.py:9-39 | an empty store with every id counter at 1 satisfies all the store invariants |
| Database.Session.AddUser | fast/fast/routers/users.py:50-52 | `session.add` of a user: appended with the next id, counter advanced, nothing else changed, uniqueness kept when fresh |
| Database.Session.ReplaceUser | fast/fast/routers/users.py:95-103 | assigning a user's fields: only that row changes, uniqueness kept when fresh |
| Database.Session.RemoveUser | fast/fast/routers/users.py:149-150 | `session.delete` of a user: only that row goes |
| Database.Session.AddAuthor | fast/fast/routers/authors.py:42-45 | `session.add` of an author: appended with the next id, nothing else changed, books still refer to stored authors |
| Database.Session.ReplaceAuthor | fast/fast/routers/authors.py:101-105 | renaming an author: only that row changes, books still refer to stored authors |
| Database.Session.RemoveAuthor | fast/fast/routers/authors.py:119-120 | `session.delete` of an author: only that row goes; the books table is untouched |
| Database.Session.AddBook | fast/fast/routers/books.py:41-47 | `session.add` of a book: appended with the next id, nothing else changed, uniqueness kept when fresh |
| Database.Session.ReplaceBook | fast/fast/routers/books.py:106-114 | assigning a book's fields: only that row changes |
| Database.Session.RemoveBook | fast/fast/routers/books.py:128-129 | `session.delete` of a book: only that row goes |
| Database.UserClash | fast/fast/database.py:21-24 | the `WHERE` of the user guard: the stored username equals the sanitized username, or the stored email equals the email |
| Database.CheckExistingUsers | fast/fast/database.py:19-36 | fails if and only if some row has the sanitized username or the email; the first such row decides: 'Username already exists' if its username matches, else 'Email already exists', both 400 |
| Database.ClashAppended | fast/fast/database.py:19-36 | when no stored row clashes, appending a row whose username is the sanitized form of the requested one makes the guard fail with 'Username already exists' |
| Database.CheckExistingUsersPatch | fast/fast/database.py:39-59 | a given (present, non-empty) username that is stored fails 'Username already exists'; otherwise a given stored email fails 'Email already exists'; otherwise it passes |
| Database.CheckExistingAuthors | fast/fast/database.py:62-71 | fails with 409 'Author already exists' if and only if some stored name equals the sanitized name |
| Database.CheckExistingBooksFromAuthor | fast/fast/database.py:74-86 | fails with 409 if and only if an author id is given and some book has both the sanitized title and that author id |
| Database.CheckExistingAuthorById | fast/fast/database.py:89-97 | passes if and only if an author id is given and some author has it; otherwise 404 'Author does not exist in the database' |
| Users.CreateUser | fast/fast/routers/users.py:33-54 | empty sanitized username gives 400 'Empty string' before any lookup; then the guard's error; success appends exactly one user with a fresh id, the sanitized username, the hashed password and the email; an error changes nothing; uniqueness is kept |
| Users.SanitizedVariantConflicts | fast/fast/database.py:19-36 | after a user is stored, any username that sanitizes to the same name is refused as 'Username already exists' |
| Users.CaseVariantConflicts | fast/fast/database.py:19-36 | after a user is stored, the lowercase form of its username is refused as 'Username already exists', over Latin-1 (see "Left out") |
| Users.ReadUsers | fast/fast/routers/users.py:57-60 | the users at positions `skip`, `skip+1`, … in order, at most `limit` of them, cut short only by the end of the table |
| Users.ReadUsersDefault | fast/fast/routers/users.py:58-59 | with the defaults `skip=0`, `limit=100`: the first hundred users in order, or all of them when there are fewer |
| Users.ReadUser | fast/fast/routers/users.py:63-71 | the stored user with that id without its password, or 404 'User not found' exactly when there is none |
| Users.Patched | fast/fast/routers/users.py:95-100 | the row a partial update leaves: each given field replaces the stored one, the username sanitized, the password hashed |
| Users.PatchedFresh | fast/fast/routers/users.py:92-100 | when the patch guard passes on a unique table, the patched row shares its username and email with no other row |
| Users.PatchUser | fast/fast/routers/users.py:74-105 | another user gives 400 'Not enough permissions'; then a given username that sanitizes to nothing gives 'Empty string'; then the patch guard's error; success changes only the current user's row and only its given fields; an error changes nothing |
| Users.UpdateUser | fast/fast/routers/users.py:108-135 | permission, then empty username, then the full guard; success replaces the current user's username (sanitized), password (hashed) and email, and nothing else |
| Users.OwnUsernameConflicts | fast/fast/database.py:19-59 | resubmitting one's own stored username through PUT or PATCH is refused, since the guards do not skip the caller's row, over Latin-1 (see "Left out") |
| Users.DeleteUser | fast/fast/routers/users.py:138-152 | permission check, then exactly the current user's row is removed with 'User deleted' |
| Authors.CreateAuthor | fast/fast/routers/authors.py:28-47 | the conflict check runs first (409), then an empty sanitized name gives 400 'Empty string'; a blank name always ends in 400; success stores the sanitized name under a fresh id; an error changes nothing |
| Authors.ResubmittedAuthorConflicts | fast/fast/routers/authors.py:34 | once stored, the same name, or its sanitized form, conflicts, over Latin-1 (see "Left out") |
| Authors.NameMatches | fast/fast/routers/authors.py:59-60 | the name filter: applies only when a non-empty name is given, then the stored name must contain the sanitized name |
| Authors.ListAuthors | fast/fast/routers/authors.py:50-64 | only stored authors whose name contains the sanitized filter; at most `limit` of them; without paging, every matching author |
| Authors.ListAuthorsInOrder | fast/fast/routers/authors.py:56-62 | without paging, the matches among earlier rows come before those among later rows: table order is kept |
| Authors.ListAuthorsOne | fast/fast/routers/authors.py:59-62 | a single stored author is listed exactly when it matches the name filter |
| Authors.ListAuthorsPaged | fast/fast/routers/authors.py:62 | with `offset` and `limit`, the result is exactly that `OFFSET`/`LIMIT` window of the unpaged result |
| Authors.ReadAuthor | fast/fast/routers/authors.py:67-75 | the author with that id, or 404 'Author not found' exactly when there is none |
| Authors.PatchAuthor | fast/fast/routers/authors.py:78-107 | 404 'Author not found.', then 400 'Empty string', then 409; success sets only that author's name to the sanitized name |
| Authors.RenameToOwnNameConflicts | fast/fast/routers/authors.py:97 | renaming an author to its current name is a 409 conflict, over Latin-1 (see "Left out") |
| Authors.DeleteAuthor | fast/fast/routers/authors.py:110-122 | 404 'Author not found.' or exactly that author removed; books untouched |
| Books.CreateBook | fast/fast/routers/books.py:26-49 | pair conflict 409, then missing author 404, then 400 'Empty field' (title sanitizes to nothing, year 0 or author id 0); success stores year, sanitized title and author id under a fresh id, and keeps every book's author stored |
| Books.ResubmittedBookConflicts | fast/fast/database.py:74-86 | once stored, the same title for the same author conflicts, while for another author the answer is as before |
| Books.TitleMatches | fast/fast/routers/books.py:62-63 | the title filter: applies only when a non-empty title is given, then the stored title must contain the sanitized title |
| Books.YearMatches | fast/fast/routers/books.py:64-65 | the year filter: applies only when a non-zero year is given, then the year must be equal |
| Books.Matching | fast/fast/routers/books.py:60-65 | the rows both filters keep, title filter first, in table order |
| Books.MatchingAppend | fast/fast/routers/books.py:60-65 | the filters keep table order: the matches among earlier rows come before those among later rows |
| Books.MatchingMember | fast/fast/routers/books.py:62-65 | a book survives the filters exactly when it is stored, its title contains the sanitized title filter and its year equals the year filter, each filter applying only when given |
| Books.ListBooks | fast/fast/routers/books.py:52-69 | only stored books passing both filters; at most `limit` of them; without paging, every matching book |
| Books.ListBooksInOrder | fast/fast/routers/books.py:60-67 | without paging, the matches among earlier rows come before those among later rows: table order is kept |
| Books.ListBooksOne | fast/fast/routers/books.py:60-67 | a single stored book is listed exactly when it passes both filters |
| Books.ListBooksPaged | fast/fast/routers/books.py:67 | with `offset` and `limit`, the result is exactly that `OFFSET`/`LIMIT` window of the unpaged result |
| Books.ReadBook | fast/fast/routers/books.py:72-80 | the book with that id, or 404 'Book not found' exactly when there is none |
| Books.BookPatched | fast/fast/routers/books.py:106-111 | the row a partial update leaves: a given year, the sanitized title and a given author id replace the stored ones |
| Books.PatchBook | fast/fast/routers/books.py:83-116 | 404 'Book not found.', then 400 'Empty string', then 409, then 404 for a missing or absent author; success sets the given year, the sanitized title and the author id of that book only, and the author id always names a stored author |
| Books.PatchToOwnTitleConflicts | fast/fast/routers/books.py:103 | patching a book to its current title and author is a 409 conflict, over Latin-1 (see "Left out") |
| Books.DeleteBook | fast/fast/routers/books.py:119-131 | 404 'Book not found.' or exactly that book removed |

## Left out

- Character classes: `str.isalnum`, `str.isspace` and `str.lower` are modelled exactly over Latin-1 (U+0000 to U+00FF). Characters above U+00FF count as neither alphanumeric nor whitespace, so the model drops them.
- SanitizeIdempotent: proved for the Latin-1 model only. It rests on lowercasing keeping each character's alphanumeric class (`Sanitizer.Lower`), which holds over Latin-1 but not for Python's full `str.lower`: 'İ' (U+0130) lowercases to 'i' followed by U+0307, which is not alphanumeric, so `sanitize('İ')` is 'i̇' while `sanitize('i̇')` is 'i'. Beyond Latin-1 the source is not idempotent.
- SanitizedFormFixed: proved for the Latin-1 model only, on the same assumption as `SanitizeIdempotent`; beyond Latin-1 a string `sanitize` returns need not be a fixed point of it.
- SanitizeChars: proved for the Latin-1 model only; beyond it the output of `sanitize('İ')` holds U+0307, which is not alphanumeric.
- SanitizeForm: proved for the Latin-1 model only, for the same reason as `SanitizeChars`.
- SanitizeIgnoresCase: proved for the Latin-1 model only; beyond it `sanitize('İ'.lower())` is 'i' while `sanitize('İ')` is 'i̇'.
- Tables.CleanFixed: proved for the Latin-1 model only; beyond it a stored name such as 'i̇smet' (the sanitized form of 'İsmet') sanitizes to 'ismet', so it is not a fixed point.
- Users.CaseVariantConflicts: proved for the Latin-1 model only; beyond it the lowercase form of a username holding 'İ' sanitizes to a different string and passes the guard.
- Users.OwnUsernameConflicts: proved for the Latin-1 model only; beyond it a stored username that is not a fixed point of `sanitize` does not clash with itself.
- Authors.ResubmittedAuthorConflicts: proved for the Latin-1 model only; beyond it resubmitting the sanitized form of 'İsmet' stores a second author.
- Authors.RenameToOwnNameConflicts: proved for the Latin-1 model only; beyond it renaming 'i̇smet' to its stored name gives no 409.
- Books.PatchToOwnTitleConflicts: proved for the Latin-1 model only, for the same reason as `Tables.CleanFixed`.
- The SQL engine, the session, `commit` and `refresh`: the store is three in-memory sequences in insertion order. SQL is modelled only as far as equality, `contains`, `OFFSET` and `LIMIT` go.
- The order of rows that a query without `ORDER BY` returns is taken to be insertion order.
- FastAPI routing, dependency injection and Pydantic validation, including `EmailStr` format checks and the 422 answer to a missing required field. Request fields the schemas require are plain parameters; optional ones are `Option`.
- Password hashing is the function parameter `hash`.
- The JWT check behind the current user is not modelled. The current user is the parameter `currentId`, and the handlers require it to name a stored user. The author and book routes also require a logged-in user, whose identity they never use, so it is left out there.
- Server-assigned timestamps (`created_at`, `updated_at`).
- Storage-level constraints (unique username and email columns, the commented-out foreign key from books to authors). The model shows that the guards alone keep uniqueness, and that they keep book-to-author references everywhere except when an author is deleted.
- Users.PatchUser: the password is a required string. The handler hashes it unconditionally, so an absent password is not a path the model follows.
- Authors.PatchAuthor: the name is a required string. An absent name reaches `sanitize(None)` and fails outside the handler's own checks.
- Books.PatchBook: the title is a required string, for the same reason.
- Integer width: ids, `year` and `author_id` are database `INTEGER` columns. The model's `int` is unbounded, so an out-of-range year, which the database rejects with an error, is stored like any other.
- Rows written other than through the handlers (the test-suite's factories insert rows directly) are not modelled. The handlers require the store's invariant `Valid`, which only the store's constructor and the handlers are shown to establish and keep.
- Negative `skip`, `offset` and `limit` values, which the database rejects, are outside the model: they are `nat`.
- Concurrent requests: the check-then-write race between two handlers is not modelled; the model is sequential.
- The Vue frontend is not part of this model.
