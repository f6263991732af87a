/** The `/books` routes: creation, search by title and year with paging,
    lookup, partial update and deletion. */
module Books {
  import opened Seqs
  import opened Sanitizer
  import opened Models
  import opened Tables
  import opened Database

  const BookDeleted := "Book has been deleted successfully."

  /** POST /books: the (title, author) pair must be new and the author must
      exist; only then are the title, the year and the author id tested for
      emptiness; the book is stored with the next id and the sanitized
      title. */
  method CreateBook(db: Session, year: int, title: string, authorId: int) returns (r: Result<Book>)
    requires db.Valid()
    modifies db
    ensures db.Valid()
    ensures old(db.Unique()) ==> db.Unique()
    ensures old(db.BooksHaveAuthors()) ==> db.BooksHaveAuthors()
    ensures unchanged(db`users, db`authors, db`nextUserId, db`nextAuthorId)
    ensures CheckExistingBooksFromAuthor(old(db.books), title, Some(authorId)).Fail? ==> r == Err(BookExists)
    ensures (CheckExistingBooksFromAuthor(old(db.books), title, Some(authorId)).Pass? &&
             CheckExistingAuthorById(old(db.authors), Some(authorId)).Fail?) ==> r == Err(AuthorMissing)
    ensures (CheckExistingBooksFromAuthor(old(db.books), title, Some(authorId)).Pass? &&
             CheckExistingAuthorById(old(db.authors), Some(authorId)).Pass? &&
             (Sanitize(title) == [] || year == 0 || authorId == 0)) ==> r == Err(EmptyField)
    ensures r.Ok? <==>
      && CheckExistingBooksFromAuthor(old(db.books), title, Some(authorId)).Pass?
      && CheckExistingAuthorById(old(db.authors), Some(authorId)).Pass?
      && Sanitize(title) != [] && year != 0 && authorId != 0
    ensures r.Err? ==> unchanged(db)
    ensures r.Ok? ==>
      && r.value == Book(old(db.nextBookId), year, Sanitize(title), authorId)
      && db.books == old(db.books) + [r.value]
      && db.nextBookId == old(db.nextBookId) + 1
  {
    var pair := CheckExistingBooksFromAuthor(db.books, title, Some(authorId));
    if pair.Fail? {
      return Err(pair.failure);
    }
    var author := CheckExistingAuthorById(db.authors, Some(authorId));
    if author.Fail? {
      return Err(author.failure);
    }
    var clean := Sanitize(title);
    if clean == [] || year == 0 || authorId == 0 {
      return Err(EmptyField);
    }
    var book := Book(db.nextBookId, year, clean, authorId);
    SanitizedClean(title);
    db.AddBook(book);
    r := Ok(book);
  }

  /** Once a book is stored, the same title for the same author conflicts,
      and the same title for another author does not: only the pair is
      unique. */
  lemma ResubmittedBookConflicts(books: seq<Book>, id: int, year: int, title: string, authorId: int, otherId: int)
    requires otherId != authorId
    ensures CheckExistingBooksFromAuthor(books + [Book(id, year, Sanitize(title), authorId)], title, Some(authorId))
      == Fail(BookExists)
    ensures CheckExistingBooksFromAuthor(books + [Book(id, year, Sanitize(title), authorId)], title, Some(otherId))
      == CheckExistingBooksFromAuthor(books, title, Some(otherId))
  {
    var stored := books + [Book(id, year, Sanitize(title), authorId)];
    assert stored[|books|].title == Sanitize(title) && stored[|books|].authorId == authorId;
    assert forall i :: 0 <= i < |books| ==> stored[i] == books[i];
  }

  /** The filters of GET /books: with a title given, the stored title must
      contain the sanitized search text; with a year given (non-zero), the
      year must be equal. */
  predicate TitleMatches(b: Book, title: Option<string>) {
    !Given(title) || Contains(b.title, Sanitize(title.value))
  }

  predicate YearMatches(b: Book, year: Option<int>) {
    !GivenInt(year) || b.year == year.value
  }

  /** The rows the two optional filters keep, in table order: the title
      filter is applied first, then the year filter. */
  function Matching(books: seq<Book>, title: Option<string>, year: Option<int>): seq<Book> {
    var byTitle := if Given(title) then Filter(books, (b: Book) => TitleMatches(b, title)) else books;
    if GivenInt(year) then Filter(byTitle, (b: Book) => YearMatches(b, year)) else byTitle
  }

  /** A book survives the filters exactly when it is stored and passes
      both. */
  lemma MatchingMember(books: seq<Book>, title: Option<string>, year: Option<int>, b: Book)
    ensures b in Matching(books, title, year) <==> b in books && TitleMatches(b, title) && YearMatches(b, year)
  {
    var byTitle := if Given(title) then Filter(books, (b: Book) => TitleMatches(b, title)) else books;
    FilterMember(books, (b: Book) => TitleMatches(b, title), b);
    FilterMember(byTitle, (b: Book) => YearMatches(b, year), b);
  }

  /** GET /books: the matching books in table order, then OFFSET and
      LIMIT. */
  function ListBooks(books: seq<Book>, title: Option<string>, year: Option<int>,
                     offset: Option<nat>, limit: Option<nat>): (r: seq<Book>)
    ensures forall k :: 0 <= k < |r| ==> r[k] in books && TitleMatches(r[k], title) && YearMatches(r[k], year)
    ensures limit.Some? ==> |r| <= limit.value
    ensures offset.None? && limit.None? ==>
      forall b :: b in books && TitleMatches(b, title) && YearMatches(b, year) ==> b in r
  {
    var m := Matching(books, title, year);
    var r := Page(m, offset, limit);
    assert forall k :: 0 <= k < |r| ==> r[k] in books && TitleMatches(r[k], title) && YearMatches(r[k], year) by {
      forall k | 0 <= k < |r|
        ensures r[k] in books && TitleMatches(r[k], title) && YearMatches(r[k], year)
      {
        assert r[k] in m;
        MatchingMember(books, title, year, r[k]);
      }
    }
    assert offset.None? && limit.None? ==>
      forall b :: b in books && TitleMatches(b, title) && YearMatches(b, year) ==> b in r by {
      if offset.None? && limit.None? {
        assert r == m;
        forall b | b in books && TitleMatches(b, title) && YearMatches(b, year)
          ensures b in r
        {
          MatchingMember(books, title, year, b);
        }
      }
    }
    r
  }

  /** The filters keep table order: the matches among earlier rows come
      before the matches among later rows. */
  lemma MatchingAppend(a: seq<Book>, b: seq<Book>, title: Option<string>, year: Option<int>)
    ensures Matching(a + b, title, year) == Matching(a, title, year) + Matching(b, title, year)
  {
    var pt := (x: Book) => TitleMatches(x, title);
    var py := (x: Book) => YearMatches(x, year);
    var ta := if Given(title) then Filter(a, pt) else a;
    var tb := if Given(title) then Filter(b, pt) else b;
    FilterAppend(a, b, pt);
    FilterAppend(ta, tb, py);
  }

  /** GET /books keeps table order: without paging, the matches among
      earlier rows come before the matches among later rows. */
  lemma ListBooksInOrder(a: seq<Book>, b: seq<Book>, title: Option<string>, year: Option<int>)
    ensures ListBooks(a + b, title, year, None, None) ==
            ListBooks(a, title, year, None, None) + ListBooks(b, title, year, None, None)
  {
    MatchingAppend(a, b, title, year);
  }

  /** A single stored book is listed exactly when it passes both filters. */
  lemma ListBooksOne(x: Book, title: Option<string>, year: Option<int>)
    ensures ListBooks([x], title, year, None, None) ==
            if TitleMatches(x, title) && YearMatches(x, year) then [x] else []
  {
    assert [x][1..] == [];
    var byTitle := if TitleMatches(x, title) then [x] else [];
    assert Matching([x], title, year) == if GivenInt(year) then Filter(byTitle, (b: Book) => YearMatches(b, year)) else byTitle;
    if byTitle != [] {
      assert byTitle[1..] == [];
    }
  }

  /** With OFFSET and LIMIT given, GET /books returns that window of the
      unpaged result. */
  lemma ListBooksPaged(books: seq<Book>, title: Option<string>, year: Option<int>,
                       offset: Option<nat>, limit: Option<nat>)
    ensures ListBooks(books, title, year, offset, limit) == Page(ListBooks(books, title, year, None, None), offset, limit)
  {
  }

  /** GET /books/{id}: the stored book with that id, or 404. */
  function ReadBook(books: seq<Book>, id: int): (r: Result<Book>)
    ensures r.Ok? <==> exists i :: 0 <= i < |books| && books[i].id == id
    ensures r.Ok? ==> r.value in books && r.value.id == id
    ensures r.Err? ==> r.error == BookNotFound
  {
    match BookIndex(books, id)
    case None => Err(BookNotFound)
    case Some(k) => Ok(books[k])
  }

  /** The row a partial update leaves: a given (non-zero) year or author id
      replaces the stored one; the title is always replaced by its
      sanitized form. */
  function BookPatched(b: Book, year: Option<int>, title: string, authorId: Option<int>): Book {
    Book(b.id,
         if GivenInt(year) then year.value else b.year,
         Sanitize(title),
         if GivenInt(authorId) then authorId.value else b.authorId)
  }

  /** PATCH /books/{id}: the book must exist; the sanitized title must not be
      empty; the new (title, author) pair must not be stored yet, by any
      book, this one included; the author must exist. An absent author id
      therefore always ends in 404. */
  method PatchBook(db: Session, bookId: int, year: Option<int>, title: string, authorId: Option<int>)
    returns (r: Result<Book>)
    requires db.Valid()
    modifies db
    ensures db.Valid()
    ensures old(db.Unique()) ==> db.Unique()
    ensures old(db.BooksHaveAuthors()) ==> db.BooksHaveAuthors()
    ensures unchanged(db`users, db`authors, db`nextUserId, db`nextAuthorId, db`nextBookId)
    ensures BookIndex(old(db.books), bookId).None? ==> r == Err(BookNotFoundDot)
    ensures BookIndex(old(db.books), bookId).Some? && Sanitize(title) == [] ==> r == Err(EmptyString)
    ensures (BookIndex(old(db.books), bookId).Some? && Sanitize(title) != [] &&
             CheckExistingBooksFromAuthor(old(db.books), title, authorId).Fail?) ==> r == Err(BookExists)
    ensures (BookIndex(old(db.books), bookId).Some? && Sanitize(title) != [] &&
             CheckExistingBooksFromAuthor(old(db.books), title, authorId).Pass? &&
             CheckExistingAuthorById(old(db.authors), authorId).Fail?) ==> r == Err(AuthorMissing)
    ensures (BookIndex(old(db.books), bookId).Some? && Sanitize(title) != [] && authorId.None?) ==>
      r == Err(AuthorMissing)
    ensures r.Ok? <==>
      && BookIndex(old(db.books), bookId).Some?
      && Sanitize(title) != []
      && CheckExistingBooksFromAuthor(old(db.books), title, authorId).Pass?
      && CheckExistingAuthorById(old(db.authors), authorId).Pass?
    ensures r.Err? ==> unchanged(db)
    ensures r.Ok? ==>
      var k := BookIndex(old(db.books), bookId).value;
      && r.value == BookPatched(old(db.books)[k], year, title, authorId)
      && r.value.authorId == authorId.value
      && db.books == old(db.books)[k := r.value]
  {
    var found := BookIndex(db.books, bookId);
    if found.None? {
      return Err(BookNotFoundDot);
    }
    var k := found.value;
    var clean := Sanitize(title);
    if clean == [] {
      return Err(EmptyString);
    }
    var pair := CheckExistingBooksFromAuthor(db.books, title, authorId);
    if pair.Fail? {
      return Err(pair.failure);
    }
    var author := CheckExistingAuthorById(db.authors, authorId);
    if author.Fail? {
      return Err(author.failure);
    }
    // Stored author ids are positive, so the author id that passed the
    // check is non-zero and replaces the stored one.
    var j := AuthorIndex(db.authors, authorId).value;
    assert AuthorId(db.authors[j]) >= 1;
    var book := BookPatched(db.books[k], year, title, authorId);
    SanitizedClean(title);
    db.ReplaceBook(k, book);
    r := Ok(book);
  }

  /** Patching a book with the title and author it already has is refused
      as a conflict: the guard does not leave the book's own row out. */
  lemma PatchToOwnTitleConflicts(books: seq<Book>, next: int, k: nat)
    requires BooksOk(books, next) && k < |books|
    ensures CheckExistingBooksFromAuthor(books, books[k].title, Some(books[k].authorId)) == Fail(BookExists)
  {
    assert BookClean(books[k]);
    CleanFixed(books[k].title);
  }

  /** DELETE /books/{id}: the book must exist. */
  method DeleteBook(db: Session, bookId: int) returns (r: Result<string>)
    requires db.Valid()
    modifies db
    ensures db.Valid()
    ensures old(db.Unique()) ==> db.Unique()
    ensures old(db.BooksHaveAuthors()) ==> db.BooksHaveAuthors()
    ensures unchanged(db`users, db`authors, db`nextUserId, db`nextAuthorId, db`nextBookId)
    ensures BookIndex(old(db.books), bookId).None? ==> r == Err(BookNotFoundDot) && unchanged(db)
    ensures BookIndex(old(db.books), bookId).Some? ==>
      && r == Ok(BookDeleted)
      && db.books == RemoveAt(old(db.books), BookIndex(old(db.books), bookId).value)
  {
    var found := BookIndex(db.books, bookId);
    if found.None? {
      return Err(BookNotFoundDot);
    }
    db.RemoveBook(found.value);
    r := Ok(BookDeleted);
  }
}
