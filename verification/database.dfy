/** The relational store behind the handlers, and the uniqueness and
    existence guards the handlers run against it before writing. */
module Database {
  import opened Seqs
  import opened Sanitizer
  import opened Models
  import opened Tables

  /** The session's view of the three tables. Rows are kept in insertion
      order; each table has its own id sequence, which only moves forward. */
  class Session {
    var users: seq<User>
    var authors: seq<Author>
    var books: seq<Book>
    var nextUserId: int
    var nextAuthorId: int
    var nextBookId: int

    /** Ids are positive, below the next id to hand out and increasing along
        each table; every stored username, author name and book title is
        clean. */
    predicate Valid()
      reads this
    {
      UsersOk(users, nextUserId) && AuthorsOk(authors, nextAuthorId) && BooksOk(books, nextBookId)
    }

    /** The uniqueness rules the guards exist to keep: usernames, emails,
        author names and (title, author) pairs each occur at most once. */
    predicate Unique()
      reads this
    {
      UsersUnique(users) && AuthorsUnique(authors) && BooksUnique(books)
    }

    /** Every book refers to a stored author. */
    predicate BooksHaveAuthors()
      reads this
    {
      AllHaveAuthors(books, authors)
    }

    constructor()
      ensures users == [] && authors == [] && books == []
      ensures nextUserId == 1 && nextAuthorId == 1 && nextBookId == 1
      ensures Valid() && Unique() && BooksHaveAuthors()
    {
      users := [];
      authors := [];
      books := [];
      nextUserId := 1;
      nextAuthorId := 1;
      nextBookId := 1;
    }

    /** Stores a new user row carrying the next user id. */
    method AddUser(user: User)
      requires Valid() && user.id == nextUserId && UserClean(user)
      modifies this
      ensures Valid()
      ensures users == old(users) + [user] && nextUserId == old(nextUserId) + 1
      ensures unchanged(this`authors, this`books, this`nextAuthorId, this`nextBookId)
      ensures old(Unique()) && FreshUser(old(users), user, -1) ==> Unique()
    {
      UsersAppend(users, nextUserId, user);
      users := users + [user];
      nextUserId := nextUserId + 1;
    }

    /** Overwrites the user row at index `k`; the id stays. */
    method ReplaceUser(k: nat, user: User)
      requires Valid() && k < |users| && user.id == users[k].id && UserClean(user)
      modifies this
      ensures Valid()
      ensures users == old(users)[k := user]
      ensures unchanged(this`authors, this`books, this`nextUserId, this`nextAuthorId, this`nextBookId)
      ensures old(Unique()) && FreshUser(old(users), user, k) ==> Unique()
    {
      UsersReplace(users, nextUserId, k, user);
      users := users[k := user];
    }

    /** Deletes the user row at index `k`. */
    method RemoveUser(k: nat)
      requires Valid() && k < |users|
      modifies this
      ensures Valid()
      ensures users == RemoveAt(old(users), k)
      ensures unchanged(this`authors, this`books, this`nextUserId, this`nextAuthorId, this`nextBookId)
      ensures old(Unique()) ==> Unique()
    {
      UsersRemove(users, nextUserId, k);
      users := RemoveAt(users, k);
    }

    /** Stores a new author row carrying the next author id. */
    method AddAuthor(author: Author)
      requires Valid() && author.id == nextAuthorId && AuthorClean(author)
      modifies this
      ensures Valid()
      ensures authors == old(authors) + [author] && nextAuthorId == old(nextAuthorId) + 1
      ensures unchanged(this`users, this`books, this`nextUserId, this`nextBookId)
      ensures old(Unique()) && FreshAuthor(old(authors), author, -1) ==> Unique()
      ensures old(BooksHaveAuthors()) ==> BooksHaveAuthors()
    {
      AuthorsAppend(authors, nextAuthorId, author, books);
      authors := authors + [author];
      nextAuthorId := nextAuthorId + 1;
    }

    /** Overwrites the author row at index `k`; the id stays. */
    method ReplaceAuthor(k: nat, author: Author)
      requires Valid() && k < |authors| && author.id == authors[k].id && AuthorClean(author)
      modifies this
      ensures Valid()
      ensures authors == old(authors)[k := author]
      ensures unchanged(this`users, this`books, this`nextUserId, this`nextAuthorId, this`nextBookId)
      ensures old(Unique()) && FreshAuthor(old(authors), author, k) ==> Unique()
      ensures old(BooksHaveAuthors()) ==> BooksHaveAuthors()
    {
      AuthorsReplace(authors, nextAuthorId, k, author, books);
      authors := authors[k := author];
    }

    /** Deletes the author row at index `k`; the books are left as they are,
        so a book may be left referring to an author that is gone. */
    method RemoveAuthor(k: nat)
      requires Valid() && k < |authors|
      modifies this
      ensures Valid()
      ensures authors == RemoveAt(old(authors), k)
      ensures unchanged(this`users, this`books, this`nextUserId, this`nextAuthorId, this`nextBookId)
      ensures old(Unique()) ==> Unique()
    {
      AuthorsRemove(authors, nextAuthorId, k);
      authors := RemoveAt(authors, k);
    }

    /** Stores a new book row carrying the next book id. */
    method AddBook(book: Book)
      requires Valid() && book.id == nextBookId && BookClean(book)
      modifies this
      ensures Valid()
      ensures books == old(books) + [book] && nextBookId == old(nextBookId) + 1
      ensures unchanged(this`users, this`authors, this`nextUserId, this`nextAuthorId)
      ensures old(Unique()) && FreshBook(old(books), book, -1) ==> Unique()
      ensures old(BooksHaveAuthors()) && HasAuthor(authors, book.authorId) ==> BooksHaveAuthors()
    {
      BooksAppend(books, nextBookId, book, authors);
      books := books + [book];
      nextBookId := nextBookId + 1;
    }

    /** Overwrites the book row at index `k`; the id stays. */
    method ReplaceBook(k: nat, book: Book)
      requires Valid() && k < |books| && book.id == books[k].id && BookClean(book)
      modifies this
      ensures Valid()
      ensures books == old(books)[k := book]
      ensures unchanged(this`users, this`authors, this`nextUserId, this`nextAuthorId, this`nextBookId)
      ensures old(Unique()) && FreshBook(old(books), book, k) ==> Unique()
      ensures old(BooksHaveAuthors()) && HasAuthor(authors, book.authorId) ==> BooksHaveAuthors()
    {
      BooksReplace(books, nextBookId, k, book, authors);
      books := books[k := book];
    }

    /** Deletes the book row at index `k`. */
    method RemoveBook(k: nat)
      requires Valid() && k < |books|
      modifies this
      ensures Valid()
      ensures books == RemoveAt(old(books), k)
      ensures unchanged(this`users, this`authors, this`nextUserId, this`nextAuthorId, this`nextBookId)
      ensures old(Unique()) ==> Unique()
      ensures old(BooksHaveAuthors()) ==> BooksHaveAuthors()
    {
      BooksRemove(books, nextBookId, k, authors);
      books := RemoveAt(books, k);
    }
  }

  /** A user row that clashes with a new username (compared after
      sanitizing) or a new email. */
  predicate UserClash(u: User, username: string, email: string) {
    u.username == Sanitize(username) || u.email == email
  }

  /** Guard for creating or replacing a user. The single query looks for a
      row with the sanitized username or the email; the first such row
      decides which of the two conflicts is reported, the username taking
      precedence within that row. */
  function CheckExistingUsers(users: seq<User>, username: string, email: string): (o: Outcome)
    ensures o.Pass? <==> forall i :: 0 <= i < |users| ==>
      users[i].username != Sanitize(username) && users[i].email != email
    ensures o.Fail? ==> o.failure == UsernameExists || o.failure == EmailExists
    ensures o == Fail(UsernameExists) ==>
      exists i :: 0 <= i < |users| && users[i].username == Sanitize(username)
        && forall j :: 0 <= j < i ==> !UserClash(users[j], username, email)
    ensures o == Fail(EmailExists) ==>
      exists i :: 0 <= i < |users| && users[i].email == email && users[i].username != Sanitize(username)
        && forall j :: 0 <= j < i ==> users[j].username != Sanitize(username)
  {
    match FindFirst(users, (u: User) => UserClash(u, username, email))
    case None => Pass
    case Some(k) =>
      if users[k].username == Sanitize(username) then Fail(UsernameExists)
      else Fail(EmailExists)
  }

  /** A user appended after rows that clash with nothing, and having the
      sanitized username, is the row the guard reports. */
  lemma ClashAppended(users: seq<User>, username: string, email: string, x: User)
    requires forall j :: 0 <= j < |users| ==> !UserClash(users[j], username, email)
    requires x.username == Sanitize(username)
    ensures CheckExistingUsers(users + [x], username, email) == Fail(UsernameExists)
  {
    FindFirstAppend(users, (u: User) => UserClash(u, username, email), x);
  }

  /** Guard for a partial user update: each field is checked only when it is
      given (present and non-empty), the username before the email. */
  function CheckExistingUsersPatch(users: seq<User>, username: Option<string>, email: Option<string>): (o: Outcome)
    ensures o == Fail(UsernameExists) <==>
      Given(username) && exists i :: 0 <= i < |users| && users[i].username == Sanitize(username.value)
    ensures o == Fail(EmailExists) <==>
      && !(Given(username) && exists i :: 0 <= i < |users| && users[i].username == Sanitize(username.value))
      && Given(email) && exists i :: 0 <= i < |users| && users[i].email == email.value
    ensures o.Pass? || o == Fail(UsernameExists) || o == Fail(EmailExists)
  {
    if Given(username) && FindFirst(users, (u: User) => u.username == Sanitize(username.value)).Some? then
      Fail(UsernameExists)
    else if Given(email) && FindFirst(users, (u: User) => u.email == email.value).Some? then
      Fail(EmailExists)
    else
      Pass
  }

  /** Guard for creating or renaming an author: the sanitized name must not
      be stored yet. */
  function CheckExistingAuthors(authors: seq<Author>, name: string): (o: Outcome)
    ensures o.Pass? || o == Fail(AuthorExists)
    ensures o.Fail? <==> exists i :: 0 <= i < |authors| && authors[i].name == Sanitize(name)
  {
    if FindFirst(authors, (a: Author) => a.name == Sanitize(name)).Some? then Fail(AuthorExists)
    else Pass
  }

  /** Guard for creating or changing a book: no stored book may have the
      sanitized title together with the same author id. An absent author id
      compares as SQL NULL and matches no row. */
  function CheckExistingBooksFromAuthor(books: seq<Book>, title: string, authorId: Option<int>): (o: Outcome)
    ensures o.Pass? || o == Fail(BookExists)
    ensures o.Fail? <==>
      && authorId.Some?
      && exists i :: 0 <= i < |books| && books[i].title == Sanitize(title) && books[i].authorId == authorId.value
  {
    if authorId.Some? &&
       FindFirst(books, (b: Book) => b.title == Sanitize(title) && b.authorId == authorId.value).Some?
    then Fail(BookExists)
    else Pass
  }

  /** Guard for the author a book refers to: it must be stored. */
  function CheckExistingAuthorById(authors: seq<Author>, authorId: Option<int>): (o: Outcome)
    ensures o.Pass? || o == Fail(AuthorMissing)
    ensures o.Pass? <==> authorId.Some? && exists i :: 0 <= i < |authors| && authors[i].id == authorId.value
  {
    if AuthorIndex(authors, authorId).None? then Fail(AuthorMissing) else Pass
  }
}
