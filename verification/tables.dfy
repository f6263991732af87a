/** The three tables as values: what a well-formed table is, the lookups by
    id, and how appending, overwriting and deleting a row keep a table well
    formed. */
module Tables {
  import opened Seqs
  import opened Sanitizer
  import opened Models

  function UserId(u: User): int { u.id }
  function UserName(u: User): string { u.username }
  function UserEmail(u: User): string { u.email }
  function AuthorId(a: Author): int { a.id }
  function AuthorName(a: Author): string { a.name }
  function BookId(b: Book): int { b.id }
  /** The pair a book must not share with another book. */
  function BookKey(b: Book): (string, int) { (b.title, b.authorId) }

  /** A name as the handlers store it: non-empty and in sanitized form. */
  predicate Clean(n: string) { n != [] && SanitizedForm(n) }

  /** A sanitized name that is not empty is clean. */
  lemma SanitizedClean(s: string)
    requires Sanitize(s) != []
    ensures Clean(Sanitize(s))
  {
    SanitizeForm(s);
  }

  /** A clean name is its own sanitized form. */
  lemma CleanFixed(n: string)
    requires Clean(n)
    ensures Sanitize(n) == n
  {
    SanitizedFormFixed(n);
  }

  predicate UserClean(u: User) { Clean(u.username) }
  predicate AuthorClean(a: Author) { Clean(a.name) }
  predicate BookClean(b: Book) { Clean(b.title) }

  /** A users table whose next id is `next`: ids increase and are below
      `next`, usernames are clean. */
  predicate UsersOk(users: seq<User>, next: int) {
    1 <= next && Keyed(users, UserId, next) && All(users, UserClean)
  }

  predicate AuthorsOk(authors: seq<Author>, next: int) {
    1 <= next && Keyed(authors, AuthorId, next) && All(authors, AuthorClean)
  }

  predicate BooksOk(books: seq<Book>, next: int) {
    1 <= next && Keyed(books, BookId, next) && All(books, BookClean)
  }

  /** Usernames and emails each occur at most once. */
  predicate UsersUnique(users: seq<User>) {
    Distinct(users, UserName) && Distinct(users, UserEmail)
  }

  /** Author names occur at most once. */
  predicate AuthorsUnique(authors: seq<Author>) {
    Distinct(authors, AuthorName)
  }

  /** A (title, author id) pair occurs at most once. */
  predicate BooksUnique(books: seq<Book>) {
    Distinct(books, BookKey)
  }

  /** No row of `users` other than the one at index `skip` has the username
      or the email of `user`. */
  predicate FreshUser(users: seq<User>, user: User, skip: int) {
    forall i :: 0 <= i < |users| && i != skip ==> users[i].username != user.username && users[i].email != user.email
  }

  /** No row of `authors` other than the one at index `skip` has the name of
      `author`. */
  predicate FreshAuthor(authors: seq<Author>, author: Author, skip: int) {
    forall i :: 0 <= i < |authors| && i != skip ==> authors[i].name != author.name
  }

  /** No row of `books` other than the one at index `skip` has the title and
      the author of `book`. */
  predicate FreshBook(books: seq<Book>, book: Book, skip: int) {
    forall i :: 0 <= i < |books| && i != skip ==> BookKey(books[i]) != BookKey(book)
  }

  /** Some stored author has id `id`. */
  predicate HasAuthor(authors: seq<Author>, id: int) {
    exists j :: 0 <= j < |authors| && authors[j].id == id
  }

  /** Every book refers to an author of `authors`. */
  predicate AllHaveAuthors(books: seq<Book>, authors: seq<Author>) {
    forall i :: 0 <= i < |books| ==> HasAuthor(authors, books[i].authorId)
  }

  /** The row `select(User).where(User.id == id)` returns. */
  function UserIndex(users: seq<User>, id: int): (r: Option<nat>)
    ensures r.Some? ==> r.value < |users| && users[r.value].id == id
    ensures r.None? <==> forall i :: 0 <= i < |users| ==> users[i].id != id
  {
    FindFirst(users, (u: User) => u.id == id)
  }

  /** The row `select(Author).where(Author.id == id)` returns; an absent id
      compares as SQL NULL and matches no row. */
  function AuthorIndex(authors: seq<Author>, id: Option<int>): (r: Option<nat>)
    ensures r.Some? ==> id.Some? && r.value < |authors| && authors[r.value].id == id.value
    ensures r.None? <==> id.None? || forall i :: 0 <= i < |authors| ==> authors[i].id != id.value
  {
    if id.None? then None else FindFirst(authors, (a: Author) => a.id == id.value)
  }

  function BookIndex(books: seq<Book>, id: int): (r: Option<nat>)
    ensures r.Some? ==> r.value < |books| && books[r.value].id == id
    ensures r.None? <==> forall i :: 0 <= i < |books| ==> books[i].id != id
  {
    FindFirst(books, (b: Book) => b.id == id)
  }

  // Users.

  lemma UsersAppend(users: seq<User>, next: int, user: User)
    requires UsersOk(users, next) && user.id == next && UserClean(user)
    ensures UsersOk(users + [user], next + 1)
    ensures UsersUnique(users) && FreshUser(users, user, -1) ==> UsersUnique(users + [user])
  {
    KeyedAppend(users, UserId, next, user);
    AllAppend(users, UserClean, user);
    if UsersUnique(users) && FreshUser(users, user, -1) {
      DistinctAppend(users, UserName, user);
      DistinctAppend(users, UserEmail, user);
    }
  }

  lemma UsersReplace(users: seq<User>, next: int, k: nat, user: User)
    requires UsersOk(users, next) && k < |users| && user.id == users[k].id && UserClean(user)
    ensures UsersOk(users[k := user], next)
    ensures UsersUnique(users) && FreshUser(users, user, k) ==> UsersUnique(users[k := user])
  {
    KeyedReplace(users, UserId, next, k, user);
    AllReplace(users, UserClean, k, user);
    if UsersUnique(users) && FreshUser(users, user, k) {
      DistinctReplace(users, UserName, k, user);
      DistinctReplace(users, UserEmail, k, user);
    }
  }

  lemma UsersRemove(users: seq<User>, next: int, k: nat)
    requires UsersOk(users, next) && k < |users|
    ensures UsersOk(RemoveAt(users, k), next)
    ensures UsersUnique(users) ==> UsersUnique(RemoveAt(users, k))
  {
    KeyedRemove(users, UserId, next, k);
    AllRemove(users, UserClean, k);
    if UsersUnique(users) {
      DistinctRemove(users, UserName, k);
      DistinctRemove(users, UserEmail, k);
    }
  }

  // Authors.

  lemma AuthorsAppend(authors: seq<Author>, next: int, author: Author, books: seq<Book>)
    requires AuthorsOk(authors, next) && author.id == next && AuthorClean(author)
    ensures AuthorsOk(authors + [author], next + 1)
    ensures AuthorsUnique(authors) && FreshAuthor(authors, author, -1) ==> AuthorsUnique(authors + [author])
    ensures AllHaveAuthors(books, authors) ==> AllHaveAuthors(books, authors + [author])
  {
    KeyedAppend(authors, AuthorId, next, author);
    AllAppend(authors, AuthorClean, author);
    if AuthorsUnique(authors) && FreshAuthor(authors, author, -1) {
      DistinctAppend(authors, AuthorName, author);
    }
    if AllHaveAuthors(books, authors) {
      forall i | 0 <= i < |books|
        ensures HasAuthor(authors + [author], books[i].authorId)
      {
        assert HasAuthor(authors, books[i].authorId);
        var j :| 0 <= j < |authors| && authors[j].id == books[i].authorId;
        assert (authors + [author])[j] == authors[j];
      }
    }
  }

  lemma AuthorsReplace(authors: seq<Author>, next: int, k: nat, author: Author, books: seq<Book>)
    requires AuthorsOk(authors, next) && k < |authors| && author.id == authors[k].id && AuthorClean(author)
    ensures AuthorsOk(authors[k := author], next)
    ensures AuthorsUnique(authors) && FreshAuthor(authors, author, k) ==> AuthorsUnique(authors[k := author])
    ensures AllHaveAuthors(books, authors) ==> AllHaveAuthors(books, authors[k := author])
  {
    KeyedReplace(authors, AuthorId, next, k, author);
    AllReplace(authors, AuthorClean, k, author);
    if AuthorsUnique(authors) && FreshAuthor(authors, author, k) {
      DistinctReplace(authors, AuthorName, k, author);
    }
    if AllHaveAuthors(books, authors) {
      forall i | 0 <= i < |books|
        ensures HasAuthor(authors[k := author], books[i].authorId)
      {
        assert HasAuthor(authors, books[i].authorId);
        var j :| 0 <= j < |authors| && authors[j].id == books[i].authorId;
        assert authors[k := author][j].id == authors[j].id;
      }
    }
  }

  lemma AuthorsRemove(authors: seq<Author>, next: int, k: nat)
    requires AuthorsOk(authors, next) && k < |authors|
    ensures AuthorsOk(RemoveAt(authors, k), next)
    ensures AuthorsUnique(authors) ==> AuthorsUnique(RemoveAt(authors, k))
  {
    KeyedRemove(authors, AuthorId, next, k);
    AllRemove(authors, AuthorClean, k);
    if AuthorsUnique(authors) {
      DistinctRemove(authors, AuthorName, k);
    }
  }

  // Books.

  lemma BooksAppend(books: seq<Book>, next: int, book: Book, authors: seq<Author>)
    requires BooksOk(books, next) && book.id == next && BookClean(book)
    ensures BooksOk(books + [book], next + 1)
    ensures BooksUnique(books) && FreshBook(books, book, -1) ==> BooksUnique(books + [book])
    ensures AllHaveAuthors(books, authors) && HasAuthor(authors, book.authorId) ==>
      AllHaveAuthors(books + [book], authors)
  {
    KeyedAppend(books, BookId, next, book);
    AllAppend(books, BookClean, book);
    if BooksUnique(books) && FreshBook(books, book, -1) {
      DistinctAppend(books, BookKey, book);
    }
    if AllHaveAuthors(books, authors) && HasAuthor(authors, book.authorId) {
      forall i | 0 <= i < |books + [book]|
        ensures HasAuthor(authors, (books + [book])[i].authorId)
      {
        if i < |books| { assert (books + [book])[i] == books[i]; }
      }
    }
  }

  lemma BooksReplace(books: seq<Book>, next: int, k: nat, book: Book, authors: seq<Author>)
    requires BooksOk(books, next) && k < |books| && book.id == books[k].id && BookClean(book)
    ensures BooksOk(books[k := book], next)
    ensures BooksUnique(books) && FreshBook(books, book, k) ==> BooksUnique(books[k := book])
    ensures AllHaveAuthors(books, authors) && HasAuthor(authors, book.authorId) ==>
      AllHaveAuthors(books[k := book], authors)
  {
    KeyedReplace(books, BookId, next, k, book);
    AllReplace(books, BookClean, k, book);
    if BooksUnique(books) && FreshBook(books, book, k) {
      DistinctReplace(books, BookKey, k, book);
    }
  }

  lemma BooksRemove(books: seq<Book>, next: int, k: nat, authors: seq<Author>)
    requires BooksOk(books, next) && k < |books|
    ensures BooksOk(RemoveAt(books, k), next)
    ensures BooksUnique(books) ==> BooksUnique(RemoveAt(books, k))
    ensures AllHaveAuthors(books, authors) ==> AllHaveAuthors(RemoveAt(books, k), authors)
  {
    KeyedRemove(books, BookId, next, k);
    AllRemove(books, BookClean, k);
    if BooksUnique(books) {
      DistinctRemove(books, BookKey, k);
    }
    if AllHaveAuthors(books, authors) {
      var r := RemoveAt(books, k);
      forall i | 0 <= i < |r|
        ensures HasAuthor(authors, r[i].authorId)
      {
        if i < k { assert r[i] == books[i]; } else { assert r[i] == books[i + 1]; }
      }
    }
  }
}
