/** The `/authors` routes: creation, search by name with paging, lookup,
    renaming and deletion. */
module Authors {
  import opened Seqs
  import opened Sanitizer
  import opened Models
  import opened Tables
  import opened Database

  const AuthorDeleted := "Author has been deleted successfully."

  /** POST /authors: the uniqueness guard runs first, then the sanitized name
      must not be empty, then the author is stored with the next id. Stored
      names are never empty, so a name that sanitizes to nothing never
      conflicts and always gets the emptiness error: the order of the two
      checks does not change the answer. */
  method CreateAuthor(db: Session, name: string) returns (r: Result<Author>)
    requires db.Valid()
    modifies db
    ensures db.Valid()
    ensures old(db.Unique()) ==> db.Unique()
    ensures old(db.BooksHaveAuthors()) ==> db.BooksHaveAuthors()
    ensures unchanged(db`users, db`books, db`nextUserId, db`nextBookId)
    ensures CheckExistingAuthors(old(db.authors), name).Fail? ==> r == Err(AuthorExists)
    ensures Sanitize(name) == [] ==> r == Err(EmptyString)
    ensures r.Ok? <==> Sanitize(name) != [] && CheckExistingAuthors(old(db.authors), name).Pass?
    ensures r.Err? ==> unchanged(db)
    ensures r.Ok? ==>
      && r.value == Author(old(db.nextAuthorId), Sanitize(name))
      && db.authors == old(db.authors) + [r.value]
      && db.nextAuthorId == old(db.nextAuthorId) + 1
  {
    var guard := CheckExistingAuthors(db.authors, name);
    if guard.Fail? {
      return Err(guard.failure);
    }
    var clean := Sanitize(name);
    if clean == [] {
      return Err(EmptyString);
    }
    var author := Author(db.nextAuthorId, clean);
    SanitizedClean(name);
    db.AddAuthor(author);
    r := Ok(author);
  }

  /** Once an author is stored, submitting the same name again, or the name
      as it was stored, is a conflict. */
  lemma ResubmittedAuthorConflicts(authors: seq<Author>, id: int, name: string)
    ensures CheckExistingAuthors(authors + [Author(id, Sanitize(name))], name) == Fail(AuthorExists)
    ensures CheckExistingAuthors(authors + [Author(id, Sanitize(name))], Sanitize(name)) == Fail(AuthorExists)
  {
    var stored := authors + [Author(id, Sanitize(name))];
    assert stored[|authors|].name == Sanitize(name);
    SanitizeIdempotent(name);
  }

  /** The filter of GET /authors: with a name given, the stored name must
      contain the sanitized search text. */
  predicate NameMatches(a: Author, name: Option<string>) {
    !Given(name) || Contains(a.name, Sanitize(name.value))
  }

  /** GET /authors: the matching authors in table order, then OFFSET and
      LIMIT. */
  function ListAuthors(authors: seq<Author>, name: Option<string>, offset: Option<nat>, limit: Option<nat>): (r: seq<Author>)
    ensures forall k :: 0 <= k < |r| ==> r[k] in authors && NameMatches(r[k], name)
    ensures limit.Some? ==> |r| <= limit.value
    ensures offset.None? && limit.None? ==>
      forall a :: a in authors && NameMatches(a, name) ==> a in r
  {
    var matching := Filter(authors, (a: Author) => NameMatches(a, name));
    FilterElements(authors, (a: Author) => NameMatches(a, name));
    var r := Page(matching, offset, limit);
    assert offset.None? && limit.None? ==> r == matching;
    assert forall a :: a in authors && NameMatches(a, name) ==> a in matching by {
      forall a | a in authors && NameMatches(a, name)
        ensures a in matching
      {
        FilterMember(authors, (a: Author) => NameMatches(a, name), a);
      }
    }
    r
  }

  /** GET /authors keeps table order: without paging, the matches among
      earlier rows come before the matches among later rows. */
  lemma ListAuthorsInOrder(a: seq<Author>, b: seq<Author>, name: Option<string>)
    ensures ListAuthors(a + b, name, None, None) == ListAuthors(a, name, None, None) + ListAuthors(b, name, None, None)
  {
    var p := (x: Author) => NameMatches(x, name);
    FilterAppend(a, b, p);
    ListAuthorsUnpaged(a + b, name);
    ListAuthorsUnpaged(a, name);
    ListAuthorsUnpaged(b, name);
  }

  /** A single stored author is listed exactly when it matches. */
  lemma ListAuthorsOne(x: Author, name: Option<string>)
    ensures ListAuthors([x], name, None, None) == if NameMatches(x, name) then [x] else []
  {
    ListAuthorsUnpaged([x], name);
    assert [x][1..] == [];
  }

  /** With OFFSET and LIMIT given, GET /authors returns that window of the
      unpaged result. */
  lemma ListAuthorsPaged(authors: seq<Author>, name: Option<string>, offset: Option<nat>, limit: Option<nat>)
    ensures ListAuthors(authors, name, offset, limit) == Page(ListAuthors(authors, name, None, None), offset, limit)
  {
    ListAuthorsUnpaged(authors, name);
  }

  lemma ListAuthorsUnpaged(authors: seq<Author>, name: Option<string>)
    ensures ListAuthors(authors, name, None, None) == Filter(authors, (a: Author) => NameMatches(a, name))
  {
  }

  /** GET /authors/{id}: the stored author with that id, or 404. */
  function ReadAuthor(authors: seq<Author>, id: int): (r: Result<Author>)
    ensures r.Ok? <==> exists i :: 0 <= i < |authors| && authors[i].id == id
    ensures r.Ok? ==> r.value in authors && r.value.id == id
    ensures r.Err? ==> r.error == AuthorNotFound
  {
    match AuthorIndex(authors, Some(id))
    case None => Err(AuthorNotFound)
    case Some(k) => Ok(authors[k])
  }

  /** PATCH /authors/{id}: the author must exist, the sanitized name must
      not be empty and must not be stored yet, by any author, this one
      included. */
  method PatchAuthor(db: Session, authorId: int, name: string) returns (r: Result<Author>)
    requires db.Valid()
    modifies db
    ensures db.Valid()
    ensures old(db.Unique()) ==> db.Unique()
    ensures old(db.BooksHaveAuthors()) ==> db.BooksHaveAuthors()
    ensures unchanged(db`users, db`books, db`nextUserId, db`nextAuthorId, db`nextBookId)
    ensures AuthorIndex(old(db.authors), Some(authorId)).None? ==> r == Err(AuthorNotFoundDot)
    ensures AuthorIndex(old(db.authors), Some(authorId)).Some? && Sanitize(name) == [] ==> r == Err(EmptyString)
    ensures (AuthorIndex(old(db.authors), Some(authorId)).Some? && Sanitize(name) != [] &&
             CheckExistingAuthors(old(db.authors), name).Fail?) ==> r == Err(AuthorExists)
    ensures r.Ok? <==> AuthorIndex(old(db.authors), Some(authorId)).Some? && Sanitize(name) != [] &&
                       CheckExistingAuthors(old(db.authors), name).Pass?
    ensures r.Err? ==> unchanged(db)
    ensures r.Ok? ==>
      && r.value == Author(authorId, Sanitize(name))
      && db.authors == old(db.authors)[AuthorIndex(old(db.authors), Some(authorId)).value := r.value]
  {
    var found := AuthorIndex(db.authors, Some(authorId));
    if found.None? {
      return Err(AuthorNotFoundDot);
    }
    var k := found.value;
    var clean := Sanitize(name);
    if clean == [] {
      return Err(EmptyString);
    }
    var guard := CheckExistingAuthors(db.authors, name);
    if guard.Fail? {
      return Err(guard.failure);
    }
    // The source tests the name for truth before renaming; a name that
    // sanitizes to a non-empty string is itself non-empty, so the rename
    // always happens.
    var author := Author(authorId, clean);
    SanitizedClean(name);
    db.ReplaceAuthor(k, author);
    r := Ok(author);
  }

  /** Renaming an author to the name it already has is refused as a
      conflict: the guard does not leave the author's own row out. */
  lemma RenameToOwnNameConflicts(authors: seq<Author>, next: int, k: nat)
    requires AuthorsOk(authors, next) && k < |authors|
    ensures CheckExistingAuthors(authors, authors[k].name) == Fail(AuthorExists)
  {
    assert AuthorClean(authors[k]);
    CleanFixed(authors[k].name);
  }

  /** DELETE /authors/{id}: the author must exist; its books stay. */
  method DeleteAuthor(db: Session, authorId: int) returns (r: Result<string>)
    requires db.Valid()
    modifies db
    ensures db.Valid()
    ensures old(db.Unique()) ==> db.Unique()
    ensures unchanged(db`users, db`books, db`nextUserId, db`nextAuthorId, db`nextBookId)
    ensures AuthorIndex(old(db.authors), Some(authorId)).None? ==> r == Err(AuthorNotFoundDot) && unchanged(db)
    ensures AuthorIndex(old(db.authors), Some(authorId)).Some? ==>
      && r == Ok(AuthorDeleted)
      && db.authors == RemoveAt(old(db.authors), AuthorIndex(old(db.authors), Some(authorId)).value)
  {
    var found := AuthorIndex(db.authors, Some(authorId));
    if found.None? {
      return Err(AuthorNotFoundDot);
    }
    db.RemoveAuthor(found.value);
    r := Ok(AuthorDeleted);
  }
}
