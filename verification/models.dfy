/** The three stored record kinds, the request-side notion of an absent or
    empty field, and the errors the handlers raise. */
module Models {
  import opened Seqs

  /** A stored user; `password` holds the hash, never the plain text. */
  datatype User = User(id: int, username: string, password: string, email: string)

  /** What a user response shows: the stored user without the password. */
  datatype UserPublic = UserPublic(id: int, username: string, email: string)

  function Public(u: User): UserPublic {
    UserPublic(u.id, u.username, u.email)
  }

  datatype Author = Author(id: int, name: string)

  /** A stored book; `authorId` refers to an author by id. */
  datatype Book = Book(id: int, year: int, title: string, authorId: int)

  /** Python truth value of an optional request string: present and
      non-empty. */
  predicate Given(s: Option<string>) { s.Some? && s.value != "" }

  /** Python truth value of an optional request integer: present and
      non-zero. */
  predicate GivenInt(n: Option<int>) { n.Some? && n.value != 0 }

  /** What kind of rule a request broke. */
  datatype Kind = EmptyValue | Conflict | Missing | Forbidden

  /** An HTTP error response: its kind, status code and fixed detail. */
  datatype Failure = Failure(kind: Kind, status: int, detail: string)

  const BadRequest := 400
  const NotFound := 404
  const ConflictStatus := 409

  const EmptyString := Failure(EmptyValue, BadRequest, "Empty string")
  const EmptyField := Failure(EmptyValue, BadRequest, "Empty field")
  const NotEnoughPermissions := Failure(Forbidden, BadRequest, "Not enough permissions")
  /** The two user conflicts are reported with status 400 by the code. */
  const UsernameExists := Failure(Conflict, BadRequest, "Username already exists")
  const EmailExists := Failure(Conflict, BadRequest, "Email already exists")
  const AuthorExists := Failure(Conflict, ConflictStatus, "Author already exists")
  const BookExists := Failure(Conflict, ConflictStatus, "Book from this author already exists")
  const AuthorMissing := Failure(Missing, NotFound, "Author does not exist in the database")
  const UserNotFound := Failure(Missing, NotFound, "User not found")
  /** `read_author` and `read_book` say "not found" without a full stop;
      the patch and delete handlers add one. */
  const AuthorNotFound := Failure(Missing, NotFound, "Author not found")
  const AuthorNotFoundDot := Failure(Missing, NotFound, "Author not found.")
  const BookNotFound := Failure(Missing, NotFound, "Book not found")
  const BookNotFoundDot := Failure(Missing, NotFound, "Book not found.")

  /** Outcome of a guard: it either returns or raises. */
  datatype Outcome = Pass | Fail(failure: Failure)

  /** Outcome of a handler: a response body or an error. */
  datatype Result<T> = Ok(value: T) | Err(error: Failure)
}
