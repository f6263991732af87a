/** The `/users` routes: sign-up, listing, lookup, and the owner-only
    partial update, full update and deletion. */
module Users {
  import opened Seqs
  import opened Sanitizer
  import opened Models
  import opened Tables
  import opened Database

  const DefaultSkip: nat := 0
  const DefaultLimit: nat := 100
  const UserDeleted := "User deleted"

  /** POST /users: the sanitized username must not be empty, then the
      uniqueness guard runs, then the user is stored with the next id and
      the hash of the password. */
  method CreateUser(db: Session, username: string, email: string, password: string, hash: string -> string)
    returns (r: Result<UserPublic>)
    requires db.Valid()
    modifies db
    ensures db.Valid()
    ensures old(db.Unique()) ==> db.Unique()
    ensures unchanged(db`authors, db`books, db`nextAuthorId, db`nextBookId)
    ensures Sanitize(username) == [] ==> r == Err(EmptyString)
    ensures Sanitize(username) != [] && CheckExistingUsers(old(db.users), username, email).Fail? ==>
      r == Err(CheckExistingUsers(old(db.users), username, email).failure)
    ensures r.Ok? <==> Sanitize(username) != [] && CheckExistingUsers(old(db.users), username, email).Pass?
    ensures r.Err? ==> unchanged(db)
    ensures r.Ok? ==>
      var user := User(old(db.nextUserId), Sanitize(username), hash(password), email);
      && r.value == Public(user)
      && db.users == old(db.users) + [user]
      && db.nextUserId == old(db.nextUserId) + 1
  {
    var name := Sanitize(username);
    if name == [] {
      return Err(EmptyString);
    }
    var guard := CheckExistingUsers(db.users, username, email);
    if guard.Fail? {
      return Err(guard.failure);
    }
    var user := User(db.nextUserId, name, hash(password), email);
    SanitizedClean(username);
    db.AddUser(user);
    r := Ok(Public(user));
  }

  /** Usernames are compared in sanitized form: once a user is stored, a
      sign-up whose username sanitizes to the same name (another case, other
      punctuation or spacing) is refused as an existing username, whatever
      its email, provided that email was free before. */
  lemma SanitizedVariantConflicts(users: seq<User>, id: int, username: string, password: string, email: string,
                                  variant: string, email2: string)
    requires Sanitize(variant) == Sanitize(username)
    requires CheckExistingUsers(users, username, email2).Pass?
    ensures CheckExistingUsers(users + [User(id, Sanitize(username), password, email)], variant, email2)
      == Fail(UsernameExists)
  {
    PassNoClash(users, username, email2);
    assert forall j :: 0 <= j < |users| ==> !UserClash(users[j], variant, email2);
    ClashAppended(users, variant, email2, User(id, Sanitize(username), password, email));
  }

  /** A passing guard means no stored user has the sanitized username or
      the email. */
  lemma PassNoClash(users: seq<User>, username: string, email: string)
    requires CheckExistingUsers(users, username, email).Pass?
    ensures forall j :: 0 <= j < |users| ==> users[j].username != Sanitize(username) && users[j].email != email
  {
  }

  /** In particular, once "Test" is stored, its lowercase form "test" is
      refused: sanitizing ignores case. */
  lemma CaseVariantConflicts(users: seq<User>, id: int, username: string, password: string, email: string,
                             email2: string)
    requires CheckExistingUsers(users, username, email2).Pass?
    ensures CheckExistingUsers(users + [User(id, Sanitize(username), password, email)], LowerAll(username), email2)
      == Fail(UsernameExists)
  {
    SanitizeIgnoresCase(username);
    SanitizedVariantConflicts(users, id, username, password, email, LowerAll(username), email2);
  }

  /** GET /users: a window of at most `limit` users starting at position
      `skip`, cut short only by the end of the table. */
  function ReadUsers(users: seq<User>, skip: nat, limit: nat): (r: seq<UserPublic>)
    ensures |r| <= limit
    ensures |r| == limit || skip + |r| >= |users|
    ensures forall k :: 0 <= k < |r| ==> skip + k < |users| && r[k] == Public(users[skip + k])
  {
    var page := Page(users, Some(skip), Some(limit));
    seq(|page|, k requires 0 <= k < |page| => Public(page[k]))
  }

  /** GET /users with no query parameters: the first hundred users, or all
      of them when there are fewer. */
  lemma ReadUsersDefault(users: seq<User>)
    ensures var r := ReadUsers(users, DefaultSkip, DefaultLimit);
      && |r| == Min(100, |users|)
      && forall k :: 0 <= k < |r| ==> r[k] == Public(users[k])
  {
  }

  /** GET /users/{id}: the stored user with that id, or 404. */
  function ReadUser(users: seq<User>, id: int): (r: Result<UserPublic>)
    ensures r.Ok? <==> exists i :: 0 <= i < |users| && users[i].id == id
    ensures r.Ok? ==> exists i :: 0 <= i < |users| && users[i].id == id && r.value == Public(users[i])
    ensures r.Err? ==> r.error == UserNotFound
  {
    match UserIndex(users, id)
    case None => Err(UserNotFound)
    case Some(k) => Ok(Public(users[k]))
  }

  /** The row a partial update leaves: each given field replaces the stored
      one, the username in sanitized form, the password as its hash. */
  function Patched(u: User, username: Option<string>, email: Option<string>, password: string, hash: string -> string): User {
    User(u.id,
         if Given(username) then Sanitize(username.value) else u.username,
         if password != "" then hash(password) else u.password,
         if Given(email) then email.value else u.email)
  }

  /** When the patch guard passes, the patched row shares its username and
      email with no other row of a unique table. */
  lemma PatchedFresh(users: seq<User>, k: nat, username: Option<string>, email: Option<string>,
                     password: string, hash: string -> string)
    requires UsersUnique(users) && k < |users|
    requires CheckExistingUsersPatch(users, username, email).Pass?
    requires Given(username) ==> Sanitize(username.value) != []
    ensures FreshUser(users, Patched(users[k], username, email, password, hash), k)
  {
    var user := Patched(users[k], username, email, password, hash);
    forall i | 0 <= i < |users| && i != k
      ensures users[i].username != user.username && users[i].email != user.email
    {
      if i < k {
        assert UserName(users[i]) != UserName(users[k]) && UserEmail(users[i]) != UserEmail(users[k]);
      } else {
        assert UserName(users[k]) != UserName(users[i]) && UserEmail(users[k]) != UserEmail(users[i]);
      }
    }
  }

  /** PATCH /users/{id}, by the user `currentId`: only the user itself may
      change its record; a given username must not sanitize to nothing; the
      given username and email must not be stored yet, by anyone. */
  method PatchUser(db: Session, userId: int, currentId: int, username: Option<string>, email: Option<string>,
                   password: string, hash: string -> string)
    returns (r: Result<UserPublic>)
    requires db.Valid()
    requires UserIndex(db.users, currentId).Some?
    modifies db
    ensures db.Valid()
    ensures old(db.Unique()) ==> db.Unique()
    ensures unchanged(db`authors, db`books, db`nextUserId, db`nextAuthorId, db`nextBookId)
    ensures currentId != userId ==> r == Err(NotEnoughPermissions)
    ensures currentId == userId && Given(username) && Sanitize(username.value) == [] ==> r == Err(EmptyString)
    ensures (currentId == userId && !(Given(username) && Sanitize(username.value) == []) &&
             CheckExistingUsersPatch(old(db.users), username, email).Fail?) ==>
      r == Err(CheckExistingUsersPatch(old(db.users), username, email).failure)
    ensures r.Ok? <==> currentId == userId && !(Given(username) && Sanitize(username.value) == []) &&
                       CheckExistingUsersPatch(old(db.users), username, email).Pass?
    ensures r.Err? ==> unchanged(db)
    ensures r.Ok? ==>
      var k := UserIndex(old(db.users), currentId).value;
      var user := Patched(old(db.users)[k], username, email, password, hash);
      && r.value == Public(user)
      && db.users == old(db.users)[k := user]
  {
    if currentId != userId {
      return Err(NotEnoughPermissions);
    }
    if Given(username) && Sanitize(username.value) == [] {
      return Err(EmptyString);
    }
    var guard := CheckExistingUsersPatch(db.users, username, email);
    if guard.Fail? {
      return Err(guard.failure);
    }
    var k := UserIndex(db.users, currentId).value;
    var user := Patched(db.users[k], username, email, password, hash);
    if Given(username) {
      SanitizedClean(username.value);
    }
    if db.Unique() {
      PatchedFresh(db.users, k, username, email, password, hash);
    }
    db.ReplaceUser(k, user);
    r := Ok(Public(user));
  }

  /** PUT /users/{id}, by the user `currentId`: only the user itself may
      replace its record; the sanitized username must not be empty; neither
      it nor the email may be stored yet, by anyone, the user itself
      included. */
  method UpdateUser(db: Session, userId: int, currentId: int, username: string, email: string,
                    password: string, hash: string -> string)
    returns (r: Result<UserPublic>)
    requires db.Valid()
    requires UserIndex(db.users, currentId).Some?
    modifies db
    ensures db.Valid()
    ensures old(db.Unique()) ==> db.Unique()
    ensures unchanged(db`authors, db`books, db`nextUserId, db`nextAuthorId, db`nextBookId)
    ensures currentId != userId ==> r == Err(NotEnoughPermissions)
    ensures currentId == userId && Sanitize(username) == [] ==> r == Err(EmptyString)
    ensures (currentId == userId && Sanitize(username) != [] &&
             CheckExistingUsers(old(db.users), username, email).Fail?) ==>
      r == Err(CheckExistingUsers(old(db.users), username, email).failure)
    ensures r.Ok? <==> currentId == userId && Sanitize(username) != [] &&
                       CheckExistingUsers(old(db.users), username, email).Pass?
    ensures r.Err? ==> unchanged(db)
    ensures r.Ok? ==>
      var user := User(currentId, Sanitize(username), hash(password), email);
      && r.value == Public(user)
      && db.users == old(db.users)[UserIndex(old(db.users), currentId).value := user]
  {
    if currentId != userId {
      return Err(NotEnoughPermissions);
    }
    var name := Sanitize(username);
    if name == [] {
      return Err(EmptyString);
    }
    var guard := CheckExistingUsers(db.users, username, email);
    if guard.Fail? {
      return Err(guard.failure);
    }
    var k := UserIndex(db.users, currentId).value;
    var user := User(currentId, name, hash(password), email);
    SanitizedClean(username);
    db.ReplaceUser(k, user);
    r := Ok(Public(user));
  }

  /** A user cannot keep its own username through PUT or PATCH: the guards
      do not leave the user's own row out, so resubmitting the stored
      username is refused. */
  lemma OwnUsernameConflicts(users: seq<User>, next: int, k: nat, email: string)
    requires UsersOk(users, next) && k < |users|
    ensures CheckExistingUsers(users, users[k].username, email).Fail?
    ensures CheckExistingUsersPatch(users, Some(users[k].username), None) == Fail(UsernameExists)
  {
    assert UserClean(users[k]);
    CleanFixed(users[k].username);
  }

  /** DELETE /users/{id}, by the user `currentId`: only the user itself may
      delete its record. */
  method DeleteUser(db: Session, userId: int, currentId: int) returns (r: Result<string>)
    requires db.Valid()
    requires UserIndex(db.users, currentId).Some?
    modifies db
    ensures db.Valid()
    ensures old(db.Unique()) ==> db.Unique()
    ensures unchanged(db`authors, db`books, db`nextUserId, db`nextAuthorId, db`nextBookId)
    ensures currentId != userId ==> r == Err(NotEnoughPermissions) && unchanged(db)
    ensures currentId == userId ==>
      && r == Ok(UserDeleted)
      && db.users == RemoveAt(old(db.users), UserIndex(old(db.users), currentId).value)
  {
    if currentId != userId {
      return Err(NotEnoughPermissions);
    }
    var k := UserIndex(db.users, currentId).value;
    db.RemoveUser(k);
    r := Ok(UserDeleted);
  }
}
