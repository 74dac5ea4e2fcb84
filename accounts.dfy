/** The account routes of backend/server.js: the `validateRegistration`
    middleware, `POST /api/register`, `POST /api/login` and
    `DELETE /api/documents/:documentId`, over the in-memory `users` and
    `documents` maps. Password hashing, password comparison and the clock
    are parameters; tokens are left out. */
module Accounts {
  import opened Wrappers
  import opened JsString

  /** A stored user: `new User(username, email, hashedPassword)` with its
      `documents` list and its `Date.now()` id. */
  datatype User = User(id: string, username: string, email: string, passwordHash: string, documents: seq<string>)

  datatype RegistrationError = MissingField | PasswordTooShort | InvalidEmailFormat

  datatype RegisterError = Invalid(reason: RegistrationError) | AlreadyExists

  datatype LoginError = InvalidCredentials

  datatype DeleteError = Unauthenticated | DocumentNotFound

  const MinPasswordLength := 6

  function RegisterMessage(e: RegisterError): string {
    match e
    case AlreadyExists => "User with this email or username already exists"
    case Invalid(reason) =>
      match reason
      case MissingField => "All fields are required"
      case PasswordTooShort => "Password must be at least 6 characters long"
      case InvalidEmailFormat => "Invalid email format"
  }

  /** `/\S+@\S+\.\S+/` matches with its `@` at `at` and the `.` at `dot`:
      a non-space character before `@`, only non-space characters between
      them (at least one) and a non-space character after `.`. */
  predicate EmailMatchAt(s: string, at: nat, dot: nat) {
    0 < at && at + 1 < dot && dot + 1 < |s|
    && s[at] == '@' && s[dot] == '.'
    && !IsSpace(s[at - 1]) && !IsSpace(s[dot + 1])
    && forall k :: at < k < dot ==> !IsSpace(s[k])
  }

  /** `/\S+@\S+\.\S+/.test(email)`: the pattern matches somewhere. */
  predicate MatchesEmailPattern(s: string) {
    exists at: nat, dot: nat | at < |s| && dot < |s| :: EmailMatchAt(s, at, dot)
  }

  /** `validateRegistration`: the first failing check, in the order the
      middleware makes them, or `None` when the request may go on. */
  function ValidateRegistration(username: string, email: string, password: string): (r: Option<RegistrationError>)
    ensures r == Some(MissingField) <==> username == [] || email == [] || password == []
    ensures r == Some(PasswordTooShort) <==>
      username != [] && email != [] && password != [] && Utf16Length(password) < MinPasswordLength
    ensures r == Some(InvalidEmailFormat) <==>
      username != [] && email != [] && Utf16Length(password) >= MinPasswordLength && !MatchesEmailPattern(email)
  {
    if username == [] || email == [] || password == [] then Some(MissingField)
    else if Utf16Length(password) < MinPasswordLength then Some(PasswordTooShort)
    else if !MatchesEmailPattern(email) then Some(InvalidEmailFormat)
    else None
  }

  /** The invariant of the `users` map: `ids` lists its keys once each in
      insertion order, every user is stored under its own id, and no two
      users share an email or a username. */
  predicate Consistent(ids: seq<string>, users: map<string, User>) {
    (forall i, j :: 0 <= i < j < |ids| ==> ids[i] != ids[j])
    && (forall i :: 0 <= i < |ids| ==> ids[i] in users)
    && (forall id :: id in users ==> id in ids)
    && (forall id :: id in users ==> users[id].id == id)
    && (forall a, b :: a in users && b in users && a != b ==>
          users[a].email != users[b].email && users[a].username != users[b].username)
  }

  /** Some stored user already has this email or this username. */
  predicate Taken(users: map<string, User>, email: string, username: string) {
    exists id :: id in users && (users[id].email == email || users[id].username == username)
  }

  /** What `POST /api/register` decides before it hashes the password: the
      middleware's first failing check, else `AlreadyExists` when the scan of
      `users` finds the email or the username, else nothing. */
  function RegistrationCheck(users: map<string, User>, username: string, email: string, password: string): (r: Option<RegisterError>)
    ensures r.None? <==> ValidateRegistration(username, email, password).None? && !Taken(users, email, username)
    ensures r == Some(AlreadyExists) <==> ValidateRegistration(username, email, password).None? && Taken(users, email, username)
  {
    match ValidateRegistration(username, email, password)
    case Some(e) => Some(Invalid(e))
    case None => if Taken(users, email, username) then Some(AlreadyExists) else None
  }

  /** The key order after `users.set(id, ...)`: a new key goes last, an
      existing key keeps its place. */
  function InsertKey(ids: seq<string>, users: map<string, User>, id: string): seq<string> {
    if id in users then ids else ids + [id]
  }

  /** Inserting a user whose email and username are not taken keeps the
      store consistent. */
  lemma InsertKeepsConsistent(ids: seq<string>, users: map<string, User>, u: User)
    requires Consistent(ids, users) && !Taken(users, u.email, u.username)
    ensures Consistent(InsertKey(ids, users, u.id), users[u.id := u])
  {
    var ids', users' := InsertKey(ids, users, u.id), users[u.id := u];
    forall a, b | a in users' && b in users' && a != b
      ensures users'[a].email != users'[b].email && users'[a].username != users'[b].username
    {
      if a == u.id {
        assert b in users;
      } else if b == u.id {
        assert a in users;
      }
    }
  }

  /** The route awaits `bcrypt.hash` between its scan and `users.set`, so a
      second registration can run its scan in between. Two registrations for
      one email whose scans both saw the same store both pass, and once both
      are stored two users share that email. */
  lemma InterleavedRegistrationsShareEmail(ids: seq<string>, users: map<string, User>,
                                           u1: User, p1: string, u2: User, p2: string)
    requires Consistent(ids, users)
    requires RegistrationCheck(users, u1.username, u1.email, p1).None?
    requires RegistrationCheck(users, u2.username, u2.email, p2).None?
    requires u1.email == u2.email && u1.id != u2.id
    ensures !Consistent(InsertKey(InsertKey(ids, users, u1.id), users[u1.id := u1], u2.id),
                        users[u1.id := u1][u2.id := u2])
  {
    var after := users[u1.id := u1][u2.id := u2];
    assert after[u1.id].email == after[u2.id].email;
  }

  /** The interleaving on an empty store: both scans pass, and the store
      ends with two accounts for `a@b.c`. */
  lemma InterleavedRegistrationsOnEmptyStore()
    ensures RegistrationCheck(map[], "ann", "a@b.c", "secret").None?
    ensures RegistrationCheck(map[], "bob", "a@b.c", "secret").None?
    ensures !Consistent(["1", "2"], map["1" := User("1", "ann", "a@b.c", "h", []),
                                        "2" := User("2", "bob", "a@b.c", "h", [])])
  {
    var email := "a@b.c";
    assert !IsSpace(email[0]) && !IsSpace(email[2]) && !IsSpace(email[4]);
    assert EmailMatchAt(email, 1, 3);
    assert Utf16Length("secret") >= MinPasswordLength;
    assert ValidateRegistration("ann", email, "secret").None?;
    assert ValidateRegistration("bob", email, "secret").None?;
    var after := map["1" := User("1", "ann", email, "h", []), "2" := User("2", "bob", email, "h", [])];
    assert "1" in after && "2" in after && after["1"].email == after["2"].email;
  }

  /** Run one after the other, the store stays consistent and the second
      registration for the same email is refused. */
  lemma SerialRegistrationRefusesDuplicate(ids: seq<string>, users: map<string, User>,
                                           u1: User, p1: string, username2: string, p2: string)
    requires Consistent(ids, users)
    requires RegistrationCheck(users, u1.username, u1.email, p1).None?
    requires ValidateRegistration(username2, u1.email, p2).None?
    ensures Consistent(InsertKey(ids, users, u1.id), users[u1.id := u1])
    ensures RegistrationCheck(users[u1.id := u1], username2, u1.email, p2) == Some(AlreadyExists)
  {
    InsertKeepsConsistent(ids, users, u1);
    assert users[u1.id := u1][u1.id].email == u1.email;
  }

  /** The login lookup: the first user, in key order, with this email. */
  function FindByEmail(ids: seq<string>, users: map<string, User>, email: string): (r: Option<User>)
    requires forall i :: 0 <= i < |ids| ==> ids[i] in users
    ensures r.None? <==> forall i :: 0 <= i < |ids| ==> users[ids[i]].email != email
    ensures r.Some? ==> r.value.email == email
    ensures r.Some? ==>
      (exists i :: 0 <= i < |ids| && r.value == users[ids[i]] && (forall k :: 0 <= k < i ==> users[ids[k]].email != email))
  {
    if ids == [] then None
    else if users[ids[0]].email == email then Some(users[ids[0]])
    else
      var rest := FindByEmail(ids[1..], users, email);
      assert forall i :: 1 <= i < |ids| ==> ids[i] == ids[1..][i - 1];
      rest
  }

  /** With unique emails the first match is the only match: a stored user
      is found by its own email. */
  lemma FindByOwnEmail(ids: seq<string>, users: map<string, User>, id: string)
    requires Consistent(ids, users) && id in users
    ensures FindByEmail(ids, users, users[id].email) == Some(users[id])
  {
    var email := users[id].email;
    var i :| 0 <= i < |ids| && ids[i] == id;
    assert users[ids[i]].email == email;
    var r := FindByEmail(ids, users, email);
    var j :| 0 <= j < |ids| && r.value == users[ids[j]];
    assert ids[j] == id;
  }

  /** A user just registered is the one login finds by that email. */
  lemma RegisteredUserIsFound(ids: seq<string>, users: map<string, User>, u: User)
    requires Consistent(ids, users) && !Taken(users, u.email, u.username)
    ensures Consistent(InsertKey(ids, users, u.id), users[u.id := u])
    ensures FindByEmail(InsertKey(ids, users, u.id), users[u.id := u], u.email) == Some(u)
  {
    InsertKeepsConsistent(ids, users, u);
    FindByOwnEmail(InsertKey(ids, users, u.id), users[u.id := u], u.id);
  }

  /** `list.indexOf(x)`: the first position holding `x`, if any. */
  function IndexOf(xs: seq<string>, x: string): (r: Option<nat>)
    ensures r.None? <==> x !in xs
    ensures r.Some? ==> r.value < |xs| && xs[r.value] == x && x !in xs[..r.value]
  {
    if xs == [] then None
    else if xs[0] == x then Some(0)
    else match IndexOf(xs[1..], x)
      case None => None
      case Some(k) =>
        assert xs[..k + 1] == [xs[0]] + xs[1..][..k];
        Some(k + 1)
  }

  /** `list.splice(i, 1)`. */
  function RemoveAt(xs: seq<string>, i: nat): seq<string>
    requires i < |xs|
  {
    xs[..i] + xs[i + 1..]
  }

  /** Removing the first occurrence of a document takes exactly one copy of
      it out of the list and keeps every other entry in its order. */
  lemma RemoveFirstOccurrence(xs: seq<string>, x: string)
    requires x in xs
    ensures IndexOf(xs, x).Some?
    ensures multiset(RemoveAt(xs, IndexOf(xs, x).value)) == multiset(xs) - multiset{x}
    ensures |RemoveAt(xs, IndexOf(xs, x).value)| == |xs| - 1
  {
    var i := IndexOf(xs, x).value;
    var before, after := xs[..i], xs[i + 1..];
    assert xs == before + [x] + after;
    assert RemoveAt(xs, i) == before + after;
    assert multiset(xs) == multiset(before) + multiset{x} + multiset(after);
  }

  /** The server's `users` and `documents` maps. `documents` holds the ids of
      stored documents; what a document holds is not part of this model. */
  class UserStore {
    var ids: seq<string>
    var users: map<string, User>
    var documents: set<string>

    predicate Valid()
      reads this
    {
      Consistent(ids, users)
    }

    constructor ()
      ensures Valid() && ids == [] && users == map[] && documents == {}
    {
      ids, users, documents := [], map[], {};
    }

    /** The part of `POST /api/register` before `await bcrypt.hash`: the
        middleware's checks, then the scan of `users`. Changes nothing. */
    method CheckRegistration(username: string, email: string, password: string)
      returns (r: Option<RegisterError>)
      requires Valid()
      ensures r == RegistrationCheck(users, username, email, password)
    {
      var invalid := ValidateRegistration(username, email, password);
      if invalid.Some? {
        return Some(Invalid(invalid.value));
      }
      var i := 0;
      while i < |ids|
        invariant 0 <= i <= |ids|
        invariant forall k :: 0 <= k < i ==> users[ids[k]].email != email && users[ids[k]].username != username
      {
        var u := users[ids[i]];
        if u.email == email || u.username == username {
          return Some(AlreadyExists);
        }
        i := i + 1;
      }
      assert !Taken(users, email, username) by {
        forall id | id in users ensures users[id].email != email && users[id].username != username {
          var k :| 0 <= k < |ids| && ids[k] == id;
        }
      }
      r := None;
    }

    /** The part after the `await`: `users.set(user.id, user)`, with no
        second look at the store. */
    method CommitRegistration(user: User)
      modifies this
      ensures users == old(users)[user.id := user]
      ensures ids == InsertKey(old(ids), old(users), user.id)
      ensures documents == old(documents)
    {
      ids := InsertKey(ids, users, user.id);
      users := users[user.id := user];
    }

    /** `POST /api/register` behind `validateRegistration`, run without
        another registration in between. `now` is `Date.now().toString()`
        and `hash` stands for `bcrypt.hash`. */
    method Register(username: string, email: string, password: string, now: string, hash: string -> string)
      returns (r: Result<User, RegisterError>)
      requires Valid()
      modifies this
      ensures Valid() && documents == old(documents)
      ensures ValidateRegistration(username, email, password).Some? ==>
        r == Failure(Invalid(ValidateRegistration(username, email, password).value))
      ensures ValidateRegistration(username, email, password).None? && old(Taken(users, email, username)) ==>
        r == Failure(AlreadyExists)
      ensures r.Failure? ==> ids == old(ids) && users == old(users)
      ensures r.Success? <==> ValidateRegistration(username, email, password).None? && !old(Taken(users, email, username))
      ensures r.Success? ==>
        r.value == User(now, username, email, hash(password), [])
        && users == old(users)[now := r.value]
        && ids == InsertKey(old(ids), old(users), now)
    {
      var refused := CheckRegistration(username, email, password);
      if refused.Some? {
        return Failure(refused.value);
      }
      var user := User(now, username, email, hash(password), []);
      InsertKeepsConsistent(ids, users, user);
      CommitRegistration(user);
      r := Success(user);
    }

    /** `POST /api/login`: the first user with this email, accepted when
        `verify` (standing for `bcrypt.compare`) accepts the password. */
    method Login(email: string, password: string, verify: (string, string) -> bool)
      returns (r: Result<User, LoginError>)
      requires Valid()
      ensures r.Success? <==>
        exists id :: id in users && users[id].email == email && verify(password, users[id].passwordHash)
      ensures r.Success? ==> r.value.email == email && r.value in users.Values
      ensures r.Success? ==> r == Success(FindByEmail(ids, users, email).value)
    {
      // The `break` on the first match is the second conjunct of the guard.
      var i := 0;
      while i < |ids| && users[ids[i]].email != email
        invariant 0 <= i <= |ids|
        invariant forall k :: 0 <= k < i ==> users[ids[k]].email != email
      {
        i := i + 1;
      }
      var found: Option<User> := None;
      if i < |ids| {
        FindByOwnEmail(ids, users, ids[i]);
        found := Some(users[ids[i]]);
      }
      if found.None? {
        forall id | id in users ensures users[id].email != email {
          var k :| 0 <= k < |ids| && ids[k] == id;
        }
        return Failure(InvalidCredentials);
      }
      var user := found.value;
      forall id | id in users && users[id].email == email ensures users[id] == user {
        FindByOwnEmail(ids, users, id);
      }
      if !verify(password, user.passwordHash) {
        return Failure(InvalidCredentials);
      }
      r := Success(user);
    }

    /** `DELETE /api/documents/:documentId` behind `auth`. `userId` is the id
        in a verified token, `None` when the token is missing or invalid. */
    method DeleteDocument(userId: Option<string>, documentId: string) returns (r: Result<(), DeleteError>)
      requires Valid()
      modifies this
      ensures Valid() && ids == old(ids)
      ensures r == Failure(Unauthenticated) <==> userId.None? || userId.value !in old(users)
      ensures r == Failure(DocumentNotFound) <==>
        userId.Some? && userId.value in old(users) && documentId !in old(users)[userId.value].documents
      ensures r.Failure? ==> users == old(users) && documents == old(documents)
      ensures r.Success? ==>
        var u := old(users)[userId.value];
        users == old(users)[userId.value := u.(documents := RemoveAt(u.documents, IndexOf(u.documents, documentId).value))]
        && documents == old(documents) - {documentId}
    {
      if userId.None? || userId.value !in users {
        return Failure(Unauthenticated);
      }
      var u := users[userId.value];
      var index := IndexOf(u.documents, documentId);
      if index.None? {
        return Failure(DocumentNotFound);
      }
      users := users[userId.value := u.(documents := RemoveAt(u.documents, index.value))];
      documents := documents - {documentId};
      r := Success(());
    }
  }
}
