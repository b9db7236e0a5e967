/**
  The authentication controller over the Users table: registration, login,
  lookup by id, update, deletion and profile retrieval, each answering with
  the HTTP outcome and literal message the controller returns.

  The keyed password hash is fixed per process (it depends only on the
  configured key), so it is a constant of the controller. Token issuance
  depends on a fresh nonce and the clock, so each login receives the issuer
  it runs with. Reading a token's subject claim is a parse whose details are
  not modelled, so each profile request receives the reader.
 */
module AuthApi {
  import opened Accounts
  import opened Bearer

  /** What a successful action sends back. */
  datatype Payload =
    | Text(text: string)
    | Token(token: string)
    | Record(user: User)
    | Profile(username: string, email: string)

  /** The HTTP outcome of an action; `ServerError` is an exception no handler catches. */
  datatype Response =
    | Ok(payload: Payload)
    | BadRequest(message: string)
    | Unauthorized(message: string)
    | NotFound(message: string)
    | ServerError

  /** What reading a token gives: the parse throws, or it yields the subject claim if there is one. */
  datatype TokenRead = Unreadable | Read(subject: Option<string>)

  const DuplicateUser: string := "Username or email already exists."
  const Registered: string := "User registered successfully."
  const InvalidCredentials: string := "Invalid username or password."
  const UserNotFound: string := "User not found."
  const Updated: string := "User updated successfully."
  const Deleted: string := "User deleted successfully."
  const MissingToken: string := "Token manquant"
  const InvalidToken: string := "Token invalide"
  const UnknownUser: string := "Utilisateur introuvable"

  /** `string.IsNullOrEmpty` of a claim value that may be missing. */
  predicate NullOrEmpty(s: Option<string>) {
    s.None? || s.value == []
  }

  class AuthController {
    /** The Users table, in store order. */
    var users: seq<User>
    /** The id the store assigns to the next inserted record. */
    var nextId: int
    /** The keyed password hash (HMAC under the configured key, base64-encoded). */
    const hash: string -> string

    ghost predicate Valid()
      reads this
    {
      WellFormed(users) && forall i :: 0 <= i < |users| ==> users[i].id < nextId
    }

    constructor (hash: string -> string)
      ensures Valid() && users == [] && this.hash == hash
    {
      this.hash := hash;
      users := [];
      nextId := 1;
    }

    /** The first record with this username, if any. */
    method FindByUsername(name: string) returns (k: Option<nat>)
      ensures k.Some? ==> k.value < |users| && users[k.value].username == name
      ensures k.Some? ==> forall j :: 0 <= j < k.value ==> users[j].username != name
      ensures k.None? <==> !HasUsername(users, name)
    {
      var i := 0;
      while i < |users|
        invariant 0 <= i <= |users|
        invariant forall j :: 0 <= j < i ==> users[j].username != name
      {
        if users[i].username == name {
          return Some(i);
        }
        i := i + 1;
      }
      return None;
    }

    /** The position of the record with this primary key, if any. */
    method FindById(id: int) returns (k: Option<nat>)
      ensures k.Some? ==> k.value < |users| && users[k.value].id == id
      ensures k.Some? ==> forall j :: 0 <= j < k.value ==> users[j].id != id
      ensures k.None? <==> !HasId(users, id)
    {
      var i := 0;
      while i < |users|
        invariant 0 <= i <= |users|
        invariant forall j :: 0 <= j < i ==> users[j].id != id
      {
        if users[i].id == id {
          return Some(i);
        }
        i := i + 1;
      }
      return None;
    }

    /** Whether some record other than `except` already holds `username` or `email`. */
    method AnyClash(username: string, email: string, except: Option<int>) returns (b: bool)
      ensures b <==> Clashes(users, username, email, except)
    {
      var i := 0;
      while i < |users|
        invariant 0 <= i <= |users|
        invariant !Clashes(users[..i], username, email, except)
      {
        var u := users[i];
        if (u.username == username || u.email == email) && except != Some(u.id) {
          assert users[..i + 1][i] == u;
          return true;
        }
        assert forall j :: 0 <= j < i ==> users[..i + 1][j] == users[..i][j];
        i := i + 1;
      }
      assert users[..i] == users;
      return false;
    }

    /** POST register: refuse a taken username or email, otherwise insert the new record. */
    method Register(username: string, email: string, password: string) returns (r: Response)
      requires Valid()
      modifies this
      ensures Valid()
      ensures r.Ok? <==> !Clashes(old(users), username, email, None)
      ensures !r.Ok? ==> r == BadRequest(DuplicateUser) && users == old(users) && nextId == old(nextId)
      ensures r.Ok? ==> r == Ok(Text(Registered)) && nextId == old(nextId) + 1
                        && users == old(users) + [User(old(nextId), username, email, hash(password))]
      ensures r.Ok? ==> forall h :: Authenticates(users, username, h) <==> h == hash(password)
    {
      var taken := AnyClash(username, email, None);
      if taken {
        return BadRequest(DuplicateUser);
      }
      var passwordHash := hash(password);
      var newUser := User(nextId, username, email, passwordHash);
      AppendKeepsWellFormed(users, newUser);
      users := users + [newUser];
      nextId := nextId + 1;
      forall h ensures Authenticates(users, username, h) <==> h == passwordHash {
        OnlyOwnHashAuthenticates(users, |users| - 1, h);
      }
      return Ok(Text(Registered));
    }

    /**
      POST login: the same refusal whether the username is unknown or the
      password wrong; on success a token issued for that username.
     */
    method Login(username: string, password: string, issue: string -> string) returns (r: Response)
      requires Valid()
      ensures r.Ok? <==> Authenticates(users, username, hash(password))
      ensures r.Ok? ==> r == Ok(Token(issue(username)))
      ensures !r.Ok? ==> r == Unauthorized(InvalidCredentials)
    {
      var k := FindByUsername(username);
      if k.None? {
        return Unauthorized(InvalidCredentials);
      }
      var user := users[k.value];
      var computedHash := hash(password);
      OnlyOwnHashAuthenticates(users, k.value, computedHash);
      if user.passwordHash != computedHash {
        return Unauthorized(InvalidCredentials);
      }
      return Ok(Token(issue(user.username)));
    }

    /** GET by id: the whole stored record, or not found. */
    method GetUserById(id: int) returns (r: Response)
      ensures r.Ok? <==> HasId(users, id)
      ensures r.Ok? ==> r.payload.Record? && r.payload.user in users && r.payload.user.id == id
      ensures !r.Ok? ==> r == NotFound(UserNotFound)
    {
      var k := FindById(id);
      if k.None? {
        return NotFound(UserNotFound);
      }
      return Ok(Record(users[k.value]));
    }

    /**
      PUT by id: not found first, then a username or email held by another
      record, otherwise the target's username, email and hash are overwritten
      in place and nothing else changes.
     */
    method UpdateUser(id: int, username: string, email: string, password: string) returns (r: Response)
      requires Valid()
      modifies this
      ensures Valid() && nextId == old(nextId)
      ensures !HasId(old(users), id) ==> r == NotFound(UserNotFound) && users == old(users)
      ensures HasId(old(users), id) && Clashes(old(users), username, email, Some(id)) ==>
                r == BadRequest(DuplicateUser) && users == old(users)
      ensures HasId(old(users), id) && !Clashes(old(users), username, email, Some(id)) ==>
                r == Ok(Text(Updated)) && Overwrites(old(users), users, id, User(id, username, email, hash(password)))
      ensures r.Ok? ==> forall h :: Authenticates(users, username, h) <==> h == hash(password)
    {
      var k := FindById(id);
      if k.None? {
        return NotFound(UserNotFound);
      }
      var taken := AnyClash(username, email, Some(id));
      if taken {
        return BadRequest(DuplicateUser);
      }
      var i := k.value;
      var rec := User(id, username, email, hash(password));
      ghost var before := users;
      forall j | 0 <= j < |before| && j != i ensures before[j].id != id {
        if j < i { } else { assert before[i].id != before[j].id; }
      }
      users := users[i := rec];
      assert Overwrites(before, users, id, rec);
      OverwriteKeepsWellFormed(before, users, rec);
      forall h ensures Authenticates(users, username, h) <==> h == rec.passwordHash {
        OnlyOwnHashAuthenticates(users, i, h);
      }
      return Ok(Text(Updated));
    }

    /**
      DELETE by id: not found, or exactly the record with that id is removed
      and every other record kept, in order.
     */
    method DeleteUser(id: int) returns (r: Response)
      requires Valid()
      modifies this
      ensures Valid() && nextId == old(nextId)
      ensures r.Ok? <==> HasId(old(users), id)
      ensures !r.Ok? ==> r == NotFound(UserNotFound) && users == old(users)
      ensures r.Ok? ==> r == Ok(Text(Deleted))
      ensures r.Ok? ==> exists k :: 0 <= k < |old(users)| && old(users)[k].id == id
                                 && users == old(users)[..k] + old(users)[k + 1..]
      ensures forall u :: u in users <==> u in old(users) && u.id != id
    {
      var k := FindById(id);
      if k.None? {
        return NotFound(UserNotFound);
      }
      var i := k.value;
      RemovalKeepsWellFormed(users, i);
      RemovalRemovesExactlyId(users, i);
      users := users[..i] + users[i + 1..];
      return Ok(Text(Deleted));
    }

    /**
      GET profile: strip every "Bearer " from the header, read the subject
      claim of what remains (without checking signature, issuer or expiry),
      and answer with that user's username and email only.
     */
    method GetProfile(authorization: string, read: string -> TokenRead) returns (r: Response)
      ensures StripAll(authorization) == [] ==> r == Unauthorized(MissingToken)
      ensures StripAll(authorization) != [] && read(StripAll(authorization)).Unreadable? ==> r == ServerError
      ensures (StripAll(authorization) != [] && read(StripAll(authorization)).Read?
               && NullOrEmpty(read(StripAll(authorization)).subject)) ==> r == Unauthorized(InvalidToken)
      ensures r == Unauthorized(UnknownUser) <==>
                StripAll(authorization) != [] && read(StripAll(authorization)).Read?
                && !NullOrEmpty(read(StripAll(authorization)).subject)
                && !HasUsername(users, read(StripAll(authorization)).subject.value)
      ensures r.Ok? <==>
                StripAll(authorization) != [] && read(StripAll(authorization)).Read?
                && !NullOrEmpty(read(StripAll(authorization)).subject)
                && HasUsername(users, read(StripAll(authorization)).subject.value)
      ensures r.Ok? ==> exists i :: 0 <= i < |users| && read(StripAll(authorization)) == Read(Some(users[i].username))
                                  && r == Ok(Profile(users[i].username, users[i].email))
    {
      var token := StripAll(authorization);
      if token == [] {
        return Unauthorized(MissingToken);
      }
      var parsed := read(token);
      if parsed.Unreadable? {
        return ServerError;
      }
      var subject := parsed.subject;
      if NullOrEmpty(subject) {
        return Unauthorized(InvalidToken);
      }
      var k := FindByUsername(subject.value);
      if k.None? {
        return Unauthorized(UnknownUser);
      }
      var user := users[k.value];
      return Ok(Profile(user.username, user.email));
    }
  }

  /**
    A client session over a fresh table: a second registration of the same
    username with another email is refused; after a password change the old
    password no longer logs in and the new one does.
   */
  method PasswordChangeSession(hash: string -> string, issue: string -> string)
    returns (again: Response, oldLogin: Response, newLogin: Response)
    requires hash("old secret") != hash("new secret")
    ensures again == BadRequest(DuplicateUser)
    ensures oldLogin == Unauthorized(InvalidCredentials)
    ensures newLogin == Ok(Token(issue("alice")))
  {
    var c := new AuthController(hash);
    var first := c.Register("alice", "alice@example.org", "old secret");
    assert |c.users| == 1 && c.users[0].username == "alice";
    var id := c.users[0].id;
    again := c.Register("alice", "other@example.org", "old secret");
    var updated := c.UpdateUser(id, "alice", "alice@example.org", "new secret");
    oldLogin := c.Login("alice", "old secret", issue);
    newLogin := c.Login("alice", "new secret", issue);
  }
}
