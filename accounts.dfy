/**
  The Users table behind the authentication controller: the record it stores,
  the invariant the controller keeps over it (ids, usernames and emails are
  each pairwise distinct), the queries the controller runs against it, and
  facts about tables that the controller's actions rely on.
 */
module Accounts {

  datatype Option<T> = None | Some(value: T)

  /** One row of the Users table; `id` is the key the store assigns. */
  datatype User = User(id: int, username: string, email: string, passwordHash: string)

  ghost predicate DistinctIds(users: seq<User>) {
    forall i, j :: 0 <= i < j < |users| ==> users[i].id != users[j].id
  }

  ghost predicate DistinctUsernames(users: seq<User>) {
    forall i, j :: 0 <= i < j < |users| ==> users[i].username != users[j].username
  }

  ghost predicate DistinctEmails(users: seq<User>) {
    forall i, j :: 0 <= i < j < |users| ==> users[i].email != users[j].email
  }

  /** The table invariant: no two records share an id, a username or an email. */
  ghost predicate WellFormed(users: seq<User>) {
    DistinctIds(users) && DistinctUsernames(users) && DistinctEmails(users)
  }

  ghost predicate HasId(users: seq<User>, id: int) {
    exists i :: 0 <= i < |users| && users[i].id == id
  }

  ghost predicate HasUsername(users: seq<User>, name: string) {
    exists i :: 0 <= i < |users| && users[i].username == name
  }

  /**
    The duplicate query of registration and update: some record holds
    `username` or `email`, not counting the record whose id is `except`
    (registration excludes nothing, update excludes its own target).
   */
  ghost predicate Clashes(users: seq<User>, username: string, email: string, except: Option<int>) {
    exists i :: 0 <= i < |users| && (users[i].username == username || users[i].email == email)
                                 && except != Some(users[i].id)
  }

  /** Some record has this username and this stored password hash. */
  ghost predicate Authenticates(users: seq<User>, username: string, passwordHash: string) {
    exists i :: 0 <= i < |users| && users[i].username == username && users[i].passwordHash == passwordHash
  }

  /**
    `after` is `before` with every record whose id is `id` replaced by `rec`
    and every other record left as it was, in place.
   */
  ghost predicate Overwrites(before: seq<User>, after: seq<User>, id: int, rec: User) {
    |after| == |before| &&
    forall i :: 0 <= i < |before| ==> after[i] == if before[i].id == id then rec else before[i]
  }

  /** Appending a record that clashes with nobody and has a fresh id keeps the invariant. */
  lemma AppendKeepsWellFormed(users: seq<User>, rec: User)
    requires WellFormed(users)
    requires !Clashes(users, rec.username, rec.email, None)
    requires !HasId(users, rec.id)
    ensures WellFormed(users + [rec])
  {}

  /**
    Overwriting the record with id `rec.id` by `rec` keeps the invariant when
    no OTHER record holds `rec`'s username or email.
   */
  lemma OverwriteKeepsWellFormed(before: seq<User>, after: seq<User>, rec: User)
    requires WellFormed(before)
    requires !Clashes(before, rec.username, rec.email, Some(rec.id))
    requires Overwrites(before, after, rec.id, rec)
    ensures WellFormed(after)
  {}

  /** Removing one record keeps the invariant. */
  lemma RemovalKeepsWellFormed(users: seq<User>, k: int)
    requires WellFormed(users)
    requires 0 <= k < |users|
    ensures WellFormed(users[..k] + users[k + 1..])
  {}

  /**
    With distinct ids, removing the record at `k` removes exactly the records
    carrying its id and keeps every other one; with distinct usernames and
    emails, the removed username and email are then held by nobody.
   */
  lemma RemovalRemovesExactlyId(users: seq<User>, k: int)
    requires WellFormed(users)
    requires 0 <= k < |users|
    ensures forall u :: u in users[..k] + users[k + 1..] <==> u in users && u.id != users[k].id
    ensures !Clashes(users[..k] + users[k + 1..], users[k].username, users[k].email, None)
  {}

  /**
    In a table with distinct usernames, a record's username authenticates with
    exactly that record's own hash and no other.
   */
  lemma OnlyOwnHashAuthenticates(users: seq<User>, k: int, h: string)
    requires DistinctUsernames(users)
    requires 0 <= k < |users|
    ensures Authenticates(users, users[k].username, h) <==> h == users[k].passwordHash
  {}

  /**
    A record's own username and email never clash with the rest of a
    well-formed table once its own id is excluded: an update may re-use them.
   */
  lemma OwnCredentialsDoNotClash(users: seq<User>, k: int)
    requires WellFormed(users)
    requires 0 <= k < |users|
    ensures !Clashes(users, users[k].username, users[k].email, Some(users[k].id))
  {}
}
