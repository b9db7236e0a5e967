# User accounts and authentication of the restaurant ordering API, in Dafny

The restaurant ordering backend keeps its user accounts in a `Users` table. An
authentication controller serves the endpoints that change or query that table:

- register an account,
- log in with a username and a password and receive a bearer token,
- read an account by id,
- overwrite an account's username, email and password by id,
- delete an account by id,
- read the profile (username and email) of the user named by a bearer token.

This project models that controller and the table it keeps. Each action is a
method of the class `AuthApi.AuthController`. The class owns the table as a
sequence of `User` records `{id, username, email, passwordHash}`, plus the
identity counter the store uses to number new records. Every action answers
with the HTTP outcome the controller returns: `Ok`, `BadRequest`,
`Unauthorized` or `NotFound`, each with its literal message. The profile
action can also end in `ServerError`, when reading the token throws.

The table invariant (`Accounts.WellFormed`) is that ids are pairwise distinct,
usernames are pairwise distinct and emails are pairwise distinct. Every action
that changes the table keeps it. Each error path leaves the table exactly as
it was. A successful update changes only the target record, and a successful
deletion removes only the target record from the Users table.

Three parts of the controller are library calls, and the model treats them as
uninterpreted:

- **Password hash.** The keyed HMAC-SHA256 digest, base64-encoded. It is the
  constant function `hash` of the controller, because it depends only on the
  configured key.
- **Token issuance.** Each call to `Login` receives a function `issue`, because
  each token carries a fresh random id and an expiry taken from the clock.
- **Token reading.** Each call to `GetProfile` receives a function `read`. It
  either throws (`Unreadable`) or yields the subject claim if there is one.
  The controller only parses the token. It checks no signature, issuer,
  audience or expiry, so the profile of any user is returned for any token
  whose subject claim names that user. The model claims no token validation.
  `AuthApi.NullOrEmpty` is `string.IsNullOrEmpty` over a claim value that may
  be missing.

The `"Bearer "` removal is modelled as the controller performs it: every
non-overlapping occurrence is removed, anywhere in the header
(`Bearer.StripAll`). `Bearer.StripsToEmptyIff` proves that the "missing
token" answer is given exactly when the header is empty or consists only of
copies of `"Bearer "`. `Bearer.StandardHeaderYieldsToken` proves that a
header `"Bearer <token>"` gives back the token whenever the token holds no
space, as a compact signed token never does.

Facts about the controller that the model keeps:

- The profile action checks no token signature, issuer, audience or expiry.
- Every `"Bearer "` in the header is removed, not only a leading one.
- A token that does not parse raises an exception, which ends in an HTTP 500.
- The controller itself does not check any request field for emptiness.

## Model

| member | source | states |
|---|---|---|
| `Accounts.AppendKeepsWellFormed` | Controllers/AuthController.cs:29-44 | inserting a record whose username and email nobody holds, under a fresh id, keeps ids, usernames and emails pairwise distinct |
| `Accounts.OverwriteKeepsWellFormed` | Controllers/AuthController.cs:102-111 | overwriting the target record in place keeps ids, usernames and emails pairwise distinct when no record with a different id holds the new username or email |
| `Accounts.RemovalKeepsWellFormed` | Controllers/AuthController.cs:129 | removing one record keeps ids, usernames and emails pairwise distinct |
| `Accounts.RemovalRemovesExactlyId` | Controllers/AuthController.cs:123-129 | removing the record found by id leaves exactly the records with another id, and afterwards nobody holds the removed username or email |
| `Accounts.OnlyOwnHashAuthenticates` | Controllers/AuthController.cs:54-65 | when usernames are distinct, a user's username matches a stored hash exactly when that hash is the user's own |
| `Accounts.OwnCredentialsDoNotClash` | Controllers/AuthController.cs:102 | a record's own username and email never clash with a well-formed table once its own id is excluded, so an update may keep them |
| `Bearer.StripAll` | Controllers/AuthController.cs:166 | removing every "Bearer " never lengthens the header and introduces no new character |
| `Bearer.RepeatedStripsToEmpty` | Controllers/AuthController.cs:166-170 | a header made only of copies of "Bearer " leaves an empty token |
| `Bearer.StripsToEmptyIsRepeated` | Controllers/AuthController.cs:166-170 | an empty token comes only from a header made of copies of "Bearer " |
| `Bearer.StripsToEmptyIff` | Controllers/AuthController.cs:166-170 | the token is empty, and the answer is "Token manquant", exactly when the header is empty or only copies of "Bearer " |
| `Bearer.StripKeepsSpaceFree` | Controllers/AuthController.cs:166 | a string without a space is left unchanged by the removal |
| `Bearer.StandardHeaderYieldsToken` | Controllers/AuthController.cs:166 | the header "Bearer " + t yields t whenever t holds no space |
| `AuthApi.AuthController.constructor` | Controllers/AuthController.cs:19-23 | a controller over an empty table with the given password hash satisfies the table invariant |
| `AuthApi.AuthController.FindByUsername` | Controllers/AuthController.cs:54 | returns the position of the first record with that username, or none exactly when no record has it |
| `AuthApi.AuthController.FindById` | Controllers/AuthController.cs:95 | returns the position of the record with that id, or none exactly when no record has it |
| `AuthApi.AuthController.AnyClash` | Controllers/AuthController.cs:102 | true exactly when a record other than the excluded id holds the username or the email |
| `AuthApi.AuthController.Register` | Controllers/AuthController.cs:27-48 | refuses with "Username or email already exists." and changes nothing exactly when some record holds the username or the email; otherwise appends one record with the next id, the given username and email and hash(password), keeps all previous records, answers "User registered successfully.", and afterwards the username authenticates with exactly hash(password); keeps the table invariant |
| `AuthApi.AuthController.Login` | Controllers/AuthController.cs:52-69 | succeeds exactly when some record has that username and the stored hash equals hash(password), and then answers with the token issued for that username; an unknown username and a wrong password both give Unauthorized("Invalid username or password."); the table cannot change |
| `AuthApi.AuthController.GetUserById` | Controllers/AuthController.cs:81-89 | answers with a stored record carrying that id exactly when one exists, otherwise NotFound("User not found.") |
| `AuthApi.AuthController.UpdateUser` | Controllers/AuthController.cs:93-117 | an absent id gives NotFound("User not found.") before any duplicate check; a username or email held by a record with another id gives BadRequest("Username or email already exists."); both leave the table unchanged; otherwise the target record gets the new username, email and hash(password) under the same id, every other record is unchanged, the new username authenticates with exactly hash(password), and the table invariant holds |
| `AuthApi.AuthController.DeleteUser` | Controllers/AuthController.cs:121-133 | an absent id gives NotFound("User not found.") with the table unchanged; otherwise exactly the record with that id is removed, the others keep their order, the answer is "User deleted successfully.", and the table invariant holds |
| `AuthApi.AuthController.GetProfile` | Controllers/AuthController.cs:164-194 | an empty token after removing every "Bearer " gives "Token manquant"; an unparsable token gives a server error; a missing or empty subject gives "Token invalide"; a subject nobody has gives "Utilisateur introuvable"; otherwise the answer is exactly that user's username and email, with no hash |
| `AuthApi.PasswordChangeSession` | Controllers/AuthController.cs:27-117 | on a fresh table, a second registration of the same username with another email is refused; after a password change, the old password fails to log in and the new one succeeds |

## Left out

- `GetAllUsers` (Controllers/AuthController.cs:73-77) is not modelled. It returns the whole table and has no logic.
- The contents of the HMAC-SHA256 hash, the base64 encoding, the token's claims and its signing (Controllers/AuthController.cs:135-161) are not modelled. They are cryptographic library calls, so the model takes them as uninterpreted functions.
- GetProfile: the reader `read` stands for the library's token parsing. The model does not describe which strings parse, or which claim is taken when a token holds several subject claims.
- GetProfile: a missing Authorization header is modelled as the empty string, which is what the controller reads for it. A header sent several times, whose values are joined with commas, is not modelled.
- Asynchronous execution, `SaveChangesAsync`, transactions and concurrent requests are not modelled. The model is sequential, so the race between the duplicate check and the insert in Register and UpdateUser is outside it.
- String comparison follows Dafny's exact equality. The database's collation is not modelled: SQL Server's default collation compares case-insensitively and ignores trailing spaces, which would make more names clash.
- The store's unique index on `Username` (Data/AppDbContext.cs:31-33) is not modelled separately. With sequential requests the controller's own duplicate check always runs before it. There is no store index on `Email`, so email uniqueness rests only on the controller's checks.
- Null request fields and the framework's model binding are not modelled. Strings are never null.
- Register, Login, UpdateUser: the framework's automatic model validation is not modelled. The request classes declare non-nullable `string` properties (Controllers/AuthController.cs:201-212). With nullable reference types enabled, which is the default in current project templates, such properties are implicitly required, so a null, empty or whitespace-only field likely gets an automatic 400 before the action runs. The project file is not part of this model, so this cannot be confirmed; the model lets every string through to the action.
- Register, Login, UpdateUser: configuration failures of the password hash and of token issuance are not modelled. `hash` and `issue` are total functions. In the source, a missing `PasswordHashKey` makes the hash throw (Controllers/AuthController.cs:158). A missing `Jwt:Key`, an unparsable `Jwt:ExpireMinutes` (:143, :150) or a signing key too short for HMAC-SHA256 makes issuance throw. Each of these ends in an HTTP 500. In Register and UpdateUser it comes after the duplicate check, where the model answers Ok. In Login, a hash failure comes for any existing username whatever the password, because the hash is computed (:60) before the comparison (:62); there the model answers Ok or Unauthorized. An issuance failure (:67) comes only after a correct password, where the model answers Ok.
- DeleteUser: the model holds only the Users table, so the store's cascade that also deletes the user's Payments (Data/AppDbContext.cs:46-50) is not modelled.
- Register: ids are modelled as consecutive (`nextId` grows by one per insert). The store's identity column can skip values, after a failed insert or a server restart. The proofs rely only on each new id being fresh, which holds either way.
- Ids are unbounded integers. The 32-bit range of the store's identity column, and overflow at its end, are not modelled. The first id the store assigns is not fixed either.
- Entity tracking by the ORM is not modelled. A record is a value, and an update replaces it at its position in the table.
- The other controllers, dependency injection, CORS, Swagger and JWT middleware registration (Program.cs, Controllers/ContactController.cs) are not part of this model.
