# Authentication core of expenses-splitter, modelled in Dafny

The expense-splitting application authenticates users with a session. Four
server functions in `src/pages/auth.rs` make up this core:

- `get_user` gives the session's current user.
- `login` checks a username and password against the user table and, on success, records the user's id in the session.
- `register` inserts a new user with a bcrypt hash of the password, then logs the user in.
- `logout` clears the session's identity.

The registration and login pages also have client-side validators for their form fields.

The model has five modules:

- `Common` (`common.dfy`): byte strings and `Option`. Rust `len()` counts bytes, so strings are `seq<bv8>`.
- `Hashing` (`hashing.dfy`): bcrypt's `hash` and `verify`, kept abstract as a `Hasher` value holding two total functions. bcrypt's only promise, "a password verifies against its own hash", is the predicate `Sound`. It is required only by the lemma that needs it. bcrypt draws a random salt on every hash; here that salt is an explicit argument.
- `Auth` (`auth.dfy`): the state, which is the user table (username to `User`), the session's `Option` user id, and the next id the database gives out. Each server function is a pure step function (`LoginStep`, `RegisterStep`, `LogoutStep`, `CurrentUser`). The lemmas about the step functions state what the code promises. The class `AuthServer` keeps the same state in mutable fields. Its methods perform each operation step by step with the code's early returns, and each method is proved equal to its step function. Every operation keeps the invariant `Consistent`: records are filed under their username, ids are distinct, and an authenticated session names an existing user.
- `Server` (`server.dfy`): the `/api/*fn_name` route, which dispatches one request to one server function, and runs of request sequences on a session.
- `Forms` (`forms.dfy`): the validators of `LoginPage` and `RegisterPage`.

Three behaviours of the code matter for the model:

- A stored hash that bcrypt cannot parse does not count as a wrong password. `verify(..)?` returns bcrypt's error from `login`, modelled as the `Malformed` verdict and the `BcryptError` outcome.
- The server does not re-check any length policy. `register` accepts any username and password whose confirmation matches, provided the username is free (`RegisterSucceedsExactly`; `RegisterSkipsLengthPolicy` shows a one-byte example). The 5- and 8-byte minimums exist only in the registration form.
- The failures have the code's messages: "User does not exist", "Password is incorrect", "Passwords do not match" and "User not found".

## Model

| member | source | states |
|---|---|---|
| `Auth.FindUserIsQuery` | src/pages/auth.rs:54-59 | under the invariant, the lookup by username finds a record exactly when some record has that username, and the record found has that username |
| `Auth.InitialIsConsistent` | src/main.rs:55-64 | a first start, with an empty user table and an anonymous session, satisfies the invariant |
| `Auth.CurrentUserResolvesSession` | src/pages/auth.rs:22-31 | under the invariant, `current_user` is present exactly when the session holds an id, and it is the table's record carrying that id |
| `Auth.CurrentUserIsOwnerOfId` | src/pages/auth.rs:27 | ids are distinct, so a session holding a user's id resolves to exactly that user |
| `Auth.LoginUnknownUser` | src/pages/auth.rs:54-59 | an unknown username fails with "User does not exist", and both the table and the session are unchanged |
| `Auth.LoginWrongPassword` | src/pages/auth.rs:61-74 | a known user whose hash does not verify fails with "Password is incorrect", or with bcrypt's error for a malformed hash, and the state is unchanged |
| `Auth.LoginSucceedsExactly` | src/pages/auth.rs:54-74 | login succeeds if and only if the user exists and the password verifies; on success the session holds exactly that user's id and nothing else changes; every failure leaves the state as it was |
| `Auth.LoginIdempotent` | src/pages/auth.rs:61-68 | logging in twice with the same credentials gives the same state and result as logging in once |
| `Auth.LoginMakesUserCurrent` | src/pages/auth.rs:61-68 | after a successful login, the current user is the record of the username that logged in |
| `Auth.LoginKeepsConsistent` | src/pages/auth.rs:47-75 | login keeps the invariant: the session it sets names an existing user |
| `Auth.RegisterMismatch` | src/pages/auth.rs:88-93 | different passwords fail with "Passwords do not match" and change nothing; the result does not depend on the hasher, so no hashing happens first |
| `Auth.RegisterDuplicate` | src/pages/auth.rs:98-102 | a taken username makes the insert fail; that error is returned, no one is logged in and the state is unchanged |
| `Auth.RegisterNeverUserNotFound` | src/pages/auth.rs:105-109 | the lookup after the insert always finds the new record, so "User not found" is never returned |
| `Auth.RegisterSucceedsExactly` | src/pages/auth.rs:88-116 | register succeeds if and only if the passwords match and the username is free; it then adds exactly one record (the next id, the username, the hash of the password) and the session holds the new id; every failure leaves the state as it was |
| `Auth.RegisterKeepsConsistent` | src/pages/auth.rs:95-111 | register keeps the invariant: the new id is fresh, and the session names the new record |
| `Auth.RegisterMakesUserCurrent` | src/pages/auth.rs:104-111 | after registering a free username, the current user is the new record with that username and the password's hash |
| `Auth.RegisterThenLogin` | src/pages/auth.rs:61-68 | if bcrypt's promise holds, credentials just registered log in again after a logout, and the session gets the new user's id back |
| `Auth.RegisterSkipsLengthPolicy` | src/pages/auth.rs:88-116 | the server accepts a one-byte username and password; it checks no length |
| `Auth.LogoutClearsSession` | src/pages/auth.rs:33-45 | logout always succeeds, leaves the session anonymous and the table unchanged whatever the prior state, is idempotent, and leaves no current user |
| `Auth.LogoutKeepsConsistent` | src/pages/auth.rs:39 | logout keeps the invariant |
| `Auth.AuthServer.constructor` | src/main.rs:55-72 | the server starts from whatever consistent state the existing database and the client's stored session hold (persisted users, a possibly authenticated session), and keeps it as its state with the invariant |
| `Auth.AuthServer.GetUser` | src/pages/auth.rs:22-31 | `get_user` returns the current user and modifies nothing |
| `Auth.AuthServer.Logout` | src/pages/auth.rs:33-45 | the in-place `logout` keeps the invariant, and its new state and result are those of `LogoutStep` |
| `Auth.AuthServer.Login` | src/pages/auth.rs:47-75 | the in-place `login`, with its early returns, keeps the invariant, and its new state and result are those of `LoginStep` |
| `Auth.AuthServer.Register` | src/pages/auth.rs:77-117 | the in-place `register` (compare, hash, insert, look up, log in) keeps the invariant, and its new state and result are those of `RegisterStep` |
| `Server.ServeKeepsConsistent` | src/main.rs:23-30 | serving any request, whichever server function it names, keeps the invariant |
| `Server.RunKeepsConsistent` | src/main.rs:80 | every sequence of requests on a session keeps the invariant |
| `Server.SessionNeverDangles` | src/main.rs:80 | from any consistent start, after any requests, the current user is present exactly when the session is authenticated, and it carries the session's id |
| `Server.RunOnlyAddsUsers` | src/pages/auth.rs:98-102 | no request changes or removes a record, and the next id never decreases |
| `Server.LogoutThenGetUser` | src/pages/auth.rs:23-44 | `logout` followed by `get_user` answers `None` |
| `Server.GetUserIsStable` | src/pages/auth.rs:22-31 | `get_user` leaves the state as it was, so asking again gives the same answer |
| `Forms.IsLoginFormValid` | src/pages/auth.rs:129-131 | the login form is valid exactly when both fields are non-empty |
| `Forms.UsernameError` | src/pages/auth.rs:203-217 | there is no username error exactly when the username has at least 5 bytes; an empty username gets the empty message, and 1 to 4 bytes get the length message |
| `Forms.PasswordError` | src/pages/auth.rs:204-230 | there is no password error exactly when the password has at least 8 bytes; an empty password gets the empty message, and 1 to 7 bytes get the length message |
| `Forms.ConfirmPasswordError` | src/pages/auth.rs:232-240 | there is no confirmation error exactly when the confirmation is non-empty and equal to the password; an empty one gets "Password cannot be empty", and a different one gets "Passwords do not match" |
| `Forms.IsRegisterFormValid` | src/pages/auth.rs:242-246 | the registration form is valid exactly when the username is non-empty and at least 5 bytes, the password is non-empty and at least 8 bytes, and the confirmation is non-empty and equals the password |
| `Forms.RegisterFormBoundaries` | src/pages/auth.rs:203-230 | the minimum lengths are exact: 5 and 8 bytes pass, and one byte fewer fails |
| `Forms.RegisterFormImpliesLoginForm` | src/pages/auth.rs:129-131 | credentials the registration form accepts also pass the login form |

## Left out

- bcrypt internals: the cost factor (`DEFAULT_COST`), salt generation, the hash format and constant-time comparison. `hash` and `verify` are abstract functions, and the salt is a parameter of `Register`.
- The panic of `hash(..).unwrap()`: the model's `hash` is total.
- Successive hashes of one password differ because of the salt. The model says only that each salt value is an argument; it states nothing about distinctness.
- The context lookups `pool()` and `auth()` and their "missing" errors. `src/state.rs` shows only `pool`, and `auth` is not part of this model.
- Database failures other than a duplicate username. The SQL schema and its uniqueness constraint are not part of this model: a rejected INSERT is modelled as "the username is already in the table". Ids come from a counter, as SQLite row ids do when no row is deleted. Ids are unbounded integers, not `i64`.
- Session tokens, cookies and session persistence (axum_session). The session is one `Option` id per server object.
- `async`, and concurrent requests racing on one username or one session.
- `leptos_axum::redirect`, logging, the `view!` markup, reactive signals, `LogoutPage`'s dispatch, and the rewriting of notification messages at src/pages/auth.rs:150-151.
- The submit buttons that the `is_form_valid` closures disable: only the predicates are modelled, not the buttons.
