/**
  The server functions of the authentication pages: `get_user`, `login`,
  `register` and `logout`, acting on the user table (username to user record)
  and on the identity held by the current session.

  Each operation is first given as a pure step function on an `AuthState`
  value; the class `AuthServer` then holds the same state in mutable fields and
  performs each operation step by step, with the source's early returns, and is
  proved to agree with the step function. The properties the code promises
  are lemmas about the step functions.
 */
module Auth {
  import opened Common
  import opened Hashing

  /** A row of the `user` table. `password` holds the bcrypt hash. */
  datatype User = User(id: int, username: Bytes, password: Bytes)

  /** The errors the server functions return. */
  datatype AuthError =
    | ServerError(message: string)  // raised by the server functions with a fixed text
    | BcryptError                   // `verify` failed and `?` passed the error on
    | InsertRejected                // the INSERT failed: the username is taken

  const USER_DOES_NOT_EXIST: string := "User does not exist"
  const PASSWORD_INCORRECT: string := "Password is incorrect"
  const PASSWORDS_DO_NOT_MATCH: string := "Passwords do not match"
  const USER_NOT_FOUND: string := "User not found"

  /** `Result<(), ServerFnError>`. */
  datatype Outcome = Ok | Err(error: AuthError)

  /** The user table, the session's user id and the id the database assigns next. */
  datatype AuthState = AuthState(users: map<Bytes, User>, session: Option<int>, nextId: int)

  /** The state after an operation and what the operation returned. */
  datatype Transition = Transition(next: AuthState, outcome: Outcome)

  /** An empty user table and an anonymous session: the first start. */
  const Initial: AuthState := AuthState(map[], None, 1)

  /** The first start satisfies the invariant. */
  lemma InitialIsConsistent()
    ensures Consistent(Initial)
  {
  }

  ghost predicate HasUserWithId(users: map<Bytes, User>, id: int) {
    exists name :: name in users && users[name].id == id
  }

  /** The invariant every operation keeps: each record is filed under its own
      username, ids are positive, below the next id and distinct, and an
      authenticated session names an existing user. */
  ghost predicate Consistent(st: AuthState) {
    && 0 < st.nextId
    && (forall name :: name in st.users ==>
          st.users[name].username == name && 0 < st.users[name].id < st.nextId)
    && (forall a, b :: a in st.users && b in st.users && a != b ==>
          st.users[a].id != st.users[b].id)
    && (st.session.Some? ==> HasUserWithId(st.users, st.session.value))
  }

  /** `User::get_user_from_username`: the record filed under `username`, if any. */
  function FindUser(users: map<Bytes, User>, username: Bytes): (r: Option<User>)
    ensures r.Some? <==> username in users
    ensures r.Some? ==> r.value == users[username]
  {
    if username in users then Some(users[username]) else None
  }

  /** `auth.current_user`: the session's user id resolved against the table;
      an anonymous session, or one naming no existing user, gives `None`. */
  ghost function CurrentUser(st: AuthState): (r: Option<User>) {
    match st.session
    case None => None
    case Some(id) =>
      if HasUserWithId(st.users, id) then
        var name :| name in st.users && st.users[name].id == id;
        Some(st.users[name])
      else
        None
  }

  /** `login`: look the user up, check the password, then log the user in. */
  function LoginStep(h: Hasher, st: AuthState, username: Bytes, password: Bytes): (r: Transition) {
    match FindUser(st.users, username)
    case None => Transition(st, Err(ServerError(USER_DOES_NOT_EXIST)))
    case Some(user) =>
      match h.verify(password, user.password)
      case Malformed => Transition(st, Err(BcryptError))
      case Mismatch => Transition(st, Err(ServerError(PASSWORD_INCORRECT)))
      case Match => Transition(st.(session := Some(user.id)), Ok)
  }

  /** `register`: compare the two passwords, hash, insert, look the new user up
      again and log it in. */
  function RegisterStep(h: Hasher, st: AuthState, username: Bytes, password: Bytes,
                        confirmPassword: Bytes, salt: Bytes): (r: Transition) {
    if password != confirmPassword then
      Transition(st, Err(ServerError(PASSWORDS_DO_NOT_MATCH)))
    else
      var hashed := h.hash(password, salt);
      if username in st.users then
        Transition(st, Err(InsertRejected))
      else
        var inserted := st.(users := st.users[username := User(st.nextId, username, hashed)],
                            nextId := st.nextId + 1);
        match FindUser(inserted.users, username)
        case None => Transition(inserted, Err(ServerError(USER_NOT_FOUND)))
        case Some(user) => Transition(inserted.(session := Some(user.id)), Ok)
  }

  /** `logout`: forget the session's identity. */
  function LogoutStep(st: AuthState): (r: Transition) {
    Transition(st.(session := None), Ok)
  }

  /** Under the invariant the lookup is the query on the `username` column:
      it finds a record exactly when some record has that username, and the
      record it finds has it. */
  lemma FindUserIsQuery(st: AuthState, username: Bytes)
    requires Consistent(st)
    ensures FindUser(st.users, username).Some? <==>
              exists name :: name in st.users && st.users[name].username == username
    ensures FindUser(st.users, username).Some? ==> FindUser(st.users, username).value.username == username
  {
  }

  // ---------------------------------------------------------------------------
  // get_user

  /** Under the invariant, the current user exists exactly when the session is
      authenticated, and it is the record carrying the session's id. */
  lemma CurrentUserResolvesSession(st: AuthState)
    requires Consistent(st)
    ensures CurrentUser(st).Some? <==> st.session.Some?
    ensures CurrentUser(st).Some? ==>
              var user := CurrentUser(st).value;
              user.id == st.session.value && user.username in st.users &&
              st.users[user.username] == user
  {
  }

  /** Ids are distinct, so a session holding a user's id resolves to that user. */
  lemma CurrentUserIsOwnerOfId(st: AuthState, name: Bytes)
    requires Consistent(st)
    requires name in st.users && st.session == Some(st.users[name].id)
    ensures CurrentUser(st) == Some(st.users[name])
  {
  }

  // ---------------------------------------------------------------------------
  // login

  /** An unknown username fails with "User does not exist" and changes nothing. */
  lemma LoginUnknownUser(h: Hasher, st: AuthState, username: Bytes, password: Bytes)
    requires username !in st.users
    ensures LoginStep(h, st, username, password) == Transition(st, Err(ServerError(USER_DOES_NOT_EXIST)))
  {
  }

  /** A known user whose stored hash does not verify: "Password is incorrect"
      (or bcrypt's own error for a malformed hash), and nothing changes. */
  lemma LoginWrongPassword(h: Hasher, st: AuthState, username: Bytes, password: Bytes)
    requires username in st.users
    requires h.verify(password, st.users[username].password) != Match
    ensures var t := LoginStep(h, st, username, password);
            t.next == st &&
            t.outcome == if h.verify(password, st.users[username].password) == Mismatch
                         then Err(ServerError(PASSWORD_INCORRECT)) else Err(BcryptError)
  {
  }

  /** Login succeeds exactly for a known user whose hash verifies; then the
      session holds exactly that user's id and nothing else changes. Any
      failure leaves the whole state as it was. */
  lemma LoginSucceedsExactly(h: Hasher, st: AuthState, username: Bytes, password: Bytes)
    ensures var t := LoginStep(h, st, username, password);
            (t.outcome == Ok <==>
               username in st.users && h.verify(password, st.users[username].password) == Match) &&
            (t.outcome == Ok ==> t.next == st.(session := Some(st.users[username].id))) &&
            (t.outcome.Err? ==> t.next == st)
  {
  }

  /** Logging in twice is the same as logging in once. */
  lemma LoginIdempotent(h: Hasher, st: AuthState, username: Bytes, password: Bytes)
    ensures var once := LoginStep(h, st, username, password);
            LoginStep(h, once.next, username, password) == once
  {
  }

  /** After a successful login the current user is the one who logged in. */
  lemma LoginMakesUserCurrent(h: Hasher, st: AuthState, username: Bytes, password: Bytes)
    requires Consistent(st)
    requires LoginStep(h, st, username, password).outcome == Ok
    ensures CurrentUser(LoginStep(h, st, username, password).next) == Some(st.users[username])
  {
  }

  lemma LoginKeepsConsistent(h: Hasher, st: AuthState, username: Bytes, password: Bytes)
    requires Consistent(st)
    ensures Consistent(LoginStep(h, st, username, password).next)
  {
  }

  // ---------------------------------------------------------------------------
  // register

  /** Different passwords fail with "Passwords do not match" before anything
      else happens: the state is unchanged and the hasher plays no part. */
  lemma RegisterMismatch(h1: Hasher, h2: Hasher, st: AuthState, username: Bytes, password: Bytes,
                         confirmPassword: Bytes, salt: Bytes)
    requires password != confirmPassword
    ensures RegisterStep(h1, st, username, password, confirmPassword, salt)
         == RegisterStep(h2, st, username, password, confirmPassword, salt)
         == Transition(st, Err(ServerError(PASSWORDS_DO_NOT_MATCH)))
  {
  }

  /** A taken username makes the INSERT fail: that error is returned, no user
      is logged in and nothing changes. */
  lemma RegisterDuplicate(h: Hasher, st: AuthState, username: Bytes, password: Bytes, salt: Bytes)
    requires username in st.users
    ensures RegisterStep(h, st, username, password, password, salt) == Transition(st, Err(InsertRejected))
  {
  }

  /** The lookup right after the insert always finds the new record, so
      "User not found" is never returned. */
  lemma RegisterNeverUserNotFound(h: Hasher, st: AuthState, username: Bytes, password: Bytes,
                                  confirmPassword: Bytes, salt: Bytes)
    ensures RegisterStep(h, st, username, password, confirmPassword, salt).outcome
         != Err(ServerError(USER_NOT_FOUND))
  {
  }

  /** Registration succeeds exactly when the passwords match and the username
      is free; it then adds exactly one record, with the next id, the username
      and the hash of the password, and logs that id in. Any failure leaves the
      whole state as it was. */
  lemma RegisterSucceedsExactly(h: Hasher, st: AuthState, username: Bytes, password: Bytes,
                                confirmPassword: Bytes, salt: Bytes)
    ensures var t := RegisterStep(h, st, username, password, confirmPassword, salt);
            (t.outcome == Ok <==> password == confirmPassword && username !in st.users) &&
            (t.outcome == Ok ==>
               && t.next.users == st.users[username := User(st.nextId, username, h.hash(password, salt))]
               && t.next.users.Keys == st.users.Keys + {username}
               && |t.next.users| == |st.users| + 1
               && t.next.session == Some(st.nextId)
               && t.next.nextId == st.nextId + 1) &&
            (t.outcome.Err? ==> t.next == st)
  {
  }

  lemma RegisterKeepsConsistent(h: Hasher, st: AuthState, username: Bytes, password: Bytes,
                                confirmPassword: Bytes, salt: Bytes)
    requires Consistent(st)
    ensures Consistent(RegisterStep(h, st, username, password, confirmPassword, salt).next)
  {
  }

  /** After registering, the current user is the new user. */
  lemma RegisterMakesUserCurrent(h: Hasher, st: AuthState, username: Bytes, password: Bytes, salt: Bytes)
    requires Consistent(st)
    requires username !in st.users
    ensures var t := RegisterStep(h, st, username, password, password, salt);
            t.outcome == Ok &&
            CurrentUser(t.next) == Some(User(st.nextId, username, h.hash(password, salt)))
  {
  }

  /** With bcrypt's promise, credentials just registered log in again after a
      logout, and the session gets the new user's id. */
  lemma RegisterThenLogin(h: Hasher, st: AuthState, username: Bytes, password: Bytes, salt: Bytes)
    requires Sound(h)
    requires username !in st.users
    ensures var registered := RegisterStep(h, st, username, password, password, salt).next;
            var t := LoginStep(h, LogoutStep(registered).next, username, password);
            t.outcome == Ok && t.next == registered
  {
  }

  /** The server itself checks no length: a one-byte username and password,
      which the registration form refuses, are accepted by `register`. */
  lemma RegisterSkipsLengthPolicy(h: Hasher, st: AuthState)
    requires [1] !in st.users
    ensures RegisterStep(h, st, [1], [2], [2], []).outcome == Ok
  {
  }

  // ---------------------------------------------------------------------------
  // logout

  /** Logout always succeeds, leaves the session anonymous and the table as it
      was, whatever the prior state, and so is idempotent. */
  lemma LogoutClearsSession(st: AuthState)
    ensures var t := LogoutStep(st);
            t.outcome == Ok && t.next.session == None && t.next.users == st.users &&
            t.next.nextId == st.nextId &&
            LogoutStep(t.next) == t &&
            CurrentUser(t.next) == None
  {
  }

  lemma LogoutKeepsConsistent(st: AuthState)
    requires Consistent(st)
    ensures Consistent(LogoutStep(st).next)
  {
  }

  // ---------------------------------------------------------------------------
  // The server object

  /** The user table and the session, updated in place by the server functions. */
  class AuthServer {
    const hasher: Hasher
    var users: map<Bytes, User>
    var session: Option<int>
    var nextId: int

    function State(): AuthState
      reads this
    {
      AuthState(users, session, nextId)
    }

    ghost predicate Valid()
      reads this
    {
      Consistent(State())
    }

    /** A server over the state found at start-up: the users already in the
        database and the identity the client's stored session carries
        (`Initial` on a first start). */
    constructor (hasher: Hasher, init: AuthState)
      requires Consistent(init)
      ensures Valid() && State() == init && this.hasher == hasher
    {
      this.hasher := hasher;
      users := init.users;
      session := init.session;
      nextId := init.nextId;
    }

    /** `get_user`: the current user; reads the state and changes nothing. */
    method GetUser() returns (user: Option<User>)
      requires Valid()
      ensures user == CurrentUser(State())
    {
      match session
      case None =>
        user := None;
      case Some(id) =>
        var name :| name in users && users[name].id == id;
        CurrentUserIsOwnerOfId(State(), name);
        user := Some(users[name]);
    }

    /** `logout`. */
    method Logout() returns (r: Outcome)
      requires Valid()
      modifies this
      ensures Valid()
      ensures Transition(State(), r) == LogoutStep(old(State()))
    {
      session := None;
      r := Ok;
    }

    /** `login`. */
    method Login(username: Bytes, password: Bytes) returns (r: Outcome)
      requires Valid()
      modifies this
      ensures Valid()
      ensures Transition(State(), r) == LoginStep(hasher, old(State()), username, password)
    {
      LoginKeepsConsistent(hasher, State(), username, password);
      var found := FindUser(users, username);
      if found.None? {
        return Err(ServerError(USER_DOES_NOT_EXIST));
      }
      var user := found.value;
      var verdict := hasher.verify(password, user.password);
      if verdict == Malformed {
        return Err(BcryptError);
      }
      if verdict == Match {
        session := Some(user.id);
        return Ok;
      } else {
        return Err(ServerError(PASSWORD_INCORRECT));
      }
    }

    /** `register`; `salt` is the randomness bcrypt draws for the hash. */
    method Register(username: Bytes, password: Bytes, confirmPassword: Bytes, salt: Bytes)
      returns (r: Outcome)
      requires Valid()
      modifies this
      ensures Valid()
      ensures Transition(State(), r)
           == RegisterStep(hasher, old(State()), username, password, confirmPassword, salt)
    {
      RegisterKeepsConsistent(hasher, State(), username, password, confirmPassword, salt);
      if password != confirmPassword {
        return Err(ServerError(PASSWORDS_DO_NOT_MATCH));
      }
      var hashed := hasher.hash(password, salt);
      if username in users {
        return Err(InsertRejected);
      }
      users := users[username := User(nextId, username, hashed)];
      nextId := nextId + 1;
      var found := FindUser(users, username);
      if found.None? {
        return Err(ServerError(USER_NOT_FOUND));
      }
      session := Some(found.value.id);
      return Ok;
    }
  }
}
