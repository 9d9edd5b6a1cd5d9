/**
  The `/api` route of the server functions: every request names one server function and is
  served against the shared user table and the requesting session. A sequence
  of requests on one session is the state machine of the authentication pages.
 */
module Server {
  import opened Common
  import opened Hashing
  import opened Auth

  /** A call of one of the four server functions, with its arguments. */
  datatype Request =
    | GetUserRequest
    | LoginRequest(username: Bytes, password: Bytes)
    | RegisterRequest(username: Bytes, password: Bytes, confirmPassword: Bytes, salt: Bytes)
    | LogoutRequest

  /** `get_user` answers with a user; the other three with success or an error. */
  datatype Response = UserReply(user: Option<User>) | ActionReply(outcome: Outcome)

  /** The state after a request and the response sent back. */
  datatype Served = Served(next: AuthState, response: Response)

  /** Serves one request: the state afterwards and the response. */
  ghost function Serve(h: Hasher, st: AuthState, req: Request): (r: Served) {
    match req
    case GetUserRequest => Served(st, UserReply(CurrentUser(st)))
    case LoginRequest(u, p) =>
      var t := LoginStep(h, st, u, p); Served(t.next, ActionReply(t.outcome))
    case RegisterRequest(u, p, c, salt) =>
      var t := RegisterStep(h, st, u, p, c, salt); Served(t.next, ActionReply(t.outcome))
    case LogoutRequest =>
      var t := LogoutStep(st); Served(t.next, ActionReply(t.outcome))
  }

  /** The state after serving `reqs` in order. */
  ghost function Run(h: Hasher, st: AuthState, reqs: seq<Request>): (r: AuthState)
    decreases |reqs|
  {
    if reqs == [] then st else Run(h, Serve(h, st, reqs[0]).next, reqs[1..])
  }

  /** Every request keeps the invariant. */
  lemma ServeKeepsConsistent(h: Hasher, st: AuthState, req: Request)
    requires Consistent(st)
    ensures Consistent(Serve(h, st, req).next)
  {
  }

  /** Any sequence of requests keeps the invariant: in particular an
      authenticated session always names an existing user, so the current user
      is present exactly when the session is authenticated. */
  lemma {:induction false} RunKeepsConsistent(h: Hasher, st: AuthState, reqs: seq<Request>)
    requires Consistent(st)
    ensures Consistent(Run(h, st, reqs))
    decreases |reqs|
  {
    if reqs != [] {
      ServeKeepsConsistent(h, st, reqs[0]);
      RunKeepsConsistent(h, Serve(h, st, reqs[0]).next, reqs[1..]);
    }
  }

  /** From a consistent start (the first one, or the database found at a
      restart), whatever requests arrive, the current user is present exactly
      when the session is authenticated and carries its id. */
  lemma {:induction false} SessionNeverDangles(h: Hasher, start: AuthState, reqs: seq<Request>)
    requires Consistent(start)
    ensures var st := Run(h, start, reqs);
            (CurrentUser(st).Some? <==> st.session.Some?) &&
            (CurrentUser(st).Some? ==> CurrentUser(st).value.id == st.session.value)
  {
    RunKeepsConsistent(h, start, reqs);
    CurrentUserResolvesSession(Run(h, start, reqs));
  }

  /** Records are never changed or removed: every record present before a
      run is present, unchanged, after it, and the next id never decreases. */
  lemma {:induction false} RunOnlyAddsUsers(h: Hasher, st: AuthState, reqs: seq<Request>)
    ensures var after := Run(h, st, reqs);
            st.nextId <= after.nextId &&
            forall name :: name in st.users ==> name in after.users && after.users[name] == st.users[name]
    decreases |reqs|
  {
    if reqs != [] {
      match reqs[0] {
        case GetUserRequest =>
        case LoginRequest(u, p) => LoginSucceedsExactly(h, st, u, p);
        case RegisterRequest(u, p, c, salt) => RegisterSucceedsExactly(h, st, u, p, c, salt);
        case LogoutRequest =>
      }
      RunOnlyAddsUsers(h, Serve(h, st, reqs[0]).next, reqs[1..]);
    }
  }

  /** Logout followed by `get_user` answers `None`. */
  lemma LogoutThenGetUser(h: Hasher, st: AuthState)
    ensures Serve(h, Serve(h, st, LogoutRequest).next, GetUserRequest).response == UserReply(None)
  {
  }

  /** Asking `get_user` twice answers the same both times and leaves the
      state as it was. */
  lemma GetUserIsStable(h: Hasher, st: AuthState)
    ensures var first := Serve(h, st, GetUserRequest);
            first.next == st && Serve(h, first.next, GetUserRequest) == first
  {
  }
}
