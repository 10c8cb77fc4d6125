/** The application as a state machine over every request the console can make, plus the two
    events that come from outside a request: the test hook `ClearAttempts` and the background
    expiry of the OTP. Properties here hold for every state reachable from a fresh start. */
module Session {
  import opened Outcomes
  import opened AppState
  import opened Validation
  import opened PasswordHasher
  import A = AuthProvider
  import E = Entities
  import AM = AccountManager
  import Controller = AccountManagerController
  import Users = UserHandlers
  import Accounts = AccountHandlers
  import DomainErrors

  /** One event, with the environment's choices for it (console lines, random draws, save
      results, the token's state). */
  datatype Request =
    | RegisterReq(cmd: AM.RegisterCommand, robotLine: Option<string>, termsLine: Option<string>,
                  cancelled: bool, salt: Salt, userSaved: bool, accountSaved: bool)
    | LoginReq(query: AM.LoginQuery, draw: A.OtpDraw, otpLine: Option<string>)
    | LogoutReq(logout: AM.LogoutQuery)
    | UpdateUserReq(update: Users.UpdateUserCommand, saved: bool)
    | GetUserReq(userId: int)
    | GetAllUsersReq
    | InsertUserReq(insert: Users.InsertUserCommand, saved: bool)
    | DeleteUserReq(userId: int, saved: bool)
    | GetAccountReq(accountId: int)
    | DeleteAccountReq(accountId: int, saved: bool)
    | ClearAttemptsReq
    | OtpExpiredReq

  /** The state after one event. The user and account controllers send their requests without
      a token and their handlers never throw, so the cancellation behaviour leaves them as
      they are and the handlers are applied directly. */
  function Next(st: State, req: Request, pattern: EmailPattern, kdf: Pbkdf2): State {
    match req
    case RegisterReq(cmd, robotLine, termsLine, cancelled, salt, userSaved, accountSaved) =>
      Controller.Register(st, cmd, robotLine, termsLine, cancelled, pattern, kdf, salt, userSaved, accountSaved).state
    case LoginReq(query, draw, otpLine) => Controller.Login(st, query, pattern, kdf, draw, otpLine).state
    case LogoutReq(logout) => Controller.Logout(st, logout, pattern).state
    case UpdateUserReq(update, saved) => Users.UpdateUser(st, update, saved).state
    case GetUserReq(userId) => Users.GetUser(st, userId).state
    case GetAllUsersReq => Users.GetAllUsers(st).state
    case InsertUserReq(insert, saved) => Users.InsertUser(st, insert, saved).state
    case DeleteUserReq(userId, saved) => Users.DeleteUser(st, userId, saved).state
    case GetAccountReq(accountId) => Accounts.GetAccount(st, accountId).state
    case DeleteAccountReq(accountId, saved) => Accounts.DeleteAccount(st, accountId, saved).state
    case ClearAttemptsReq => st.(auth := A.ClearAttempts(st.auth))
    case OtpExpiredReq => st.(auth := A.ExpireOtp(st.auth))
  }

  /** The state after a sequence of events, first to last. */
  function Run(st: State, trace: seq<Request>, pattern: EmailPattern, kdf: Pbkdf2): State
    decreases |trace|
  {
    if |trace| == 0 then st else Run(Next(st, trace[0], pattern, kdf), trace[1..], pattern, kdf)
  }

  /** What holds in every reachable state: the database is well formed, and a principal, when
      there is one, is named after a non-empty email and holds exactly the `User` role. */
  ghost predicate Invariant(st: State) {
    && E.Valid(st.repo)
    && (st.auth.principal.Some? ==>
          st.auth.principal.value.roles == {A.User} && A.IsAuthenticated(st.auth.principal.value))
  }

  lemma InitialInvariant()
    ensures Invariant(Initial)
  {
    E.EmptyRepositoryValid();
  }

  lemma LoginPreservesInvariant(st: State, query: AM.LoginQuery, draw: A.OtpDraw, otpLine: Option<string>,
                                pattern: EmailPattern, kdf: Pbkdf2)
    requires Invariant(st)
    ensures Invariant(Controller.Login(st, query, pattern, kdf, draw, otpLine).state)
  {
    if AM.Succeeded(AM.Login(st, query, pattern, kdf, draw)) {
      assert EmailValid(query.email, pattern);
    }
  }

  lemma UpdateUserPreservesInvariant(st: State, update: Users.UpdateUserCommand, saved: bool)
    requires Invariant(st)
    ensures Invariant(Users.UpdateUser(st, update, saved).state)
  {
    var next := Users.UpdateUser(st, update, saved).state;
    if Users.UpdateUser(st, update, saved).response.Value? {
      assert forall k :: k in next.repo.users ==> next.repo.users[k].userId == k;
    }
  }

  lemma DeleteAccountPreservesInvariant(st: State, accountId: int, saved: bool)
    requires Invariant(st)
    ensures Invariant(Accounts.DeleteAccount(st, accountId, saved).state)
  {
    E.RemoveAccountRemoves(st.repo, accountId, accountId);
  }

  lemma RegisterPreservesInvariant(st: State, req: Request, pattern: EmailPattern, kdf: Pbkdf2)
    requires Invariant(st) && req.RegisterReq?
    ensures Invariant(Next(st, req, pattern, kdf))
  {
  }

  lemma LogoutPreservesInvariant(st: State, query: AM.LogoutQuery, pattern: EmailPattern)
    requires Invariant(st)
    ensures Invariant(Controller.Logout(st, query, pattern).state)
  {
  }

  lemma InsertUserPreservesInvariant(st: State, insert: Users.InsertUserCommand, saved: bool)
    requires Invariant(st)
    ensures Invariant(Users.InsertUser(st, insert, saved).state)
  {
  }

  lemma DeleteUserPreservesInvariant(st: State, userId: int, saved: bool)
    requires Invariant(st)
    ensures Invariant(Users.DeleteUser(st, userId, saved).state)
  {
  }

  lemma OtherEventsPreserveInvariant(st: State, req: Request, pattern: EmailPattern, kdf: Pbkdf2)
    requires Invariant(st)
    requires req.GetUserReq? || req.GetAllUsersReq? || req.GetAccountReq? || req.ClearAttemptsReq? || req.OtpExpiredReq?
    ensures Invariant(Next(st, req, pattern, kdf))
  {
  }

  /** The handler lemmas above, stated for `Next`, a few events at a time. */
  lemma SessionEventsPreserveInvariant(st: State, req: Request, pattern: EmailPattern, kdf: Pbkdf2)
    requires Invariant(st)
    requires req.LoginReq? || req.LogoutReq? || req.UpdateUserReq?
    ensures Invariant(Next(st, req, pattern, kdf))
  {
    match req
    case LoginReq(query, draw, otpLine) => LoginPreservesInvariant(st, query, draw, otpLine, pattern, kdf);
    case LogoutReq(query) => LogoutPreservesInvariant(st, query, pattern);
    case UpdateUserReq(update, saved) => UpdateUserPreservesInvariant(st, update, saved);
  }

  lemma RecordEventsPreserveInvariant(st: State, req: Request, pattern: EmailPattern, kdf: Pbkdf2)
    requires Invariant(st)
    requires req.InsertUserReq? || req.DeleteUserReq?
    ensures Invariant(Next(st, req, pattern, kdf))
  {
    match req
    case InsertUserReq(insert, saved) => InsertUserPreservesInvariant(st, insert, saved);
    case DeleteUserReq(userId, saved) => DeleteUserPreservesInvariant(st, userId, saved);
  }

  /** Every event keeps the invariant. */
  lemma NextPreservesInvariant(st: State, req: Request, pattern: EmailPattern, kdf: Pbkdf2)
    requires Invariant(st)
    ensures Invariant(Next(st, req, pattern, kdf))
  {
    if req.RegisterReq? {
      RegisterPreservesInvariant(st, req, pattern, kdf);
    } else if req.LoginReq? || req.LogoutReq? || req.UpdateUserReq? {
      SessionEventsPreserveInvariant(st, req, pattern, kdf);
    } else if req.InsertUserReq? || req.DeleteUserReq? {
      RecordEventsPreserveInvariant(st, req, pattern, kdf);
    } else if req.DeleteAccountReq? {
      DeleteAccountPreservesInvariant(st, req.accountId, req.saved);
    } else {
      OtherEventsPreserveInvariant(st, req, pattern, kdf);
    }
  }

  /** Every reachable state satisfies the invariant. */
  lemma {:induction false} RunPreservesInvariant(st: State, trace: seq<Request>, pattern: EmailPattern, kdf: Pbkdf2)
    requires Invariant(st)
    ensures Invariant(Run(st, trace, pattern, kdf))
    decreases |trace|
  {
    if |trace| > 0 {
      NextPreservesInvariant(st, trace[0], pattern, kdf);
      RunPreservesInvariant(Next(st, trace[0], pattern, kdf), trace[1..], pattern, kdf);
    }
  }

  /** Nothing ever grants `Admin`, so from every reachable state the Admin-only handlers answer
      `Authorization.Unauthorized` and change nothing. */
  lemma AdminHandlersUnreachable(trace: seq<Request>, pattern: EmailPattern, kdf: Pbkdf2, accountId: int, saved: bool)
    ensures var st := Run(Initial, trace, pattern, kdf);
      && !A.IsInRole(st.auth, A.Admin)
      && Users.GetAllUsers(st).response == DomainErrors.Err(DomainErrors.AuthorizationUnauthorized)
      && Accounts.DeleteAccount(st, accountId, saved) == Step(DomainErrors.Err(DomainErrors.AuthorizationUnauthorized), st)
  {
    InitialInvariant();
    RunPreservesInvariant(Initial, trace, pattern, kdf);
  }

  /** In a reachable state a logout that succeeds always ends the session. */
  lemma LogoutEndsSession(trace: seq<Request>, q: AM.LogoutQuery, pattern: EmailPattern, kdf: Pbkdf2)
    requires AM.Logout(Run(Initial, trace, pattern, kdf), q, pattern).response.Value?
    ensures AM.Logout(Run(Initial, trace, pattern, kdf), q, pattern).state.auth.principal.None?
  {
    InitialInvariant();
    RunPreservesInvariant(Initial, trace, pattern, kdf);
  }

  /** One event other than `ClearAttempts` never lowers a counter of 2 or more and never
      installs a principal. */
  lemma NextKeepsLockout(st: State, req: Request, pattern: EmailPattern, kdf: Pbkdf2)
    requires st.auth.attempts + 1 >= A.MaxAttempts
    requires !req.ClearAttemptsReq?
    ensures Next(st, req, pattern, kdf).auth.attempts >= st.auth.attempts
    ensures Next(st, req, pattern, kdf).auth.principal.None? || Next(st, req, pattern, kdf).auth.principal == st.auth.principal
  {
    if req.LoginReq? {
      assert Controller.Login(st, req.query, pattern, kdf, req.draw, req.otpLine).state
          == AM.Login(st, req.query, pattern, kdf, req.draw).state;
    }
  }

  /** Lockout lasts until `ClearAttempts`: once the counter is at 2 or more, no sequence of
      events without `ClearAttempts` lowers it or signs anyone in; the principal can only stay
      or be removed. */
  lemma {:induction false} LockoutPersists(st: State, trace: seq<Request>, pattern: EmailPattern, kdf: Pbkdf2)
    requires st.auth.attempts + 1 >= A.MaxAttempts
    requires forall req :: req in trace ==> !req.ClearAttemptsReq?
    ensures Run(st, trace, pattern, kdf).auth.attempts >= st.auth.attempts
    ensures Run(st, trace, pattern, kdf).auth.principal.None? || Run(st, trace, pattern, kdf).auth.principal == st.auth.principal
    decreases |trace|
  {
    if |trace| > 0 {
      assert trace[0] in trace;
      NextKeepsLockout(st, trace[0], pattern, kdf);
      LockoutPersists(Next(st, trace[0], pattern, kdf), trace[1..], pattern, kdf);
    }
  }
}
