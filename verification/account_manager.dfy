/** The account-manager handlers: `RegisterCommandHandler`, `LoginQueryHandler` and
    `LogoutQueryHandler`. Environment choices (the random salt and OTP draw, whether each
    database save succeeds) are parameters. */
module AccountManager {
  import opened Outcomes
  import opened DomainErrors
  import opened AppState
  import opened Validation
  import opened PasswordHasher
  import A = AuthProvider
  import E = Entities
  import Text

  datatype RegisterCommand = RegisterCommand(user: E.User, email: string, password: string)
  datatype LoginQuery = LoginQuery(email: string, password: string)
  datatype LogoutQuery = LogoutQuery(email: string)

  /** `RegisterCommandHandler.Handle`. Guards in order: input validation and an already used
      email answer `AccountManager.Validation`; a failed user save answers
      `AccountManager.GeneralFailure` with nothing stored; a failed account save answers the
      same but keeps the user saved just before. On success the new account carries the
      command's email, the salted hash of the password (never the plaintext) and the new user's
      id. The auth state is never touched. */
  function Register(st: State, cmd: RegisterCommand, pattern: EmailPattern, kdf: Pbkdf2, salt: Salt,
                    userSaved: bool, accountSaved: bool): (r: Step<ErrorOr<E.Account>>)
    ensures r.state.auth == st.auth
    ensures !CredentialsValid(cmd.email, cmd.password, pattern)
            ==> r == Step(Err(AccountManagerValidation), st)
    ensures E.FindAccountByEmail(st.repo, cmd.email).Some?
            ==> r == Step(Err(AccountManagerValidation), st)
    ensures r.response.Err? && r.response.error != AccountManagerValidation ==> r.response.error == AccountManagerFailure
    ensures CredentialsValid(cmd.email, cmd.password, pattern) && E.FindAccountByEmail(st.repo, cmd.email).None? && !userSaved
            ==> r == Step(Err(AccountManagerFailure), st)
    ensures CredentialsValid(cmd.email, cmd.password, pattern) && E.FindAccountByEmail(st.repo, cmd.email).None?
            && userSaved && !accountSaved
            ==> && r.response == Err(AccountManagerFailure) && r.state.auth == st.auth
                && r.state.repo == E.AddUser(st.repo, cmd.user.firstName, cmd.user.lastName, cmd.user.birthday).0
    ensures r.response.Err? && (r.response.error == AccountManagerValidation || !userSaved) ==> r.state == st
    ensures r.state.repo.accounts == st.repo.accounts || r.response.Value?
    ensures r.response.Value? <==>
      CredentialsValid(cmd.email, cmd.password, pattern) && E.FindAccountByEmail(st.repo, cmd.email).None?
      && userSaved && accountSaved
    ensures r.response.Value? ==>
      var a := r.response.value;
      && a.email == cmd.email
      && a.password == Hash(cmd.password, salt, kdf)
      && r.state.repo.accounts == st.repo.accounts + [a]
      && E.LinkedUser(r.state.repo, a).Some?
      && (E.Valid(st.repo) ==> a.userId !in st.repo.users && r.state.repo.users.Keys == st.repo.users.Keys + {a.userId})
      && (E.Valid(st.repo) ==> forall k :: k in st.repo.users ==> k in r.state.repo.users && r.state.repo.users[k] == st.repo.users[k])
      && (E.Valid(st.repo) ==>
            E.LinkedUser(r.state.repo, a) == Some(E.User(a.userId, cmd.user.firstName, cmd.user.lastName, cmd.user.birthday)))
  {
    if !CredentialsValid(cmd.email, cmd.password, pattern) then Step(Err(AccountManagerValidation), st)
    else if E.FindAccountByEmail(st.repo, cmd.email).Some? then Step(Err(AccountManagerValidation), st)
    else if !userSaved then Step(Err(AccountManagerFailure), st)
    else
      var (repo1, userId) := E.AddUser(st.repo, cmd.user.firstName, cmd.user.lastName, cmd.user.birthday);
      if !accountSaved then Step(Err(AccountManagerFailure), st.(repo := repo1))
      else
        var (repo2, account) := E.AddAccount(repo1, userId, cmd.email, Hash(cmd.password, salt, kdf));
        Step(Value(account), st.(repo := repo2))
  }

  /** `LoginQueryHandler.Handle`. The counter is incremented first, on every path. Invalid
      input, an unknown email and a wrong password answer `Authentication.InvalidCredentials`;
      a stored password `Verify` cannot parse makes the call throw; an account without a user
      and a refused principal answer `Authentication.GeneralFailure`. Success installs the
      principal, issues an OTP and returns the account. */
  function Login(st: State, q: LoginQuery, pattern: EmailPattern, kdf: Pbkdf2, draw: A.OtpDraw)
    : (r: Step<Completion<ErrorOr<E.Account>>>)
    ensures r.state.repo == st.repo
    ensures Succeeded(r) || r.state.auth == A.IncrementAttempt(st.auth)
    ensures !CredentialsValid(q.email, q.password, pattern) || E.FindAccountByEmail(st.repo, q.email).None?
            ==> r.response == Returned(Err(AuthenticationInvalidCredentials))
    ensures CredentialsValid(q.email, q.password, pattern) && E.FindAccountByEmail(st.repo, q.email).Some? ==>
      var a := E.FindAccountByEmail(st.repo, q.email).value;
      var st1 := st.(auth := A.IncrementAttempt(st.auth));
      var v := Verify(q.password, a.password, kdf);
      var signs := E.LinkedUser(st.repo, a).Some? && st.auth.attempts + 1 < A.MaxAttempts;
      && (v == Returned(false) ==> r == Step(Returned(Err(AuthenticationInvalidCredentials)), st1))
      && (v.Threw? ==> r == Step(Threw(v.exception), st1))
      && (v == Returned(true) && !signs ==> r == Step(Returned(Err(AuthenticationFailure)), st1))
      && (v == Returned(true) && signs ==> Succeeded(r))
    ensures r.response.Threw? ==> r.response.exception == ArgumentOutOfRange || r.response.exception == Format
    ensures r.response.Returned? && r.response.value.Err? ==>
            r.response.value.error in {AuthenticationInvalidCredentials, AuthenticationFailure}
    ensures st.auth.attempts + 1 >= A.MaxAttempts ==> !Succeeded(r)
    ensures Succeeded(r) ==>
      var a := r.response.value.value;
      && CredentialsValid(q.email, q.password, pattern)
      && E.FindAccountByEmail(st.repo, q.email) == Some(a)
      && Verify(q.password, a.password, kdf) == Returned(true)
      && E.LinkedUser(st.repo, a).Some?
      && r.state.auth.attempts == 0
      && r.state.auth.principal.Some?
      && r.state.auth.principal.value.identity == q.email
      && r.state.auth.principal.value.roles == {A.User}
      && r.state.auth.otp == Some(Text.ToStringD6(draw))
  {
    var s1 := A.IncrementAttempt(st.auth);
    var st1 := st.(auth := s1);
    if !CredentialsValid(q.email, q.password, pattern) then Step(Returned(Err(AuthenticationInvalidCredentials)), st1)
    else match E.FindAccountByEmail(st.repo, q.email)
      case None => Step(Returned(Err(AuthenticationInvalidCredentials)), st1)
      case Some(account) =>
        match Verify(q.password, account.password, kdf)
        case Threw(e) => Step(Threw(e), st1)
        case Returned(matches) =>
          if !matches then Step(Returned(Err(AuthenticationInvalidCredentials)), st1)
          else SignIn(st1, account, draw)
  }

  /** The end of `LoginQueryHandler.Handle`, once the password has matched: an account without
      a user, or a refused principal, answers `Authentication.GeneralFailure` with nothing
      changed; otherwise the principal is installed, an OTP issued and the account returned. */
  function SignIn(st: State, account: E.Account, draw: A.OtpDraw): (r: Step<Completion<ErrorOr<E.Account>>>)
    ensures r.state.repo == st.repo
    ensures r.response.Returned?
    ensures Succeeded(r) || r == Step(Returned(Err(AuthenticationFailure)), st)
    ensures Succeeded(r) <==> st.auth.attempts < A.MaxAttempts && E.LinkedUser(st.repo, account).Some?
    ensures Succeeded(r) ==>
      var user := E.LinkedUser(st.repo, account).value;
      && r.response.value.value == account
      && r.state.auth.attempts == 0
      && r.state.auth.principal == Some(A.Principal(account.email, A.Claims(user.firstName, user.lastName, user.birthday), {A.User}))
      && r.state.auth.otp == Some(Text.ToStringD6(draw)) && |r.state.auth.otp.value| == 6
  {
    var user := E.LinkedUser(st.repo, account);
    if user.None? then Step(Returned(Err(AuthenticationFailure)), st)
    else
      var (ok, s2) := A.GeneratePrincipal(st.auth, account, user);
      if !ok then Step(Returned(Err(AuthenticationFailure)), st)
      else
        var (code, s3) := A.GenerateOtp(s2, draw);
        Step(Returned(Value(account)), st.(auth := s3))
  }

  /** A call that returned an account. */
  predicate Succeeded<T>(r: Step<Completion<ErrorOr<T>>>) {
    r.response.Returned? && r.response.value.Value?
  }

  /** `LogoutQueryHandler.Handle`. An invalid email answers
      `Authentication.InvalidCredentials` before the principal is looked at; no principal, or
      one without the `User` role, answers `Authorization.Unauthorized`; an unknown email
      answers `Authorization.GeneralFailure`. Otherwise the principal is cleared and the answer
      is `true`, whether or not `ClearPrincipal` succeeded. The email is never compared with
      the principal's identity, and the counter, the OTP and the database are never touched. */
  function Logout(st: State, q: LogoutQuery, pattern: EmailPattern): (r: Step<ErrorOr<bool>>)
    ensures r.state.repo == st.repo
    ensures r.state.auth.attempts == st.auth.attempts && r.state.auth.otp == st.auth.otp
    ensures !EmailValid(q.email, pattern) ==> r == Step(Err(AuthenticationInvalidCredentials), st)
    ensures EmailValid(q.email, pattern) && !A.IsInRole(st.auth, A.User)
            ==> r == Step(Err(AuthorizationUnauthorized), st)
    ensures EmailValid(q.email, pattern) && A.IsInRole(st.auth, A.User) && E.FindAccountByEmail(st.repo, q.email).None?
            ==> r == Step(Err(AuthorizationFailure), st)
    ensures r.response.Err? ==> r.state == st
    ensures r.response.Value? <==>
      EmailValid(q.email, pattern) && A.IsInRole(st.auth, A.User) && E.FindAccountByEmail(st.repo, q.email).Some?
    ensures r.response.Value? ==>
      && r.response.value
      && r.state.auth.principal == (if A.IsAuthenticated(st.auth.principal.value) then None else st.auth.principal)
  {
    if !EmailValid(q.email, pattern) then Step(Err(AuthenticationInvalidCredentials), st)
    else match Authorize(st, A.User)
      case Some(e) => Step(Err(e), st)
      case None =>
        if E.FindAccountByEmail(st.repo, q.email).None? then Step(Err(AuthorizationFailure), st)
        else
          var (_, auth) := A.ClearPrincipal(st.auth);
          Step(Value(true), st.(auth := auth))
  }

  /** A wrong password and an unknown email are indistinguishable to the caller: the same
      answer and the same state afterwards. */
  lemma WrongPasswordLooksLikeUnknownEmail(st: State, wrong: LoginQuery, unknown: LoginQuery,
                                           pattern: EmailPattern, kdf: Pbkdf2, draw: A.OtpDraw)
    requires CredentialsValid(wrong.email, wrong.password, pattern)
    requires E.FindAccountByEmail(st.repo, wrong.email).Some?
    requires Verify(wrong.password, E.FindAccountByEmail(st.repo, wrong.email).value.password, kdf) == Returned(false)
    requires E.FindAccountByEmail(st.repo, unknown.email).None?
    ensures Login(st, wrong, pattern, kdf, draw) == Login(st, unknown, pattern, kdf, draw)
    ensures Login(st, wrong, pattern, kdf, draw).response == Returned(Err(AuthenticationInvalidCredentials))
  {
  }

  /** The success path of `Login`: valid input, a found account, a matching password, a
      linked user and a counter below 2 on entry give the account back with a principal for
      that user. */
  lemma LoginSucceeds(st: State, q: LoginQuery, pattern: EmailPattern, kdf: Pbkdf2, draw: A.OtpDraw,
                      account: E.Account, user: E.User)
    requires CredentialsValid(q.email, q.password, pattern)
    requires E.FindAccountByEmail(st.repo, q.email) == Some(account)
    requires Verify(q.password, account.password, kdf) == Returned(true)
    requires E.LinkedUser(st.repo, account) == Some(user)
    requires st.auth.attempts + 1 < A.MaxAttempts
    ensures var login := Login(st, q, pattern, kdf, draw);
            && login.response == Returned(Value(account))
            && login.state.auth.principal == Some(A.Principal(q.email,
                 A.Claims(user.firstName, user.lastName, user.birthday), {A.User}))
  {
  }

  /** Round trip: after a successful registration, logging in with the same email and
      password succeeds and returns the new account, provided the counter is below 2. */
  lemma RegisterThenLogin(st: State, cmd: RegisterCommand, pattern: EmailPattern, kdf: Pbkdf2, salt: Salt,
                          draw: A.OtpDraw)
    requires E.Valid(st.repo)
    requires st.auth.attempts + 1 < A.MaxAttempts
    requires Register(st, cmd, pattern, kdf, salt, true, true).response.Value?
    ensures var reg := Register(st, cmd, pattern, kdf, salt, true, true);
            var login := Login(reg.state, LoginQuery(cmd.email, cmd.password), pattern, kdf, draw);
            && login.response == Returned(Value(reg.response.value))
            && login.state.auth.principal == Some(A.Principal(cmd.email,
                 A.Claims(cmd.user.firstName, cmd.user.lastName, cmd.user.birthday), {A.User}))
  {
    var reg := Register(st, cmd, pattern, kdf, salt, true, true);
    var account := reg.response.value;
    var (repo1, userId) := E.AddUser(st.repo, cmd.user.firstName, cmd.user.lastName, cmd.user.birthday);
    assert reg.state.repo == E.AddAccount(repo1, userId, cmd.email, Hash(cmd.password, salt, kdf)).0;
    assert account == E.AddAccount(repo1, userId, cmd.email, Hash(cmd.password, salt, kdf)).1;
    assert E.FindAccountByEmail(repo1, cmd.email).None?;
    E.FindAddedAccountByEmail(repo1, userId, cmd.email, Hash(cmd.password, salt, kdf));
    VerifyHash(cmd.password, salt, kdf);
    var user := E.User(account.userId, cmd.user.firstName, cmd.user.lastName, cmd.user.birthday);
    LoginSucceeds(reg.state, LoginQuery(cmd.email, cmd.password), pattern, kdf, draw, account, user);
  }

  /** With correct credentials and a linked user, a login whose entry counter is 2 or more
      still fails, with `Authentication.GeneralFailure`, and creates no principal. */
  lemma LockedOutLogin(st: State, q: LoginQuery, pattern: EmailPattern, kdf: Pbkdf2, draw: A.OtpDraw)
    requires st.auth.attempts + 1 >= A.MaxAttempts
    requires CredentialsValid(q.email, q.password, pattern)
    requires E.FindAccountByEmail(st.repo, q.email).Some?
    requires Verify(q.password, E.FindAccountByEmail(st.repo, q.email).value.password, kdf) == Returned(true)
    requires E.LinkedUser(st.repo, E.FindAccountByEmail(st.repo, q.email).value).Some?
    ensures Login(st, q, pattern, kdf, draw).response == Returned(Err(AuthenticationFailure))
    ensures Login(st, q, pattern, kdf, draw).state.auth.principal == st.auth.principal
  {
  }

  /** Round trip: right after a successful login, logging out with the same email succeeds
      and removes the principal; the counter stays at 0 and the OTP stays pending. */
  lemma LoginThenLogout(st: State, q: LoginQuery, pattern: EmailPattern, kdf: Pbkdf2, draw: A.OtpDraw)
    requires Succeeded(Login(st, q, pattern, kdf, draw))
    ensures var login := Login(st, q, pattern, kdf, draw);
            var logout := Logout(login.state, LogoutQuery(q.email), pattern);
            && logout.response == Value(true)
            && logout.state.auth == login.state.auth.(principal := None)
  {
  }

  /** Logout does not check whose session it ends: any two registered, valid emails log out
      the current principal in exactly the same way. */
  lemma LogoutIgnoresIdentity(st: State, e1: string, e2: string, pattern: EmailPattern)
    requires EmailValid(e1, pattern) && EmailValid(e2, pattern)
    requires E.FindAccountByEmail(st.repo, e1).Some? && E.FindAccountByEmail(st.repo, e2).Some?
    ensures Logout(st, LogoutQuery(e1), pattern) == Logout(st, LogoutQuery(e2), pattern)
  {
  }
}
