/** The user command and query handlers: `UpdateUser`, `GetUser`, `GetAllUsers`, `InsertUser`
    and `DeleteUser`. A `saved` flag stands for the result of the repository's save. */
module UserHandlers {
  import opened DomainErrors
  import opened AppState
  import opened Outcomes
  import A = AuthProvider
  import E = Entities

  datatype UpdateUserCommand = UpdateUserCommand(userId: int, firstName: string, lastName: string, birthday: E.DateTime)
  datatype InsertUserCommand = InsertUserCommand(firstName: string, lastName: string, birthday: E.DateTime)

  /** `UpdateUserCommandHandler.Handle`: needs a `User` principal, then a user with that id;
      success overwrites that user's names and birthday under the same id. */
  function UpdateUser(st: State, cmd: UpdateUserCommand, saved: bool): (r: Step<ErrorOr<bool>>)
    ensures r.state.auth == st.auth && r.state.repo.accounts == st.repo.accounts
    ensures !A.IsInRole(st.auth, A.User) ==> r == Step(Err(AuthorizationUnauthorized), st)
    ensures A.IsInRole(st.auth, A.User) && cmd.userId !in st.repo.users ==> r == Step(Err(UserNotFound), st)
    ensures A.IsInRole(st.auth, A.User) && cmd.userId in st.repo.users && !saved ==> r == Step(Err(UserFailure), st)
    ensures r.response.Err? ==> r.state == st && r.response.error in {AuthorizationUnauthorized, UserNotFound, UserFailure}
    ensures r.response.Value? <==> A.IsInRole(st.auth, A.User) && cmd.userId in st.repo.users && saved
    ensures r.response.Value? ==> r.response.value && r.state.repo.users.Keys == st.repo.users.Keys
    ensures r.response.Value? ==> forall k :: k in st.repo.users && k != cmd.userId ==> r.state.repo.users[k] == st.repo.users[k]
    ensures r.response.Value? ==>
      r.state.repo.users[cmd.userId] == E.User(st.repo.users[cmd.userId].userId, cmd.firstName, cmd.lastName, cmd.birthday)
  {
    match Authorize(st, A.User)
    case Some(e) => Step(Err(e), st)
    case None =>
      match E.FindUser(st.repo, cmd.userId)
      case None => Step(Err(UserNotFound), st)
      case Some(user) =>
        if !saved then Step(Err(UserFailure), st)
        else
          var updated := user.(firstName := cmd.firstName, lastName := cmd.lastName, birthday := cmd.birthday);
          Step(Value(true), st.(repo := E.ReplaceUser(st.repo, cmd.userId, updated)))
  }

  /** `GetUserQueryHandler.Handle`: needs a `User` principal; read-only. */
  function GetUser(st: State, userId: int): (r: Step<ErrorOr<E.User>>)
    ensures r.state == st
    ensures !A.IsInRole(st.auth, A.User) ==> r.response == Err(AuthorizationUnauthorized)
    ensures A.IsInRole(st.auth, A.User) ==>
      r.response == (if userId in st.repo.users then Value(st.repo.users[userId]) else Err(UserNotFound))
    ensures E.Valid(st.repo) && r.response.Value? ==> r.response.value.userId == userId
  {
    match Authorize(st, A.User)
    case Some(e) => Step(Err(e), st)
    case None =>
      match E.FindUser(st.repo, userId)
      case None => Step(Err(UserNotFound), st)
      case Some(user) => Step(Value(user), st)
  }

  /** `GetAllUsersQueryHandler.Handle`: needs an `Admin` principal; then every user, never
      `NotFound`, even when there are none. Read-only. */
  function GetAllUsers(st: State): (r: Step<ErrorOr<set<E.User>>>)
    ensures r.state == st
    ensures !A.IsInRole(st.auth, A.Admin) ==> r.response == Err(AuthorizationUnauthorized)
    ensures A.IsInRole(st.auth, A.Admin) ==> r.response.Value?
    ensures r.response.Value? ==> forall u :: u in r.response.value <==> exists k :: k in st.repo.users && st.repo.users[k] == u
  {
    match Authorize(st, A.Admin)
    case Some(e) => Step(Err(e), st)
    case None =>
      Step(Value(set k | k in st.repo.users :: st.repo.users[k]), st)
  }

  /** `InsertUserCommandHandler.Handle`: no authorization check at all. */
  function InsertUser(st: State, cmd: InsertUserCommand, saved: bool): (r: Step<ErrorOr<bool>>)
    ensures r.state.auth == st.auth && r.state.repo.accounts == st.repo.accounts
    ensures !saved ==> r == Step(Err(UserFailure), st)
    ensures saved ==>
      r.response == Value(true) && r.state.repo == E.AddUser(st.repo, cmd.firstName, cmd.lastName, cmd.birthday).0
  {
    if !saved then Step(Err(UserFailure), st)
    else
      var (repo, _) := E.AddUser(st.repo, cmd.firstName, cmd.lastName, cmd.birthday);
      Step(Value(true), st.(repo := repo))
  }

  /** `DeleteUserCommandHandler.Handle`: no authorization check; an unknown id is `NotFound`,
      a failed save `Failure`, otherwise the user is gone. Accounts are left as they are. */
  function DeleteUser(st: State, userId: int, saved: bool): (r: Step<ErrorOr<bool>>)
    ensures r.state.auth == st.auth && r.state.repo.accounts == st.repo.accounts
    ensures userId !in st.repo.users ==> r == Step(Err(UserNotFound), st)
    ensures userId in st.repo.users && !saved ==> r == Step(Err(UserFailure), st)
    ensures r.response.Value? <==> userId in st.repo.users && saved
    ensures r.response.Value? ==> r.response.value && r.state.repo.users == st.repo.users - {userId}
  {
    match E.FindUser(st.repo, userId)
    case None => Step(Err(UserNotFound), st)
    case Some(_) =>
      if !saved then Step(Err(UserFailure), st)
      else Step(Value(true), st.(repo := E.RemoveUser(st.repo, userId)))
  }

  /** Round trip: after a successful update, reading the user back returns the new values. */
  lemma UpdateThenGet(st: State, cmd: UpdateUserCommand)
    requires E.Valid(st.repo)
    requires UpdateUser(st, cmd, true).response.Value?
    ensures GetUser(UpdateUser(st, cmd, true).state, cmd.userId).response
         == Value(E.User(cmd.userId, cmd.firstName, cmd.lastName, cmd.birthday))
  {
  }

  /** Round trip: after a successful delete, the user is not found. */
  lemma DeleteThenGet(st: State, userId: int)
    requires A.IsInRole(st.auth, A.User)
    requires DeleteUser(st, userId, true).response.Value?
    ensures GetUser(DeleteUser(st, userId, true).state, userId).response == Err(UserNotFound)
  {
  }

  /** Round trip: a user inserted by a signed-in caller can be read back under the id it got. */
  lemma InsertThenGet(st: State, cmd: InsertUserCommand)
    requires E.Valid(st.repo)
    requires A.IsInRole(st.auth, A.User)
    ensures GetUser(InsertUser(st, cmd, true).state, st.repo.nextUserId).response
         == Value(E.User(st.repo.nextUserId, cmd.firstName, cmd.lastName, cmd.birthday))
  {
  }

  /** Insert and delete ignore the caller: with or without a principal the outcome and the
      database are the same. */
  lemma InsertAndDeleteIgnoreAuth(st: State, other: A.AuthState, cmd: InsertUserCommand, userId: int, saved: bool)
    ensures InsertUser(st.(auth := other), cmd, saved).response == InsertUser(st, cmd, saved).response
    ensures InsertUser(st.(auth := other), cmd, saved).state.repo == InsertUser(st, cmd, saved).state.repo
    ensures DeleteUser(st.(auth := other), userId, saved).response == DeleteUser(st, userId, saved).response
    ensures DeleteUser(st.(auth := other), userId, saved).state.repo == DeleteUser(st, userId, saved).state.repo
  {
  }
}
