/** The account query and command handlers: `GetAccount` and `DeleteAccount`. */
module AccountHandlers {
  import opened DomainErrors
  import opened AppState
  import opened Outcomes
  import A = AuthProvider
  import E = Entities

  /** What a caller gets for an account: id, email and the linked user, but not the password. */
  datatype AccountResult = AccountResult(accountId: int, email: string, user: Option<E.User>)

  /** `GetAccountQueryHandler.Handle`: needs a `User` principal, then an account with that id,
      which is returned with its user loaded. Read-only. */
  function GetAccount(st: State, accountId: int): (r: Step<ErrorOr<AccountResult>>)
    ensures r.state == st
    ensures !A.IsInRole(st.auth, A.User) ==> r.response == Err(AuthorizationUnauthorized)
    ensures A.IsInRole(st.auth, A.User) && E.FindAccount(st.repo, accountId).None? ==> r.response == Err(AccountNotFound)
    ensures r.response.Value? <==> A.IsInRole(st.auth, A.User) && E.FindAccount(st.repo, accountId).Some?
    ensures r.response.Value? ==>
      var a := E.FindAccount(st.repo, accountId).value;
      r.response.value == AccountResult(accountId, a.email, E.LinkedUser(st.repo, a))
  {
    match Authorize(st, A.User)
    case Some(e) => Step(Err(e), st)
    case None =>
      match E.FindAccount(st.repo, accountId)
      case None => Step(Err(AccountNotFound), st)
      case Some(a) => Step(Value(AccountResult(a.accountId, a.email, E.LinkedUser(st.repo, a))), st)
  }

  /** `DeleteAccountCommandHandler.Handle`: needs an `Admin` principal, then an account with
      that id; success removes exactly that account. */
  function DeleteAccount(st: State, accountId: int, saved: bool): (r: Step<ErrorOr<bool>>)
    ensures r.state.auth == st.auth && r.state.repo.users == st.repo.users
    ensures !A.IsInRole(st.auth, A.Admin) ==> r == Step(Err(AuthorizationUnauthorized), st)
    ensures A.IsInRole(st.auth, A.Admin) && E.FindAccount(st.repo, accountId).None? ==> r == Step(Err(AccountNotFound), st)
    ensures A.IsInRole(st.auth, A.Admin) && E.FindAccount(st.repo, accountId).Some? && !saved ==> r == Step(Err(AccountFailure), st)
    ensures r.response.Err? ==> r.state == st
    ensures r.response.Value? <==> A.IsInRole(st.auth, A.Admin) && E.FindAccount(st.repo, accountId).Some? && saved
    ensures r.response.Value? ==> r.response.value && r.state.repo == E.RemoveAccount(st.repo, accountId)
  {
    match Authorize(st, A.Admin)
    case Some(e) => Step(Err(e), st)
    case None =>
      match E.FindAccount(st.repo, accountId)
      case None => Step(Err(AccountNotFound), st)
      case Some(_) =>
        if !saved then Step(Err(AccountFailure), st)
        else Step(Value(true), st.(repo := E.RemoveAccount(st.repo, accountId)))
  }

  /** Round trip: an account deleted by an administrator is no longer found, every other
      account still is, and the database stays well formed. */
  lemma DeleteThenGet(st: State, accountId: int, other: int)
    requires E.Valid(st.repo)
    requires A.IsInRole(st.auth, A.User)
    requires DeleteAccount(st, accountId, true).response.Value?
    ensures GetAccount(DeleteAccount(st, accountId, true).state, accountId).response == Err(AccountNotFound)
    ensures other != accountId ==>
      GetAccount(DeleteAccount(st, accountId, true).state, other).response == GetAccount(st, other).response
  {
    E.RemoveAccountRemoves(st.repo, accountId, other);
  }
}
