/** The whole mutable state the handlers share, and what a handler call yields. */
module AppState {
  import opened Outcomes
  import opened DomainErrors
  import A = AuthProvider
  import E = Entities

  /** The singleton auth provider and the database. */
  datatype State = State(auth: A.AuthState, repo: E.Repository)

  /** A handler's response together with the state it leaves behind. */
  datatype Step<+T> = Step(response: T, state: State)

  const Initial: State := State(A.Initial, E.EmptyRepository)

  /** The guard protected handlers open with: without a principal in `role` the request is
      answered with `Authorization.Unauthorized`. */
  function Authorize(s: State, role: A.AuthorizationRoles): (r: Option<Error>)
    ensures r.None? <==> A.IsInRole(s.auth, role)
    ensures r.Some? ==> r.value == AuthorizationUnauthorized
  {
    if s.auth.principal.None? then Some(AuthorizationUnauthorized)
    else if role !in s.auth.principal.value.roles then Some(AuthorizationUnauthorized)
    else None
  }
}
