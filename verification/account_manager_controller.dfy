/** `AccountManagerController`: the console front end of the account-manager handlers. Console
    input lines are parameters (`None` is end of input), and each request goes through the
    cancellation behaviour. Login and logout are sent without a token (never cancelled);
    registration is sent with the controller's five-second token, whose state is a parameter. */
module AccountManagerController {
  import opened Outcomes
  import opened DomainErrors
  import opened AppState
  import opened Validation
  import opened PasswordHasher
  import opened Text
  import A = AuthProvider
  import E = Entities
  import AM = AccountManager
  import Pipeline = CancellationTokenBehavior

  /** `CommandResponse(Result)`, the console's answer to a successful logout. */
  datatype CommandResponse = CommandResponse(result: bool)

  /** `Login(request)`: send the query, then read an OTP line; a line that does not validate
      against the pending OTP replaces the outcome with `Authentication.InvalidCredentials`.
      The check comes after the query, so whatever the query changed, including a freshly
      installed principal, stays. An exception from the query escapes before the OTP prompt. */
  function Login(st: State, q: AM.LoginQuery, pattern: EmailPattern, kdf: Pbkdf2, draw: A.OtpDraw,
                 otpLine: Option<string>): (r: Step<Completion<ErrorOr<E.Account>>>)
    ensures var handled := AM.Login(st, q, pattern, kdf, draw);
      && r.state == handled.state
      && (handled.response.Threw? ==> r.response == handled.response)
      && (handled.response.Returned? && !A.ValidateOtp(handled.state.auth, otpLine) ==>
            r.response == Returned(Err(AuthenticationInvalidCredentials)))
      && (handled.response.Returned? && A.ValidateOtp(handled.state.auth, otpLine) ==> r.response == handled.response)
  {
    var sent := Pipeline.Handle(AM.Login(st, q, pattern, kdf, draw), false);
    match sent.response
    case Threw(_) => sent
    case Returned(_) =>
      if !A.ValidateOtp(sent.state.auth, otpLine) then Step(Returned(Err(AuthenticationInvalidCredentials)), sent.state)
      else sent
  }

  /** A console answer equal to `word` after `ToLower()`; a null line never is. */
  predicate Answers(line: Option<string>, word: string) {
    line.Some? && ToLower(line.value) == word
  }

  /** `Register(request)`: "y" (either case) to the robot question or "n" (either case) to the
      terms question ends with `null` and sends nothing; otherwise the command is sent with the
      five-second token. */
  function Register(st: State, cmd: AM.RegisterCommand, robotLine: Option<string>, termsLine: Option<string>,
                    cancelled: bool, pattern: EmailPattern, kdf: Pbkdf2, salt: Salt,
                    userSaved: bool, accountSaved: bool): (r: Step<Option<ErrorOr<E.Account>>>)
    ensures r.response.None? <==> Answers(robotLine, "y") || Answers(termsLine, "n")
    ensures r.response.None? ==> r.state == st
    ensures r.response.Some? ==>
      var handled := AM.Register(st, cmd, pattern, kdf, salt, userSaved, accountSaved);
      && r.state == handled.state
      && r.response.value == (if cancelled then Err(SystemTimeout) else handled.response)
  {
    if Answers(robotLine, "y") then Step(None, st)
    else if Answers(termsLine, "n") then Step(None, st)
    else
      var sent := Pipeline.Handle(Pipeline.Returning(AM.Register(st, cmd, pattern, kdf, salt, userSaved, accountSaved)), cancelled);
      Step(Some(sent.response.value), sent.state)
  }

  /** `Logout(request)`: `true` becomes `CommandResponse(true)`; errors pass through. */
  function Logout(st: State, q: AM.LogoutQuery, pattern: EmailPattern): (r: Step<ErrorOr<CommandResponse>>)
    ensures var handled := AM.Logout(st, q, pattern);
      && r.state == handled.state
      && (handled.response.Err? ==> r.response == Err(handled.response.error))
      && (handled.response.Value? ==> r.response == Value(CommandResponse(handled.response.value)))
  {
    var sent := Pipeline.Handle(Pipeline.Returning(AM.Logout(st, q, pattern)), false);
    match sent.response.value
    case Err(e) => Step(Err(e), sent.state)
    case Value(b) => Step(Value(CommandResponse(b)), sent.state)
  }

  /** The answers are read case-insensitively: "y"/"Y" to the robot question and "n"/"N" to
      the terms question stop the registration, and nothing else does. */
  lemma PromptAnswers(line: Option<string>)
    ensures Answers(line, "y") <==> line == Some("y") || line == Some("Y")
    ensures Answers(line, "n") <==> line == Some("n") || line == Some("N")
  {
    if line.Some? {
      ToLowerIsLetter(line.value, 'y');
      ToLowerIsLetter(line.value, 'n');
    }
  }

  /** Typing the code printed by a successful login completes it with the account. */
  lemma CorrectOtpLogsIn(st: State, q: AM.LoginQuery, pattern: EmailPattern, kdf: Pbkdf2, draw: A.OtpDraw)
    requires AM.Succeeded(AM.Login(st, q, pattern, kdf, draw))
    ensures Login(st, q, pattern, kdf, draw, Some(ToStringD6(draw))).response
         == AM.Login(st, q, pattern, kdf, draw).response
  {
  }

  /** Any other line makes the controller report invalid credentials, yet the principal that
      the query installed remains signed in. */
  lemma WrongOtpKeepsPrincipal(st: State, q: AM.LoginQuery, pattern: EmailPattern, kdf: Pbkdf2, draw: A.OtpDraw,
                               otpLine: Option<string>)
    requires AM.Succeeded(AM.Login(st, q, pattern, kdf, draw))
    requires otpLine != Some(ToStringD6(draw))
    ensures Login(st, q, pattern, kdf, draw, otpLine).response == Returned(Err(AuthenticationInvalidCredentials))
    ensures Login(st, q, pattern, kdf, draw, otpLine).state.auth.principal.Some?
    ensures A.IsInRole(Login(st, q, pattern, kdf, draw, otpLine).state.auth, A.User)
  {
  }

  /** Cancellation does not undo work: a registration whose token expired reports
      `System.Timeout`, yet the account it saved is stored. */
  lemma TimedOutRegistrationIsStored(st: State, cmd: AM.RegisterCommand, pattern: EmailPattern, kdf: Pbkdf2,
                                     salt: Salt)
    requires AM.Register(st, cmd, pattern, kdf, salt, true, true).response.Value?
    ensures var r := Register(st, cmd, Some("n"), Some("y"), true, pattern, kdf, salt, true, true);
      && r.response == Some(Err(SystemTimeout))
      && E.FindAccountByEmail(r.state.repo, cmd.email).Some?
  {
    var r := Register(st, cmd, Some("n"), Some("y"), true, pattern, kdf, salt, true, true);
    assert ToLower("n") == "n" && ToLower("y") == "y";
    var a := AM.Register(st, cmd, pattern, kdf, salt, true, true).response.value;
    assert r.state.repo.accounts[|r.state.repo.accounts| - 1] == a;
  }
}
