/** When the pending OTP of `GenerateOTP` is discarded. The method starts a background task that
    creates `Task.Delay(120000)` without awaiting it and then sets the OTP to null, so the code
    is discarded as soon as the task runs rather than two minutes later. Time is an explicit
    millisecond clock here. */
module OtpExpiry {
  import opened Outcomes
  import opened DomainErrors
  import opened AppState
  import opened Validation
  import opened PasswordHasher
  import opened Text
  import A = AuthProvider
  import E = Entities
  import AM = AccountManager
  import Controller = AccountManagerController

  /** The lifetime the source's comment and delay value ask for: two minutes. */
  const OtpLifetimeMs: nat := 120000

  /** A code issued at `issuedAt` stays pending until `clearedAt`. */
  datatype Timeline = Timeline(issuedAt: int, clearedAt: int)

  /** As written: the un-awaited delay lets the clearing run at once. */
  function ScheduleAsWritten(issuedAt: int): Timeline {
    Timeline(issuedAt, issuedAt)
  }

  /** Evidently intended: the clearing runs after the delay has elapsed. */
  function ScheduleIntended(issuedAt: int): Timeline {
    Timeline(issuedAt, issuedAt + OtpLifetimeMs)
  }

  /** The controller's `Login` when the OTP line is read at time `now` and a code issued by the
      query is cleared on `timeline`. Only a query that succeeded called `GenerateOTP`, so only
      then is there a clearing task; it has run when `now` has reached `clearedAt`. */
  function LoginAt(timeline: Timeline, now: int, st: State, q: AM.LoginQuery, pattern: EmailPattern,
                   kdf: Pbkdf2, draw: A.OtpDraw, otpLine: Option<string>): (r: Step<Completion<ErrorOr<E.Account>>>)
    ensures r.state.repo == st.repo
    ensures AM.Succeeded(r) ==>
      && AM.Succeeded(AM.Login(st, q, pattern, kdf, draw))
      && now < timeline.clearedAt
      && otpLine == Some(ToStringD6(draw))
      && r.response == AM.Login(st, q, pattern, kdf, draw).response
    ensures !AM.Succeeded(AM.Login(st, q, pattern, kdf, draw)) ==> r == Controller.Login(st, q, pattern, kdf, draw, otpLine)
  {
    var handled := AM.Login(st, q, pattern, kdf, draw);
    var cleared := if AM.Succeeded(handled) && now >= timeline.clearedAt
                   then handled.state.(auth := A.ExpireOtp(handled.state.auth))
                   else handled.state;
    match handled.response
    case Threw(_) => Step(handled.response, cleared)
    case Returned(_) =>
      if !A.ValidateOtp(cleared.auth, otpLine) then Step(Returned(Err(AuthenticationInvalidCredentials)), cleared)
      else Step(handled.response, cleared)
  }

  /** The controller's login as it behaves with the source's timing, without a clock: a code the
      query issues is cleared before the console line is read. With that timing no code is ever
      pending when a login starts, which the precondition records. */
  function LoginAsWritten(st: State, q: AM.LoginQuery, pattern: EmailPattern, kdf: Pbkdf2, draw: A.OtpDraw,
                          otpLine: Option<string>): (r: Step<Completion<ErrorOr<E.Account>>>)
    requires st.auth.otp.None?
    ensures r.state.repo == st.repo && r.state.auth.otp.None?
    ensures r.response.Returned? ==> r.response.value == Err(AuthenticationInvalidCredentials)
  {
    var handled := AM.Login(st, q, pattern, kdf, draw);
    var cleared := if AM.Succeeded(handled) then handled.state.(auth := A.ExpireOtp(handled.state.auth))
                   else handled.state;
    match handled.response
    case Threw(_) => Step(handled.response, cleared)
    case Returned(_) =>
      if !A.ValidateOtp(cleared.auth, otpLine) then Step(Returned(Err(AuthenticationInvalidCredentials)), cleared)
      else Step(handled.response, cleared)
  }

  /** The clockless as-written login is the timed login on the as-written schedule, read at any
      moment from issue on. */
  lemma AsWrittenScheduleIsLoginAsWritten(issuedAt: int, now: int, st: State, q: AM.LoginQuery,
                                           pattern: EmailPattern, kdf: Pbkdf2, draw: A.OtpDraw, otpLine: Option<string>)
    requires st.auth.otp.None?
    requires now >= issuedAt
    ensures LoginAt(ScheduleAsWritten(issuedAt), now, st, q, pattern, kdf, draw, otpLine)
         == LoginAsWritten(st, q, pattern, kdf, draw, otpLine)
  {
  }

  /** With the intended schedule, a line read within two minutes of issue is judged exactly as
      the controller judges it without any expiry. */
  lemma IntendedScheduleIsControllerLogin(issuedAt: int, now: int, st: State, q: AM.LoginQuery,
                                          pattern: EmailPattern, kdf: Pbkdf2, draw: A.OtpDraw, otpLine: Option<string>)
    requires issuedAt <= now < issuedAt + OtpLifetimeMs
    ensures LoginAt(ScheduleIntended(issuedAt), now, st, q, pattern, kdf, draw, otpLine)
         == Controller.Login(st, q, pattern, kdf, draw, otpLine)
  {
  }

  /** With the source's timing a correct login can never be completed at the console, even
      with the printed code typed in at any moment after it was printed. */
  lemma ConsoleLoginNeverCompletes(st: State, q: AM.LoginQuery, pattern: EmailPattern, kdf: Pbkdf2, draw: A.OtpDraw,
                                   issuedAt: int, now: int)
    requires st.auth.otp.None?
    requires AM.Succeeded(AM.Login(st, q, pattern, kdf, draw))
    requires now >= issuedAt
    ensures LoginAt(ScheduleAsWritten(issuedAt), now, st, q, pattern, kdf, draw, Some(ToStringD6(draw))).response
         == Returned(Err(AuthenticationInvalidCredentials))
    ensures LoginAsWritten(st, q, pattern, kdf, draw, Some(ToStringD6(draw))).response
         == Returned(Err(AuthenticationInvalidCredentials))
  {
    AsWrittenScheduleIsLoginAsWritten(issuedAt, now, st, q, pattern, kdf, draw, Some(ToStringD6(draw)));
  }

  /** With the intended timing the printed code, typed in within two minutes of issue, completes
      the login with the query's account; typed in later, it no longer does. */
  lemma ConsoleLoginCompletesInTime(st: State, q: AM.LoginQuery, pattern: EmailPattern, kdf: Pbkdf2,
                                    draw: A.OtpDraw, issuedAt: int, now: int)
    requires AM.Succeeded(AM.Login(st, q, pattern, kdf, draw))
    requires issuedAt <= now
    ensures now < issuedAt + OtpLifetimeMs ==>
      LoginAt(ScheduleIntended(issuedAt), now, st, q, pattern, kdf, draw, Some(ToStringD6(draw))).response
        == AM.Login(st, q, pattern, kdf, draw).response
    ensures now >= issuedAt + OtpLifetimeMs ==>
      LoginAt(ScheduleIntended(issuedAt), now, st, q, pattern, kdf, draw, Some(ToStringD6(draw))).response
        == Returned(Err(AuthenticationInvalidCredentials))
  {
    if now < issuedAt + OtpLifetimeMs {
      IntendedScheduleIsControllerLogin(issuedAt, now, st, q, pattern, kdf, draw, Some(ToStringD6(draw)));
      Controller.CorrectOtpLogsIn(st, q, pattern, kdf, draw);
    }
  }
}
