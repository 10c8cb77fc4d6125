/** The singleton `AuthProvider`: the failed-attempt counter, the current principal and the
    pending one-time password, as one immutable value with pure transitions. */
module AuthProvider {
  import opened Outcomes
  import opened Text
  import E = Entities

  datatype AuthorizationRoles = User | Admin

  /** The claims attached to the identity: given name, surname and date of birth. */
  datatype Claims = Claims(givenName: string, surname: string, dateOfBirth: E.DateTime)

  /** A `GenericPrincipal` over a `GenericIdentity` named after the account's email. */
  datatype Principal = Principal(identity: string, claims: Claims, roles: set<AuthorizationRoles>)

  /** The provider's three fields. */
  datatype AuthState = AuthState(attempts: nat, principal: Option<Principal>, otp: Option<string>)

  /** A fresh provider: no attempts, no principal, no pending OTP. */
  const Initial: AuthState := AuthState(0, None, None)

  /** `GeneratePrincipal` refuses once this many attempts have been counted. */
  const MaxAttempts: nat := 3

  /** `IncrementAttempt`: one more attempt, nothing else changes. */
  function IncrementAttempt(s: AuthState): (r: AuthState)
    ensures r.attempts == s.attempts + 1
    ensures r.principal == s.principal && r.otp == s.otp
  {
    s.(attempts := s.attempts + 1)
  }

  /** `ClearAttempts`: the counter back to zero, nothing else changes. */
  function ClearAttempts(s: AuthState): (r: AuthState)
    ensures r.attempts == 0
    ensures r.principal == s.principal && r.otp == s.otp
  {
    s.(attempts := 0)
  }

  /** `GenericPrincipal.IsInRole` applied to the current principal; false when there is none. */
  predicate IsInRole(s: AuthState, role: AuthorizationRoles) {
    s.principal.Some? && role in s.principal.value.roles
  }

  /** `GeneratePrincipal(account)`, with the account's loaded `User` passed alongside. It
      refuses, changing nothing, when the counter has reached 3 or the account has no user;
      otherwise it installs a principal named after the email, carrying the user's claims and
      the single role `User`, and resets the counter. The OTP is never touched. */
  function GeneratePrincipal(s: AuthState, account: E.Account, user: Option<E.User>): (r: (bool, AuthState))
    ensures !r.0 <==> s.attempts >= MaxAttempts || user.None?
    ensures !r.0 ==> r.1 == s
    ensures r.0 ==> && r.1.attempts == 0
                    && r.1.otp == s.otp
                    && r.1.principal == Some(Principal(
                         account.email,
                         Claims(user.value.firstName, user.value.lastName, user.value.birthday),
                         {User}))
  {
    if s.attempts >= MaxAttempts then (false, s)
    else if user.None? then (false, s)
    else
      var u := user.value;
      var principal := Principal(account.email, Claims(u.firstName, u.lastName, u.birthday), {User});
      (true, s.(principal := Some(principal), attempts := 0))
  }

  /** `GenericIdentity.IsAuthenticated`: the identity has a non-empty name. */
  predicate IsAuthenticated(p: Principal) {
    |p.identity| > 0
  }

  /** `ClearPrincipal`. The principal is dereferenced without a null check, so with no
      principal the call throws. An authenticated principal is removed; an anonymous one stays.
      The counter and the OTP are never touched. */
  function ClearPrincipal(s: AuthState): (r: (Completion<bool>, AuthState))
    ensures s.principal.None? ==> r == (Threw(NullReference), s)
    ensures s.principal.Some? ==> r.0 == Returned(IsAuthenticated(s.principal.value))
    ensures r.0 == Returned(true) ==> r.1 == s.(principal := None)
    ensures r.0 != Returned(true) ==> r.1 == s
  {
    if s.principal.None? then (Threw(NullReference), s)
    else if !IsAuthenticated(s.principal.value) then (Returned(false), s)
    else (Returned(true), s.(principal := None))
  }

  /** The value drawn by `new Random().Next(100000, 1000000)`. */
  type OtpDraw = n: int | 100000 <= n < 1000000 witness 100000

  /** `GenerateOTP`, with the random draw as a parameter: the code is the draw printed with
      `ToString("D6")`, stored as the pending OTP and returned. */
  function GenerateOtp(s: AuthState, draw: OtpDraw): (r: (string, AuthState))
    ensures |r.0| == 6 && IsNumeral(r.0) && DecimalValue(r.0) == draw && r.0[0] != '0'
    ensures r.1 == s.(otp := Some(r.0))
  {
    ToStringD6SixDigits(draw);
    var code := ToStringD6(draw);
    (code, s.(otp := Some(code)))
  }

  /** `ValidateOTP(code)`; `None` is the null that `Console.ReadLine()` returns at end of input.
      It reads the state and never changes it. */
  function ValidateOtp(s: AuthState, code: Option<string>): (ok: bool)
  {
    s.otp.Some? && code == s.otp
  }

  /** The background task of `GenerateOTP` that discards the pending code. */
  function ExpireOtp(s: AuthState): (r: AuthState)
    ensures r.otp.None? && r.attempts == s.attempts && r.principal == s.principal
  {
    s.(otp := None)
  }

  /** A freshly generated code is the one and only input that validates. */
  lemma GeneratedOtpValidates(s: AuthState, draw: OtpDraw, code: Option<string>)
    ensures ValidateOtp(GenerateOtp(s, draw).1, code) <==> code == Some(GenerateOtp(s, draw).0)
  {
  }

  /** Different draws give different codes: the six digits spell the draw. */
  lemma OtpDeterminesDraw(s: AuthState, d1: OtpDraw, d2: OtpDraw)
    ensures GenerateOtp(s, d1).0 == GenerateOtp(s, d2).0 ==> d1 == d2
  {
  }

  /** `ValidateOTP` accepts at most one code, the pending one, and nothing without one. */
  lemma ValidateOtpAcceptsOnlyPending(s: AuthState, c1: Option<string>, c2: Option<string>)
    ensures ValidateOtp(s, c1) ==> c1.Some? && s.otp == c1
    ensures ValidateOtp(s, c1) && ValidateOtp(s, c2) ==> c1 == c2
    ensures s.otp.None? ==> !ValidateOtp(s, c1)
  {
  }

  /** After expiry no input validates. */
  lemma ExpiredOtpRejectsAll(s: AuthState, code: Option<string>)
    ensures !ValidateOtp(ExpireOtp(s), code)
  {
  }

  /** No transition of the provider ever grants `Admin`. */
  lemma GeneratePrincipalNeverAdmin(s: AuthState, account: E.Account, user: Option<E.User>)
    requires s.principal.Some? ==> s.principal.value.roles == {User}
    ensures var r := GeneratePrincipal(s, account, user).1;
            r.principal.Some? ==> r.principal.value.roles == {User} && !IsInRole(r, Admin)
  {
  }

  /** `n` consecutive `IncrementAttempt` calls. */
  function IncrementTimes(s: AuthState, n: nat): (r: AuthState)
    decreases n
  {
    if n == 0 then s else IncrementAttempt(IncrementTimes(s, n - 1))
  }

  /** With an unbounded counter the lockout is permanent: once the counter reaches 3, no number
      of further attempts lets `GeneratePrincipal` succeed until the counter is cleared. */
  lemma {:induction false} LockoutIsPermanent(s: AuthState, n: nat, account: E.Account, user: Option<E.User>)
    requires s.attempts >= MaxAttempts
    ensures IncrementTimes(s, n).attempts == s.attempts + n
    ensures !GeneratePrincipal(IncrementTimes(s, n), account, user).0
    decreases n
  {
    if n > 0 {
      LockoutIsPermanent(s, n - 1, account, user);
    }
  }

  // ---- the counter as the source declares it: a 32-bit signed int ----

  const Int32Min: int := -0x8000_0000
  const Int32Max: int := 0x7fff_ffff

  type Int32 = x: int | Int32Min <= x <= Int32Max

  /** `_authenticationAttempts++` on an `int` in an unchecked context wraps around. */
  function IncrementAttemptInt32(attempts: Int32): (r: Int32)
    ensures attempts < Int32Max ==> r == attempts + 1
    ensures attempts == Int32Max ==> r == Int32Min
  {
    if attempts == Int32Max then Int32Min else attempts + 1
  }

  /** The guard of `GeneratePrincipal` on the 32-bit counter. */
  predicate LockedOutInt32(attempts: Int32) {
    attempts >= MaxAttempts
  }

  /** On the 32-bit counter the lockout is not permanent: a locked-out counter at its maximum
      wraps to a negative value on the next attempt, and the guard lets logins through again. */
  lemma AttemptCounterWrapsAround()
    ensures LockedOutInt32(Int32Max)
    ensures IncrementAttemptInt32(Int32Max) == Int32Min
    ensures !LockedOutInt32(IncrementAttemptInt32(Int32Max))
  {
  }
}
