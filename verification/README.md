# Nuclei authentication and authorization core, in Dafny

A model of the authentication and authorization core of the GCZ.Nuclei.API console
application. It covers:

- **The password hasher.** PBKDF2 with HMAC-SHA-256, 100000 iterations and a 16-byte key. The
  stored verifier is base64(key) followed by base64(64-byte salt).
- **The singleton auth provider.** It holds the failed-attempt counter with its three-attempt
  lockout, the current `GenericPrincipal`, and the pending one-time password.
- **The account-manager handlers:** register, login and logout.
- **The console controller in front of them.** It asks the robot and terms questions, checks the
  OTP after login, and sends registration with a five-second cancellation token.
- **The cancellation pipeline behaviour.**
- **The user and account handlers.** These are guarded by the `User` and `Admin` roles, except
  insert-user and delete-user, which are not guarded.

The two tables (accounts and users) are values: a row sequence and a map keyed by the identity
column. Every handler is a pure function from the shared `State` (provider plus database) to a
`Step`: its response plus the next state. Whatever the program gets from its environment is a
parameter:

- the random salt and OTP draw;
- the result of each database save;
- console input lines;
- the state of the cancellation token;
- PBKDF2 itself;
- the email regular expression.

`Session` strings all requests into one state machine. It proves the following for every
reachable state:

- the database is well formed;
- no principal ever holds `Admin`;
- a lockout lasts until the counter is cleared.

Base64 follows section 4 of RFC 4648, and its encoder and decoder are proved to be inverses.

## Model

| member | source | states |
|---|---|---|
| DomainErrors.CodesIdentifyErrors | GCZ.Nuclei.API/Domain/Common/Errors/DomainErrors.Authentication.cs:9-17 | no two domain errors share a code, though the authentication and authorization failures share their description |
| Base64.DecodeEncode | GCZ.Nuclei.API/Services/Utilities/PasswordHasher.cs:36-43 | decoding the base64 text of any byte string gives that byte string back (`FromBase64String` inverts `ToBase64String`) |
| Base64.EncodeInjective | GCZ.Nuclei.API/Services/Utilities/PasswordHasher.cs:57 | two byte strings with the same base64 text are equal, so comparing texts compares keys |
| Base64.Encode | GCZ.Nuclei.API/Services/Utilities/PasswordHasher.cs:36 | the encoding has 4 characters per started group of 3 bytes, all from the alphabet except the final one or two `=` |
| Base64.SixteenBytes | GCZ.Nuclei.API/Services/Utilities/PasswordHasher.cs:13 | the base64 of a 16-byte key is 24 characters whose first `=` is at index 22 |
| Text.IndexOf | GCZ.Nuclei.API/Services/Utilities/PasswordHasher.cs:54 | the result is the first position holding the character, or -1 exactly when none does |
| Text.ToLowerIsLetter | GCZ.Nuclei.API/ConsoleApp/Controllers/AccountManagerController.cs:60-64 | a line lowers to a one-letter word exactly when it is that letter in either case |
| Text.ToStringD6SixDigits | GCZ.Nuclei.API/Services/Auth/AuthProvider.cs:66 | a draw in [100000, 1000000) prints as six decimal digits, the first non-zero |
| Text.ToStringD6 | GCZ.Nuclei.API/Services/Auth/AuthProvider.cs:66 | the printed text is a numeral of at least six digits whose value is the number |
| PasswordHasher.Hash | GCZ.Nuclei.API/Services/Utilities/PasswordHasher.cs:25-37 | the stored text is 112 characters; its first `=` is at index 22; the first 24 characters decode to the derived key and the rest decode to the salt |
| PasswordHasher.HashEncodedSalt | GCZ.Nuclei.API/Services/Utilities/PasswordHasher.cs:39-50 | throws `FormatException` exactly when the salt text is not base64; otherwise the 24-character base64 of the key derived with the decoded salt |
| PasswordHasher.Verify | GCZ.Nuclei.API/Services/Utilities/PasswordHasher.cs:52-58 | only `ArgumentOutOfRange` or `Format` can be thrown; a `true` answer implies the stored layout (first `=` at 22, a base64 salt after index 24, the prefix is the derived key) |
| PasswordHasher.VerifyStoredForm | GCZ.Nuclei.API/Services/Utilities/PasswordHasher.cs:52-58 | a stored value of the form base64(key) + base64(salt) verifies exactly the passwords whose derived key equals the stored key |
| PasswordHasher.VerifyHash | GCZ.Nuclei.API/Services/Utilities/PasswordHasher.cs:25-58 | round trip: a password verifies against its own hash whatever the salt |
| PasswordHasher.VerifyOtherPassword | GCZ.Nuclei.API/Services/Utilities/PasswordHasher.cs:25-58 | another password verifies against a hash exactly when PBKDF2 gives it the same key on that salt |
| PasswordHasher.HashPathsAgree | GCZ.Nuclei.API/Services/Utilities/PasswordHasher.cs:25-50 | the private rehash of the stored salt reproduces the key half of the public hash |
| PasswordHasher.VerifyPlaintextThrows | GCZ.Nuclei.API/Services/Utilities/PasswordHasher.cs:54-55 | a stored plaintext "Test" makes `Verify` throw `FormatException`, not answer false |
| Entities.FindAccountByEmail | GCZ.Nuclei.API/DataAccess/Persistence/AccountRepository.cs:28-39 | an account is found exactly when some row has that email; the one found has that email and is stored |
| Entities.FindAccount | GCZ.Nuclei.API/DataAccess/Persistence/AccountRepository.cs:14-25 | an account is found exactly when some row has that id; the one found has that id |
| Entities.AddUser | GCZ.Nuclei.API/DataAccess/Persistence/UserRepository.cs:14-19 | the new user is filed under the next identity value, which is returned; every user already stored keeps its entry; accounts are untouched; a valid database stays valid |
| Entities.AddAccount | GCZ.Nuclei.API/DataAccess/Persistence/AccountRepository.cs:41-46 | the new row is appended under the next id and found by that id; users are untouched; a valid database stays valid |
| Entities.AddAccountKeepsEmailLookups | GCZ.Nuclei.API/DataAccess/Persistence/AccountRepository.cs:28-46 | appending an account never changes which account a registered email finds |
| Entities.FindAddedAccountByEmail | GCZ.Nuclei.API/DataAccess/Persistence/AccountRepository.cs:28-46 | an account added under an unused email is the one the email lookup then finds |
| Entities.RemoveAccountRemoves | GCZ.Nuclei.API/DataAccess/Persistence/AccountRepository.cs:48-53 | after deleting an id that id is not found, every other id finds what it found before, and the database stays valid |
| Entities.Without | GCZ.Nuclei.API/DataAccess/Persistence/AccountRepository.cs:48-53 | the remaining rows are exactly the old rows with another id |
| AuthProvider.IncrementAttempt | GCZ.Nuclei.API/Services/Auth/AuthProvider.cs:24 | one more attempt; principal and OTP unchanged |
| AuthProvider.ClearAttempts | GCZ.Nuclei.API/Services/Auth/AuthProvider.cs:26 | counter back to zero; principal and OTP unchanged |
| AuthProvider.GeneratePrincipal | GCZ.Nuclei.API/Services/Auth/AuthProvider.cs:32-53 | refuses, changing nothing, exactly when the counter is 3 or more or the account has no user; otherwise installs a `User`-role principal named after the email with the user's claims and resets the counter |
| AuthProvider.ClearPrincipal | GCZ.Nuclei.API/Services/Auth/AuthProvider.cs:55-62 | with no principal the call throws a null reference and changes nothing; an authenticated principal is removed and the answer is true; an anonymous one stays and the answer is false |
| AuthProvider.GenerateOtp | GCZ.Nuclei.API/Services/Auth/AuthProvider.cs:64-66 | the code is six digits spelling the draw, and it becomes the pending OTP |
| AuthProvider.GeneratedOtpValidates | GCZ.Nuclei.API/Services/Auth/AuthProvider.cs:64-84 | after generation, an input validates exactly when it is the generated code |
| AuthProvider.OtpDeterminesDraw | GCZ.Nuclei.API/Services/Auth/AuthProvider.cs:66 | different draws give different codes |
| AuthProvider.ValidateOtpAcceptsOnlyPending | GCZ.Nuclei.API/Services/Auth/AuthProvider.cs:79-84 | at most one input validates, the pending code, and none when there is no pending code |
| AuthProvider.ExpireOtp | GCZ.Nuclei.API/Services/Auth/AuthProvider.cs:73 | clears the pending code and nothing else |
| AuthProvider.ExpiredOtpRejectsAll | GCZ.Nuclei.API/Services/Auth/AuthProvider.cs:73-84 | after expiry no input validates |
| AuthProvider.GeneratePrincipalNeverAdmin | GCZ.Nuclei.API/Services/Auth/AuthProvider.cs:49 | a principal the provider installs holds only `User`, never `Admin` |
| AuthProvider.LockoutIsPermanent | GCZ.Nuclei.API/Services/Auth/AuthProvider.cs:24-34 | with an unbounded counter, once it reaches 3 no number of further attempts lets `GeneratePrincipal` succeed |
| AuthProvider.IncrementAttemptInt32 | GCZ.Nuclei.API/Services/Auth/AuthProvider.cs:11-24 | the 32-bit counter adds one below its maximum and wraps to the minimum at it |
| AuthProvider.AttemptCounterWrapsAround | GCZ.Nuclei.API/Services/Auth/AuthProvider.cs:11-34 | a locked-out 32-bit counter at its maximum wraps negative on the next attempt, and the lockout guard then passes |
| Validation.AnyMeansSome | GCZ.Nuclei.API/Logic/AccountManager/Commands/Register.cs:41-44 | a lookahead `(?=.*[class])` holds exactly when some character is in the class |
| Validation.RegexBody | GCZ.Nuclei.API/Logic/AccountManager/Commands/Register.cs:42 | the text `$` lets `.{8,}` cover is the whole password or the password minus one final newline |
| Validation.PasswordPolicy | GCZ.Nuclei.API/Logic/AccountManager/Commands/Register.cs:41-49 | a password is valid exactly when it has 8 to 49 characters, no line break except one optional final one, a lower-case letter, an upper-case letter, a digit and one of `. , @ ! -` |
| Validation.CheckPassword | GCZ.Nuclei.API/Logic/AccountManager/Commands/Register.cs:41-49 | a single scan answers true exactly when the password is valid |
| Validation.AcceptedExample | GCZ.Nuclei.API/ConsoleApp.Tests/Registration/RegistrationTest.cs:43-71 | "Test123@" is a valid password |
| Validation.RejectedExample | GCZ.Nuclei.API/ConsoleApp.Tests/Registration/RegistrationTest.cs:166-196 | "Test1234" is not a valid password |
| Validation.EmailWithoutAt | GCZ.Nuclei.API/ConsoleApp.Tests/Registration/RegistrationTest.cs:76-106 | "validemail.com" and the empty string fail email validation under any pattern whose matches contain `@` |
| AppState.Authorize | GCZ.Nuclei.API/Logic/Commands/Users/UpdateUser.cs:34-35 | the guard lets a request through exactly when the principal holds the role, and otherwise answers `Authorization.Unauthorized` |
| AccountManager.Register | GCZ.Nuclei.API/Logic/AccountManager/Commands/Register.cs:52-84 | invalid input or a used email gives `Validation` with nothing changed; a failed user save gives `GeneralFailure` with nothing changed; a failed account save gives `GeneralFailure` but the user just inserted stays; success happens exactly when all checks and saves pass, and appends an account with the email, the salted hash (never the plaintext) and a link to exactly one new user under a fresh id, keeping every existing user; the provider is untouched |
| AccountManager.Login | GCZ.Nuclei.API/Logic/AccountManager/Queries/Login.cs:52-75 | the counter goes up on every failing path; invalid input, an unknown email or a wrong password gives `InvalidCredentials`; an exception from `Verify` escapes; a matching password with no linked user or a counter of 2 or more on entry gives `GeneralFailure`, and otherwise the login succeeds; a counter of 2 or more on entry never succeeds; success means valid input, the account found by email, a matching password, a linked user, a `User` principal named after the email, the counter at 0 and the draw's six-digit code pending |
| AccountManager.SignIn | GCZ.Nuclei.API/Logic/AccountManager/Queries/Login.cs:65-75 | once the password matched, the sign-in succeeds exactly when the counter is below 3 and the account has a user; otherwise it answers `GeneralFailure` with nothing changed |
| AccountManager.Logout | GCZ.Nuclei.API/Logic/AccountManager/Queries/Logout.cs:41-55 | invalid email gives `InvalidCredentials`; no `User` principal gives `Unauthorized`; an unregistered email gives `Authorization.GeneralFailure`, each with nothing changed; success happens exactly when the email is valid, a `User` principal exists and the email is registered; it ends the session when the principal is authenticated and otherwise leaves the principal as it was; counter, OTP and database are untouched |
| AccountManager.WrongPasswordLooksLikeUnknownEmail | GCZ.Nuclei.API/Logic/AccountManager/Queries/Login.cs:56-63 | a wrong password for a registered email and an unknown email give the same `InvalidCredentials` answer and the same state |
| AccountManager.LoginSucceeds | GCZ.Nuclei.API/Logic/AccountManager/Queries/Login.cs:52-75 | valid input, a found account, a matching password, a linked user and a counter below 2 give the account back with that user's principal |
| AccountManager.RegisterThenLogin | GCZ.Nuclei.API/Logic/AccountManager/Queries/Login.cs:52-75 | round trip: after a successful registration, logging in with the same email and password returns the new account and a principal with the registered names |
| AccountManager.LockedOutLogin | GCZ.Nuclei.API/Logic/AccountManager/Queries/Login.cs:54-68 | even with correct credentials, a counter of 2 or more on entry gives `GeneralFailure` and leaves the principal as it was |
| AccountManager.LoginThenLogout | GCZ.Nuclei.API/Logic/AccountManager/Queries/Logout.cs:41-55 | round trip: logging out right after a successful login succeeds and removes exactly the principal |
| AccountManager.LogoutIgnoresIdentity | GCZ.Nuclei.API/Logic/AccountManager/Queries/Logout.cs:46-52 | logout never compares the email with the principal: any two registered valid emails end the session in the same way |
| CancellationTokenBehavior.Handle | GCZ.Nuclei.API/Logic/Common/Behaviors/CancellationTokenBehavior.cs:12-26 | the handler's state change always stays; a response survives only an uncancelled token; a cancellation exception becomes `System.Timeout`; other exceptions pass through |
| CancellationTokenBehavior.HandleAbsorbsCancellation | GCZ.Nuclei.API/Logic/Common/Behaviors/CancellationTokenBehavior.cs:12-26 | no cancellation exception leaves the behaviour, and applying it twice with the same token is the same as once |
| CancellationTokenBehavior.UncancelledIsTransparent | GCZ.Nuclei.API/Logic/Common/Behaviors/CancellationTokenBehavior.cs:12-26 | with an uncancelled token and no cancellation exception, the behaviour changes nothing |
| AccountManagerController.Login | GCZ.Nuclei.API/ConsoleApp/Controllers/AccountManagerController.cs:28-42 | the query's state change stays; its exception escapes; a returned result is replaced by `InvalidCredentials` exactly when the OTP line does not validate |
| AccountManagerController.Register | GCZ.Nuclei.API/ConsoleApp/Controllers/AccountManagerController.cs:55-73 | nothing is sent exactly when the robot answer lowers to "y" or the terms answer lowers to "n"; otherwise the handler's state stays and its answer is replaced by `System.Timeout` when the token is cancelled |
| AccountManagerController.Logout | GCZ.Nuclei.API/ConsoleApp/Controllers/AccountManagerController.cs:44-53 | the handler's state stays; errors pass through and `true` becomes `CommandResponse(true)` |
| AccountManagerController.PromptAnswers | GCZ.Nuclei.API/ConsoleApp/Controllers/AccountManagerController.cs:58-64 | the prompts stop registration on "y"/"Y" and "n"/"N" respectively and on nothing else |
| AccountManagerController.CorrectOtpLogsIn | GCZ.Nuclei.API/ConsoleApp/Controllers/AccountManagerController.cs:28-42 | typing the code printed by a successful login completes it with the account |
| AccountManagerController.WrongOtpKeepsPrincipal | GCZ.Nuclei.API/ConsoleApp/Controllers/AccountManagerController.cs:33-36 | any other OTP line reports `InvalidCredentials`, yet the `User` principal the query installed remains signed in |
| AccountManagerController.TimedOutRegistrationIsStored | GCZ.Nuclei.API/ConsoleApp.Tests/Registration/RegistrationTest.cs:246-277 | a registration whose token expired answers `System.Timeout`, yet its account is stored |
| UserHandlers.UpdateUser | GCZ.Nuclei.API/Logic/Commands/Users/UpdateUser.cs:31-46 | no `User` principal gives `Unauthorized`, an unknown id `NotFound`, a failed save `User.Failure`, each with nothing changed; success happens exactly when authorized, found and saved, and then changes only that user's names and birthday |
| UserHandlers.GetUser | GCZ.Nuclei.API/Logic/Queries/Users/GetUser.cs:31-39 | read-only; without a `User` principal `Unauthorized`; otherwise the user stored under the id or `NotFound`; in a valid database the user returned has that id |
| UserHandlers.GetAllUsers | GCZ.Nuclei.API/Logic/Queries/Users/GetAllUsers.cs:30-38 | read-only; without `Admin` `Unauthorized`; with it, exactly the stored users, even when there are none |
| UserHandlers.InsertUser | GCZ.Nuclei.API/Logic/Commands/Users/InsertUser.cs:23-35 | no role check; a failed save gives `User.Failure` with nothing changed; success adds the user under the next id |
| UserHandlers.DeleteUser | GCZ.Nuclei.API/Logic/Commands/Users/DeleteUser.cs:21-27 | no role check; an unknown id gives `NotFound`; success happens exactly when found and saved, and then removes exactly that user, leaving accounts alone |
| UserHandlers.UpdateThenGet | GCZ.Nuclei.API/Logic/Commands/Users/UpdateUser.cs:31-46 | round trip: after a successful update, reading the user gives the new values |
| UserHandlers.DeleteThenGet | GCZ.Nuclei.API/Logic/Commands/Users/DeleteUser.cs:21-27 | round trip: after a successful delete, the user is not found |
| UserHandlers.InsertThenGet | GCZ.Nuclei.API/Logic/Commands/Users/InsertUser.cs:23-35 | round trip: an inserted user can be read back under the id it got |
| UserHandlers.InsertAndDeleteIgnoreAuth | GCZ.Nuclei.API/Logic/Commands/Users/InsertUser.cs:23-35 | insert-user and delete-user answer and store the same whoever is signed in, or nobody |
| AccountHandlers.GetAccount | GCZ.Nuclei.API/Logic/Queries/Accounts/GetAccount.cs:32-40 | read-only; without a `User` principal `Unauthorized`; otherwise the account with the id, with its user and without its password, or `Account.NotFound` |
| AccountHandlers.DeleteAccount | GCZ.Nuclei.API/Logic/Commands/Accounts/DeleteAccount.cs:27-37 | without `Admin` `Unauthorized`, an unknown id `NotFound`, a failed save `Account.Failure`, each with nothing changed; success happens exactly when authorized, found and saved, and then removes exactly that account |
| AccountHandlers.DeleteThenGet | GCZ.Nuclei.API/Logic/Commands/Accounts/DeleteAccount.cs:27-37 | round trip: a deleted account is no longer found and every other account reads as before |
| Session.InitialInvariant | GCZ.Nuclei.API/Services/Auth/AuthProvider.cs:15-20 | a fresh provider over an empty database satisfies the invariant |
| Session.NextPreservesInvariant | GCZ.Nuclei.API/Services/Auth/AuthProvider.cs:32-62 | every request keeps the database well formed and every principal authenticated and holding exactly `User` |
| Session.RunPreservesInvariant | GCZ.Nuclei.API/Services/Auth/AuthProvider.cs:32-62 | any sequence of requests keeps the invariant |
| Session.AdminHandlersUnreachable | GCZ.Nuclei.API/Logic/Queries/Users/GetAllUsers.cs:33-34 | in every reachable state nobody holds `Admin`: get-all-users and delete-account always answer `Unauthorized`, and delete-account changes nothing |
| Session.LogoutEndsSession | GCZ.Nuclei.API/Logic/AccountManager/Queries/Logout.cs:52-54 | in every reachable state a successful logout leaves no principal |
| Session.NextKeepsLockout | GCZ.Nuclei.API/Logic/AccountManager/Queries/Login.cs:54-68 | once the counter is 2 or more, no single request other than clearing lowers it or installs a principal |
| Session.LockoutPersists | GCZ.Nuclei.API/Services/Auth/AuthProvider.cs:24-34 | once the counter is 2 or more, no sequence of requests without clearing lowers it or signs anyone in |
| OtpExpiry.LoginAt | GCZ.Nuclei.API/ConsoleApp/Controllers/AccountManagerController.cs:28-42 | with the OTP line read at a given time and the issued code cleared on a given schedule, a login completes only if the query succeeded, the line is the printed code and it was read before the clearing, and it then returns the query's account; a failed query is answered as the controller answers it |
| OtpExpiry.LoginAsWritten | GCZ.Nuclei.API/ConsoleApp/Controllers/AccountManagerController.cs:28-42 | with the as-written timing, starting from no pending code, every login that returns answers `InvalidCredentials` and leaves no code pending |
| OtpExpiry.AsWrittenScheduleIsLoginAsWritten | GCZ.Nuclei.API/Services/Auth/AuthProvider.cs:66-76 | the timed login on the as-written schedule, read at any moment from issue on, is the clockless as-written login |
| OtpExpiry.IntendedScheduleIsControllerLogin | GCZ.Nuclei.API/Services/Auth/AuthProvider.cs:66-76 | the timed login on the intended two-minute schedule, read within two minutes of issue, is the controller's login without expiry |
| OtpExpiry.ConsoleLoginNeverCompletes | GCZ.Nuclei.API/ConsoleApp/Controllers/AccountManagerController.cs:33-36 | with the as-written timing, a correct login fails with `InvalidCredentials` even with the printed code typed in, at any moment after issue |
| OtpExpiry.ConsoleLoginCompletesInTime | GCZ.Nuclei.API/ConsoleApp/Controllers/AccountManagerController.cs:33-36 | with the intended timing, the printed code read within two minutes of issue completes the login with the query's account, and read later it gives `InvalidCredentials` |

## Left out

- The random number generators, PBKDF2 and the email regular expression are parameters.
  - PBKDF2 is any function that gives the requested number of bytes.
  - The email pattern is any predicate; only `EmailWithoutAt` assumes every match contains `@` (`MatchesNeedAt`).
  - Properties about a particular key or a particular email verdict are therefore not stated.
- Console reading and writing are left out. Input lines are parameters, and the printed OTP
  is the generated code.
- `LoggingBehavior` and the logging repository are left out; they write log rows and have no
  effect on the answers modelled here.
- Asynchrony and concurrency are left out: each request runs to completion. The background OTP
  task is its own event in `Session`.
  - `Session` does not model the interleaving in which the clearing task runs before
    `GenerateOTP` returns and the method returns null.
- Entity Framework change tracking, cascading deletes and SQL collation are left out.
  - The email lookup compares exactly. A case-insensitive database collation would also match
    other spellings.
  - Deleting a user leaves that user's accounts in place.
- Culture-sensitive `IndexOf` and `ToLower` are modelled for ASCII only:
  - `ToLower` changes only `A`-`Z`;
  - `IndexOf` compares characters exactly.
- Strings are sequences of characters, with no notion of UTF-16 surrogate pairs.
  - The password's `\d` class is ASCII `0`-`9`; .NET's `\d` also matches other Unicode digits.
  - Lengths are counted in characters, where .NET counts UTF-16 code units.
- `FromBase64String` is modelled without its tolerance of embedded white space.
- `DateTime`, its `ToString` in the claims, and the Mapster mappings to result and response
  objects are left out. The results keep the fields the handlers set.
- The user and account controllers pass their requests straight to the handlers without a
  token, so they are modelled as the handlers themselves.
- Types and the HTTP status codes of `CustomErrorTypes` are constants only; the errors'
  rendering is left out.
- UserHandlers.GetAllUsers: returns a set, so the row order of `ToListAsync` is not modelled.
- AuthProvider.IncrementAttempt: the counter is unbounded. The 32-bit wrap-around is modelled
  separately, under Findings.
- AuthProvider.ValidateOtp: states no contract of its own. Its meaning is given by
  `GeneratedOtpValidates`, `ValidateOtpAcceptsOnlyPending` and `ExpiredOtpRejectsAll`.
- PasswordHasher.Verify: models a stored value `Verify` cannot parse as throwing, which the
  source does. It does not require the stored value to come from `Hash`.
  - `Verify` throws `ArgumentOutOfRange` when the index of the first `=` plus 2 is past the
    end (an empty value, or a `=` in the last position), and `FormatException` when the text
    from that index is not base64. With no `=`, that index is 1.
  - `Login` lets those exceptions escape, and the controller does not catch them.

## Findings

| source | as written | input that shows it | evidently intended | confidence | as-written member | corrected member |
|---|---|---|---|---|---|---|
| GCZ.Nuclei.API/Services/Auth/AuthProvider.cs:11-34 | the attempt counter is an `int`, and `_authenticationAttempts++` wraps around in C#'s default unchecked context | a counter at 2147483647 (locked out) plus one more login attempt gives -2147483648, which passes the `>= 3` guard | a lockout that lasts until the counter is cleared | not executed; needs about 2^31 failed logins | AuthProvider.AttemptCounterWrapsAround | AuthProvider.LockoutIsPermanent |
| GCZ.Nuclei.API/Services/Auth/AuthProvider.cs:69-74 | the background task creates `Task.Delay(120000)` without awaiting it, then sets the OTP to null, so the code is cleared as soon as the task runs | a correct login followed by the printed OTP typed one second later is rejected with `InvalidCredentials` | the code stays valid for two minutes, as the comment and the delay value say | not executed; depends on thread-pool scheduling | OtpExpiry.ConsoleLoginNeverCompletes | OtpExpiry.ConsoleLoginCompletesInTime |
