/** The `Validate` methods shared by the register, login and logout handlers. */
module Validation {

  /** The RFC 5322-style email regular expression, left abstract as the predicate it decides. */
  type EmailPattern = string -> bool

  /** Whatever the expression's alternatives, every string it matches contains `@`: the pattern
      has a literal `@` between its local-part and domain alternatives. */
  ghost predicate MatchesNeedAt(pattern: EmailPattern) {
    forall e :: pattern(e) ==> '@' in e
  }

  /** The email half of every `Validate`: a pattern match and a non-empty string. */
  predicate EmailValid(email: string, pattern: EmailPattern) {
    pattern(email) && |email| > 0
  }

  predicate IsLower(c: char) { 'a' <= c <= 'z' }
  predicate IsUpper(c: char) { 'A' <= c <= 'Z' }
  predicate IsAsciiDigit(c: char) { '0' <= c <= '9' }
  predicate IsSymbol(c: char) { c == '.' || c == ',' || c == '@' || c == '!' || c == '-' }

  /** Some character of `s` satisfies `p`. */
  predicate Any(s: string, p: char -> bool)
    decreases |s|
  {
    |s| > 0 && (p(s[0]) || Any(s[1..], p))
  }

  lemma {:induction false} AnyMeansSome(s: string, p: char -> bool)
    ensures Any(s, p) <==> exists i :: 0 <= i < |s| && p(s[i])
    decreases |s|
  {
    if |s| > 0 {
      AnyMeansSome(s[1..], p);
      assert forall i :: 1 <= i < |s| ==> s[i] == s[1..][i - 1];
      if p(s[0]) {
      } else if exists i :: 0 <= i < |s| && p(s[i]) {
        var i :| 0 <= i < |s| && p(s[i]);
        assert p(s[1..][i - 1]);
      }
    }
  }

  /** The part of the password that `.{8,}$` must cover: .NET's `$` also matches just before a
      final newline, which is then left out. */
  function RegexBody(p: string): (b: string)
    ensures |b| == |p| || (|b| == |p| - 1 && p[|p| - 1] == '\n')
    ensures b == p[..|b|]
  {
    if |p| > 0 && p[|p| - 1] == '\n' then p[..|p| - 1] else p
  }

  /** `^(?=.*[a-z])(?=.*[A-Z])(?=.*\d)(?=.*[.,@!-]).{8,}$` with ASCII classes: at least eight
      characters other than a newline, followed by nothing or one newline, among which a lower-
      case letter, an upper-case letter, a digit and one of `. , @ ! -`. */
  predicate PasswordMatches(p: string) {
    var body := RegexBody(p);
    && |body| >= 8
    && !Any(body, c => c == '\n')
    && Any(body, IsLower)
    && Any(body, IsUpper)
    && Any(body, IsAsciiDigit)
    && Any(body, IsSymbol)
  }

  /** The password half of `Validate`: the pattern, plus `0 < Length < 50`. */
  predicate PasswordValid(p: string) {
    PasswordMatches(p) && 0 < |p| < 50
  }

  /** `Validate` of the register and login handlers. */
  predicate CredentialsValid(email: string, password: string, pattern: EmailPattern) {
    EmailValid(email, pattern) && PasswordValid(password)
  }

  /** The policy in words: 8 to 49 characters with no line break, except that one trailing line
      break is tolerated, containing a lower-case letter, an upper-case letter, a digit and one
      of `. , @ ! -` (all before that trailing break). */
  lemma PasswordPolicy(p: string)
    ensures PasswordValid(p) <==>
      var n := if |p| > 0 && p[|p| - 1] == '\n' then |p| - 1 else |p|;
      && 8 <= n && |p| < 50
      && (forall i :: 0 <= i < n ==> p[i] != '\n')
      && (exists i :: 0 <= i < n && IsLower(p[i]))
      && (exists i :: 0 <= i < n && IsUpper(p[i]))
      && (exists i :: 0 <= i < n && IsAsciiDigit(p[i]))
      && (exists i :: 0 <= i < n && IsSymbol(p[i]))
  {
    var body := RegexBody(p);
    AnyMeansSome(body, c => c == '\n');
    AnyMeansSome(body, IsLower);
    AnyMeansSome(body, IsUpper);
    AnyMeansSome(body, IsAsciiDigit);
    AnyMeansSome(body, IsSymbol);
    assert forall i :: 0 <= i < |body| ==> body[i] == p[i];
  }

  /** A single left-to-right scan that decides the same thing as the regular expression. */
  method CheckPassword(p: string) returns (ok: bool)
    ensures ok <==> PasswordValid(p)
  {
    var n := if |p| > 0 && p[|p| - 1] == '\n' then |p| - 1 else |p|;
    var lower, upper, digit, symbol, newline := false, false, false, false, false;
    var i := 0;
    while i < n
      invariant 0 <= i <= n
      invariant lower <==> exists j :: 0 <= j < i && IsLower(p[j])
      invariant upper <==> exists j :: 0 <= j < i && IsUpper(p[j])
      invariant digit <==> exists j :: 0 <= j < i && IsAsciiDigit(p[j])
      invariant symbol <==> exists j :: 0 <= j < i && IsSymbol(p[j])
      invariant newline <==> exists j :: 0 <= j < i && p[j] == '\n'
    {
      var c := p[i];
      lower := lower || IsLower(c);
      upper := upper || IsUpper(c);
      digit := digit || IsAsciiDigit(c);
      symbol := symbol || IsSymbol(c);
      newline := newline || c == '\n';
      i := i + 1;
    }
    PasswordPolicy(p);
    ok := 8 <= n && |p| < 50 && !newline && lower && upper && digit && symbol;
  }

  /** The registration example "Test123@" is accepted. */
  lemma AcceptedExample()
    ensures PasswordValid("Test123@")
  {
    var p := "Test123@";
    PasswordPolicy(p);
    assert IsLower(p[1]) && IsUpper(p[0]) && IsAsciiDigit(p[4]) && IsSymbol(p[7]);
  }

  /** The registration example "Test1234" is rejected: it has no symbol. */
  lemma RejectedExample()
    ensures !PasswordValid("Test1234")
  {
    var p := "Test1234";
    assert RegexBody(p) == p;
    AnyMeansSome(p, IsSymbol);
    assert forall i :: 0 <= i < |p| ==> !IsSymbol(p[i]);
  }

  /** An address without `@` fails validation under any pattern whose matches contain `@`. */
  lemma EmailWithoutAt(pattern: EmailPattern)
    requires MatchesNeedAt(pattern)
    ensures !EmailValid("validemail.com", pattern)
    ensures !EmailValid("", pattern)
  {
    assert '@' !in "validemail.com";
  }
}
