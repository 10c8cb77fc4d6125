/** The few .NET string operations the core relies on, on `string == seq<char>`. */
module Text {

  /** `s.IndexOf(c)`: the first position holding `c`, or -1 when there is none. */
  function IndexOf(s: string, c: char): (r: int)
    ensures -1 <= r < |s|
    ensures r >= 0 ==> s[r] == c && forall i :: 0 <= i < r ==> s[i] != c
    ensures r == -1 ==> forall i :: 0 <= i < |s| ==> s[i] != c
    decreases |s|
  {
    if |s| == 0 then -1
    else if s[0] == c then 0
    else
      var k := IndexOf(s[1..], c);
      if k == -1 then -1 else k + 1
  }

  /** The first occurrence of `c` is found inside a prefix that already contains it. */
  lemma IndexOfInPrefix(a: string, b: string, c: char, k: nat)
    requires k < |a| && a[k] == c
    requires forall i :: 0 <= i < k ==> a[i] != c
    ensures IndexOf(a + b, c) == k
  {
    var s := a + b;
    assert s[k] == c;
    assert forall i :: 0 <= i < k ==> s[i] == a[i];
  }

  function LowerChar(c: char): char {
    if 'A' <= c <= 'Z' then (c as int - 'A' as int + 'a' as int) as char else c
  }

  /** `s.ToLower()`, restricted to the ASCII letters. */
  function ToLower(s: string): string {
    seq(|s|, i requires 0 <= i < |s| => LowerChar(s[i]))
  }

  /** A console answer compares equal to a one-letter lower-case word after `ToLower()`
      exactly when it is that letter in either case. */
  lemma ToLowerIsLetter(s: string, lower: char)
    requires 'a' <= lower <= 'z'
    ensures ToLower(s) == [lower] <==> s == [lower] || s == [(lower as int - 'a' as int + 'A' as int) as char]
  {
    var upper := (lower as int - 'a' as int + 'A' as int) as char;
    if ToLower(s) == [lower] {
      assert |s| == 1;
      assert ToLower(s)[0] == LowerChar(s[0]) == lower;
      assert s == [s[0]];
    }
    if s == [upper] {
      assert ToLower(s)[0] == lower;
    }
  }

  // ---- decimal numerals ----

  predicate IsDigit(c: char) { '0' <= c <= '9' }

  predicate IsNumeral(s: string) { forall i :: 0 <= i < |s| ==> IsDigit(s[i]) }

  function Digit(d: int): (c: char)
    requires 0 <= d < 10
  {
    ('0' as int + d) as char
  }

  function DigitValue(c: char): int
    requires IsDigit(c)
  {
    c as int - '0' as int
  }

  /** The number a string of decimal digits denotes. */
  function DecimalValue(s: string): nat
    requires IsNumeral(s)
  {
    if |s| == 0 then 0 else DecimalValue(s[..|s| - 1]) * 10 + DigitValue(s[|s| - 1])
  }

  function Pow10(k: nat): nat {
    if k == 0 then 1 else 10 * Pow10(k - 1)
  }

  lemma {:induction false} Pow10Monotonic(j: nat, k: nat)
    requires j <= k
    ensures Pow10(j) <= Pow10(k)
    decreases k
  {
    if j < k {
      Pow10Monotonic(j, k - 1);
    }
  }

  /** The shortest decimal numeral of `n` (what `n.ToString()` prints for n >= 0). */
  function DecimalDigits(n: nat): (s: string)
    ensures 1 <= |s| && IsNumeral(s)
    ensures DecimalValue(s) == n
    ensures n > 0 ==> s[0] != '0'
    ensures n < Pow10(|s|) && (|s| > 1 ==> Pow10(|s| - 1) <= n)
    decreases n
  {
    if n < 10 then [Digit(n)]
    else
      var prefix := DecimalDigits(n / 10);
      var s := prefix + [Digit(n % 10)];
      assert s[..|s| - 1] == prefix;
      s
  }

  function Zeros(k: nat): (z: string)
    ensures |z| == k && IsNumeral(z)
  {
    seq(k, _ => '0')
  }

  /** Leading zeros do not change the value of a numeral. */
  lemma {:induction false} ZerosDoNotCount(k: nat, s: string)
    requires IsNumeral(s)
    ensures IsNumeral(Zeros(k) + s) && DecimalValue(Zeros(k) + s) == DecimalValue(s)
    decreases |s|
  {
    var t := Zeros(k) + s;
    assert IsNumeral(t) by {
      forall i | 0 <= i < |t| ensures IsDigit(t[i]) {
        if i < k { assert t[i] == '0'; } else { assert t[i] == s[i - k]; }
      }
    }
    if |s| == 0 {
      ZerosValue(k);
      assert t == Zeros(k);
    } else {
      var init := s[..|s| - 1];
      ZerosDoNotCount(k, init);
      assert t[..|t| - 1] == Zeros(k) + init;
    }
  }

  lemma {:induction false} ZerosValue(k: nat)
    ensures DecimalValue(Zeros(k)) == 0
  {
    if k > 0 {
      ZerosValue(k - 1);
      assert Zeros(k)[..k - 1] == Zeros(k - 1);
    }
  }

  /** `n.ToString("D6")`: the decimal numeral of `n`, left-padded with zeros to six digits. */
  function ToStringD6(n: nat): (s: string)
    ensures IsNumeral(s) && DecimalValue(s) == n
    ensures |s| >= 6
    ensures |s| > 6 ==> s[0] != '0'
  {
    var digits := DecimalDigits(n);
    ZerosDoNotCount(if |digits| < 6 then 6 - |digits| else 0, digits);
    if |digits| < 6 then Zeros(6 - |digits|) + digits else digits
  }

  /** A six-digit number prints as exactly six digits, none of them padding. */
  lemma ToStringD6SixDigits(n: nat)
    requires 100000 <= n < 1000000
    ensures |ToStringD6(n)| == 6 && ToStringD6(n)[0] != '0'
    ensures ToStringD6(n) == DecimalDigits(n)
  {
    var d := DecimalDigits(n);
    if |d| < 6 {
      assert Pow10(5) == 100000;
      Pow10Monotonic(|d|, 5);
    }
    if |d| > 6 {
      assert Pow10(6) == 1000000;
      Pow10Monotonic(6, |d| - 1);
    }
  }
}
