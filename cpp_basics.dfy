/** The pieces of C++ and of its standard library that the exercises lean on
    without defining them: `std::to_string` on `int`, the built-in `%` on `int`,
    `std::isupper` in the "C" locale and `std::min`. */
module CppBasics {

  /** The character of a decimal digit. */
  function DigitChar(d: nat): (c: char)
    requires d < 10
    ensures '0' <= c <= '9'
    ensures c as int - '0' as int == d
  {
    (48 + d) as char
  }

  predicate IsDigit(c: char) {
    '0' <= c <= '9'
  }

  predicate AllDigits(s: string) {
    forall i :: 0 <= i < |s| ==> IsDigit(s[i])
  }

  /** The decimal digits of n, most significant first, without leading zeros. */
  function NatDigits(n: nat): (s: string)
    ensures |s| > 0 && AllDigits(s)
    ensures |s| > 1 ==> s[0] != '0'
    decreases n
  {
    if n < 10 then [DigitChar(n)] else NatDigits(n / 10) + [DigitChar(n % 10)]
  }

  /** `std::to_string(int)`: a minus sign for a negative value, then the
      decimal digits of its magnitude. */
  function ToString(n: int): (s: string)
    ensures |s| > 0
    ensures n < 0 <==> s[0] == '-'
  {
    if n < 0 then "-" + NatDigits(-n) else NatDigits(n)
  }

  /** The value of a string of decimal digits (the inverse of NatDigits). */
  function DigitsValue(s: string): nat
    requires AllDigits(s)
  {
    if s == [] then 0 else DigitsValue(s[..|s| - 1]) * 10 + (s[|s| - 1] as int - '0' as int)
  }

  /** The strings `std::to_string` can produce: an optional minus sign, then digits. */
  predicate IsDecimal(s: string) {
    if |s| > 0 && s[0] == '-' then |s| > 1 && AllDigits(s[1..]) else |s| > 0 && AllDigits(s)
  }

  function ParseInt(s: string): int
    requires IsDecimal(s)
  {
    if s[0] == '-' then -(DigitsValue(s[1..]) as int) else DigitsValue(s)
  }

  lemma {:induction false} NatDigitsValue(n: nat)
    ensures DigitsValue(NatDigits(n)) == n
    decreases n
  {
    if n >= 10 {
      var p := NatDigits(n / 10);
      var s := p + [DigitChar(n % 10)];
      assert s[..|s| - 1] == p;
      NatDigitsValue(n / 10);
    }
  }

  /** Reading back what `std::to_string` wrote gives the number again. */
  lemma ToStringRoundTrip(n: int)
    ensures IsDecimal(ToString(n)) && ParseInt(ToString(n)) == n
  {
    if n < 0 {
      var s := ToString(n);
      assert s[1..] == NatDigits(-n);
      NatDigitsValue(-n);
    } else {
      NatDigitsValue(n);
    }
  }

  /** Distinct numbers have distinct decimal forms. */
  lemma ToStringInjective(a: int, b: int)
    ensures ToString(a) == ToString(b) ==> a == b
  {
    ToStringRoundTrip(a);
    ToStringRoundTrip(b);
  }

  /** The built-in `%` of C++ on `int`: the quotient is truncated toward
      zero, so the remainder takes the sign of the dividend (Dafny's own `%`
      is Euclidean and never negative). */
  function Rem(a: int, b: int): (r: int)
    requires b != 0
    ensures a >= 0 ==> 0 <= r
    ensures a < 0 ==> r <= 0
    ensures -b < r < b || b < r < -b
  {
    if a >= 0 then a % b else -((-a) % b)
  }

  /** The built-in `/` of C++ on `int`: the quotient truncated toward zero. */
  function Quot(a: int, b: int): int
    requires b != 0
  {
    if a >= 0 then a / b else -((-a) / b)
  }

  /** C++ guarantees `(a / b) * b + a % b == a`: Rem is the remainder of
      the truncated quotient. */
  lemma RemQuotient(a: int, b: int)
    requires b != 0
    ensures a == Quot(a, b) * b + Rem(a, b)
  {
    if a >= 0 {
      assert a == (a / b) * b + a % b;
    } else {
      assert -a == ((-a) / b) * b + (-a) % b;
    }
  }

  /** The division identity together with the sign and the bound of Rem
      leaves no other choice: any r with a == q * b + r, r of the sign of
      a and smaller than b in magnitude is Rem(a, b). */
  lemma RemUnique(a: int, b: int, q: int, r: int)
    requires b != 0
    requires a == q * b + r
    requires a >= 0 ==> 0 <= r
    requires a < 0 ==> r <= 0
    requires -b < r < b || b < r < -b
    ensures r == Rem(a, b) && q == Quot(a, b)
  {
    RemQuotient(a, b);
    var q', r' := Quot(a, b), Rem(a, b);
    assert (q - q') * b == r' - r;
    if q != q' {
      MultipleBound(q - q', b);
    }
  }

  /** A non-zero multiple of b is at least b in magnitude. */
  lemma MultipleBound(k: int, b: int)
    requires k != 0 && b != 0
    ensures k * b >= b || k * b <= -b
    ensures k * b >= -b || k * b <= b
  {
    if k > 0 {
      if b > 0 { assert k * b >= 1 * b; } else { assert k * b <= 1 * b; }
    } else {
      if b > 0 { assert k * b <= -1 * b; } else { assert k * b >= -1 * b; }
    }
  }

  /** With divisor 2 the C++ remainder is zero exactly for the even numbers,
      but it is 1 only for the positive odd ones: a negative odd number has
      remainder -1. */
  lemma RemTwo(n: int)
    ensures Rem(n, 2) == 0 <==> n % 2 == 0
    ensures Rem(n, 2) == 1 <==> n > 0 && n % 2 == 1
    ensures n < 0 && n % 2 == 1 ==> Rem(n, 2) == -1
  {
    if n < 0 {
      assert (-n) % 2 == 0 <==> n % 2 == 0;
    }
  }

  /** `std::isupper` in the "C" locale. */
  predicate IsUpper(c: char) {
    'A' <= c <= 'Z'
  }

  /** `std::min(a, b)`, which is `(b < a) ? b : a`: on a tie it returns its first argument. */
  function Min(a: int, b: int): (r: int)
    ensures r <= a && r <= b
    ensures r == a || r == b
    ensures a <= b ==> r == a
  {
    if b < a then b else a
  }
}
