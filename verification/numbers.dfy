/** Java's fixed-width integers and the conversions between numbers and
    decimal text that the pages and commands rely on. */
module Numbers {
  import opened Wrappers

  const MinInt: int := -0x8000_0000
  const MaxInt: int := 0x7fff_ffff
  const MinLong: int := -0x8000_0000_0000_0000
  const MaxLong: int := 0x7fff_ffff_ffff_ffff

  /** A Java `int`. */
  type Int32 = x: int | MinInt <= x <= MaxInt
  /** A Java `long`. */
  type Long = x: int | MinLong <= x <= MaxLong

  /** Two's-complement wrap-around of an exact result into a Java `long`. */
  function WrapLong(x: int): (r: Long)
    ensures (r - x) % 0x1_0000_0000_0000_0000 == 0
    ensures MinLong <= x <= MaxLong ==> r == x
  {
    (x - MinLong) % 0x1_0000_0000_0000_0000 + MinLong
  }

  /** Java's integer division, which truncates toward zero (Dafny's `/` is Euclidean). */
  function TruncDiv(a: int, b: int): (q: int)
    requires b > 0
    // the quotient has the sign of `a` and the remainder `a - q * b` has the sign of `a` too
    ensures a >= 0 ==> q >= 0 && q * b <= a < q * b + b
    ensures a < 0 ==> q <= 0 && q * b - b < a <= q * b
  {
    if a >= 0 then a / b else -((-a) / b)
  }

  predicate IsDigit(c: char) {
    '0' <= c <= '9'
  }

  function DigitValue(c: char): (d: nat)
    requires IsDigit(c)
    ensures d < 10
  {
    c as int - '0' as int
  }

  function DigitChar(d: nat): (c: char)
    requires d < 10
    ensures IsDigit(c) && DigitValue(c) == d
  {
    ('0' as int + d) as char
  }

  predicate AllDigits(s: string) {
    forall i :: 0 <= i < |s| ==> IsDigit(s[i])
  }

  /** The value of a string of decimal digits, most significant first. */
  function DigitsValue(s: string): nat
    requires AllDigits(s)
  {
    if |s| == 0 then 0 else DigitsValue(s[..|s| - 1]) * 10 + DigitValue(s[|s| - 1])
  }

  /** The shortest decimal text of `n`, as `Integer.toString` writes a non-negative number. */
  function Decimal(n: nat): (s: string)
    ensures |s| >= 1 && AllDigits(s)
    ensures |s| > 1 ==> s[0] != '0'
    decreases n
  {
    if n < 10 then [DigitChar(n)] else Decimal(n / 10) + [DigitChar(n % 10)]
  }

  /** The digits part of a number: what follows an optional leading sign. */
  function Magnitude(s: string): (m: string)
    ensures |m| <= |s| && m == s[|s| - |m|..]
  {
    if |s| > 0 && (s[0] == '-' || s[0] == '+') then s[1..] else s
  }

  /** The value a signed decimal string denotes, before any range check. */
  function SignedValue(s: string): int
    requires AllDigits(Magnitude(s))
  {
    if |s| > 0 && s[0] == '-' then 0 - DigitsValue(Magnitude(s)) as int else DigitsValue(Magnitude(s))
  }

  /** Kotlin's `String.toIntOrNull()` for ASCII digits: an optional `+` or `-`,
      then at least one digit, and the value must fit in an `int`. */
  function ParseInt(s: string): (r: Option<Int32>)
    ensures r.Some? <==> && |Magnitude(s)| > 0 && AllDigits(Magnitude(s))
                         && MinInt <= SignedValue(s) <= MaxInt
    ensures r.Some? ==> r.value == SignedValue(s)
    ensures r.Some? ==> |s| >= 1
    ensures r.Some? && r.value < 0 ==> s[0] == '-'
  {
    if |s| == 0 then None
    else
      var digits := Magnitude(s);
      if |digits| == 0 || !AllDigits(digits) then None
      else
        var v := SignedValue(s);
        if MinInt <= v <= MaxInt then Some(v) else None
  }

  /** The page index of a listing: the `page` parameter, or 0 when it is
      missing or not a number. */
  function PageIndex(page: Option<string>): (r: int)
    ensures page.None? ==> r == 0
    ensures page.Some? && ParseInt(page.value).None? ==> r == 0
    ensures page.Some? && ParseInt(page.value).Some? ==> r == ParseInt(page.value).value
  {
    match page
    case None => 0
    case Some(p) => ParseInt(p).GetOr(0)
  }

  lemma {:induction false} DecimalValue(n: nat)
    ensures DigitsValue(Decimal(n)) == n
    decreases n
  {
    if n >= 10 {
      DecimalValue(n / 10);
      var s := Decimal(n);
      assert s[..|s| - 1] == Decimal(n / 10);
    }
  }

  /** Writing a number in decimal and reading it back with `toIntOrNull`
      gives the number again, for every non-negative `int`. */
  lemma DecimalParsesBack(n: nat)
    requires n <= MaxInt
    ensures ParseInt(Decimal(n)) == Some(n)
  {
    DecimalValue(n);
  }

  /** The same for negative numbers written with a leading minus sign,
      down to `Int.MIN_VALUE`. */
  lemma NegativeDecimalParsesBack(n: nat)
    requires 0 < n <= -MinInt
    ensures ParseInt("-" + Decimal(n)) == Some((0 - n) as Int32)
  {
    DecimalValue(n);
    assert ("-" + Decimal(n))[1..] == Decimal(n);
  }

  /** A character that is not a digit after a number spoils it: `toIntOrNull`
      accepts no trailing text. */
  lemma TrailingTextDoesNotParse(s: string, c: char)
    requires !IsDigit(c)
    ensures ParseInt(s + [c]) == None
  {
    var m := Magnitude(s + [c]);
    if |m| > 0 {
      assert m[|m| - 1] == c;
    }
  }

  /** A number one past the `int` range does not parse. */
  lemma OverflowDoesNotParse()
    ensures ParseInt(Decimal(MaxInt + 1)) == None
  {
    DecimalValue(MaxInt + 1);
  }
}
