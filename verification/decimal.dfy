/** Decimal text of integers, as string interpolation writes them (invariant culture:
    an optional `-` and the digits, no grouping). */
module Decimal {

  predicate IsDigit(c: char) { '0' <= c <= '9' }

  /** The digits of `n`, most significant first, without leading zeros. */
  function Digits(n: nat): (r: string)
    ensures |r| > 0 && forall k :: 0 <= k < |r| ==> IsDigit(r[k])
    decreases n
  {
    var last := ('0' as int + n % 10) as char;
    if n < 10 then [last] else Digits(n / 10) + [last]
  }

  /** `n.ToString()`. */
  function Format(n: int): (r: string)
    ensures |r| > 0 && forall k :: 0 <= k < |r| ==> IsDigit(r[k]) || r[k] == '-'
  {
    if n < 0 then "-" + Digits(-n) else Digits(n)
  }

  /** The value of a string of digits. */
  function Value(s: string): int
    decreases |s|
  {
    if |s| == 0 then 0 else 10 * Value(s[..|s| - 1]) + (s[|s| - 1] as int - '0' as int)
  }

  /** Reading the text back: the inverse of `Format`. */
  function Parse(s: string): int {
    if |s| > 0 && s[0] == '-' then -Value(s[1..]) else Value(s)
  }

  lemma {:induction false} DigitsValue(n: nat)
    ensures Value(Digits(n)) == n
    decreases n
  {
    var last := ('0' as int + n % 10) as char;
    if n >= 10 {
      var d := Digits(n / 10) + [last];
      assert d[..|d| - 1] == Digits(n / 10);
      DigitsValue(n / 10);
    }
  }

  /** Formatting then reading back gives the number. */
  lemma FormatParse(n: int)
    ensures Parse(Format(n)) == n
  {
    if n < 0 {
      assert Format(n)[1..] == Digits(-n);
      DigitsValue(-n);
    } else {
      DigitsValue(n);
    }
  }

  /** Formatting is injective: distinct numbers have distinct texts. */
  lemma FormatInjective(m: int, n: int)
    ensures Format(m) == Format(n) <==> m == n
  {
    FormatParse(m);
    FormatParse(n);
  }
}
