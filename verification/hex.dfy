/** Hexadecimal fields of a map-file line (`NumberStyles.HexNumber`): one or more digits
    `0-9`, `a-f`, `A-F`, no sign and no `0x` prefix. */
module Hex {
  import opened Wrappers

  predicate IsHexDigit(c: char) {
    '0' <= c <= '9' || 'a' <= c <= 'f' || 'A' <= c <= 'F'
  }

  function DigitValue(c: char): (d: nat)
    requires IsHexDigit(c)
    ensures d < 16
  {
    if '0' <= c <= '9' then c as int - '0' as int
    else if 'a' <= c <= 'f' then c as int - 'a' as int + 10
    else c as int - 'A' as int + 10
  }

  predicate AllHexDigits(s: string) {
    forall k :: 0 <= k < |s| ==> IsHexDigit(s[k])
  }

  /** The digits read most significant first. */
  function Value(s: string): nat
    requires AllHexDigits(s)
  {
    if |s| == 0 then 0 else Value(s[..|s| - 1]) * 16 + DigitValue(s[|s| - 1])
  }

  /** Parsing fails (the original throws) on an empty field or a non-digit. */
  function ParseHex(s: string): (r: Option<nat>)
    ensures r.Some? <==> |s| > 0 && AllHexDigits(s)
  {
    if |s| > 0 && AllHexDigits(s) then Some(Value(s)) else None
  }

  function DigitChar(d: nat): (c: char)
    requires d < 16
    ensures IsHexDigit(c) && DigitValue(c) == d
  {
    if d < 10 then ('0' as int + d) as char else ('A' as int + d - 10) as char
  }

  /** The upper-case hexadecimal spelling of `n`, without leading zeros. */
  function ToHex(n: nat): (r: string)
    ensures |r| > 0 && AllHexDigits(r)
  {
    if n < 16 then [DigitChar(n)] else ToHex(n / 16) + [DigitChar(n % 16)]
  }

  /** Reading back what `ToHex` spells gives the number again. */
  lemma {:induction false} ParseToHex(n: nat)
    ensures ParseHex(ToHex(n)) == Some(n)
  {
    var s := ToHex(n);
    if n >= 16 {
      ParseToHex(n / 16);
      assert s[..|s| - 1] == ToHex(n / 16);
      assert Value(s) == Value(ToHex(n / 16)) * 16 + n % 16 == n;
    } else {
      assert s[..0] == [];
      assert Value(s) == n;
    }
  }

  /** A field of `k` digits reads as a number below `16^k`. */
  lemma {:induction false} ValueBelow(s: string)
    requires AllHexDigits(s)
    ensures Value(s) < Pow16(|s|)
  {
    if |s| > 0 {
      ValueBelow(s[..|s| - 1]);
    }
  }

  function Pow16(k: nat): (r: nat)
    ensures r > 0
  {
    if k == 0 then 1 else 16 * Pow16(k - 1)
  }
}
