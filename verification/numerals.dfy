/**
 * Text forms of numbers as printf writes them: `%x` / PRIx64 (lower-case
 * hexadecimal, no leading zeros, no padding) and `%d` (signed decimal).
 * The memory view labels each row with `0x<hex>: ` and the terminal prints
 * the exit code with `%d`.
 */
module Numerals {

  predicate IsBase(base: nat) { base == 10 || base == 16 }

  /** True if `c` is a lower-case digit character of `base`. */
  predicate IsDigitOf(c: char, base: nat)
    requires IsBase(base)
  {
    ('0' <= c <= '9') || (base == 16 && 'a' <= c <= 'f')
  }

  /** The character of one digit value: `0`-`9`, then `a`-`f`. */
  function DigitChar(d: nat): (c: char)
    requires d < 16
    ensures IsDigitOf(c, 16) && (d < 10 ==> IsDigitOf(c, 10))
  {
    if d < 10 then ('0' as int + d) as char else ('a' as int + d - 10) as char
  }

  /** The value of one digit character, the inverse of DigitChar. */
  function DigitValue(c: char): (d: nat)
    requires IsDigitOf(c, 16)
    ensures d < 16 && DigitChar(d) == c
  {
    if '0' <= c <= '9' then c as int - '0' as int else c as int - 'a' as int + 10
  }

  /**
   * The digits of `n` in `base`, most significant first, without leading
   * zeros; zero is written as the single digit `0`.
   */
  function Digits(n: nat, base: nat): (r: string)
    requires IsBase(base)
    ensures |r| >= 1
    ensures forall i :: 0 <= i < |r| ==> IsDigitOf(r[i], base)
    ensures |r| > 1 ==> r[0] != '0'
    ensures n < base <==> |r| == 1
    decreases n
  {
    if n < base then [DigitChar(n)]
    else Digits(n / base, base) + [DigitChar(n % base)]
  }

  /** The number a string of digits denotes in `base` (what strtoul computes). */
  function Value(s: string, base: nat): nat
    requires IsBase(base)
    requires forall i :: 0 <= i < |s| ==> IsDigitOf(s[i], base)
    decreases |s|
  {
    if s == [] then 0
    else
      var last := s[|s| - 1];
      assert IsDigitOf(last, base);
      Value(s[..|s| - 1], base) * base + DigitValue(last)
  }

  /** Reading back the digits printed for `n` gives `n`: the label is unambiguous. */
  lemma {:induction false} ValueOfDigits(n: nat, base: nat)
    requires IsBase(base)
    ensures Value(Digits(n, base), base) == n
    decreases n
  {
    var r := Digits(n, base);
    if n < base {
      assert r[..0] == [];
      assert DigitValue(DigitChar(n)) == n;
    } else {
      var hi := Digits(n / base, base);
      assert r[..|r| - 1] == hi;
      assert DigitValue(r[|r| - 1]) == n % base by {
        assert r[|r| - 1] == DigitChar(n % base);
      }
      ValueOfDigits(n / base, base);
      assert Value(r, base) == (n / base) * base + n % base;
    }
  }

  /** Two different numbers never get the same digits. */
  lemma DigitsInjective(m: nat, n: nat, base: nat)
    requires IsBase(base)
    requires Digits(m, base) == Digits(n, base)
    ensures m == n
  {
    ValueOfDigits(m, base);
    ValueOfDigits(n, base);
  }

  /** `%d`: an optional minus sign followed by the decimal digits of |n|. */
  function Decimal(n: int): (r: string)
    ensures |r| >= 1
    ensures r[0] == '-' <==> n < 0
    ensures n >= 0 ==> r == Digits(n, 10)
    ensures n < 0 ==> r[1..] == Digits(-n, 10)
  {
    if n < 0 then "-" + Digits(-n, 10) else Digits(n, 10)
  }
}
