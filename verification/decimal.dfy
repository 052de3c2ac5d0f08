/** Decimal digit strings: Python's `str(n)` for a non-negative `int`,
    `int(s)` for a string of ASCII digits, and `str.isdigit()` restricted to
    ASCII. */
module Decimal {

  predicate IsDigit(c: char)
  {
    '0' <= c <= '9'
  }

  /** `s.isdigit()`: non-empty and every character a digit. */
  predicate IsDigits(s: string)
  {
    |s| > 0 && forall i :: 0 <= i < |s| ==> IsDigit(s[i])
  }

  function DigitValue(c: char): (d: nat)
    requires IsDigit(c)
    ensures d < 10
  {
    (c as int) - ('0' as int)
  }

  function DigitChar(d: nat): (c: char)
    requires d < 10
    ensures IsDigit(c) && DigitValue(c) == d
  {
    (('0' as int) + d) as char
  }

  /** `int(s)` for a string of digits (leading zeros allowed). It reads zero
      exactly when every digit is `0`. */
  function ParseNat(s: string): (n: nat)
    requires forall i :: 0 <= i < |s| ==> IsDigit(s[i])
    ensures n == 0 <==> forall i :: 0 <= i < |s| ==> s[i] == '0'
  {
    if |s| == 0 then 0 else 10 * ParseNat(s[..|s| - 1]) + DigitValue(s[|s| - 1])
  }

  /** `str(n)` for a non-negative integer: digits only, and no leading zero
      unless the number is zero. */
  function ShowNat(n: nat): (s: string)
    ensures IsDigits(s)
    ensures s[0] == '0' ==> n == 0
    ensures n < 10 <==> |s| == 1
  {
    if n < 10 then [DigitChar(n)] else ShowNat(n / 10) + [DigitChar(n % 10)]
  }

  /** Reading back the decimal text of a number yields the number. */
  lemma {:induction false} ParseShow(n: nat)
    ensures ParseNat(ShowNat(n)) == n
  {
    var s := ShowNat(n);
    if n < 10 {
      assert s[..0] == [];
    } else {
      assert s[..|s| - 1] == ShowNat(n / 10);
      ParseShow(n / 10);
    }
  }

  /** A digit string as `str` writes it (no leading zero unless it is `"0"`). */
  predicate Canonical(s: string)
  {
    IsDigits(s) && (s[0] != '0' || |s| == 1)
  }

  /** Writing back the integer of a canonical digit string gives the string:
      together with `ParseShow`, `int` and `str` are inverse bijections between
      the naturals and the canonical digit strings. */
  lemma {:induction false} ShowParse(s: string)
    requires Canonical(s)
    ensures ShowNat(ParseNat(s)) == s
    decreases |s|
  {
    var n := ParseNat(s);
    var c := s[|s| - 1];
    var d := DigitValue(c);
    assert DigitChar(d) == c;
    if |s| == 1 {
      assert s[..0] == [];
      assert s == [c];
    } else {
      var pre := s[..|s| - 1];
      assert pre[0] == s[0] != '0';
      ShowParse(pre);
      assert n == 10 * ParseNat(pre) + d && ParseNat(pre) > 0;
      assert n / 10 == ParseNat(pre) && n % 10 == d;
      assert s == pre + [c];
    }
  }

  /** Distinct numbers have distinct decimal texts. */
  lemma ShowInjective(m: nat, n: nat)
    requires m != n
    ensures ShowNat(m) != ShowNat(n)
  {
    ParseShow(m);
    ParseShow(n);
  }
}
