/**
 * String helpers the report code relies on: `String.lastIndexOf(char)` and
 * the decimal rendering of an `int` (what `"..." + n` and `%d` produce),
 * with a parser that inverts it.
 */
module Strings {

  import opened Wrappers

  /** `s.lastIndexOf(c)`: the index of the last occurrence, -1 if none. */
  function LastIndexOf(s: string, c: char): (r: int)
    ensures -1 <= r < |s|
    ensures r == -1 ==> forall j :: 0 <= j < |s| ==> s[j] != c
    ensures r >= 0 ==> s[r] == c && forall j :: r < j < |s| ==> s[j] != c
  {
    if s == [] then -1
    else if s[|s| - 1] == c then |s| - 1
    else LastIndexOf(s[..|s| - 1], c)
  }

  /** The first occurrence of c, -1 if none (the counterpart used by the
      parsers below). */
  function IndexOf(s: string, c: char): (r: int)
    ensures -1 <= r < |s|
    ensures r == -1 ==> forall j :: 0 <= j < |s| ==> s[j] != c
    ensures r >= 0 ==> s[r] == c && forall j :: 0 <= j < r ==> s[j] != c
  {
    if s == [] then -1
    else if s[0] == c then 0
    else
      var r := IndexOf(s[1..], c);
      if r == -1 then -1 else r + 1
  }

  /** In a + [c] + b with no c in b, the last c is the one after a. */
  lemma LastIndexOfSplit(a: string, c: char, b: string)
    requires c !in b
    ensures LastIndexOf(a + [c] + b, c) == |a|
  {
    var s := a + [c] + b;
    var r := LastIndexOf(s, c);
    assert s[|a|] == c;
  }

  /** In a + [c] + b with no c in a, the first c is the one after a. */
  lemma IndexOfSplit(a: string, c: char, b: string)
    requires c !in a
    ensures IndexOf(a + [c] + b, c) == |a|
  {
    var s := a + [c] + b;
    var r := IndexOf(s, c);
    assert s[|a|] == c;
  }

  predicate IsDigit(c: char)
  {
    '0' <= c <= '9'
  }

  predicate AllDigits(s: string)
  {
    forall i :: 0 <= i < |s| ==> IsDigit(s[i])
  }

  function DigitChar(d: nat): (c: char)
    requires d < 10
    ensures IsDigit(c)
  {
    ('0' as int + d) as char
  }

  function DigitValue(c: char): (d: nat)
    requires IsDigit(c)
    ensures d < 10
  {
    (c as int - '0' as int)
  }

  /** Decimal digits of n, without leading zeros. */
  function FormatNat(n: nat): (s: string)
    ensures |s| >= 1 && AllDigits(s)
    ensures s[0] == '0' ==> n == 0 && s == "0"
  {
    if n < 10 then [DigitChar(n)] else FormatNat(n / 10) + [DigitChar(n % 10)]
  }

  /** Java's decimal rendering of an integer: a minus sign for negatives. */
  function FormatInt(n: int): (s: string)
    ensures |s| >= 1
  {
    if n < 0 then "-" + FormatNat(-n) else FormatNat(n)
  }

  function ParseNat(s: string): nat
    requires AllDigits(s)
  {
    if s == [] then 0 else 10 * ParseNat(s[..|s| - 1]) + DigitValue(s[|s| - 1])
  }

  /** The inverse of FormatInt on its outputs: an optional minus sign and a
      non-empty run of digits. */
  function ParseInt(s: string): (r: Option<int>)
  {
    if |s| >= 2 && s[0] == '-' && AllDigits(s[1..]) then Some(-(ParseNat(s[1..]) as int))
    else if |s| >= 1 && AllDigits(s) then Some(ParseNat(s))
    else None
  }

  lemma {:induction false} ParseFormatNat(n: nat)
    ensures ParseNat(FormatNat(n)) == n
  {
    if n >= 10 {
      var s := FormatNat(n);
      assert s[..|s| - 1] == FormatNat(n / 10);
      ParseFormatNat(n / 10);
    }
  }

  /** Parsing undoes formatting, for every integer. */
  lemma ParseFormatInt(n: int)
    ensures ParseInt(FormatInt(n)) == Some(n)
  {
    if n < 0 {
      var digits := FormatNat(-n);
      assert FormatInt(n) == "-" + digits;
      ParseNegative(digits);
      assert ParseNat(digits) == -n by {
        ParseFormatNat(-n);
      }
    } else {
      var digits := FormatNat(n);
      assert FormatInt(n) == digits;
      ParseNonNegative(digits);
      assert ParseNat(digits) == n by {
        ParseFormatNat(n);
      }
    }
  }

  lemma ParseNegative(digits: string)
    requires |digits| >= 1 && AllDigits(digits)
    ensures ParseInt("-" + digits) == Some(-(ParseNat(digits) as int))
  {
    assert ("-" + digits)[1..] == digits;
  }

  lemma ParseNonNegative(digits: string)
    requires |digits| >= 1 && AllDigits(digits)
    ensures ParseInt(digits) == Some(ParseNat(digits))
  {
    assert IsDigit(digits[0]);
  }

  /** A rendered integer holds only digits and possibly a leading minus
      sign, so no separator character of the report lines. */
  lemma FormatIntChars(n: int, c: char)
    requires c != '-' && !IsDigit(c)
    ensures c !in FormatInt(n)
  {
    if n < 0 {
      var s := FormatInt(n);
      assert s == ['-'] + FormatNat(-n);
      assert forall i :: 1 <= i < |s| ==> s[i] == FormatNat(-n)[i - 1];
    }
  }
}
