/** Decimal formatting of non-negative integers with .NET's "D2" format
    (at least two digits, padded with leading zeros), and the parse that
    inverts it, which makes tile file names unambiguous. */
module DecimalFormat {

  function DigitChar(d: nat): (c: char)
    requires d < 10
    ensures '0' <= c <= '9'
  {
    "0123456789"[d]
  }

  predicate IsDigit(c: char) {
    '0' <= c <= '9'
  }

  function DigitValue(c: char): (d: nat)
    requires IsDigit(c)
    ensures d < 10
  {
    (c as int) - ('0' as int)
  }

  lemma DigitRoundTrip(d: nat)
    requires d < 10
    ensures DigitValue(DigitChar(d)) == d
  {
  }

  /** The shortest decimal representation of `n`. */
  function Digits(n: nat): (s: string)
    ensures 1 <= |s|
    ensures forall k :: 0 <= k < |s| ==> IsDigit(s[k])
    ensures n >= 10 ==> s[0] != '0'
    decreases n
  {
    if n < 10 then [DigitChar(n)] else Digits(n / 10) + [DigitChar(n % 10)]
  }

  /** `n.ToString("D2")`: the decimal digits, left-padded with '0' to two characters. */
  function FormatD2(n: nat): (s: string)
    ensures 2 <= |s|
    ensures forall k :: 0 <= k < |s| ==> IsDigit(s[k])
    ensures |s| > 2 ==> s[0] != '0'
  {
    var d := Digits(n);
    if |d| < 2 then "0" + d else d
  }

  /** Reads a string of decimal digits, most significant first. */
  function ParseDecimal(s: string): nat
    requires forall k :: 0 <= k < |s| ==> IsDigit(s[k])
    decreases |s|
  {
    if |s| == 0 then 0 else ParseDecimal(s[..|s| - 1]) * 10 + DigitValue(s[|s| - 1])
  }

  lemma {:induction false} ParseDigits(n: nat)
    ensures ParseDecimal(Digits(n)) == n
    decreases n
  {
    var s := Digits(n);
    if n < 10 {
      assert s[..0] == [];
      DigitRoundTrip(n);
    } else {
      ParseDigits(n / 10);
      assert s[..|s| - 1] == Digits(n / 10);
      DigitRoundTrip(n % 10);
    }
  }

  /** A leading zero does not change the parsed value. */
  lemma {:induction false} ParseLeadingZero(s: string)
    requires forall k :: 0 <= k < |s| ==> IsDigit(s[k])
    ensures ParseDecimal("0" + s) == ParseDecimal(s)
    decreases |s|
  {
    if |s| == 0 {
      assert ("0" + s)[..0] == [];
    } else {
      var t := "0" + s;
      assert t[..|t| - 1] == "0" + s[..|s| - 1];
      ParseLeadingZero(s[..|s| - 1]);
    }
  }

  /** Parsing a "D2" rendering gives the number back. */
  lemma FormatD2RoundTrip(n: nat)
    ensures ParseDecimal(FormatD2(n)) == n
  {
    ParseDigits(n);
    if |Digits(n)| < 2 {
      ParseLeadingZero(Digits(n));
    }
  }

  /** Distinct numbers have distinct "D2" renderings. */
  lemma FormatD2Injective(m: nat, n: nat)
    requires m != n
    ensures FormatD2(m) != FormatD2(n)
  {
    FormatD2RoundTrip(m);
    FormatD2RoundTrip(n);
  }
}
