/**
 * The invite code text: `String.format("%06d", n)` for an integer n in
 * [0, 999999], i.e. n in decimal, left-padded with zeros to six digits.
 */
module InviteCodeFormat {

  /** Number of digits in a code. */
  const CodeWidth: nat := 6
  /** Codes are drawn from [0, CodeSpace). */
  const CodeSpace: nat := 1000000

  function Pow10(n: nat): (p: nat)
    ensures p >= 1
  {
    if n == 0 then 1 else 10 * Pow10(n - 1)
  }

  predicate IsDigit(c: char) {
    '0' <= c <= '9'
  }

  predicate AllDigits(s: string) {
    forall i :: 0 <= i < |s| ==> IsDigit(s[i])
  }

  function DigitChar(d: nat): (c: char)
    requires d <= 9
    ensures IsDigit(c)
    ensures c as int - '0' as int == d
  {
    ('0' as int + d) as char
  }

  function DigitValue(c: char): nat
    requires IsDigit(c)
  {
    c as int - '0' as int
  }

  /** `n` in decimal, left-padded with zeros to exactly `width` digits. */
  function ZeroPad(n: nat, width: nat): (s: string)
    requires n < Pow10(width)
    ensures |s| == width
    ensures AllDigits(s)
    decreases width
  {
    if width == 0 then ""
    else
      assert n / 10 < Pow10(width - 1);
      ZeroPad(n / 10, width - 1) + [DigitChar(n % 10)]
  }

  /** The value of a string of decimal digits, most significant first. */
  function ParseDecimal(s: string): nat
    requires AllDigits(s)
  {
    if s == [] then 0 else 10 * ParseDecimal(s[..|s| - 1]) + DigitValue(s[|s| - 1])
  }

  /** Parsing a zero-padded rendering gives back the number. */
  lemma {:induction false} ParseZeroPad(n: nat, width: nat)
    requires n < Pow10(width)
    ensures ParseDecimal(ZeroPad(n, width)) == n
  {
    if width > 0 {
      var s := ZeroPad(n, width);
      assert n / 10 < Pow10(width - 1);
      assert s[..width - 1] == ZeroPad(n / 10, width - 1);
      assert s[width - 1] == DigitChar(n % 10);
      ParseZeroPad(n / 10, width - 1);
    }
  }

  /** The code createInviteCode stores for the random integer `n`. */
  function FormatCode(n: nat): (code: string)
    requires n < CodeSpace
    ensures |code| == CodeWidth
    ensures AllDigits(code)
    ensures ParseDecimal(code) == n
  {
    assert Pow10(CodeWidth) == CodeSpace;
    ParseZeroPad(n, CodeWidth);
    ZeroPad(n, CodeWidth)
  }

  /** Different random integers give different codes. */
  lemma FormatCodeInjective(a: nat, b: nat)
    requires a < CodeSpace && b < CodeSpace
    ensures FormatCode(a) == FormatCode(b) <==> a == b
  {
  }

  lemma LeadingZerosKept()
    ensures FormatCode(42) == "000042"
  {
    assert Pow10(CodeWidth) == CodeSpace;
    assert ZeroPad(0, 0) == "";
    assert ZeroPad(0, 1) == "0";
    assert ZeroPad(0, 2) == "00";
    assert ZeroPad(0, 3) == "000";
    assert ZeroPad(0, 4) == "0000";
    assert ZeroPad(4, 5) == "00004";
  }
}
