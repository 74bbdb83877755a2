/** The few `QString`/`QChar` operations the entry form relies on, restricted
    to what that code can observe: `QString::number(int)`, `QString::toInt()`
    (base 10, surrounding whitespace ignored, 0 on failure or when the value
    does not fit a 32-bit `int`) and `QChar::toUpper()` on ASCII letters. */
module QtText {

  const IntMin: int := -0x8000_0000
  const IntMax: int := 0x7FFF_FFFF

  predicate IsAsciiDigit(c: char) {
    '0' <= c <= '9'
  }

  /** The whitespace `toInt` skips around a number (the ASCII subset). */
  predicate IsSpace(c: char) {
    c == ' ' || c == '\t' || c == '\n' || c == '\r' || c == '\U{000B}' || c == '\U{000C}'
  }

  function DigitChar(d: int): (c: char)
    requires 0 <= d < 10
    ensures IsAsciiDigit(c) && DigitValue(c) == d
  {
    ('0' as int + d) as char
  }

  function DigitValue(c: char): int
    requires IsAsciiDigit(c)
  {
    c as int - '0' as int
  }

  /** The ASCII alphabet, lower and upper case, letter by letter. */
  const LowerLetters: string := "abcdefghijklmnopqrstuvwxyz"
  const UpperLetters: string := "ABCDEFGHIJKLMNOPQRSTUVWXYZ"

  /** The i-th letter of each alphabet is ASCII 97 + i, resp. 65 + i. */
  lemma AlphabetCodes()
    ensures forall i | 0 <= i < 26 :: LowerLetters[i] as int == 97 + i && UpperLetters[i] as int == 65 + i
    ensures forall c: char :: c in LowerLetters <==> 'a' <= c <= 'z'
  {
    forall c: char | 'a' <= c <= 'z'
      ensures c in LowerLetters
    {
      assert LowerLetters[c as int - 97] == c;
    }
  }

  /** `QChar::toUpper` on the ASCII range; every other character is unchanged. */
  function ToUpper(c: char): (u: char)
    ensures forall i | 0 <= i < 26 :: c == LowerLetters[i] ==> u == UpperLetters[i]
    ensures c !in LowerLetters ==> u == c
    ensures u !in LowerLetters
  {
    AlphabetCodes();
    if 'a' <= c <= 'z' then (c as int - 32) as char else c
  }

  /** `QString::number(n)` in base 10: digits, with a leading '-' when negative. */
  function DecimalString(n: int): (s: string)
    ensures |s| >= 1
    ensures n >= 0 ==> IsDigits(s) && (s[0] == '0' ==> n == 0)
    ensures n < 0 ==> s[0] == '-' && IsDigits(s[1..])
    decreases if n < 0 then 1 - n else n
  {
    if n < 0 then "-" + DecimalString(-n)
    else if n < 10 then [DigitChar(n)]
    else DecimalString(n / 10) + [DigitChar(n % 10)]
  }

  predicate IsDigits(s: string) {
    |s| >= 1 && forall i :: 0 <= i < |s| ==> IsAsciiDigit(s[i])
  }

  /** The value of a run of decimal digits, most significant first. */
  function DigitsValue(s: string): (v: nat)
    requires IsDigits(s)
    decreases |s|
  {
    if |s| == 1 then DigitValue(s[0])
    else DigitsValue(s[..|s| - 1]) * 10 + DigitValue(s[|s| - 1])
  }

  /** An optional sign followed by at least one digit. */
  predicate IsIntLiteral(t: string) {
    IsDigits(t) || (|t| >= 2 && (t[0] == '+' || t[0] == '-') && IsDigits(t[1..]))
  }

  function LiteralValue(t: string): int
    requires IsIntLiteral(t)
  {
    if IsDigits(t) then DigitsValue(t)
    else if t[0] == '-' then -(DigitsValue(t[1..]) as int)
    else DigitsValue(t[1..])
  }

  /** Drops leading whitespace. */
  function TrimStart(s: string): string {
    if |s| > 0 && IsSpace(s[0]) then TrimStart(s[1..]) else s
  }

  /** Drops trailing whitespace. */
  function TrimEnd(s: string): string {
    if |s| > 0 && IsSpace(s[|s| - 1]) then TrimEnd(s[..|s| - 1]) else s
  }

  /** `QString::toInt()`: the base-10 value of the trimmed text, or 0 when the
      text is not an integer literal or its value does not fit an `int`. */
  function ToInt(s: string): (n: int)
    ensures IntMin <= n <= IntMax
  {
    var t := TrimEnd(TrimStart(s));
    if IsIntLiteral(t) && IntMin <= LiteralValue(t) <= IntMax then LiteralValue(t) else 0
  }

  /** Appending a digit multiplies the value by ten and adds the digit. */
  lemma DigitsValueSnoc(s: string, c: char)
    requires IsDigits(s) && IsAsciiDigit(c)
    ensures IsDigits(s + [c]) && DigitsValue(s + [c]) == DigitsValue(s) * 10 + DigitValue(c)
  {
    assert (s + [c])[..|s|] == s;
  }

  /** The digits `QString::number` writes for a non-negative value read back as that value. */
  lemma {:induction false} DigitsOfDecimalString(n: nat)
    ensures IsDigits(DecimalString(n)) && DigitsValue(DecimalString(n)) == n
    decreases n
  {
    if n >= 10 {
      DigitsOfDecimalString(n / 10);
      DigitsValueSnoc(DecimalString(n / 10), DigitChar(n % 10));
    }
  }

  /** Text without surrounding whitespace is left alone by the trimming. */
  lemma TrimNoSpace(s: string)
    requires |s| >= 1 && !IsSpace(s[0]) && !IsSpace(s[|s| - 1])
    ensures TrimEnd(TrimStart(s)) == s
  {
  }

  /** `toInt(number(n)) == n` for every 32-bit `n`. */
  lemma {:induction false} ToIntOfDecimalString(n: int)
    requires IntMin <= n <= IntMax
    ensures ToInt(DecimalString(n)) == n
  {
    var s := DecimalString(n);
    assert IsIntLiteral(s) && LiteralValue(s) == n by {
      if n >= 0 {
        DigitsOfDecimalString(n);
      } else {
        DigitsOfDecimalString(-n);
        assert s[1..] == DecimalString(-n);
        assert !IsDigits(s) by { assert !IsAsciiDigit(s[0]); }
      }
    }
    assert TrimEnd(TrimStart(s)) == s by {
      assert IsAsciiDigit(s[|s| - 1]);
      TrimNoSpace(s);
    }
  }

  /** Trailing trimming keeps a first character that is not whitespace. */
  lemma {:induction false} TrimEndKeepsFirst(s: string)
    requires |s| >= 1 && !IsSpace(s[0])
    ensures |TrimEnd(s)| >= 1 && TrimEnd(s)[0] == s[0]
    decreases |s|
  {
    if |s| > 1 && IsSpace(s[|s| - 1]) {
      TrimEndKeepsFirst(s[..|s| - 1]);
    }
  }

  /** Text whose first character is a letter is not a number: `toInt` gives 0. */
  lemma ToIntOfLetterIsZero(s: string)
    requires |s| >= 1 && ('A' <= s[0] <= 'Z' || 'a' <= s[0] <= 'z')
    ensures ToInt(s) == 0
  {
    assert TrimStart(s) == s;
    TrimEndKeepsFirst(s);
  }

  /** Two-digit values print as exactly their two digits. */
  lemma DecimalStringTwoDigits(n: int)
    requires 10 <= n <= 99
    ensures DecimalString(n) == [DigitChar(n / 10), DigitChar(n % 10)]
  {
  }

  /** Two ASCII digits read back as their two-digit value. */
  lemma ToIntTwoDigits(a: char, b: char)
    requires IsAsciiDigit(a) && IsAsciiDigit(b)
    ensures ToInt([a, b]) == 10 * DigitValue(a) + DigitValue(b)
  {
    var s := [a, b];
    TrimNoSpace(s);
    assert IsDigits([a]) && DigitsValue([a]) == DigitValue(a);
    DigitsValueSnoc([a], b);
    assert [a] + [b] == s;
    assert IsIntLiteral(s) && LiteralValue(s) == DigitsValue(s);
    assert 0 <= DigitsValue(s) <= 99;
  }
}
