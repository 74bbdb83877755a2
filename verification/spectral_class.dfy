/** Spectral-class text handled by the "add entry" action (mainwindow.cpp):
    formatting a packed code as two characters such as "G2", parsing the text
    the user typed back to a packed code, and the validity test applied to the
    text before a row is written. In the source this logic is inline in
    `MainWindow::on_pushButton_add_entry_clicked`; here it is pure functions. */
module SpectralClass {
  import opened QtText
  import opened Converter

  /** The class letters, hottest first: code tens digit 1..7 is letter 0..6. */
  const ClassLetters: string := "OBAFGKM"

  /** The switch that turns the leading digit of the printed code into the class
      letter; any other character falls through unchanged. */
  function LetterForDigit(c: char): char {
    match c
    case '1' => 'O'
    case '2' => 'B'
    case '3' => 'A'
    case '4' => 'F'
    case '5' => 'G'
    case '6' => 'K'
    case '7' => 'M'
    case _ => c
  }

  /** The switch that turns a class letter back into its digit; any other
      character falls through unchanged. */
  function DigitForLetter(c: char): char {
    match c
    case 'O' => '1'
    case 'B' => '2'
    case 'A' => '3'
    case 'F' => '4'
    case 'G' => '5'
    case 'K' => '6'
    case 'M' => '7'
    case _ => c
  }

  /** Code -> text: print the code in decimal and replace its first character. */
  function FormatCode(code: int): (text: string)
    ensures |text| == |DecimalString(code)|
    ensures text[1..] == DecimalString(code)[1..]
  {
    var digits := DecimalString(code);
    [LetterForDigit(digits[0])] + digits[1..]
  }

  /** The spectral-class text taken from the input field: its first character
      upper-cased, followed by its second character. */
  function ClassText(field: string): (text: string)
    requires |field| >= 2
    ensures |text| == 2 && text[1] == field[1]
  {
    [ToUpper(field[0]), field[1]]
  }

  /** Text -> code: replace a class letter by its digit and read the result with `toInt`. */
  function ClassTextToCode(text: string): (code: int)
    requires |text| >= 1
    ensures IntMin <= code <= IntMax
    ensures |text| == 2 && IsAsciiDigit(DigitForLetter(text[0])) && IsAsciiDigit(text[1]) ==>
              code == 10 * DigitValue(DigitForLetter(text[0])) + DigitValue(text[1])
  {
    var digits := [DigitForLetter(text[0])] + text[1..];
    if |text| == 2 && IsAsciiDigit(DigitForLetter(text[0])) && IsAsciiDigit(text[1]) then
      assert digits == [DigitForLetter(text[0]), text[1]];
      ToIntTwoDigits(DigitForLetter(text[0]), text[1]);
      ToInt(digits)
    else
      ToInt(digits)
  }

  /** The validity test: a class letter followed by a decimal digit. */
  predicate IsValidClassText(text: string)
    requires |text| >= 2
    ensures IsValidClassText(text) <==> text[0] in ClassLetters && IsAsciiDigit(text[1])
    ensures IsValidClassText(text) ==> '1' <= DigitForLetter(text[0]) <= '7'
  {
    && (text[0] == 'O' || text[0] == 'B' || text[0] == 'A' || text[0] == 'F'
        || text[0] == 'G' || text[0] == 'K' || text[0] == 'M')
    && IsAsciiDigit(text[1])
  }

  /** Formatting a valid code writes the letter of its tens digit ('1'..'7' ->
      'O','B','A','F','G','K','M') followed by its units digit. */
  lemma FormatCodeLetters(code: int)
    requires ValidCode(code)
    ensures FormatCode(code) == [ClassLetters[code / 10 - 1], DigitChar(code % 10)]
  {
    DecimalStringTwoDigits(code);
    assert code / 10 in {1, 2, 3, 4, 5, 6, 7};
  }

  /** The text derived from any temperature passes the validity test, because
      the lookup always answers a code with tens digit 1..7. */
  lemma FormattedTemperatureIsValid(temperature: int)
    ensures |FormatCode(SpectralType(temperature))| == 2
    ensures IsValidClassText(FormatCode(SpectralType(temperature)))
  {
    FormatCodeLetters(SpectralType(temperature));
  }

  /** Parsing ignores the case of the class letter: "g2" reads as "G2". */
  lemma ClassTextIgnoresCase(field: string)
    requires |field| >= 2 && 'a' <= field[0] <= 'z'
    ensures ClassText(field) == ClassText([(field[0] as int - 32) as char] + field[1..])
  {
  }

  /** Format then parse is the identity on the 70 valid codes. */
  lemma ParseFormatRoundTrip(code: int)
    requires ValidCode(code)
    ensures ClassTextToCode(ClassText(FormatCode(code))) == code
  {
    FormatCodeLetters(code);
    var text := ClassText(FormatCode(code));
    assert text == FormatCode(code);
    assert code / 10 in {1, 2, 3, 4, 5, 6, 7};
    ToIntTwoDigits(DigitForLetter(text[0]), text[1]);
    assert [DigitForLetter(text[0])] + text[1..] == [DigitForLetter(text[0]), text[1]];
  }

  /** A valid two-character text reads as a valid code, and formatting that
      code gives the text back. */
  lemma FormatParseRoundTrip(text: string)
    requires |text| == 2 && IsValidClassText(text)
    ensures ValidCode(ClassTextToCode(text))
    ensures FormatCode(ClassTextToCode(text)) == text
  {
    var d := DigitForLetter(text[0]);
    assert [d] + text[1..] == [d, text[1]];
    ToIntTwoDigits(d, text[1]);
    var code := ClassTextToCode(text);
    FormatCodeLetters(code);
  }

  /** The validity test accepts exactly the texts that formatting produces. */
  lemma ValidIffFormatted(text: string)
    requires |text| == 2
    ensures IsValidClassText(text) <==> exists code :: ValidCode(code) && FormatCode(code) == text
  {
    if IsValidClassText(text) {
      FormatParseRoundTrip(text);
    }
    if code :| ValidCode(code) && FormatCode(code) == text {
      FormatCodeLetters(code);
    }
  }

  /** Whenever the typed text passes the validity test, the code it parses to
      is one `get_temperature` can look up. */
  lemma ValidTextStaysInTable(field: string)
    requires |field| >= 2
    ensures IsValidClassText(ClassText(field)) ==>
              ValidCode(ClassTextToCode(ClassText(field))) && InTable(ClassTextToCode(ClassText(field)))
  {
    if IsValidClassText(ClassText(field)) {
      FormatParseRoundTrip(ClassText(field));
      GetTemperatureDecodes(ClassTextToCode(ClassText(field)));
    }
  }

  /** A letter that is not a class letter is left in place, `toInt` fails and
      gives 0, and `get_temperature(0)` would read row -1. */
  lemma UnknownLetterLeavesTable(field: string)
    requires |field| >= 2
    requires 'A' <= ToUpper(field[0]) <= 'Z' && ToUpper(field[0]) !in ClassLetters
    ensures !IsValidClassText(ClassText(field))
    ensures ClassTextToCode(ClassText(field)) == 0
    ensures TableRow(0) == -1 && !InTable(0)
  {
    var text := ClassText(field);
    ToIntOfLetterIsZero([DigitForLetter(text[0])] + text[1..]);
  }
}
