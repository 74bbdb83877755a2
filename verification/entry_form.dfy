/** The "add entry" action of the main window (mainwindow.cpp), reduced to its
    logic: derive the missing one of temperature and spectral class from the
    one typed, then check that every field is filled, then check the spectral
    class, and write a row only when both checks pass. The luminosity /
    absolute-magnitude conversion in between is floating point and is left out;
    only the emptiness of the luminosity field takes part here. */
module EntryForm {
  import opened QtText
  import opened Converter
  import opened SpectralClass

  const MissingFieldsMessage: string := "Error: all the fields must be filled"
  const InvalidSpectralTypeMessage: string := "Error: invalid spectral type"

  /** The three input fields and the checkbox saying that the temperature
      field holds a spectral class instead of a temperature. */
  datatype Form = Form(name: string, temperatureField: string, luminosityField: string, spectralTypeInput: bool)

  /** The name, temperature and spectral-class cells of the row written. */
  datatype Entry = Entry(name: string, temperature: string, spectralClass: string)

  datatype Outcome =
    | Added(entry: Entry)
    | Rejected(message: string)
      /** `get_temperature` was asked for a code outside the table: the C++
          program reads outside the array, which is undefined behaviour. */
    | UndefinedTableRead(code: int)

  /** The source reads the first two characters of the field in spectral-class
      mode without checking its length. */
  predicate WellFormed(f: Form) {
    f.spectralTypeInput ==> |f.temperatureField| >= 2
  }

  /** The corrected action reads the class field's first two characters only
      after the emptiness check, so only a filled field must be that long. */
  predicate ReadableWhenFilled(f: Form) {
    f.spectralTypeInput && FieldsFilled(f) ==> |f.temperatureField| >= 2
  }

  predicate FieldsFilled(f: Form) {
    f.name != "" && f.temperatureField != "" && f.luminosityField != ""
  }

  /** The checks, in the source's order, on the already derived texts. */
  function CheckAndWrite(f: Form, temperature: string, spectralClass: string): (r: Outcome)
    requires |spectralClass| >= 2
    ensures !r.UndefinedTableRead?
    ensures !FieldsFilled(f) ==> r == Rejected(MissingFieldsMessage)
    ensures FieldsFilled(f) && !IsValidClassText(spectralClass) ==> r == Rejected(InvalidSpectralTypeMessage)
    ensures r.Added? <==> FieldsFilled(f) && IsValidClassText(spectralClass)
    ensures r.Added? ==> r.entry == Entry(f.name, temperature, spectralClass)
  {
    if !FieldsFilled(f) then Rejected(MissingFieldsMessage)
    else if !IsValidClassText(spectralClass) then Rejected(InvalidSpectralTypeMessage)
    else Added(Entry(f.name, temperature, spectralClass))
  }

  /** The spectral class derived from a typed temperature. */
  function ClassOfTemperatureField(field: string): (text: string)
    ensures |text| == 2 && IsValidClassText(text)
  {
    FormattedTemperatureIsValid(ToInt(field));
    FormatCode(SpectralType(ToInt(field)))
  }

  /** The action as written: in spectral-class mode the code is parsed and
      `get_temperature` runs on it before either check. An out-of-table read
      can only come from a text the validity check would have refused. */
  function AddEntryAsWritten(f: Form): (r: Outcome)
    requires WellFormed(f)
    ensures r.UndefinedTableRead? ==>
              f.spectralTypeInput && !IsValidClassText(ClassText(f.temperatureField))
    ensures r.Added? ==> |r.entry.spectralClass| == 2 && IsValidClassText(r.entry.spectralClass)
  {
    if f.spectralTypeInput then
      var text := ClassText(f.temperatureField);
      var code := ClassTextToCode(text);
      ValidTextStaysInTable(f.temperatureField);
      if !InTable(code) then UndefinedTableRead(code)
      else CheckAndWrite(f, DecimalString(GetTemperature(code)), text)
    else
      CheckAndWrite(f, f.temperatureField, ClassOfTemperatureField(f.temperatureField))
  }

  /** The action with the lookup moved behind the checks: it never reads
      outside the table, reports a missing field before anything else (an
      empty class field included), then an invalid class, and writes a row
      exactly when every field is filled and the class is valid; the row keeps
      the typed name, and the typed text in the cell it was typed for. */
  function AddEntry(f: Form): (r: Outcome)
    requires ReadableWhenFilled(f)
    ensures !r.UndefinedTableRead?
    ensures !FieldsFilled(f) ==> r == Rejected(MissingFieldsMessage)
    ensures FieldsFilled(f) && f.spectralTypeInput && !IsValidClassText(ClassText(f.temperatureField)) ==>
              r == Rejected(InvalidSpectralTypeMessage)
    ensures r.Added? <==>
              FieldsFilled(f) && (f.spectralTypeInput ==> IsValidClassText(ClassText(f.temperatureField)))
    ensures r.Added? ==>
              && r.entry.name == f.name
              && (f.spectralTypeInput ==> r.entry.spectralClass == ClassText(f.temperatureField))
              && (!f.spectralTypeInput ==> r.entry.temperature == f.temperatureField)
    ensures f.spectralTypeInput && r.Added? ==>
              var code := ClassTextToCode(r.entry.spectralClass);
              InTable(code) && ToInt(r.entry.temperature) == GetTemperature(code)
  {
    if !FieldsFilled(f) then Rejected(MissingFieldsMessage)
    else if f.spectralTypeInput then
      var text := ClassText(f.temperatureField);
      if !IsValidClassText(text) then Rejected(InvalidSpectralTypeMessage)
      else
        ValidTextStaysInTable(f.temperatureField);
        var temperature := GetTemperature(ClassTextToCode(text));
        ToIntOfDecimalString(temperature);
        Added(Entry(f.name, DecimalString(temperature), text))
    else
      CheckAndWrite(f, f.temperatureField, ClassOfTemperatureField(f.temperatureField))
  }

  /** The field is empty after every successful add and every switch of the
      checkbox; the corrected action then answers the missing-field error
      without reading a character of it. */
  lemma EmptyClassFieldExample()
    ensures AddEntry(Form("Star", "", "1", true)) == Rejected(MissingFieldsMessage)
  {
  }

  /** Wherever the action as written is defined, the corrected one behaves the same. */
  lemma AddEntryAgreesWhenDefined(f: Form)
    requires WellFormed(f) && !AddEntryAsWritten(f).UndefinedTableRead?
    ensures AddEntry(f) == AddEntryAsWritten(f)
  {
  }

  /** As written, a letter that is not a class letter reaches `get_temperature(0)`
      (row -1) before any check, even when other fields are empty; the corrected
      action answers the missing-field or invalid-class error instead. */
  lemma UnknownLetterReadsOutsideTable(f: Form)
    requires WellFormed(f) && f.spectralTypeInput
    requires 'A' <= ToUpper(f.temperatureField[0]) <= 'Z' && ToUpper(f.temperatureField[0]) !in ClassLetters
    ensures AddEntryAsWritten(f) == UndefinedTableRead(0)
    ensures AddEntry(f) == Rejected(if FieldsFilled(f) then InvalidSpectralTypeMessage else MissingFieldsMessage)
  {
    UnknownLetterLeavesTable(f.temperatureField);
  }

  /** "Z5": the unknown letter stays, `toInt` gives 0 and row -1 is read. */
  lemma UnknownLetterExample()
    ensures AddEntryAsWritten(Form("Star", "Z5", "1", true)) == UndefinedTableRead(0)
    ensures AddEntry(Form("Star", "Z5", "1", true)) == Rejected(InvalidSpectralTypeMessage)
  {
    UnknownLetterReadsOutsideTable(Form("Star", "Z5", "1", true));
  }

  /** "95": no letter to replace, `toInt` gives 95 and row 8 is read. */
  lemma DigitFirstExample()
    ensures AddEntryAsWritten(Form("Star", "95", "1", true)) == UndefinedTableRead(95)
    ensures AddEntry(Form("Star", "95", "1", true)) == Rejected(InvalidSpectralTypeMessage)
  {
    var text := ClassText("95");
    assert text == "95";
    ToIntTwoDigits('9', '5');
    assert [DigitForLetter(text[0])] + text[1..] == "95";
    assert TableRow(95) == 8;
  }

  /** With the name empty the missing-field error comes before anything is read. */
  lemma MissingNameExample()
    ensures AddEntry(Form("", "g2", "1", true)) == Rejected(MissingFieldsMessage)
  {
  }

  /** The class text of "g2" is "G2", which reads as code 52. */
  lemma G2Text()
    ensures ClassText("g2") == "G2" && ClassTextToCode("G2") == 52
  {
    assert ClassText("g2") == "G2";
    assert [DigitForLetter('G')] + "G2"[1..] == "52";
    ToIntTwoDigits('5', '2');
  }

  /** `QString::number(5800)` is "5800". */
  lemma Number5800()
    ensures DecimalString(5800) == "5800"
  {
    DecimalStringTwoDigits(58);
    assert DecimalString(580) == DecimalString(58) + [DigitChar(0)];
    assert DecimalString(5800) == DecimalString(580) + [DigitChar(0)];
  }

  /** "g2" is read as G2 and written with 5800 K. */
  lemma LowerCaseExample()
    ensures AddEntry(Form("Sun", "g2", "1", true)) == Added(Entry("Sun", "5800", "G2"))
  {
    G2Text();
    assert GetTemperature(52) == 5800 by {
      ConverterExamples();
    }
    Number5800();
  }

  /** Every row written keeps temperature and spectral class consistent: the
      class text is the one the lookup gives for the temperature text, and the
      class's table temperature is at or below the temperature read from the
      row (from 2600 K on), exactly equal when the class was typed. */
  lemma AddedRowIsConsistent(f: Form)
    requires ReadableWhenFilled(f) && AddEntry(f).Added?
    ensures var e := AddEntry(f).entry;
            IsValidClassText(e.spectralClass)
            && e.spectralClass == FormatCode(SpectralType(ToInt(e.temperature)))
    ensures var e := AddEntry(f).entry;
            var code := ClassTextToCode(e.spectralClass);
            && InTable(code)
            && (f.spectralTypeInput ==> ToInt(e.temperature) == GetTemperature(code))
            && (CoolestTabulated <= ToInt(e.temperature) ==> GetTemperature(code) <= ToInt(e.temperature))
  {
    if f.spectralTypeInput {
      var text := ClassText(f.temperatureField);
      ValidTextStaysInTable(f.temperatureField);
      var code := ClassTextToCode(text);
      var t := GetTemperature(code);
      ToIntOfDecimalString(t);
      SpectralTypeRoundTrip(code);
      FormatParseRoundTrip(text);
    } else {
      var t := ToInt(f.temperatureField);
      var code := SpectralType(t);
      FormatCodeLetters(code);
      ParseFormatRoundTrip(code);
      assert ClassText(FormatCode(code)) == FormatCode(code);
      SpectralTypeLossy(t);
    }
  }
}
