# StarGraph core in Dafny

A model of the pure logic inside StarGraph, a Qt/OpenGL desktop tool that plots
Hertzsprung–Russell diagrams of stars typed in by the user:

- **Spectral type ↔ temperature** (`StarFunctions` in `converter.h`): a fixed
  7 × 10 table of base temperatures (rows O, B, A, F, G, K, M; columns subclass
  0–9, each entry × 10 K); `get_temperature` decodes a packed code
  `(class + 1) * 10 + subclass` and `get_spectral_type` scans the table for the
  bucket holding a temperature, answering 79 below 2600 K and 10 from 60000 K on.
- **Plot coordinates** (`CoordsFunctions` in `gl_diagram.h`): the reversed linear
  temperature → pixel map and the logarithmic luminosity → pixel map, computed in
  exact real arithmetic and cast by truncation toward zero, plus the pair of
  reference lines drawn with `+range` and `-range`.
- **Spectral-class text** (inline in `MainWindow::on_pushButton_add_entry_clicked`,
  `mainwindow.cpp`): code → "G2" formatting, "g2"/"G2" → code parsing, the
  validity test, and the order in which the action converts, checks and writes.

Files: `cpp_numeric.dfy` (C++ `/`, `%` and `static_cast<int>`), `converter.dfy`,
`coords.dfy`, `qt_text.dfy` (`QString::number`, `QString::toInt`,
`QChar::toUpper`), `spectral_class.dfy`, `entry_form.dfy`.

Modelling choices:

- The table keeps the source's 7 × 10 shape; `Converter.Temp(k)` is its
  row-major view. The scan's read of `table[i][j - 1]` is the flat index
  `10 * i + j - 1`. At `i = j = 0` that index is -1, and the read is skipped
  only because the first conjunct `T >= 60000` already fails inside the
  `T < 60000` branch. Dafny checks that guard. For `i >= 1, j = 0` the read is
  the previous row's last entry, as in memory.
- `get_spectral_type` is modelled twice. `Converter.ScanSpectralType` is the
  nested loop as written: no early exit, the last match wins, and the sentinel
  is rewritten on every pass. `Converter.SpectralType` is an independent
  definition: the least flat index whose temperature is at or below `T`. The
  method is proved equal to the function.
- `get_temperature` uses C++ truncating `/` and `%`. Its precondition
  `Converter.InTable` says the decoded row and column lie inside the table.
  Reading outside is undefined in C++.
- `log10` is a parameter of the luminosity map. The only facts assumed of it
  (`Coords.Log10Axioms`) are `log10(1) = 0` and that it is strictly increasing
  on positive reals.
- `draw_star` and `draw_star_names` always pass `lum_max - lum_min` as the
  luminosity range (gl_diagram.h:143, 174), so `diagram_get_y` has no branch on
  the luminosity, and neither does the model.
- `get_spectral_type_temperature` numbers the classes 0..6, from O to M
  (converter.h:33-54). `get_temperature` gets there from the code's tens digit
  minus one.

## Model

| member | source | states |
|---|---|---|
| CppNumeric.CDiv | converter.h:59 | C++ `/` by a positive divisor rounds toward zero: the quotient times the divisor lies between 0 and the dividend, within one divisor |
| CppNumeric.CRem | converter.h:59 | C++ `%` by a positive divisor: dividend = divisor × quotient + remainder, and the remainder has the dividend's sign and is smaller than the divisor |
| CppNumeric.TruncToInt | gl_diagram.h:27 | `static_cast<int>` of a real is the unique integer toward zero within distance < 1 |
| CppNumeric.TruncSmallNegativeIsZero | gl_diagram.h:33 | a pre-cast value in (-1, 0) becomes pixel 0, not -1 |
| Converter.TableStrictlyDecreasing | converter.h:35-51 | the 70 table temperatures are strictly decreasing in row-major order, across row ends too |
| Converter.SpectralTypeTemperatureDecreasing | converter.h:33-54 | `get_spectral_type_temperature` is total on class 0..6 and subclass 0..9, and an earlier (class, subclass) pair is always hotter |
| Converter.TemperatureBounds | converter.h:35-53 | every table temperature lies in [2600, 60000] |
| Converter.SpectralTypeTemperature | converter.h:33-54 | `get_spectral_type_temperature` is defined on class 0..6 and subclass 0..9, and every value lies in [2600, 60000] |
| Converter.Visit | converter.h:71-89 | one pass of the scan's loop body keeps a valid code valid, and can only replace it with a sentinel or with the code of the cell visited; below 2600 it answers 79 and from 60000 on it answers 10 |
| Converter.VisitExtendsPrefix | converter.h:67-91 | after visiting cell k the scan's code is the bucket answer over the first k + 1 cells, with the last match winning |
| Converter.ConverterExamples | converter.h:32-60 | `get_spectral_type_temperature(4, 2)` and `get_temperature(52)` are both 5800 (G2) |
| Converter.GetTemperature | converter.h:57-60 | a code that decodes inside the table yields a temperature in [2600, 60000] |
| Converter.GetTemperatureDecodes | converter.h:56-60 | a valid code 10..79 decodes to row `code / 10 - 1` and column `code % 10`, i.e. flat index `code - 10` |
| Converter.InTableTwoDigits | converter.h:59 | among 0..99 exactly 1..79 decode inside the table: 0 decodes to row -1, 1..9 to row 0 through truncating division, and 80..89 and 90..99 to rows 7 and 8 |
| Converter.CodeOf | converter.h:75 | the packing `(i + 1) * 10 + j` of flat index `10 * i + j` is that index plus 10, always a valid code |
| Converter.FirstAtOrBelow | converter.h:71-76 | the first flat index at or below a temperature ≥ 2600 exists, and it satisfies the bucket test `table[k] <= T < table[k - 1]` |
| Converter.SpectralType | converter.h:63-94 | the lookup always answers one of the 70 codes; within [2600, 60000) the answer's temperature is ≤ T and the next hotter entry is > T |
| Converter.ScanSpectralType | converter.h:63-94 | the full 7 × 10 scan, last match winning, equals the bucket definition; it answers 79 below 2600 and 10 from 60000 on |
| Converter.SpectralTypeBucket | converter.h:71-76 | within [2600, 60000) the result is the code of flat index k if and only if k ≥ 1 and `table[k] <= T < table[k - 1]`: buckets are disjoint and cover the range |
| Converter.InclusiveLowerBoundExample | converter.h:62-73 | a temperature equal to a bucket's lower bound belongs to it: 5800 K is G2 (52) |
| Converter.SentinelExamples | converter.h:78-89 | 2000 K gives the M9 sentinel 79 and 70000 K the O0 sentinel 10 |
| Converter.SpectralTypeRoundTrip | converter.h:57-94 | code → temperature → code is the identity on all 70 valid codes |
| Converter.SpectralTypeLossy | converter.h:57-94 | temperature → code → temperature loses at most one bucket: the result is ≤ T from 2600 on, the next hotter entry is still > T below 60000, and anything cooler than 2600 comes back as 2600 |
| Converter.SpectralTypeMonotone | converter.h:67-91 | a hotter temperature never gives a later spectral type |
| Coords.DiagramX | gl_diagram.h:25-28 | `diagram_get_x` maps `temp_offset + range` to 0 and `temp_offset` to `width` |
| Coords.DiagramXMonotone | gl_diagram.h:25-28 | with width ≥ 0 and range > 0 the column never increases with temperature: hotter stars plot further left |
| Coords.DiagramXWithinWidth | gl_diagram.h:25-28 | temperatures in `[temp_offset, temp_offset + range]` land in `[0, width]` |
| Coords.DiagramY | gl_diagram.h:31-34 | `diagram_get_y` puts any star whose `log10` is 0 on `y_offset` |
| Coords.DiagramYSolar | gl_diagram.h:31-34 | a star of luminosity 1 sits exactly on the `y_offset` passed by the caller |
| Coords.DiagramYMonotone | gl_diagram.h:31-34 | with height ≥ 0 and range > 0 the row never increases with luminosity: brighter stars plot higher |
| Coords.DiagramYReflection | gl_diagram.h:121-122 | negating the range mirrors the pre-cast row about `y_offset`: the two values sum to `2 * y_offset` |
| Coords.ReferenceLineRows | gl_diagram.h:119-129 | the two lines are computed about the midline `diagram_height / 2` on a plot `diagram_height - 64` tall; when `log10` of the luminosity is 0 both lie on the midline, and when it is ≥ 0, with a positive range and `diagram_height ≥ 64`, the `+range` line is at or above the midline and the `-range` line at or below it |
| Coords.ReferenceLinesAroundMidline | gl_diagram.h:119-122 | with the logarithm's axioms, a positive range, `diagram_height ≥ 64` and luminosity ≥ 1, the `+range` line is at or above the midline and the `-range` line at or below it |
| QtText.ToUpper | mainwindow.cpp:150 | the i-th letter of "abcdefghijklmnopqrstuvwxyz" becomes the i-th letter of "ABCDEFGHIJKLMNOPQRSTUVWXYZ", every other character is unchanged, and the result is never a lower-case ASCII letter |
| QtText.DecimalString | mainwindow.cpp:120 | `QString::number` writes at least one character: digits without a leading zero for n ≥ 0, and a minus sign followed by digits for n < 0 |
| QtText.ToInt | mainwindow.cpp:179 | `toInt` always answers a 32-bit int, 0 when the text is not a number in range |
| QtText.ToIntOfDecimalString | mainwindow.cpp:179 | reading back a number printed by `QString::number` gives it again, for every 32-bit int |
| QtText.ToIntOfLetterIsZero | mainwindow.cpp:153-179 | text starting with a letter is not a number, so `toInt` gives 0 |
| SpectralClass.FormatCode | mainwindow.cpp:120-146 | formatting keeps the printed code's length and every character after the first |
| SpectralClass.ClassTextToCode | mainwindow.cpp:153-179 | the parser answers a 32-bit int; when the letter switch leaves a digit and the second character is a digit, the code is ten times the first digit's value plus the second's |
| SpectralClass.IsValidClassText | mainwindow.cpp:209-221 | the test accepts exactly a class letter O, B, A, F, G, K or M followed by a digit, and the letter of an accepted text always maps to a tens digit 1..7 |
| SpectralClass.FormatCodeLetters | mainwindow.cpp:120-146 | a valid code is written as the letter of its tens digit ('1'..'7' → O, B, A, F, G, K, M) followed by its units digit |
| SpectralClass.FormattedTemperatureIsValid | mainwindow.cpp:120-146 | the class text derived from any temperature is two characters and passes the validity test |
| SpectralClass.ClassText | mainwindow.cpp:150 | the class text is two characters and keeps the field's second character |
| SpectralClass.ClassTextIgnoresCase | mainwindow.cpp:150 | "g2" and "G2" give the same class text |
| SpectralClass.ParseFormatRoundTrip | mainwindow.cpp:120-179 | parsing the formatted text gives back each of the 70 valid codes |
| SpectralClass.FormatParseRoundTrip | mainwindow.cpp:150-179 | a valid two-character text parses to a valid code, and formatting that code gives the text back |
| SpectralClass.ValidIffFormatted | mainwindow.cpp:209-221 | the validity test accepts a two-character text if and only if it is the formatting of some valid code, i.e. a class letter followed by a digit |
| SpectralClass.ValidTextStaysInTable | mainwindow.cpp:153-179 | whenever the typed text passes the validity test, its code is valid and `get_temperature` can look it up |
| SpectralClass.UnknownLetterLeavesTable | mainwindow.cpp:153-179 | an unknown letter is refused by the validity test, parses to 0 through `toInt`, and 0 decodes to table row -1 |
| EntryForm.CheckAndWrite | mainwindow.cpp:204-248 | an empty field gives the missing-fields error before the spectral check; filled fields with an invalid class text give the invalid-spectral-type error; a row is written exactly when every field is filled and the class text is valid, and it holds the name, temperature and class passed in |
| EntryForm.ClassOfTemperatureField | mainwindow.cpp:117-146 | the class text derived from a typed temperature is two characters and always valid |
| EntryForm.AddEntryAsWritten | mainwindow.cpp:106-251 | the action as written reads outside the table only for a class text the validity test refuses, and every row it writes has a valid class |
| EntryForm.AddEntry | mainwindow.cpp:106-251 | with the lookup behind the checks the action never reads outside the table. It reports a missing field first, an empty class field included, and then an invalid class text with the invalid-spectral-type error. It writes a row exactly when every field is filled and the class text is valid. The row keeps the typed name. In spectral-class mode it keeps the upper-cased class text, and its temperature cell reads back as the table temperature of that class. Otherwise it keeps the typed temperature |
| EntryForm.EmptyClassFieldExample | mainwindow.cpp:204-208 | an empty class field, as left at mainwindow.cpp:237 and 82, gives the missing-fields error without any character of it being read |
| EntryForm.AddEntryAgreesWhenDefined | mainwindow.cpp:148-225 | wherever the action as written avoids the out-of-table read, the corrected action gives the same outcome |
| EntryForm.UnknownLetterReadsOutsideTable | mainwindow.cpp:150-225 | as written, an unknown class letter reaches `get_temperature(0)` before any check, even with empty fields; the corrected action answers the right error |
| EntryForm.UnknownLetterExample | mainwindow.cpp:150-179 | "Z5" reads table row -1 as written and is refused as an invalid spectral type when corrected |
| EntryForm.DigitFirstExample | mainwindow.cpp:150-179 | "95" parses to 95, which decodes to row 8, outside the table |
| EntryForm.G2Text | mainwindow.cpp:150-177 | "g2" gives the class text "G2", and the letter switch turns that into "52", which reads as 52 |
| EntryForm.Number5800 | mainwindow.cpp:179 | `QString::number(5800)` is "5800" |
| EntryForm.LowerCaseExample | mainwindow.cpp:150-232 | "g2" is written as class "G2" with the temperature cell "5800" |
| EntryForm.MissingNameExample | mainwindow.cpp:204-208 | with an empty name the missing-fields error comes before the class text is judged |
| EntryForm.AddedRowIsConsistent | mainwindow.cpp:114-232 | in every row written the class text is the lookup's answer for the temperature text, and the class decodes inside the table. When the class was typed, the temperature cell reads back as exactly that class's table temperature; when the temperature was typed, the class's table temperature is at or below it from 2600 K on |

## Findings

| source | as written | input that shows it | evidently intended | confidence | as-written member | corrected member |
|---|---|---|---|---|---|---|
| mainwindow.cpp:150-209 | in spectral-class mode `get_temperature` runs on the parsed code (line 179) before the validity check (line 209), so an unrecognised class letter leaves the text unconverted, `toInt` gives 0, and `get_temperature(0)` indexes table row `(0 - 10) / 10 % 10 = -1`; a leading digit such as "95" indexes row 8 | temperature field "Z5" (or "95") with the spectral-type checkbox set | validate the class text first and look the temperature up only for valid text | not executed | EntryForm.UnknownLetterReadsOutsideTable | EntryForm.AddEntry |

## Left out

- `get_absolute_magnitude`, `get_relative_luminosity` and `MathFunctions` (converter.h:12-26, 96-107): double-precision `log10`/`pow` whose round trip holds only approximately; the entry action's magnitude/luminosity cells are left out with them.
- Coords.DiagramX: exact real arithmetic; in `double`, `width / range * range` may round below `width`, so `star_temp = temp_offset` can give `width - 1`, which is not modelled.
- Coords.DiagramY: `log10` is abstract, and the value of the cast for a non-finite double is not modelled; a zero range or a non-positive luminosity is a precondition instead.
- A zero axis range is a precondition of both coordinate maps. The temperature spin boxes can make `temp_max - temp_min` zero (mainwindow.cpp:254-265), and the source then divides by zero. The model leaves that configuration out.
- `int` overflow of `range - (star_temp - temp_offset)` and of `static_cast<int>` out of range are not modelled: integers are unbounded.
- `DrawingFunctions` drawing calls, `GL_Diagram`, viewport setup and the float colour formula (gl_diagram.h:38-200, gl_diagram.cpp): rendering only. The global drawing configuration (gl_diagram.cpp:9-21) becomes parameters.
- Qt widget handling in mainwindow.cpp: validators and maximum lengths, table writes beyond the name, temperature and class cells, checkbox and spin-box slots, `setprecision(10)` formatting of doubles, file actions (`FileIOFunctions` is not part of this model), and the error label's HTML.
- mainwindow.h: declarations only.
- `QString::operator[]` past the end: the action as written reads two characters of the class field before any check, so `EntryForm.AddEntryAsWritten` requires `EntryForm.WellFormed` (at least two characters in spectral-class mode). The corrected `EntryForm.AddEntry` reads the field only once every field is filled, so it requires `EntryForm.ReadableWhenFilled`: a filled class field of one character is still excluded, because the source's read past its end is not modelled.
- `QChar::toUpper` beyond ASCII letters and `QString::toInt` whitespace beyond the six ASCII space characters are not modelled; `toStdString()[k]` is taken to be the k-th character, which agrees with UTF-8 whenever the switch or the validity test can match.
