# Rent calculator: amount normaliser, total and report data

A model of the logic of the rent calculator's single React component
(`src/App.tsx`). The user types six monetary amounts and an address. The
calculate handler adds up the amounts. The export handler builds a PDF that
shows the typed texts and the stored total. The model covers three things:

- **Amount normaliser** (`parseToTwoDecimals`, module `Normalizer`). A missing
  or empty field reads as "0". The text is cut to its longest leading match of
  `\d*\.?\d{0,2}`, which is then read with `parseFloat`. A NaN result becomes 0.
  The regular expression is modelled as the greedy choice (`KeepTwoDecimals`).
  The model proves that this choice is the longest prefix matched in full by the
  pattern. Every value the normaliser can produce is a whole number of
  hundredths. So a JavaScript number is modelled as `NaN` or an exact count of
  cents (`Number`).
- **Calculate handler** (`submitHandler`, modules `Calculation` and
  `RentCalculator`). The six amounts are normalised and the batch is checked for
  a NaN or negative amount. The amounts are then added from 0, in the handler's
  order. The component's state hooks become the fields of the class
  `RentCalculator.App`, which the handlers assign.
- **Report data** (`generatePDF`, module `ReportBuilder`). This covers the date
  text, the address line, the title, and the six-row table of raw field texts
  (empty fields show "0"). It also covers the line `Total: <total> zl` and the
  file name `<address>_<date>_Rent_Calculation.pdf`. The report prints the
  total stored by the last calculation, not one recomputed from the form. The
  model proves the two agree when the form has not changed since then
  (`ReportBuilder.ReportConsistent`, `RentCalculator.App.GeneratePdf`).

For text without a line terminator (LF, CR, U+2028, U+2029), the normaliser
never yields NaN or a negative number. So for such text the handler's "valid
positive numbers" rejection can never fire: `-5` reads as 0 and `12abc` as 12. The check and its alert text describe the intended behaviour: a negative or
non-numeric field rejects the whole batch and leaves the total unchanged. The
code never reaches that branch, and this model follows the code (`Calculation.NeverRejected`,
`Normalizer.ExampleZeroes`). The rejection branch is still modelled in
`RentCalculator.App.Calculate`.

Modules, one per file: `Digits` (digits.dfy), `Normalizer` (normalizer.dfy),
`Calculation` (calculation.dfy), `ReportBuilder` (report.dfy) and
`RentCalculator` (app.dfy).

## Model

| member | source | states |
|---|---|---|
| Digits.LeadingDigits | src/App.tsx:21 | greedy `\d*`: the counted prefix is all digits, and the character after it, if any, is not a digit |
| Digits.NatToString | src/App.tsx:70-72 | a non-negative integer printed as JavaScript prints it: digits only, reading back as the same number, with no leading zero unless the number is 0 |
| Digits.NatToStringInjective | src/App.tsx:70-72 | different integers print differently |
| Normalizer.OrElse | src/App.tsx:21 | a falsy field takes its fallback: the result is the field's own text or the fallback, and it is never empty when the fallback is not |
| Normalizer.KeepTwoDecimals | src/App.tsx:21 | the text the regular expression keeps is a prefix of the input, made of digits, then optionally a dot and at most two digits |
| Normalizer.ShapeAgrees | src/App.tsx:21 | the greedy reading of that shape holds exactly when the text is matched in full by `\d*\.?\d{0,2}` (both directions) |
| Normalizer.KeepTwoDecimalsMatches | src/App.tsx:21 | the kept text is matched in full by `\d*\.?\d{0,2}` |
| Normalizer.KeepTwoDecimalsIsLongest | src/App.tsx:21 | no longer prefix of the input is matched in full, so the kept text is the greedy match |
| Normalizer.ParseWhole | src/App.tsx:21 | `parseFloat` of a digit run: NaN when it is empty, otherwise its value in whole units |
| Normalizer.ParseDecimal | src/App.tsx:21 | `parseFloat` of digits, a dot and at most two digits: NaN when there are no digits at all, otherwise the integer part plus the fraction, exactly |
| Normalizer.ParseFloat | src/App.tsx:21 | no contract of its own; defined as `parseFloat` on the kept text: NaN when no digit was kept, otherwise the exact number of hundredths. Its properties are stated by `ParseWhole` and `ParseDecimal` |
| Normalizer.Falsy | src/App.tsx:21 | no contract of its own; the numbers the final `\|\| 0` replaces: NaN and 0. `Normalize` states the result |
| Normalizer.Normalize | src/App.tsx:20-22 | `parseToTwoDecimals` never yields NaN and never a negative number: always a whole, non-negative number of hundredths |
| Normalizer.NormalizeWholeNumber | src/App.tsx:20-22 | a text whose numeric part has no dot gives its leading digits in whole units; a text with no leading digit (a sign, a letter, nothing) gives 0 |
| Normalizer.NormalizeKept | src/App.tsx:20-22 | a text `ip.fs...` gives the integer digits plus the first two fractional digits, as hundredths |
| Normalizer.NormalizeTruncates | src/App.tsx:20-22 | further fractional digits are dropped, never rounded: the amount is the floor of 100 times the leading decimal number of the text |
| Normalizer.ExampleTruncation | src/App.tsx:21 | "10.999" gives 10.99 |
| Normalizer.ExampleSecondDot | src/App.tsx:21 | "1.2.3" gives 1.2 |
| Normalizer.ExampleTrailingLetters | src/App.tsx:21 | "12abc" gives 12 |
| Normalizer.ExampleZeroes | src/App.tsx:21 | "-5" and "." give 0 |
| Normalizer.ExampleEmpty | src/App.tsx:21 | an empty field and a missing field both give 0 |
| Calculation.AmountTexts | src/App.tsx:27-36 | the six amount fields the handler reads, in its order (rent, administration fee, media settlement, electricity advance, electricity invoice, TV) |
| Calculation.Amounts | src/App.tsx:27-36 | no contract of its own; each of those six texts normalised. `NeverRejected` and `BlankFormTotalsZero` state its properties |
| Calculation.Rejected | src/App.tsx:46 | no contract of its own; an amount the handler refuses: NaN or below zero. `NeverRejected` states that none is |
| Calculation.AnyRejected | src/App.tsx:38-47 | no contract of its own; some amount of the batch is refused. `NeverRejected` states that this never holds |
| Calculation.Add | src/App.tsx:59 | no contract of its own; one step of the fold: NaN absorbs, otherwise exact addition. `SumNaN` and `SumRemove` state its properties |
| Calculation.Sum | src/App.tsx:52-59 | no contract of its own; the left fold from 0 over the amounts. `SumNonNegative`, `SumNaN` and `SumPermutation` state its properties |
| Calculation.NeverRejected | src/App.tsx:38-50 | for text without a line terminator (LF, CR, U+2028, U+2029), no list of normalised amounts is ever rejected by the handler's NaN-or-negative test |
| Calculation.SumNonNegative | src/App.tsx:52-59 | the `reduce` from 0 over non-negative hundredths is a non-negative number of hundredths |
| Calculation.SumNaN | src/App.tsx:59 | the sum is NaN exactly when one of the amounts is NaN (both directions) |
| Calculation.SumRemove | src/App.tsx:52-59 | taking one amount out of the list and adding it last does not change the sum |
| Calculation.SumPermutation | src/App.tsx:52-59 | the sum does not depend on the order of the amounts: any permutation gives the same total |
| Calculation.SumOfZeros | src/App.tsx:52-59 | amounts that are all 0 sum to 0 |
| Calculation.BlankFormTotalsZero | src/App.tsx:24-64 | every form whose six amount fields are each empty or missing, in any mix, totals 0 |
| ReportBuilder.FormatDate | src/App.tsx:70-72 | no contract of its own; day, month index plus one and year, unpadded, joined by dashes. `FormatDateInjective` and `ExampleDate` state its properties |
| ReportBuilder.FileName | src/App.tsx:74-76 | no contract of its own; the address or 'No_address', an underscore, the date and `_Rent_Calculation.pdf`. `FileNameDate` and `FileNameInjective` state its properties |
| ReportBuilder.TableTexts | src/App.tsx:89-99 | the six amount fields in the table's order, with the media settlement last |
| ReportBuilder.TableData | src/App.tsx:89-99 | no contract of its own; the six categories paired with those texts by `Rows`. `TableAmounts` and `TableTotalAgrees` state its properties |
| ReportBuilder.FractionText | src/App.tsx:110 | no contract of its own; the printed fraction of a number of hundredths. `FractionTextForm` states its form |
| ReportBuilder.FractionTextForm | src/App.tsx:110 | the printed fraction is empty exactly for a whole amount; otherwise it is a dot and one digit (hundredths digit 0) or two, the last never 0 |
| ReportBuilder.UnsignedToString | src/App.tsx:110 | no contract of its own; a non-negative amount printed as whole units and fraction. `NumberToStringForm` states its form |
| ReportBuilder.NumberToString | src/App.tsx:110 | no contract of its own; a number as the template prints it. `NumberToStringRoundTrip` and `NumberToStringForm` state its properties |
| ReportBuilder.TotalLine | src/App.tsx:110 | no contract of its own; "Total: ", the printed total and " zl". `TotalLineAmount` states its properties |
| ReportBuilder.BuildReport | src/App.tsx:66-110 | no contract of its own; the date, the address or 'No address provided', the title, the table and the total line. `ReportShowsTotal`, `ReportConsistent` and `NothingShownBlank` state its properties |
| ReportBuilder.Rows | src/App.tsx:89-99 | row i pairs category i with the raw text of field i, or "0" when that field is empty or missing |
| ReportBuilder.FormatDateInjective | src/App.tsx:70-72 | the `day-month-year` text determines the day, the month and the year |
| ReportBuilder.ExampleDate | src/App.tsx:70-72 | no zero padding, and the month is counted from 1: the fifth of January 2024 is "5-1-2024" |
| ReportBuilder.FileNameDate | src/App.tsx:74-76 | the file name is the address (or 'No_address'), an underscore, the date and `_Rent_Calculation.pdf`; the date can be read back from it |
| ReportBuilder.FileNameInjective | src/App.tsx:74-76 | for one address, different dates give different file names |
| ReportBuilder.NothingShownBlank | src/App.tsx:74-98 | no table cell, no address line and no address part of the file name is ever empty: an empty field shows its fallback |
| ReportBuilder.ExampleNoAddress | src/App.tsx:74-76 | an empty or missing address gives `No_address_<date>_Rent_Calculation.pdf` |
| ReportBuilder.ShownValueNormalizes | src/App.tsx:90-98 | a shown value (raw text, or "0" for an empty field) normalises to the same amount as its field |
| ReportBuilder.TableAmounts | src/App.tsx:89-99 | the amounts read back from the table's value column are the fields' amounts, in table order |
| ReportBuilder.TableReordersFields | src/App.tsx:89-99 | the table lists the same six fields as the calculation, as a permutation (media settlement moves last) |
| ReportBuilder.TableTotalAgrees | src/App.tsx:89-99 | the sum of the amounts the table shows equals the calculated sum of the form, despite the different order |
| ReportBuilder.ExampleRawText | src/App.tsx:89-99 | the table shows the raw "10.999" while the calculation uses 10.99 |
| ReportBuilder.NumberToStringRoundTrip | src/App.tsx:110 | the printed total normalises back to the same number of hundredths |
| ReportBuilder.NumberToStringForm | src/App.tsx:110 | a non-negative total prints as its whole units without padding; no dot for a whole amount; otherwise a dot and one fraction digit when the hundredths digit is 0, two otherwise, never ending in 0 |
| ReportBuilder.ReportShowsTotal | src/App.tsx:109-110 | the amount read from a report's total line is the non-negative total the report was built with |
| ReportBuilder.TotalLineAmount | src/App.tsx:109-110 | the total line is "Total: ", the printed total and " zl" |
| ReportBuilder.ReportConsistent | src/App.tsx:89-110 | a report built with the form's own calculated total has a total line that reads back as the sum of the amounts its table shows |
| ReportBuilder.ExportedReport | src/App.tsx:89-110 | a report built with a non-negative total shows that total, and shows the table's sum when the total is the form's own sum |
| RentCalculator.App.constructor | src/App.tsx:8-10 | initial state: total 0, empty download name, no document |
| RentCalculator.App.Calculate | src/App.tsx:24-64 | the total stays a non-negative number of hundredths; a rejected batch would leave it unchanged; the new total is the sum of the six normalised amounts; nothing else changes |
| RentCalculator.App.GeneratePdf | src/App.tsx:66-137 | the total stays a non-negative number of hundredths and is unchanged; the document is the report for the form and the stored total, and its total line reads back as that total; the download name is built from the address and the date; when the stored total is the form's sum, the report's total matches its table |

## Left out

- Calculation.Add: exact addition of hundredths, not IEEE-754 double addition, so rounding drift in the sum (and in its printed form) is not modelled.
- Normalizer.ParseFloat: modelled only on the texts the regular expression can keep, which is all it receives here. Digit runs too long for a double (loss of precision, Infinity) are not modelled.
- ReportBuilder.NumberToString: prints NaN and exact hundredths only. Exponent notation for very large numbers is not modelled.
- Normalizer.KeepTwoDecimals: models text without a line terminator (LF, CR, U+2028, U+2029) only. A text input strips LF and CR, but a pasted U+2028 or U+2029 stays. The pattern's `.` matches none of them, so such a text does not match at all and reaches `parseFloat` unchanged. Then "-5" followed by U+2028 gives -5, and the rejection in src/App.tsx:38-50 fires. "10.999" followed by U+2028 adds 10.999 without truncation. The model gives 0 and 10.99. Modelling this would need `parseFloat` on arbitrary text and numbers that are not whole hundredths.
- The React rendering, the form markup, `e.preventDefault()` and the `alert` call are left out: they are user-interface effects with no data of their own.
- jsPDF drawing (font sizes, font names, positions, alignment), the second `autoTable` call that redraws the same table, the total text being drawn once per cell of the last row (twice, at the same place; the report holds it once), `doc.output('blob')` and `URL.createObjectURL` are left out. The document is modelled as the data handed to jsPDF (`ReportBuilder.Report`), held in the field `pdf` in place of the preview URL.
- `new Date()` is left out: the day of the month, the zero-based month index and the year are parameters of `RentCalculator.App.GeneratePdf`.
- ReportBuilder.FormatDate: day, month and year are unbounded naturals. The calendar ranges are not required and the injectivity proof does not need them.
