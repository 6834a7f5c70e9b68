/**
  The data the PDF export hands to jsPDF (src/App.tsx:66-137): the date line,
  the address line, the title, the six-row table of raw field texts and the
  total line, and the name the file is offered under. Fonts, positions and the
  drawing itself belong to jsPDF and are not part of this model.
*/
module ReportBuilder {
  import opened Digits
  import opened Normalizer
  import opened Calculation

  datatype Row = Row(category: string, value: string)

  /** Everything generatePDF writes into the document, in the order it writes it. */
  datatype Report = Report(
    date: string,
    addressLine: string,
    title: string,
    head: Row,
    body: seq<Row>,
    totalLine: string)

  const Title: string := "Rent Calculation"
  const Head: Row := Row("Category", "Value")

  /** The table's categories, top to bottom. */
  const Categories: seq<string> := [
    "Rent", "Administration Fee", "Advance Payment for Electricity",
    "Electricity Invoice", "TV/Internet", "Periodic Media Settlement"]

  const FileNameSuffix: string := "_Rent_Calculation.pdf"

  /** The date as day-month-year: the day of the month, the zero-based month
      index shifted to 1-12, and the year, none of them padded. */
  function FormatDate(day: nat, monthIndex: nat, year: nat): string {
    NatToString(day) + "-" + NatToString(monthIndex + 1) + "-" + NatToString(year)
  }

  /** The download name: the address field (or "No_address" when it is empty),
      an underscore, the date and a fixed suffix. */
  function FileName(address: Option<string>, date: string): string {
    OrElse(address, "No_address") + "_" + date + FileNameSuffix
  }

  /** The amount fields in the order the table lists them: the media settlement
      moves from third place to last. */
  function TableTexts(f: Form): (s: seq<Option<string>>)
    ensures |s| == 6
  {
    [f.rent, f.adminFee, f.electricityAdvance, f.electricityInvoice, f.tv, f.mediaSettle]
  }

  /** Pairs each category with the raw text of its field, or "0" when the field is empty. */
  function Rows(categories: seq<string>, texts: seq<Option<string>>): (rows: seq<Row>)
    requires |categories| == |texts|
    ensures |rows| == |texts|
    ensures forall i :: 0 <= i < |texts| ==> rows[i] == Row(categories[i], OrElse(texts[i], "0"))
  {
    if |texts| == 0 then []
    else
      var n := |texts| - 1;
      assert forall i :: 0 <= i < n ==> categories[..n][i] == categories[i] && texts[..n][i] == texts[i];
      Rows(categories[..n], texts[..n]) + [Row(categories[n], OrElse(texts[n], "0"))]
  }

  /** The table's body rows, top to bottom. */
  function TableData(f: Form): seq<Row> {
    Rows(Categories, TableTexts(f))
  }

  /** Hundredths 1-99 as JavaScript prints the fraction of a number: a dot and
      the digits without trailing zeros; nothing for 0. */
  function FractionText(r: nat): (t: string)
    requires r < 100
  {
    if r == 0 then ""
    else if r % 10 == 0 then "." + [DigitChar(r / 10)]
    else "." + [DigitChar(r / 10), DigitChar(r % 10)]
  }

  /** A number as a JavaScript template prints it, for NaN and for an exact number of hundredths. */
  function NumberToString(n: Number): string {
    if n.NaN? then "NaN"
    else if n.c < 0 then "-" + UnsignedToString(-n.c)
    else UnsignedToString(n.c)
  }

  /** A non-negative number of hundredths printed: whole units, then the fraction if any. */
  function UnsignedToString(a: nat): string {
    NatToString(a / 100) + FractionText(a % 100)
  }

  /** The line printed under the table: the word Total, the amount and the currency. */
  function TotalLine(total: Number): string {
    "Total: " + NumberToString(total) + " zl"
  }

  /** The report for the current form: the table shows the form's texts, but the
      total line shows `total`, the amount computed at the last calculation. */
  function BuildReport(f: Form, total: Number, day: nat, monthIndex: nat, year: nat): Report {
    Report(
      FormatDate(day, monthIndex, year),
      OrElse(f.address, "No address provided"),
      Title,
      Head,
      TableData(f),
      TotalLine(total))
  }

  /** The texts a reader finds in the table's value column. */
  function ShownTexts(rows: seq<Row>): (s: seq<Option<string>>)
    ensures |s| == |rows|
    ensures forall i :: 0 <= i < |rows| ==> s[i] == Some(rows[i].value)
  {
    if |rows| == 0 then []
    else
      var n := |rows| - 1;
      assert forall i :: 0 <= i < n ==> rows[..n][i] == rows[i];
      ShownTexts(rows[..n]) + [Some(rows[n].value)]
  }

  // ---------------------------------------------------------------------------
  // Date and file name

  /** The digits before the first dash are the first number; the rest follows the dash. */
  lemma SplitAtDash(a: string, rest: string)
    requires AllDigits(a)
    ensures var s := a + "-" + rest;
      s[..LeadingDigits(s)] == a && s[|a| + 1..] == rest
  {
    var s := a + "-" + rest;
    assert s == a + ("-" + rest);
    LeadingDigitsOfRun(a, "-" + rest);
    assert s[..|a|] == a;
  }

  /** Different dates are written differently: the date text determines the day,
      the month and the year. */
  lemma FormatDateInjective(d1: nat, m1: nat, y1: nat, d2: nat, m2: nat, y2: nat)
    requires FormatDate(d1, m1, y1) == FormatDate(d2, m2, y2)
    ensures d1 == d2 && m1 == m2 && y1 == y2
  {
    var a1, b1, c1 := NatToString(d1), NatToString(m1 + 1), NatToString(y1);
    var a2, b2, c2 := NatToString(d2), NatToString(m2 + 1), NatToString(y2);
    var r1, r2 := b1 + "-" + c1, b2 + "-" + c2;
    assert FormatDate(d1, m1, y1) == a1 + "-" + r1;
    assert FormatDate(d2, m2, y2) == a2 + "-" + r2;
    SplitAtDash(a1, r1);
    SplitAtDash(a2, r2);
    NatToStringInjective(d1, d2);
    SplitAtDash(b1, c1);
    SplitAtDash(b2, c2);
    NatToStringInjective(m1 + 1, m2 + 1);
    NatToStringInjective(y1, y2);
  }

  /** No zero padding: the fifth of January 2024 is "5-1-2024". */
  lemma ExampleDate()
    ensures FormatDate(5, 0, 2024) == "5-1-2024"
  {
    assert NatToString(2024) == "2024" by {
      assert NatToString(2) == "2";
      assert NatToString(20) == "20";
      assert NatToString(202) == "202";
    }
  }

  /** The date is read back from the file name: the name is the address (or its
      fallback), an underscore, the date and the fixed suffix. */
  lemma FileNameDate(address: Option<string>, date: string)
    ensures var name := FileName(address, date);
      var start := |OrElse(address, "No_address")| + 1;
      start + |FileNameSuffix| <= |name| &&
      name[start..|name| - |FileNameSuffix|] == date &&
      name[|name| - |FileNameSuffix|..] == FileNameSuffix
  {
    var prefix := OrElse(address, "No_address") + "_";
    var name := FileName(address, date);
    assert name == prefix + date + FileNameSuffix;
    assert name[|prefix|..|name| - |FileNameSuffix|] == date;
  }

  /** Two files exported for the same address on different dates get different names. */
  lemma FileNameInjective(address: Option<string>, d1: string, d2: string)
    requires FileName(address, d1) == FileName(address, d2)
    ensures d1 == d2
  {
    FileNameDate(address, d1);
    FileNameDate(address, d2);
  }

  /** An empty or missing address falls back to 'No_address'. */
  lemma ExampleNoAddress()
    ensures FileName(Some(""), "5-1-2024") == "No_address_5-1-2024_Rent_Calculation.pdf"
    ensures FileName(None, "5-1-2024") == FileName(Some(""), "5-1-2024")
  {
  }

  // ---------------------------------------------------------------------------
  // Table and total

  /** A shown value reads back as the amount of its field: "0" for an empty field
      normalises like the empty field itself. */
  lemma ShownValueNormalizes(v: Option<string>)
    ensures Normalize(Some(OrElse(v, "0"))) == Normalize(v)
  {
  }

  /** The amounts read from the table are those of the calculation, in table order. */
  lemma TableAmounts(f: Form)
    ensures Map(Normalize, ShownTexts(TableData(f))) == Map(Normalize, TableTexts(f))
  {
    var shown, texts := ShownTexts(TableData(f)), TableTexts(f);
    forall i | 0 <= i < 6
      ensures Normalize(shown[i]) == Normalize(texts[i])
    {
      ShownValueNormalizes(texts[i]);
    }
  }

  /** Adding up the amounts the table shows gives the calculated total, although
      the table lists them in another order. */
  lemma TableTotalAgrees(f: Form)
    ensures Sum(Map(Normalize, ShownTexts(TableData(f)))) == Sum(Amounts(f))
  {
    TableAmounts(f);
    TableReordersFields(f);
    MapPermutation(Normalize, TableTexts(f), AmountTexts(f));
    SumPermutation(Map(Normalize, TableTexts(f)), Amounts(f));
  }

  /** The table lists the same six fields as the calculation. */
  lemma TableReordersFields(f: Form)
    ensures multiset(TableTexts(f)) == multiset(AmountTexts(f))
  {
    var a := AmountTexts(f);
    assert TableTexts(f) == (a[..2] + a[3..]) + [a[2]];
    MultisetRemove(a, 2);
  }

  /** The table shows the raw text, not the amount used in the total: a rent of
      "10.999" is shown as typed while 10.99 is added up. */
  lemma ExampleRawText()
    ensures var f := Form(None, Some("10.999"), None, None, None, None, None);
      TableData(f)[0] == Row("Rent", "10.999") && Amounts(f)[0] == Cents(1099)
  {
    ExampleTruncation();
  }

  /** The amount in a number's text reads back as that number. */
  lemma NumberToStringRoundTrip(c: nat)
    ensures Normalize(Some(NumberToString(Cents(c)))) == Cents(c)
  {
    var q, r := c / 100, c % 100;
    var ip := NatToString(q);
    var text := NumberToString(Cents(c));
    assert text == ip + FractionText(r);
    if r == 0 {
      assert text == ip + "";
      NormalizeWholeNumber(ip, "");
    } else {
      var fs := FractionText(r)[1..];
      assert text == ip + "." + fs + "";
      NormalizeTruncates(ip, fs, "");
      FractionArith(q, r, ip, fs);
    }
  }

  /** The arithmetic of NumberToStringRoundTrip: the shown fraction digits are exact. */
  lemma FractionArith(q: nat, r: nat, ip: string, fs: string)
    requires 0 < r < 100 && AllDigits(ip) && Value(ip) == q
    requires fs == FractionText(r)[1..]
    ensures AllDigits(fs) && FloorHundredths(ip, fs) == 100 * q + r
  {
    if r % 10 == 0 {
      OneFractionDigit(q, r, ip, fs);
    } else {
      TwoFractionDigits(q, r, ip, fs);
    }
  }

  lemma OneFractionDigit(q: nat, r: nat, ip: string, fs: string)
    requires 0 < r < 100 && r % 10 == 0 && AllDigits(ip) && Value(ip) == q
    requires fs == [DigitChar(r / 10)]
    ensures AllDigits(fs) && FloorHundredths(ip, fs) == 100 * q + r
  {
    assert Value(fs) == r / 10 by {
      assert fs[..0] == [];
    }
    assert Pow10(|fs|) == 10;
    DivUnique(100 * (q * 10 + r / 10), 10, 100 * q + r);
  }

  lemma TwoFractionDigits(q: nat, r: nat, ip: string, fs: string)
    requires 0 < r < 100 && AllDigits(ip) && Value(ip) == q
    requires fs == [DigitChar(r / 10), DigitChar(r % 10)]
    ensures AllDigits(fs) && FloorHundredths(ip, fs) == 100 * q + r
  {
    var hi := [DigitChar(r / 10)];
    assert fs == hi + [DigitChar(r % 10)];
    assert Value(hi) == r / 10 by {
      assert hi[..0] == [];
    }
    ValueSnoc(hi, DigitChar(r % 10));
    assert Pow10(|fs|) == 100;
    DivUnique(100 * (q * 100 + r), 100, 100 * q + r);
  }

  /** How a non-negative amount is printed: the whole units unpadded, then no
      dot for a whole amount, otherwise a dot and one fraction digit when the
      hundredths digit is 0 and two otherwise, never ending in a 0. */
  lemma NumberToStringForm(c: nat)
    ensures var s := NumberToString(Cents(c));
      var d := LeadingDigits(s);
      s[..d] == NatToString(c / 100) &&
      (d == |s| <==> c % 100 == 0) &&
      (d < |s| ==> s[d] == '.' && AllDigits(s[d + 1..]) &&
                   |s| - d == (if c % 10 == 0 then 2 else 3) && s[|s| - 1] != '0')
  {
    FractionTextForm(c % 100);
    DigitsThenFraction(NatToString(c / 100), FractionText(c % 100));
    LastDigitOfHundredths(c);
  }

  lemma LastDigitOfHundredths(c: nat)
    ensures (c % 100) % 10 == c % 10
  {
  }

  /** The printed fraction: empty for a whole amount, otherwise a dot and one or
      two digits, the last of which is not 0. */
  lemma FractionTextForm(r: nat)
    requires r < 100
    ensures var t := FractionText(r);
      (|t| == 0 <==> r == 0) &&
      (r != 0 ==> t[0] == '.' && AllDigits(t[1..]) &&
                  |t| == (if r % 10 == 0 then 2 else 3) && t[|t| - 1] != '0')
  {
    var t := FractionText(r);
    if r != 0 {
      if r % 10 == 0 {
        assert DigitValue(t[|t| - 1]) == r / 10;
      } else {
        assert DigitValue(t[|t| - 1]) == r % 10;
      }
    }
  }

  /** Digits followed by nothing or by a dot: the leading digits are exactly the first part. */
  lemma DigitsThenFraction(ip: string, t: string)
    requires AllDigits(ip) && (|t| == 0 || t[0] == '.')
    ensures var s := ip + t;
      var d := LeadingDigits(s);
      d == |ip| && s[..d] == ip && |s| - d == |t| &&
      (d < |s| ==> s[d] == t[0] && s[d + 1..] == t[1..] && s[|s| - 1] == t[|t| - 1])
  {
    LeadingDigitsOfRun(ip, t);
    var s := ip + t;
    assert s[..|ip|] == ip;
    if |t| > 0 {
      assert s[|ip| + 1..] == t[1..];
    }
  }

  /** No cell of the table, no address line and no address part of the file
      name is ever blank: an empty field is replaced by its fallback. */
  lemma NothingShownBlank(f: Form, total: Number, day: nat, monthIndex: nat, year: nat)
    ensures var r := BuildReport(f, total, day, monthIndex, year);
      |r.addressLine| > 0 && (forall i :: 0 <= i < |r.body| ==> |r.body[i].value| > 0)
    ensures |OrElse(f.address, "No_address")| > 0
  {
  }

  /** The total line carries the total between its fixed words. */
  lemma TotalLineAmount(total: Number)
    ensures var line := TotalLine(total);
      |line| >= 10 && line[..7] == "Total: " && line[|line| - 3..] == " zl" &&
      line[7..|line| - 3] == NumberToString(total)
  {
  }

  /** The amount a reader takes from the report's total line: the text between
      "Total: " and " zl", normalised like a field; NaN for a line too short to hold one. */
  function ShownTotal(r: Report): Number {
    var line := r.totalLine;
    if |line| >= 10 then Normalize(Some(line[7..|line| - 3])) else NaN
  }

  /** The amount in the report's total line reads back as the sum of the amounts
      its table shows. */
  predicate TotalMatchesTable(r: Report) {
    ShownTotal(r) == Sum(Map(Normalize, ShownTexts(r.body)))
  }

  /** The total line of a report reads back as the total it was built with. */
  lemma ReportShowsTotal(f: Form, total: Number, day: nat, monthIndex: nat, year: nat)
    requires total.Cents? && total.c >= 0
    ensures ShownTotal(BuildReport(f, total, day, monthIndex, year)) == total
  {
    TotalLineAmount(total);
    NumberToStringRoundTrip(total.c);
  }

  /** The facts the export relies on: the total line reads back as the total it
      was built with, and as the table's sum when that total is the form's. */
  lemma ExportedReport(f: Form, total: Number, day: nat, monthIndex: nat, year: nat)
    requires total.Cents? && total.c >= 0
    ensures var r := BuildReport(f, total, day, monthIndex, year);
      ShownTotal(r) == total && (total == Sum(Amounts(f)) ==> TotalMatchesTable(r))
  {
    ReportShowsTotal(f, total, day, monthIndex, year);
    if total == Sum(Amounts(f)) {
      ReportConsistent(f, day, monthIndex, year);
    }
  }

  /** A report exported right after a calculation on the same form is consistent. */
  lemma ReportConsistent(f: Form, day: nat, monthIndex: nat, year: nat)
    ensures TotalMatchesTable(BuildReport(f, Sum(Amounts(f)), day, monthIndex, year))
  {
    NeverRejected(AmountTexts(f));
    SumNonNegative(Amounts(f));
    ReportShowsTotal(f, Sum(Amounts(f)), day, monthIndex, year);
    TableTotalAgrees(f);
  }
}
