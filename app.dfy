/**
  The component's state and its two handlers (src/App.tsx:7-137): the total
  shown on the page, the name offered for the download, and the report shown in
  the preview. React's state hooks become fields that the handlers assign.
*/
module RentCalculator {
  import opened Normalizer
  import opened Calculation
  import opened ReportBuilder

  class App {
    /** `total`, shown as "Total: ... zl" and printed on the report. */
    var total: Number
    /** `downloadFileName`. */
    var downloadFileName: string
    /** The document behind `pdfPreviewUrl`; None while nothing was exported. */
    var pdf: Option<Report>

    /** The total is always a whole, non-negative number of hundredths. */
    ghost predicate Valid()
      reads this
    {
      total.Cents? && total.c >= 0
    }

    /** The initial state: a total of 0, no download name and no document. */
    constructor()
      ensures Valid()
      ensures total == Cents(0) && downloadFileName == "" && pdf == None
    {
      total := Cents(0);
      downloadFileName := "";
      pdf := None;
    }

    /** `submitHandler`: normalise the six amounts; if any is NaN or negative,
        leave the total as it is (after an alert); otherwise store their sum. */
    method Calculate(f: Form)
      requires Valid()
      modifies this
      ensures Valid()
      ensures AnyRejected(Amounts(f)) ==> total == old(total)
      ensures total == Sum(Amounts(f))
      ensures downloadFileName == old(downloadFileName) && pdf == old(pdf)
    {
      var amounts := Amounts(f);
      NeverRejected(AmountTexts(f));
      if AnyRejected(amounts) {
        return;
      }
      SumNonNegative(amounts);
      total := Sum(amounts);
    }

    /** `generatePDF`: build the report for the current form and the last
        calculated total, and offer it under a name made of the address and the
        date. The total line reads back as the stored total. The clock is read
        by the caller and passed in. */
    method GeneratePdf(f: Form, day: nat, monthIndex: nat, year: nat)
      requires Valid()
      modifies this
      ensures Valid()
      ensures pdf == Some(BuildReport(f, total, day, monthIndex, year))
      ensures downloadFileName == FileName(f.address, FormatDate(day, monthIndex, year))
      ensures total == old(total)
      ensures ShownTotal(pdf.value) == total
      ensures total == Sum(Amounts(f)) ==> TotalMatchesTable(pdf.value)
    {
      var fileName := FileName(f.address, FormatDate(day, monthIndex, year));
      var report := BuildReport(f, total, day, monthIndex, year);
      ExportedReport(f, total, day, monthIndex, year);
      pdf := Some(report);
      downloadFileName := fileName;
    }
  }
}
