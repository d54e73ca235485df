/**
  The row-building half of `VBStatusReportService.GenerateExcel`: the sheet
  "Status VB" with thirteen fixed columns, one blank row when the report is
  empty, and otherwise one row per report row in ascending request-id order.
  Cells are kept abstract: a date cell holds the day number the value shows
  after `ToOffset(offSet)`, and numbers are kept as numbers; rendering them as
  text is left to the spreadsheet library.
 */
module StatusExport {
  import opened Time
  import opened Records
  import opened StatusReport
  import Linq

  const SheetName: string := "Status VB"

  /** The columns of the sheet, in their order. */
  datatype Column =
    | VbNumber | VbDate | EstimatedDate | UnitName | Requester | RealizationNumber
    | RealizationDay | Purpose | AgingDays | VbAmount | RealizedAmount | Remainder | Status

  const Columns: seq<Column> := [
    VbNumber, VbDate, EstimatedDate, UnitName, Requester, RealizationNumber,
    RealizationDay, Purpose, AgingDays, VbAmount, RealizedAmount, Remainder, Status]

  /** The (Indonesian) header of each column. */
  function Header(c: Column): string
  {
    match c
    case VbNumber => "No VB"
    case VbDate => "Tanggal VB"
    case EstimatedDate => "Estimasi Tgl Realisasi"
    case UnitName => "Unit"
    case Requester => "Pemohon VB"
    case RealizationNumber => "No Realisasi"
    case RealizationDay => "Tgl Realisasi"
    case Purpose => "Keperluan VB"
    case AgingDays => "Aging (Hari)"
    case VbAmount => "Jumlah VB"
    case RealizedAmount => "Realisasi"
    case Remainder => "Sisa (Kurang/Lebih)"
    case Status => "Status"
  }

  /** The header row as the sheet declares it: one header per column, in
      column order. */
  function Headers(): (hs: seq<string>)
    ensures |hs| == |Columns|
    ensures forall k :: 0 <= k < |hs| ==> hs[k] == Header(Columns[k])
  {
    ["No VB", "Tanggal VB", "Estimasi Tgl Realisasi", "Unit", "Pemohon VB", "No Realisasi",
     "Tgl Realisasi", "Keperluan VB", "Aging (Hari)", "Jumlah VB", "Realisasi",
     "Sisa (Kurang/Lebih)", "Status"]
  }

  /** A spreadsheet cell before rendering. */
  datatype Cell =
    | Text(text: string)
    | Day(day: int)
    | Whole(n: int)
    | Amount(value: real)

  /** What column `c` shows for a report row. */
  function CellFor(row: ReportRow, c: Column, offSet: int): Cell
  {
    match c
    case VbNumber => Text(row.vbNo)
    case VbDate => Day(DisplayedDate(row.date, offSet))
    case EstimatedDate => Day(DisplayedDate(row.dateEstimate, offSet))
    case UnitName => Text(row.unit.name)
    case Requester => Text(row.createBy)
    case RealizationNumber => Text(row.realizationNo)
    case RealizationDay => Day(DisplayedDate(row.realizationDate, offSet))
    case Purpose => Text(row.usage)
    case AgingDays => Whole(row.aging)
    case VbAmount => Amount(row.amount)
    case RealizedAmount => Amount(row.realizationAmount)
    case Remainder => Amount(row.difference)
    case Status => Text(row.status)
  }

  /** The data row for one report row, as the service adds it: a positional
      list of thirteen values, which line up with the columns. */
  function RowCells(row: ReportRow, offSet: int): (cells: seq<Cell>)
    ensures |cells| == |Columns|
    ensures forall k :: 0 <= k < |cells| ==> cells[k] == CellFor(row, Columns[k], offSet)
  {
    [Text(row.vbNo),
     Day(DisplayedDate(row.date, offSet)),
     Day(DisplayedDate(row.dateEstimate, offSet)),
     Text(row.unit.name),
     Text(row.createBy),
     Text(row.realizationNo),
     Day(DisplayedDate(row.realizationDate, offSet)),
     Text(row.usage),
     Whole(row.aging),
     Amount(row.amount),
     Amount(row.realizationAmount),
     Amount(row.difference),
     Text(row.status)]
  }

  /** The row added for an empty report: an empty string in every column. */
  function BlankRow(): (cells: seq<Cell>)
    ensures |cells| == |Columns|
    ensures forall k :: 0 <= k < |cells| ==> cells[k] == Text("")
  {
    [Text(""), Text(""), Text(""), Text(""), Text(""), Text(""), Text(""),
     Text(""), Text(""), Text(""), Text(""), Text(""), Text("")]
  }

  function RowId(row: ReportRow): int
  {
    row.id
  }

  /** The export's own order: the report re-sorted by request id with a stable
      sort. */
  function ExportOrder(report: seq<ReportRow>): (ordered: seq<ReportRow>)
    ensures forall i, j :: 0 <= i < j < |ordered| ==> ordered[i].id <= ordered[j].id
    ensures multiset(ordered) == multiset(report)
    ensures forall id :: Linq.Where(ordered, Linq.KeyIs(RowId, id)) == Linq.Where(report, Linq.KeyIs(RowId, id))
  {
    var ordered := Linq.OrderBy(report, RowId);
    forall id
      ensures Linq.Where(ordered, Linq.KeyIs(RowId, id)) == Linq.Where(report, Linq.KeyIs(RowId, id))
    {
      Linq.OrderByStable(report, RowId, id);
    }
    ordered
  }

  /** The data rows of the sheet: one blank row for an empty report,
      otherwise one row per report row, in export order. */
  method BuildExportRows(report: seq<ReportRow>, offSet: int) returns (rows: seq<seq<Cell>>)
    ensures |report| == 0 ==> rows == [BlankRow()]
    ensures |report| > 0 ==> |rows| == |report|
    ensures |report| > 0 ==> forall k :: 0 <= k < |rows| ==> rows[k] == RowCells(ExportOrder(report)[k], offSet)
    ensures forall k :: 0 <= k < |rows| ==> |rows[k]| == |Columns|
  {
    if |report| == 0 {
      rows := [BlankRow()];
      return;
    }
    var ordered := ExportOrder(report);
    rows := [];
    var k := 0;
    while k < |ordered|
      invariant 0 <= k <= |ordered|
      invariant |rows| == k
      invariant forall t :: 0 <= t < k ==> rows[t] == RowCells(ordered[t], offSet)
    {
      rows := rows + [RowCells(ordered[k], offSet)];
      k := k + 1;
    }
  }

  /** A single-sheet workbook before serialization. */
  datatype Sheet = Sheet(name: string, headers: seq<string>, rows: seq<seq<Cell>>)

  /** `GenerateExcel` up to the spreadsheet library: the report of the query,
      laid out as the sheet "Status VB". */
  method GenerateExcel(reqs: seq<VbRequest>, reals: seq<RealizationVb>, q: ReportQuery) returns (sheet: Sheet)
    ensures sheet.name == SheetName && sheet.headers == Headers()
    ensures var report := GetReportQuery(reqs, reals, q);
            |sheet.rows| == if |report| == 0 then 1 else |report|
    ensures var report := GetReportQuery(reqs, reals, q);
            |report| == 0 ==> sheet.rows == [BlankRow()]
    ensures var report := GetReportQuery(reqs, reals, q);
            |report| > 0 ==> forall k :: 0 <= k < |sheet.rows| ==> sheet.rows[k] == RowCells(ExportOrder(report)[k], q.offSet)
    ensures forall k :: 0 <= k < |sheet.rows| ==> |sheet.rows[k]| == |sheet.headers|
  {
    var report := GetReportQuery(reqs, reals, q);
    var rows := BuildExportRows(report, q.offSet);
    sheet := Sheet(SheetName, Headers(), rows);
  }

  /** Rows of one request keep the report's order in the export: among rows
      with equal id, the most recently modified comes first. */
  lemma ExportTiesMostRecentFirst(report: seq<ReportRow>)
    requires Linq.SortedDownBy(report, RowLastModified)
    ensures var ordered := ExportOrder(report);
            forall i, j :: 0 <= i < j < |ordered| && ordered[i].id == ordered[j].id ==>
              ordered[i].lastModifiedUtc >= ordered[j].lastModifiedUtc
  {
    var ordered := ExportOrder(report);
    forall i, j | 0 <= i < j < |ordered| && ordered[i].id == ordered[j].id
      ensures ordered[i].lastModifiedUtc >= ordered[j].lastModifiedUtc
    {
      var p := Linq.KeyIs(RowId, ordered[i].id);
      var w := Linq.Where(ordered, p);
      assert w == Linq.Where(report, p);
      Linq.WhereKeepsOrder(ordered, p, i, j);
      Linq.WhereKeepsSortedDown(report, p, RowLastModified);
      var i', j' :| 0 <= i' < j' < |w| && w[i'] == ordered[i] && w[j'] == ordered[j];
      assert RowLastModified(w[i']) >= RowLastModified(w[j']);
    }
  }

  /** The exported rows of a report: every row of one request, from the most
      recently modified realization to the least. */
  lemma ExportOfReportTiesMostRecentFirst(reqs: seq<VbRequest>, reals: seq<RealizationVb>, q: ReportQuery)
    ensures var ordered := ExportOrder(GetReportQuery(reqs, reals, q));
            forall i, j :: 0 <= i < j < |ordered| && ordered[i].id == ordered[j].id ==>
              ordered[i].lastModifiedUtc >= ordered[j].lastModifiedUtc
  {
    ExportTiesMostRecentFirst(GetReportQuery(reqs, reals, q));
  }
}
