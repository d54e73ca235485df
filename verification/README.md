# VB status report — a Dafny model

This project models the VB status report of the finance accounting service
(`VBStatusReportService`). A VB ("voucher bon") is a cash-advance request.
Its realization is the settlement recorded against it. The two are linked by
the request's VB number.

`GetReportQuery` works in five stages:

1. It filters the requests by unit, request id and realized flag. Each of
   these filters applies only when it is set: an id of 0 or a null flag means
   "any".
2. It filters each side independently by an inclusive date range. Either bound
   may be missing. The range compares day components after shifting every
   record's date by the caller's `offSet` hours.
3. It inner-joins the two filtered sets on the VB number.
4. It projects each matched pair into a report row. Three fields are derived:
   the aging, the difference and the status.
5. It orders the rows by the realization's last modification, most recent
   first.

`GenerateExcel` builds a 13-column sheet named "Status VB" from that report.
An empty report gives one blank row. Otherwise the rows are re-sorted by
request id, with a stable sort, and the sheet gets one row per report row.

Layout:

- `linq.dfy`, module `Linq`. The LINQ operators the query is built from, as
  pure functions over sequences: `Where`, the stable `OrderBy`,
  `OrderByDescending` and `Join`. The join is related to an independent
  description of its result, the ordered list of matching index pairs.
- `time.dfy`, module `Time`. A `DateTimeOffset` is local clock ticks plus the
  clock's UTC offset. The module also has day numbers, `AddHours`, the shifted
  filter day, the displayed day after `ToOffset`, and the whole-day difference
  truncated toward zero.
- `records.dfy`, module `Records`. The request, realization and report-row
  records.
- `options.dfy`, module `Options`. C# nullable values.
- `report.dfy`, module `StatusReport`. The filters, the projection, the join
  and `GetReportQuery`, with soundness, completeness, cardinality and
  inner-join lemmas.
- `export.dfy`, module `StatusExport`. Columns, headers, cells, the blank row,
  the export order and the row builder of `GenerateExcel`.

Four details of the code are easy to misread, and the model follows the code
in each:

- The status text for a verified realization is `"Realisasi"`, not
  "Realized".
- The `isRealized` filter tests the request's `Complete_Status`, not the
  realization's verification flag.
- A report row's `Unit.Id` is the request's `Id`, not its `UnitId`.
- The date filters shift each record's local clock reading by `offSet` hours,
  while the export converts the UTC instant to a clock `offSet` hours ahead.
  The two agree for values stored at offset zero, but a value stored at another
  offset can pass a filter for one day and be shown as the day before or after.

All source paths below are under
`Com.Danliris.Service.Finance.Accounting.Lib/BusinessLogic/Services/VBStatusReport/`.

## Model

| member | source | states |
|---|---|---|
| Linq.Where | Com.Danliris.Service.Finance.Accounting.Lib/BusinessLogic/Services/VBStatusReport/VBStatusReportService.cs:43-56 | A `Where` step keeps exactly the elements that satisfy the predicate, each as often as it occurs, and nothing else. |
| StatusReport.DateRangeFilter | Com.Danliris.Service.Finance.Accounting.Lib/BusinessLogic/Services/VBStatusReport/VBStatusReportService.cs:58-84 | The three-branch date filter keeps a record exactly when its `offSet`-shifted day lies in the inclusive window of the given bounds. A missing bound leaves that side open, and with no bounds the input is returned unchanged. |
| StatusReport.FilterRequests | Com.Danliris.Service.Finance.Accounting.Lib/BusinessLogic/Services/VBStatusReport/VBStatusReportService.cs:41-69 | Chaining the unit, id, realized-flag and date filters keeps exactly the requests meeting every active condition, with their multiplicity. An id of 0 or a null value imposes no condition, and with no filter at all the requests come back unchanged. |
| StatusReport.FilterRealizations | Com.Danliris.Service.Finance.Accounting.Lib/BusinessLogic/Services/VBStatusReport/VBStatusReportService.cs:71-84 | Realizations are filtered only by their own date range, independently of the request side. |
| Time.ShiftedDate | Com.Danliris.Service.Finance.Accounting.Lib/BusinessLogic/Services/VBStatusReport/VBStatusReportService.cs:60 | The day that `s.Date.AddHours(offSet).Date` compares is the unique day containing the local clock reading moved by `offSet` hours. |
| Time.AddHours | Com.Danliris.Service.Finance.Accounting.Lib/BusinessLogic/Services/VBStatusReport/VBStatusReportService.cs:60 | `AddHours` moves the instant by exactly that many hours and keeps the offset. |
| Time.WholeDays | Com.Danliris.Service.Finance.Accounting.Lib/BusinessLogic/Services/VBStatusReport/VBStatusReportService.cs:104 | The `(int)` cast of `TotalDays` gives a result with the sign of the span whose magnitude is the number of complete days in it. It truncates toward zero. |
| Time.WholeDaysOdd | Com.Danliris.Service.Finance.Accounting.Lib/BusinessLogic/Services/VBStatusReport/VBStatusReportService.cs:104 | Truncation is symmetric: swapping realization date and estimate negates the aging exactly, which floor division would not. |
| StatusReport.ToReportRow | Com.Danliris.Service.Finance.Accounting.Lib/BusinessLogic/Services/VBStatusReport/VBStatusReportService.cs:90-110 | Each field is copied from its record, and the unit's id is the request id. Difference plus realized amount equals the requested amount, with no sign restriction. The status is "Realisasi" exactly when the realization is verified and "Outstanding" otherwise. The aging is the signed, truncated day count from realization date to estimate, not clamped. |
| Linq.JoinIsMatchedPairs | Com.Danliris.Service.Finance.Accounting.Lib/BusinessLogic/Services/VBStatusReport/VBStatusReportService.cs:86-90 | The join has exactly one row per index pair with equal keys. Row k is built from the k-th pair, every matching pair is listed, and no pair is listed twice. |
| StatusReport.JoinedRowsArePairs | Com.Danliris.Service.Finance.Accounting.Lib/BusinessLogic/Services/VBStatusReport/VBStatusReportService.cs:86-110 | The same bijection for requests and realizations joined on the VB number. |
| Linq.OrderByDescending | Com.Danliris.Service.Finance.Accounting.Lib/BusinessLogic/Services/VBStatusReport/VBStatusReportService.cs:111 | The result is non-increasing in the key and is a permutation of the input. |
| StatusReport.GetReportQuery | Com.Danliris.Service.Finance.Accounting.Lib/BusinessLogic/Services/VBStatusReport/VBStatusReportService.cs:39-121 | The report is ordered by non-increasing `LastModifiedUtc` and is a permutation of the join of the filtered requests and realizations. |
| StatusReport.ReportRowsSound | Com.Danliris.Service.Finance.Accounting.Lib/BusinessLogic/Services/VBStatusReport/VBStatusReportService.cs:43-111 | Every report row is the projection of a request satisfying every request filter and a realization satisfying its date filter, and the two share the VB number. |
| StatusReport.ReportRowsComplete | Com.Danliris.Service.Finance.Accounting.Lib/BusinessLogic/Services/VBStatusReport/VBStatusReportService.cs:43-111 | Every selected request and selected realization that share a VB number appear in the report as their projected row. |
| StatusReport.ReportCountsMatchedPairs | Com.Danliris.Service.Finance.Accounting.Lib/BusinessLogic/Services/VBStatusReport/VBStatusReportService.cs:86-113 | The number of report rows equals the number of matching pairs of filtered requests and realizations. |
| StatusReport.UnmatchedRequestNotReported | Com.Danliris.Service.Finance.Accounting.Lib/BusinessLogic/Services/VBStatusReport/VBStatusReportService.cs:86-89 | Inner join: a VB number with no selected realization never appears in the report. |
| StatusReport.DuplicateRealizationsRepeatRows | Com.Danliris.Service.Finance.Accounting.Lib/BusinessLogic/Services/VBStatusReport/VBStatusReportService.cs:86-89 | A selected realization occurring twice yields its row at least twice; duplicates are not collapsed. |
| StatusReport.UnfilteredReportJoinsAll | Com.Danliris.Service.Finance.Accounting.Lib/BusinessLogic/Services/VBStatusReport/VBStatusReportService.cs:43-84 | With ids 0 and every nullable parameter null, the report holds every joined row of the unfiltered inputs. |
| StatusReport.WorkedExample | Com.Danliris.Service.Finance.Accounting.Lib/BusinessLogic/Services/VBStatusReport/VBStatusReportService.cs:104-108 | The inputs are a request of 1000 on 1 January 2023 and a verified realization of 900 on 10 January, estimated for 15 January. They give the single row with aging 5, difference 100 and status "Realisasi". |
| Linq.OrderBy | Com.Danliris.Service.Finance.Accounting.Lib/BusinessLogic/Services/VBStatusReport/VBStatusReportService.cs:148 | The result is non-decreasing in the key and is a permutation of the input. |
| Linq.OrderByStable | Com.Danliris.Service.Finance.Accounting.Lib/BusinessLogic/Services/VBStatusReport/VBStatusReportService.cs:148 | `OrderBy` is stable: the elements with any one key keep their input order. |
| StatusExport.ExportOrder | Com.Danliris.Service.Finance.Accounting.Lib/BusinessLogic/Services/VBStatusReport/VBStatusReportService.cs:148 | The export order is non-decreasing by request id. It is a permutation of the report, and rows with equal ids keep their report order. |
| StatusExport.Headers | Com.Danliris.Service.Finance.Accounting.Lib/BusinessLogic/Services/VBStatusReport/VBStatusReportService.cs:127-140 | The sheet has thirteen headers, the k-th naming the k-th column. |
| StatusExport.BlankRow | Com.Danliris.Service.Finance.Accounting.Lib/BusinessLogic/Services/VBStatusReport/VBStatusReportService.cs:142-145 | The row for an empty report has one empty string per column, thirteen in all. |
| StatusExport.RowCells | Com.Danliris.Service.Finance.Accounting.Lib/BusinessLogic/Services/VBStatusReport/VBStatusReportService.cs:149-155 | A data row has one cell per column, and the positional values line up with the column headers. |
| Time.DisplayedDate | Com.Danliris.Service.Finance.Accounting.Lib/BusinessLogic/Services/VBStatusReport/VBStatusReportService.cs:151-153 | A date cell shows the unique day containing the instant read on a clock `offSet` hours ahead of UTC. |
| Time.DisplayedDateIsFilteredDate | Com.Danliris.Service.Finance.Accounting.Lib/BusinessLogic/Services/VBStatusReport/VBStatusReportService.cs:151-153 | For a value stored with offset zero, the exported day is the day the date filters compared. |
| Time.DisplayedDateCanDifferFromFilteredDate | Com.Danliris.Service.Finance.Accounting.Lib/BusinessLogic/Services/VBStatusReport/VBStatusReportService.cs:151-153 | The exported day and the filtered day can differ for a value stored with a non-zero offset: 20:00 at UTC+7 with `offSet` 7 passes the filters as the next day (line 60 shifts the local clock) but is shown as the same day (`ToOffset` shifts the UTC instant). |
| StatusExport.BuildExportRows | Com.Danliris.Service.Finance.Accounting.Lib/BusinessLogic/Services/VBStatusReport/VBStatusReportService.cs:142-156 | An empty report gives exactly one blank row. Otherwise there is one row per report row, the k-th built from the k-th row in export order, and every row has thirteen cells. |
| StatusExport.GenerateExcel | Com.Danliris.Service.Finance.Accounting.Lib/BusinessLogic/Services/VBStatusReport/VBStatusReportService.cs:123-158 | The sheet is named "Status VB" and carries the fixed headers. It has max(1, report size) rows, each as wide as the header row. An empty report gives exactly the blank row; otherwise the k-th row holds the cells of the k-th report row in export order. |
| StatusExport.ExportTiesMostRecentFirst | Com.Danliris.Service.Finance.Accounting.Lib/BusinessLogic/Services/VBStatusReport/VBStatusReportService.cs:146-149 | Re-sorting a report ordered by last modification keeps, among rows with one id, the most recently modified first. |
| StatusExport.ExportOfReportTiesMostRecentFirst | Com.Danliris.Service.Finance.Accounting.Lib/BusinessLogic/Services/VBStatusReport/VBStatusReportService.cs:123-149 | In the exported order of an actual report, rows with one id run from the most recently modified realization to the least. |

## Left out

- Entity Framework: `DbSet`, `IQueryable`, SQL translation, `async` and
  `Task`. The two tables are plain sequences, and data-access failures are not
  modelled.
- String comparison in the database. The join and the filters use exact
  equality, while a SQL collation may compare VB numbers case-insensitively.
  Null VB numbers are not modelled; the join never matches them.
- The order of rows with equal `LastModifiedUtc`. The database does not fix
  it. The model uses a stable sort, and GetReportQuery promises only
  sortedness and permutation.
- The pre-sort order of the joined rows. The model visits requests in order
  and, for each, its realizations in order.
- Time.WholeDays: `TimeSpan.TotalDays` is a `double`, while the model divides
  integer ticks exactly, so floating-point rounding of very long spans is not
  modelled. The
  `DateTime` range limits, and the exceptions `AddHours` throws beyond them,
  are not modelled either.
- StatusExport.BuildExportRows: `ToOffset` throws when the offset lies outside
  plus or minus 14 hours, so for such an `offSet` and a non-empty report
  `GenerateExcel` fails, while the model still returns the full sheet. The
  exception is not modelled.
- Rendering. Date cells hold day numbers rather than `d/M/yyyy` text in the
  id-ID culture, and numbers stay numbers. Calendar and culture conversion are
  not part of this model.
- `Excel.CreateExcel`, `DataTable` and `MemoryStream`. These are the
  spreadsheet library; the model stops at the sheet's name, headers and cells.
- `CreateAsync` and `ReadByIdAsync`. They are create and read pass-throughs to
  the database and the identity service.
- Dependency injection and the identity service.
- The controller test for daily bank transactions. It checks HTTP status codes
  of a controller whose logic is not part of this model.
- StatusReport.ToReportRow: amounts are C# `decimal`s, modelled as exact
  reals. The rounding of `Amount - real.Amount` beyond 28 to 29 significant
  digits, and the `OverflowException` it throws beyond about 7.9e28, are not
  modelled, so the difference identity holds here for every input.
- 32- and 64-bit widths of `unitId`, `vbRequestId` and the ids. All integers
  are unbounded, and the source performs no arithmetic on ids.
