/**
  The query behind `VBStatusReportService.GetReport`: filter the requests,
  filter the realizations, inner-join them on the VB number, project each
  matched pair into a report row, and order the rows by the realization's
  last modification, most recent first.
 */
module StatusReport {
  import opened Options
  import opened Time
  import opened Records
  import Linq

  /** The report's parameters. `unitId` and `vbRequestId` use 0 for "any";
      the nullable ones use null for "any". `offSet` is the caller's UTC
      offset in hours. */
  datatype ReportQuery = ReportQuery(
    unitId: int,
    vbRequestId: int,
    isRealized: Option<bool>,
    requestDateFrom: Option<DateTimeOffset>,
    requestDateTo: Option<DateTimeOffset>,
    realizeDateFrom: Option<DateTimeOffset>,
    realizeDateTo: Option<DateTimeOffset>,
    offSet: int)

  const StatusRealized: string := "Realisasi"
  const StatusOutstanding: string := "Outstanding"

  /* ---------------------------------------------------------------------- */
  /* Filters                                                                */
  /* ---------------------------------------------------------------------- */

  /** `day` lies in the inclusive window between the days of `from` and `to`;
      a missing bound leaves that side open. */
  predicate WithinDays(day: int, from: Option<DateTimeOffset>, to: Option<DateTimeOffset>)
  {
    && (from.Some? ==> Date(from.value) <= day)
    && (to.Some? ==> day <= Date(to.value))
  }

  /** The date-range step, written once for both record kinds: each record's
      date is shifted by `offSet` hours and its day compared with the days of
      the bounds, by one of three filters depending on which bounds are given. */
  function DateRangeFilter<T(!new)>(s: seq<T>, dateOf: T -> DateTimeOffset,
                                    from: Option<DateTimeOffset>, to: Option<DateTimeOffset>,
                                    offSet: int): (r: seq<T>)
    ensures forall x :: multiset(r)[x] == (if WithinDays(ShiftedDate(dateOf(x), offSet), from, to) then multiset(s)[x] else 0)
    ensures from.None? && to.None? ==> r == s
  {
    if from.Some? && to.Some? then
      Linq.Where(s, x => Date(from.value) <= ShiftedDate(dateOf(x), offSet) && ShiftedDate(dateOf(x), offSet) <= Date(to.value))
    else if from.Some? && to.None? then
      Linq.Where(s, x => Date(from.value) <= ShiftedDate(dateOf(x), offSet))
    else if from.None? && to.Some? then
      Linq.Where(s, x => ShiftedDate(dateOf(x), offSet) <= Date(to.value))
    else
      s
  }

  /** Every request-side filter of the query, as one condition. The
      realized filter tests the request's own completion flag. */
  predicate RequestSelected(q: ReportQuery, rq: VbRequest)
  {
    && (q.unitId != 0 ==> rq.unitId == q.unitId)
    && (q.vbRequestId != 0 ==> rq.id == q.vbRequestId)
    && (q.isRealized.Some? ==> rq.completeStatus == q.isRealized.value)
    && WithinDays(ShiftedDate(rq.date, q.offSet), q.requestDateFrom, q.requestDateTo)
  }

  /** The realization-side filter: only the realization date range. */
  predicate RealizationSelected(q: ReportQuery, z: RealizationVb)
  {
    WithinDays(ShiftedDate(z.date, q.offSet), q.realizeDateFrom, q.realizeDateTo)
  }

  /** The query sets no request-side filter at all. */
  predicate NoRequestFilter(q: ReportQuery)
  {
    && q.unitId == 0
    && q.vbRequestId == 0
    && q.isRealized.None?
    && q.requestDateFrom.None?
    && q.requestDateTo.None?
  }

  function RequestDate(rq: VbRequest): DateTimeOffset
  {
    rq.date
  }

  function RealizationDate(z: RealizationVb): DateTimeOffset
  {
    z.date
  }

  /** The request query: unit, request id, realized flag and date range, each
      applied only when set. The result keeps exactly the selected requests,
      each as often as it occurs in the input. */
  function FilterRequests(reqs: seq<VbRequest>, q: ReportQuery): (r: seq<VbRequest>)
    ensures forall x :: multiset(r)[x] == (if RequestSelected(q, x) then multiset(reqs)[x] else 0)
    ensures forall x :: x in r <==> x in reqs && RequestSelected(q, x)
    ensures NoRequestFilter(q) ==> r == reqs
  {
    var byUnit := if q.unitId != 0 then Linq.Where(reqs, (rq: VbRequest) => rq.unitId == q.unitId) else reqs;
    var byId := if q.vbRequestId != 0 then Linq.Where(byUnit, (rq: VbRequest) => rq.id == q.vbRequestId) else byUnit;
    var byStatus :=
      if q.isRealized.Some? then Linq.Where(byId, (rq: VbRequest) => rq.completeStatus == q.isRealized.value) else byId;
    var r := DateRangeFilter(byStatus, RequestDate, q.requestDateFrom, q.requestDateTo, q.offSet);
    assert forall x :: x in r <==> multiset(r)[x] > 0;
    r
  }

  /** The realization query: only the realization date range. */
  function FilterRealizations(reals: seq<RealizationVb>, q: ReportQuery): (r: seq<RealizationVb>)
    ensures forall x :: multiset(r)[x] == (if RealizationSelected(q, x) then multiset(reals)[x] else 0)
    ensures forall x :: x in r <==> x in reals && RealizationSelected(q, x)
    ensures q.realizeDateFrom.None? && q.realizeDateTo.None? ==> r == reals
  {
    var r := DateRangeFilter(reals, RealizationDate, q.realizeDateFrom, q.realizeDateTo, q.offSet);
    assert forall x :: x in r <==> multiset(r)[x] > 0;
    r
  }

  /* ---------------------------------------------------------------------- */
  /* Projection and join                                                    */
  /* ---------------------------------------------------------------------- */

  /** The report row for a request and one of its realizations. Identity,
      request data and the requested amount come from the request (the row's
      unit carries the request's id, not its unit id); dates, numbers and the
      realized amount come from the realization. The difference is what was
      requested minus what was realized, the status says whether the
      realization is verified, and the aging is the signed number of whole
      days from the realization date to its estimated date. */
  function ToReportRow(rq: VbRequest, z: RealizationVb): (row: ReportRow)
    ensures row.id == rq.id && row.vbNo == rq.vbNo && row.date == rq.date
    ensures row.unit == Unit(rq.id, rq.unitName)
    ensures row.createBy == rq.createdBy && row.usage == rq.usage && row.amount == rq.amount
    ensures row.dateEstimate == z.dateEstimate && row.realizationNo == z.vbNoRealize
    ensures row.realizationDate == z.date && row.realizationAmount == z.amount
    ensures row.lastModifiedUtc == z.lastModifiedUtc
    ensures row.difference + row.realizationAmount == row.amount
    ensures row.status == StatusRealized || row.status == StatusOutstanding
    ensures row.status == StatusRealized <==> z.isVerified
    ensures var span := UtcTicks(z.dateEstimate) - UtcTicks(z.date);
            0 <= span ==> 0 <= row.aging && row.aging * TicksPerDay <= span < row.aging * TicksPerDay + TicksPerDay
    ensures var span := UtcTicks(z.dateEstimate) - UtcTicks(z.date);
            span < 0 ==> row.aging <= 0 && row.aging * TicksPerDay - TicksPerDay < span <= row.aging * TicksPerDay
  {
    ReportRow(
      id := rq.id,
      vbNo := rq.vbNo,
      date := rq.date,
      dateEstimate := z.dateEstimate,
      unit := Unit(rq.id, rq.unitName),
      createBy := rq.createdBy,
      realizationNo := z.vbNoRealize,
      realizationDate := z.date,
      usage := rq.usage,
      aging := DaysBetween(z.date, z.dateEstimate),
      amount := rq.amount,
      realizationAmount := z.amount,
      difference := rq.amount - z.amount,
      status := if z.isVerified then StatusRealized else StatusOutstanding,
      lastModifiedUtc := z.lastModifiedUtc)
  }

  function RequestVbNo(rq: VbRequest): string
  {
    rq.vbNo
  }

  function RealizationVbNo(z: RealizationVb): string
  {
    z.vbNo
  }

  /** The inner join of requests and realizations on the VB number. */
  function JoinOnVbNo(reqs: seq<VbRequest>, reals: seq<RealizationVb>): seq<ReportRow>
  {
    Linq.Join(reqs, reals, RequestVbNo, RealizationVbNo, ToReportRow)
  }

  /** The index pairs of requests and realizations sharing a VB number. */
  function VbNoPairs(reqs: seq<VbRequest>, reals: seq<RealizationVb>): seq<(nat, nat)>
  {
    Linq.MatchedPairs(reqs, reals, RequestVbNo, RealizationVbNo)
  }

  function RowLastModified(row: ReportRow): int
  {
    row.lastModifiedUtc
  }

  /** `GetReportQuery` (and `GetReport`, which returns it unchanged): the
      joined rows of the filtered requests and realizations, most recently
      modified first. */
  function GetReportQuery(reqs: seq<VbRequest>, reals: seq<RealizationVb>, q: ReportQuery): (report: seq<ReportRow>)
    ensures forall i, j :: 0 <= i < j < |report| ==> report[i].lastModifiedUtc >= report[j].lastModifiedUtc
    ensures multiset(report) == multiset(JoinOnVbNo(FilterRequests(reqs, q), FilterRealizations(reals, q)))
  {
    Linq.OrderByDescending(JoinOnVbNo(FilterRequests(reqs, q), FilterRealizations(reals, q)), RowLastModified)
  }

  /* ---------------------------------------------------------------------- */
  /* Properties of the report                                               */
  /* ---------------------------------------------------------------------- */

  /** One joined row per pair of a request and a realization with equal VB
      numbers: row `k` is built from the `k`-th pair, every such pair is
      listed, and none twice. */
  lemma JoinedRowsArePairs(reqs: seq<VbRequest>, reals: seq<RealizationVb>)
    ensures var rows := JoinOnVbNo(reqs, reals);
            var ps := VbNoPairs(reqs, reals);
            && |rows| == |ps|
            && (forall k :: 0 <= k < |ps| ==>
                  && ps[k].0 < |reqs| && ps[k].1 < |reals|
                  && reqs[ps[k].0].vbNo == reals[ps[k].1].vbNo
                  && rows[k] == ToReportRow(reqs[ps[k].0], reals[ps[k].1]))
            && (forall i: nat, j: nat :: i < |reqs| && j < |reals| && reqs[i].vbNo == reals[j].vbNo ==> (i, j) in ps)
            && (forall k1, k2 :: 0 <= k1 < |ps| && 0 <= k2 < |ps| && k1 != k2 ==> ps[k1] != ps[k2])
  {
    Linq.JoinIsMatchedPairs(reqs, reals, RequestVbNo, RealizationVbNo, ToReportRow);
    var ps := VbNoPairs(reqs, reals);
    forall i: nat, j: nat | i < |reqs| && j < |reals| && reqs[i].vbNo == reals[j].vbNo
      ensures (i, j) in ps
    {
      assert Linq.KeysMatch(reqs, reals, RequestVbNo, RealizationVbNo, i, j);
    }
  }

  /** The report has exactly as many rows as there are matching pairs of
      selected requests and selected realizations. */
  lemma ReportCountsMatchedPairs(reqs: seq<VbRequest>, reals: seq<RealizationVb>, q: ReportQuery)
    ensures |GetReportQuery(reqs, reals, q)| == |VbNoPairs(FilterRequests(reqs, q), FilterRealizations(reals, q))|
  {
    var fr := FilterRequests(reqs, q);
    var fz := FilterRealizations(reals, q);
    JoinedRowsArePairs(fr, fz);
    assert |multiset(GetReportQuery(reqs, reals, q))| == |multiset(JoinOnVbNo(fr, fz))|;
  }

  /** Soundness: every report row is built from a selected request and a
      selected realization that share its VB number. */
  lemma ReportRowsSound(reqs: seq<VbRequest>, reals: seq<RealizationVb>, q: ReportQuery, row: ReportRow)
    requires row in GetReportQuery(reqs, reals, q)
    ensures exists rq, z ::
              && rq in reqs && RequestSelected(q, rq)
              && z in reals && RealizationSelected(q, z)
              && rq.vbNo == z.vbNo && row == ToReportRow(rq, z)
  {
    var fr := FilterRequests(reqs, q);
    var fz := FilterRealizations(reals, q);
    var joined := JoinOnVbNo(fr, fz);
    JoinedRowsArePairs(fr, fz);
    var ps := VbNoPairs(fr, fz);
    assert row in multiset(GetReportQuery(reqs, reals, q));
    assert row in joined;
    var k :| 0 <= k < |joined| && joined[k] == row;
    var rq, z := fr[ps[k].0], fz[ps[k].1];
    assert rq in fr && z in fz;
    assert row == ToReportRow(rq, z);
  }

  /** Completeness: every selected request and selected realization sharing
      a VB number give a report row. */
  lemma ReportRowsComplete(reqs: seq<VbRequest>, reals: seq<RealizationVb>, q: ReportQuery,
                           rq: VbRequest, z: RealizationVb)
    requires rq in reqs && RequestSelected(q, rq)
    requires z in reals && RealizationSelected(q, z)
    requires rq.vbNo == z.vbNo
    ensures ToReportRow(rq, z) in GetReportQuery(reqs, reals, q)
  {
    var fr := FilterRequests(reqs, q);
    var fz := FilterRealizations(reals, q);
    var joined := JoinOnVbNo(fr, fz);
    JoinedRowsArePairs(fr, fz);
    var ps := VbNoPairs(fr, fz);
    assert rq in fr && z in fz;
    var i :| 0 <= i < |fr| && fr[i] == rq;
    var j :| 0 <= j < |fz| && fz[j] == z;
    assert (i, j) in ps;
    var k :| 0 <= k < |ps| && ps[k] == (i, j);
    assert joined[k] == ToReportRow(rq, z);
    assert ToReportRow(rq, z) in multiset(joined);
  }

  /** Inner join: a request with no selected realization under its VB number
      contributes nothing; no report row carries its VB number unless another
      request with the same number has one. */
  lemma UnmatchedRequestNotReported(reqs: seq<VbRequest>, reals: seq<RealizationVb>, q: ReportQuery, vbNo: string)
    requires forall z :: z in reals && RealizationSelected(q, z) ==> z.vbNo != vbNo
    ensures forall row :: row in GetReportQuery(reqs, reals, q) ==> row.vbNo != vbNo
  {
    forall row | row in GetReportQuery(reqs, reals, q)
      ensures row.vbNo != vbNo
    {
      ReportRowsSound(reqs, reals, q, row);
    }
  }

  /** Duplicate realizations are not collapsed: a selected realization that
      occurs twice gives its row twice. */
  lemma DuplicateRealizationsRepeatRows(reqs: seq<VbRequest>, reals: seq<RealizationVb>, q: ReportQuery,
                                        rq: VbRequest, z: RealizationVb)
    requires rq in reqs && RequestSelected(q, rq)
    requires multiset(reals)[z] >= 2 && RealizationSelected(q, z)
    requires rq.vbNo == z.vbNo
    ensures multiset(GetReportQuery(reqs, reals, q))[ToReportRow(rq, z)] >= 2
  {
    var fr := FilterRequests(reqs, q);
    var fz := FilterRealizations(reals, q);
    assert rq in fr;
    var i :| 0 <= i < |fr| && fr[i] == rq;
    assert multiset(fz)[z] >= 2;
    Linq.TwoOccurrences(fz, z);
    var j1, j2 :| 0 <= j1 < j2 < |fz| && fz[j1] == z && fz[j2] == z;
    Linq.JoinRepeatsDuplicates(fr, fz, RequestVbNo, RealizationVbNo, ToReportRow, i, j1, j2);
  }

  /** With every id sentinel at 0 and every nullable parameter null, the
      report holds every joined row of the unfiltered inputs. */
  lemma UnfilteredReportJoinsAll(reqs: seq<VbRequest>, reals: seq<RealizationVb>, q: ReportQuery)
    requires NoRequestFilter(q) && q.realizeDateFrom.None? && q.realizeDateTo.None?
    ensures multiset(GetReportQuery(reqs, reals, q)) == multiset(JoinOnVbNo(reqs, reals))
  {
  }

  /** A request of 1000 dated 1 January 2023 and its verified realization of
      900 dated 10 January with an estimate of 15 January (day numbers count
      from 1 January of year 1) make one row aged 5 days with a difference of
      100 and status "Realisasi". */
  lemma WorkedExample()
    ensures var rq := VbRequest(1, "VB001", DateTimeOffset(738520 * TicksPerDay, 0), 7, "Finance", "admin",
                                "travel", 1000.0, false);
            var z := RealizationVb("RVB001", "VB001", DateTimeOffset(738529 * TicksPerDay, 0),
                                   DateTimeOffset(738534 * TicksPerDay, 0), 900.0, true, 42);
            var q := ReportQuery(0, 0, None, None, None, None, None, 7);
            var row := ToReportRow(rq, z);
            && GetReportQuery([rq], [z], q) == [row]
            && row.aging == 5 && row.difference == 100.0 && row.status == StatusRealized
  {
    var rq := VbRequest(1, "VB001", DateTimeOffset(738520 * TicksPerDay, 0), 7, "Finance", "admin",
                        "travel", 1000.0, false);
    var z := RealizationVb("RVB001", "VB001", DateTimeOffset(738529 * TicksPerDay, 0),
                           DateTimeOffset(738534 * TicksPerDay, 0), 900.0, true, 42);
    var q := ReportQuery(0, 0, None, None, None, None, None, 7);
    var row := ToReportRow(rq, z);
    assert FilterRequests([rq], q) == [rq];
    assert FilterRealizations([z], q) == [z];
    assert Linq.RowsFor([rq], [z], RequestVbNo, RealizationVbNo, ToReportRow, 0, 1) == [];
    assert Linq.RowsFor([rq], [z], RequestVbNo, RealizationVbNo, ToReportRow, 0, 0) == [row];
    assert Linq.JoinFrom([rq], [z], RequestVbNo, RealizationVbNo, ToReportRow, 1) == [];
    assert JoinOnVbNo([rq], [z]) == [row];
    assert DaysBetween(z.date, z.dateEstimate) == 5;
  }
}
