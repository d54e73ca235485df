/**
  The records the VB status report reads and produces. A VB ("voucher bon") is
  a cash-advance request; its realization is the settlement recorded against
  it, linked by the request's VB number. Amounts are C# decimals and are
  modelled as reals; `LastModifiedUtc` is a UTC `DateTime`, modelled by its
  tick count.
 */
module Records {
  import opened Time

  /** A cash-advance request (`VbRequestModel`). */
  datatype VbRequest = VbRequest(
    id: int,
    vbNo: string,
    date: DateTimeOffset,
    unitId: int,
    unitName: string,
    createdBy: string,
    usage: string,
    amount: real,
    completeStatus: bool)

  /** The settlement of a request (`RealizationVbModel`); `vbNo` names the
      request it settles and `vbNoRealize` is its own number. */
  datatype RealizationVb = RealizationVb(
    vbNoRealize: string,
    vbNo: string,
    date: DateTimeOffset,
    dateEstimate: DateTimeOffset,
    amount: real,
    isVerified: bool,
    lastModifiedUtc: int)

  /** The unit shown on a report row. */
  datatype Unit = Unit(id: int, name: string)

  /** One line of the report (`VBStatusReportViewModel`). */
  datatype ReportRow = ReportRow(
    id: int,
    vbNo: string,
    date: DateTimeOffset,
    dateEstimate: DateTimeOffset,
    unit: Unit,
    createBy: string,
    realizationNo: string,
    realizationDate: DateTimeOffset,
    usage: string,
    aging: int,
    amount: real,
    realizationAmount: real,
    difference: real,
    status: string,
    lastModifiedUtc: int)
}
