/**
  Instants as .NET represents them. A `DateTimeOffset` is a local clock
  reading, in ticks of 100 nanoseconds, together with that clock's offset from
  UTC. Calendar days are numbered by whole multiples of `TicksPerDay`, so the
  "date component" of a clock reading is its floor-divided day number; turning
  a day number into a year, month and day is a calendar conversion this model
  does not need.
 */
module Time {

  const TicksPerMinute: int := 600_000_000
  const TicksPerHour: int := 60 * TicksPerMinute
  const TicksPerDay: int := 24 * TicksPerHour

  /** A `DateTimeOffset`: local clock ticks and the clock's UTC offset in minutes. */
  datatype DateTimeOffset = DateTimeOffset(clockTicks: int, offsetMinutes: int)

  /** The instant itself, in UTC ticks; two values denoting the same instant
      agree here whatever their offsets. */
  function UtcTicks(t: DateTimeOffset): int
  {
    t.clockTicks - t.offsetMinutes * TicksPerMinute
  }

  /** `DateTimeOffset.AddHours`: a later (or earlier) instant on the same clock. */
  function AddHours(t: DateTimeOffset, hours: int): (r: DateTimeOffset)
    ensures r.offsetMinutes == t.offsetMinutes
    ensures UtcTicks(r) == UtcTicks(t) + hours * TicksPerHour
  {
    DateTimeOffset(t.clockTicks + hours * TicksPerHour, t.offsetMinutes)
  }

  /** The number of the day a tick count falls in: the day starting at or
      before it and ending after it. */
  function DayOf(ticks: int): (d: int)
    ensures d * TicksPerDay <= ticks < d * TicksPerDay + TicksPerDay
  {
    ticks / TicksPerDay
  }

  /** `DateTimeOffset.Date`: the day shown by the local clock, time of day dropped. */
  function Date(t: DateTimeOffset): int
  {
    DayOf(t.clockTicks)
  }

  /** The day component of `t.AddHours(offSet)`, which the report's date
      filters compare: the local clock moved by `offSet` hours. */
  function ShiftedDate(t: DateTimeOffset, offSet: int): (d: int)
    ensures d * TicksPerDay <= t.clockTicks + offSet * TicksPerHour < d * TicksPerDay + TicksPerDay
  {
    Date(AddHours(t, offSet))
  }

  /** The day `t.ToOffset(offSet hours)` shows: the instant read on a clock
      `offSet` hours ahead of UTC. */
  function DisplayedDate(t: DateTimeOffset, offSet: int): (d: int)
    ensures d * TicksPerDay <= UtcTicks(t) + offSet * TicksPerHour < d * TicksPerDay + TicksPerDay
  {
    DayOf(UtcTicks(t) + offSet * TicksPerHour)
  }

  /** For a value stored with a zero offset, the exported date is the very day
      the date filters compared. */
  lemma DisplayedDateIsFilteredDate(t: DateTimeOffset, offSet: int)
    requires t.offsetMinutes == 0
    ensures DisplayedDate(t, offSet) == ShiftedDate(t, offSet)
  {
  }

  /** For a value stored with a non-zero offset the two days can differ: the
      filters shift the local clock reading, while the export shifts the UTC
      instant. 20:00 at UTC+7, with `offSet` 7, is filtered as day 1 but shown
      as day 0. */
  lemma DisplayedDateCanDifferFromFilteredDate()
    ensures var t := DateTimeOffset(20 * TicksPerHour, 420);
            ShiftedDate(t, 7) == 1 && DisplayedDate(t, 7) == 0
  {
  }

  /** The whole number of days in a span of ticks, truncated toward zero as
      C#'s `(int)` cast truncates `TimeSpan.TotalDays`: the result has the sign
      of the span and its magnitude is the number of complete days in it. A
      span one and a half days long backwards is -1 whole day, where floor
      division would give -2. */
  function WholeDays(span: int): (d: int)
    ensures 0 <= span ==> 0 <= d && d * TicksPerDay <= span < d * TicksPerDay + TicksPerDay
    ensures span < 0 ==> d <= 0 && d * TicksPerDay - TicksPerDay < span <= d * TicksPerDay
  {
    if span >= 0 then span / TicksPerDay else -((-span) / TicksPerDay)
  }

  /** Truncation is symmetric about zero, unlike floor division: swapping the
      two instants negates the whole-day count. */
  lemma WholeDaysOdd(span: int)
    ensures WholeDays(-span) == -WholeDays(span)
  {
  }

  /** `(int)(later - earlier).TotalDays`: the difference of two instants in
      whole days. */
  function DaysBetween(earlier: DateTimeOffset, later: DateTimeOffset): int
  {
    WholeDays(UtcTicks(later) - UtcTicks(earlier))
  }
}
