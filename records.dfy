/** The records that flow through the measurement pipeline: a raw text row
    as read from the delimited input, the typed measurement the coercion
    stage makes of it, and the cleaned row that carries the derived hour. */
module Records {

  /** A value that may be unknown (pandas' NaN / NaT after a failed parse). */
  datatype Option<+T> = None | Some(value: T)

  /** A calendar date (what `.dt.date` yields). */
  datatype Date = Date(year: int, month: int, day: int)

  const NanosPerHour: int := 3_600_000_000_000
  const HoursPerDay: int := 24

  /** Nanoseconds since midnight. */
  type TimeOfDay = n: int | 0 <= n < HoursPerDay * NanosPerHour

  /** An hour of the day, 0 to 23. */
  type Hour = h: int | 0 <= h < HoursPerDay

  /** A point in time as the date-time parser produces it. */
  datatype Instant = Instant(date: Date, time: TimeOfDay)

  /** One input row: the six named columns as text, and any further
      columns, which are passed through untouched. */
  datatype RawRow = RawRow(
    serial: string,
    timestamp: string,
    date: string,
    gridPurchase: string,
    gridFeedin: string,
    directConsumption: string,
    others: seq<string>)

  /** A row after coercion: every parsed column may be unknown. */
  datatype Measurement = Measurement(
    serial: string,
    timestamp: Option<Instant>,
    date: Option<Date>,
    gridPurchase: Option<real>,
    gridFeedin: Option<real>,
    directConsumption: Option<real>,
    others: seq<string>)

  /** A row of the cleaned table: the measurement and its derived hour column. */
  datatype Row = Row(m: Measurement, hour: Option<Hour>)

  /** The value a summation uses for a field: unknown counts as zero. */
  function OrZero(v: Option<real>): (r: real)
    ensures v.Some? ==> r == v.value
    ensures v.None? ==> r == 0.0
  {
    match v
    case None => 0.0
    case Some(x) => x
  }

  /** The hour of a (possibly unknown) instant, as `.dt.hour` gives it. */
  function HourOf(ts: Option<Instant>): (h: Option<Hour>)
    ensures h.None? <==> ts.None?
    ensures ts.Some? ==> h.value * NanosPerHour <= ts.value.time < (h.value + 1) * NanosPerHour
  {
    match ts
    case None => None
    case Some(i) => Some(i.time / NanosPerHour)
  }
}
