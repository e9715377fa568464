/** Coercion of raw text rows into typed measurements. The numeric and the
    date-time parsers are parameters: a text they cannot read becomes an
    unknown value, never an error and never a default. */
module Coercion {
  import opened Records
  import DecimalText

  /** The date part of a parsed instant. */
  function DateOf(i: Option<Instant>): (d: Option<Date>)
    ensures d.None? <==> i.None?
    ensures i.Some? ==> d.value == i.value.date
  {
    match i
    case None => None
    case Some(t) => Some(t.date)
  }

  /** One raw row coerced column by column: the three energy columns through
      `toNumeric`, the timestamp column through `toDatetime`, and the date
      column through `toDatetime` followed by taking its date part. The
      serial and the other columns are kept as they are. */
  function Coerce(raw: RawRow, toNumeric: string -> Option<real>, toDatetime: string -> Option<Instant>): (m: Measurement)
    ensures m.serial == raw.serial && m.others == raw.others
  {
    Measurement(
      raw.serial,
      toDatetime(raw.timestamp),
      DateOf(toDatetime(raw.date)),
      toNumeric(raw.gridPurchase),
      toNumeric(raw.gridFeedin),
      toNumeric(raw.directConsumption),
      raw.others)
  }

  /** The coerced table: one measurement per raw row, in the same order. */
  function CoerceAll(raws: seq<RawRow>, toNumeric: string -> Option<real>, toDatetime: string -> Option<Instant>): (ms: seq<Measurement>)
    ensures |ms| == |raws|
  {
    seq(|raws|, i requires 0 <= i < |raws| => Coerce(raws[i], toNumeric, toDatetime))
  }

  /** Coerces every row of the table. */
  method CoerceTable(raws: seq<RawRow>, toNumeric: string -> Option<real>, toDatetime: string -> Option<Instant>)
    returns (ms: seq<Measurement>)
    ensures |ms| == |raws|
    ensures forall i :: 0 <= i < |raws| ==> ms[i] == Coerce(raws[i], toNumeric, toDatetime)
  {
    ms := [];
    for i := 0 to |raws|
      invariant |ms| == i
      invariant forall j :: 0 <= j < i ==> ms[j] == Coerce(raws[j], toNumeric, toDatetime)
    {
      ms := ms + [Coerce(raws[i], toNumeric, toDatetime)];
    }
  }

  /** An unreadable timestamp leaves the timestamp and the hour derived from
      it unknown, whatever the date column says. */
  lemma UnreadableTimestamp(raw: RawRow, toNumeric: string -> Option<real>, toDatetime: string -> Option<Instant>)
    requires toDatetime(raw.timestamp).None?
    ensures Coerce(raw, toNumeric, toDatetime).timestamp.None?
    ensures HourOf(Coerce(raw, toNumeric, toDatetime).timestamp).None?
  {
  }

  /** The date comes from the date column alone: changing the timestamp text
      leaves it as it is. */
  lemma DateIgnoresTimestamp(raw: RawRow, ts: string, toNumeric: string -> Option<real>, toDatetime: string -> Option<Instant>)
    ensures Coerce(raw.(timestamp := ts), toNumeric, toDatetime).date == Coerce(raw, toNumeric, toDatetime).date
    ensures Coerce(raw, toNumeric, toDatetime).date.Some? <==> toDatetime(raw.date).Some?
  {
  }

  /** With the decimal-literal parser: an energy text holding a character no
      number holds becomes unknown, not zero, whatever the other columns
      hold. */
  lemma UnparsableEnergyIsUnknown(raw: RawRow, toDatetime: string -> Option<Instant>)
    ensures (exists i :: 0 <= i < |raw.gridPurchase| && !DecimalText.IsNumeralChar(raw.gridPurchase[i])) ==>
      Coerce(raw, DecimalText.ParseDecimal, toDatetime).gridPurchase == None
    ensures (exists i :: 0 <= i < |raw.gridFeedin| && !DecimalText.IsNumeralChar(raw.gridFeedin[i])) ==>
      Coerce(raw, DecimalText.ParseDecimal, toDatetime).gridFeedin == None
    ensures (exists i :: 0 <= i < |raw.directConsumption| && !DecimalText.IsNumeralChar(raw.directConsumption[i])) ==>
      Coerce(raw, DecimalText.ParseDecimal, toDatetime).directConsumption == None
  {
  }

  /** With the decimal-literal parser: an energy text that is an integer,
      negative or not, is kept with exactly that value, field by field and
      whatever the other two fields hold. */
  lemma IntegerEnergyIsKept(raw: RawRow, toDatetime: string -> Option<Instant>, p: int, f: int, d: int)
    ensures raw.gridPurchase == DecimalText.IntText(p) ==>
      Coerce(raw, DecimalText.ParseDecimal, toDatetime).gridPurchase == Some(p as real)
    ensures raw.gridFeedin == DecimalText.IntText(f) ==>
      Coerce(raw, DecimalText.ParseDecimal, toDatetime).gridFeedin == Some(f as real)
    ensures raw.directConsumption == DecimalText.IntText(d) ==>
      Coerce(raw, DecimalText.ParseDecimal, toDatetime).directConsumption == Some(d as real)
  {
    DecimalText.ParseIntText(p);
    DecimalText.ParseIntText(f);
    DecimalText.ParseIntText(d);
  }

  /** A row mixing a number, a non-number and an empty text: each energy
      column is coerced on its own, so the one known value stays known. */
  lemma MixedEnergyRow(raw: RawRow, toDatetime: string -> Option<Instant>)
    requires raw.gridPurchase == "10" && raw.gridFeedin == "abc" && raw.directConsumption == ""
    ensures Coerce(raw, DecimalText.ParseDecimal, toDatetime).gridPurchase == Some(10.0)
    ensures Coerce(raw, DecimalText.ParseDecimal, toDatetime).gridFeedin == None
    ensures Coerce(raw, DecimalText.ParseDecimal, toDatetime).directConsumption == None
  {
    assert DecimalText.IntText(10) == "10";
    DecimalText.ParseIntText(10);
    assert !DecimalText.IsNumeralChar("abc"[0]);
  }
}
