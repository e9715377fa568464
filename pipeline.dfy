/** The whole batch run: coercion, cleaning, the hour column, then the two
    aggregations over the cleaned table. Reading and writing the delimited
    files happen outside: the raw rows come in as a sequence and the three
    result tables go out as return values. */
module Pipeline {
  import opened Records
  import opened Seqs
  import opened Coercion
  import opened Cleaning
  import opened Grouping
  import opened Hourly
  import opened Summary
  import DecimalText

  /** The cleaned table a run writes out: coerced, cleaned, with hours. */
  function CleanedTable(raws: seq<RawRow>, toNumeric: string -> Option<real>, toDatetime: string -> Option<Instant>): (rows: seq<Row>) {
    WithHours(Clean(CoerceAll(raws, toNumeric, toDatetime)))
  }

  /** One run over a snapshot of raw rows. */
  method Run(raws: seq<RawRow>, toNumeric: string -> Option<real>, toDatetime: string -> Option<Instant>)
    returns (cleaned: seq<Row>, hourly: seq<HourlyTotal>, summary: seq<Group<string>>)
    ensures cleaned == CleanedTable(raws, toNumeric, toDatetime)
    ensures hourly == HourlyTotals(cleaned)
    ensures summary == DeviceSummary(cleaned)
    ensures forall i :: 0 <= i < |cleaned| ==> HasEnergy(cleaned[i].m)
    ensures forall i, j :: 0 <= i < j < |cleaned| ==> cleaned[i].m != cleaned[j].m
  {
    var ms := CoerceTable(raws, toNumeric, toDatetime);
    assert ms == CoerceAll(raws, toNumeric, toDatetime);
    var unique := DropDuplicateRows(ms);
    var complete := DropIncompleteRows(unique);
    cleaned := AddHourColumn(complete);
    hourly := HourlyTotals(cleaned);
    summary := DeviceSummary(cleaned);
  }

  /** Two rows alike but for a purchase text of "abc" in one and "10" in the
      other differ after coercion, and duplicate removal keeps both. */
  lemma UnknownAndKnownBothKept(raw: RawRow, toDatetime: string -> Option<Instant>)
    requires raw.gridPurchase == "10"
    ensures var known := Coerce(raw, DecimalText.ParseDecimal, toDatetime);
            var unknown := Coerce(raw.(gridPurchase := "abc"), DecimalText.ParseDecimal, toDatetime);
            && known.gridPurchase == Some(10.0) && unknown.gridPurchase == None
            && DropDuplicates([known, unknown]) == [known, unknown]
  {
    var known := Coerce(raw, DecimalText.ParseDecimal, toDatetime);
    var unknown := Coerce(raw.(gridPurchase := "abc"), DecimalText.ParseDecimal, toDatetime);
    assert DecimalText.IntText(10) == "10";
    DecimalText.ParseIntText(10);
    assert !DecimalText.IsNumeralChar("abc"[0]);
    DropDuplicatesOfDistinct([known, unknown]);
  }

  /** A row whose three energy texts are empty is dropped by cleaning and
      so reaches no aggregate. */
  lemma EmptyEnergyRowDropped(raws: seq<RawRow>, k: nat, toDatetime: string -> Option<Instant>)
    requires k < |raws|
    requires raws[k].gridPurchase == "" && raws[k].gridFeedin == "" && raws[k].directConsumption == ""
    ensures Coerce(raws[k], DecimalText.ParseDecimal, toDatetime) !in Clean(CoerceAll(raws, DecimalText.ParseDecimal, toDatetime))
  {
    var ms := CoerceAll(raws, DecimalText.ParseDecimal, toDatetime);
    DropIncompleteMembers(DropDuplicates(ms), ms[k]);
  }

  const Jan1: Date := Date(2024, 1, 1)
  const Jan2: Date := Date(2024, 1, 2)

  function Reading(day: Date, purchase: real): (r: Row) {
    Row(Measurement("BAT1", Some(Instant(day, 3 * NanosPerHour)), Some(day), Some(purchase), None, None, []), Some(3))
  }

  /** Device BAT1 buys 5 and 10 at hour 3 of 2024-01-01 and 0 at hour 3 of
      2024-01-02. */
  const Bat1Rows: seq<Row> := [Reading(Jan1, 5.0), Reading(Jan1, 10.0), Reading(Jan2, 0.0)]

  /** The bucket of 2024-01-01, hour 3, totals a purchase of 15. */
  lemma Bat1HourlyBucket()
    ensures exists i :: 0 <= i < |HourlyTotals(Bat1Rows)| && HourlyTotals(Bat1Rows)[i].date == Jan1
                  && HourlyTotals(Bat1Rows)[i].hour == 3 && HourlyTotals(Bat1Rows)[i].gridPurchase == 15.0
  {
    var r1, r2, r3 := Reading(Jan1, 5.0), Reading(Jan1, 10.0), Reading(Jan2, 0.0);
    var rows := Bat1Rows;
    assert rows == [r1, r2] + [r3] && [r1, r2] == [r1] + [r2] && [r1] == [] + [r1];
    var slot := Slot(Jan1, 3);
    SumSnoc([], SlotOf, r1, slot, Purchase);
    SumSnoc([r1], SlotOf, r2, slot, Purchase);
    SumSnoc([r1, r2], SlotOf, r3, slot, Purchase);
    assert Sum(rows, SlotOf, slot, Purchase) == 15.0;
    HourlySlotPresent(rows, Jan1, 3);
    assert rows[0].m.date == Some(Jan1) && rows[0].hour == Some(3);
    var i :| 0 <= i < |HourlyTotals(rows)| && HourlyTotals(rows)[i].date == Jan1 && HourlyTotals(rows)[i].hour == 3;
  }

  /** The summary has the single device BAT1, with a purchase of 15. */
  lemma Bat1Summary()
    ensures DeviceSummary(Bat1Rows) == [Group("BAT1", 15.0, 0.0)]
  {
    var r1, r2, r3 := Reading(Jan1, 5.0), Reading(Jan1, 10.0), Reading(Jan2, 0.0);
    var rows := Bat1Rows;
    assert rows == [r1, r2] + [r3] && [r1, r2] == [r1] + [r2] && [r1] == [] + [r1];
    assert rows[..2] == [r1, r2] && [r1, r2][..1] == [r1] && [r1][..0] == [];
    assert Keys([r1], SerialOf) == ["BAT1"];
    assert Keys([r1, r2], SerialOf) == ["BAT1"];
    assert Keys(rows, SerialOf) == ["BAT1"];
    SumSnoc([], SerialOf, r1, "BAT1", Purchase);
    SumSnoc([r1], SerialOf, r2, "BAT1", Purchase);
    SumSnoc([r1, r2], SerialOf, r3, "BAT1", Purchase);
    SumSnoc([], SerialOf, r1, "BAT1", Feedin);
    SumSnoc([r1], SerialOf, r2, "BAT1", Feedin);
    SumSnoc([r1, r2], SerialOf, r3, "BAT1", Feedin);
    assert GroupBy(rows, SerialOf) == [Group("BAT1", 15.0, 0.0)];
  }
}
