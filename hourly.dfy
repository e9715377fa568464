/** Hourly aggregation: cleaned rows grouped by (date, hour) with purchase
    and feed-in summed per bucket, then every bucket whose feed-in total is
    the largest of its date flagged as a peak feed-in hour. */
module Hourly {
  import opened Records
  import opened Grouping

  /** The bucket key. */
  datatype Slot = Slot(date: Date, hour: Hour)

  /** A row's bucket key; unknown when its date or its hour is unknown, so
      that such a row joins no bucket. */
  function SlotOf(r: Row): (k: Option<Slot>)
    ensures k.Some? <==> r.m.date.Some? && r.hour.Some?
    ensures k.Some? ==> k.value == Slot(r.m.date.value, r.hour.value)
  {
    match (r.m.date, r.hour)
    case (Some(d), Some(h)) => Some(Slot(d, h))
    case _ => None
  }

  /** One row of the hourly output. */
  datatype HourlyTotal = HourlyTotal(date: Date, hour: Hour, gridPurchase: real, gridFeedin: real, isPeakFeedinHour: bool)

  /** The largest feed-in total among the buckets of date `d`, unknown when
      that date has no bucket. */
  function DayMax(bs: seq<Group<Slot>>, d: Date): (r: Option<real>)
    ensures r.None? <==> forall i :: 0 <= i < |bs| ==> bs[i].key.date != d
    ensures r.Some? ==> forall i :: 0 <= i < |bs| && bs[i].key.date == d ==> bs[i].feedin <= r.value
    ensures r.Some? ==> exists i :: 0 <= i < |bs| && bs[i].key.date == d && bs[i].feedin == r.value
  {
    if bs == [] then None
    else
      var rest := DayMax(bs[1..], d);
      if bs[0].key.date != d then rest
      else if rest.Some? && rest.value > bs[0].feedin then rest
      else Some(bs[0].feedin)
  }

  /** Adds the peak flag to each bucket: a bucket is flagged when its
      feed-in total equals the maximum of its date. */
  function WithPeakFlags(bs: seq<Group<Slot>>): (hs: seq<HourlyTotal>)
    ensures |hs| == |bs|
    ensures forall i :: 0 <= i < |bs| ==>
      && hs[i].date == bs[i].key.date && hs[i].hour == bs[i].key.hour
      && hs[i].gridPurchase == bs[i].purchase && hs[i].gridFeedin == bs[i].feedin
  {
    seq(|bs|, i requires 0 <= i < |bs| =>
      var b := bs[i];
      HourlyTotal(b.key.date, b.key.hour, b.purchase, b.feedin, DayMax(bs, b.key.date) == Some(b.feedin)))
  }

  /** A bucket is flagged exactly when no bucket of the same date has a
      larger feed-in total, so every tied maximum is flagged. */
  lemma PeakFlagIff(bs: seq<Group<Slot>>, i: nat)
    requires i < |bs|
    ensures WithPeakFlags(bs)[i].isPeakFeedinHour <==>
      forall j :: 0 <= j < |bs| && bs[j].key.date == bs[i].key.date ==> bs[j].feedin <= bs[i].feedin
  {
    var m := DayMax(bs, bs[i].key.date);
    assert m.Some?;
    if forall j :: 0 <= j < |bs| && bs[j].key.date == bs[i].key.date ==> bs[j].feedin <= bs[i].feedin {
      var j :| 0 <= j < |bs| && bs[j].key.date == bs[i].key.date && bs[j].feedin == m.value;
      assert m == Some(bs[i].feedin);
    }
  }

  /** Every date that has a bucket has a flagged one. */
  lemma DayHasPeak(bs: seq<Group<Slot>>, i: nat)
    requires i < |bs|
    ensures exists j :: 0 <= j < |bs| && bs[j].key.date == bs[i].key.date && WithPeakFlags(bs)[j].isPeakFeedinHour
  {
    var m := DayMax(bs, bs[i].key.date);
    assert m.Some?;
    var j :| 0 <= j < |bs| && bs[j].key.date == bs[i].key.date && bs[j].feedin == m.value;
    assert m == Some(bs[j].feedin);
    assert WithPeakFlags(bs)[j].isPeakFeedinHour;
  }

  /** The hourly output: buckets by (date, hour), with the peak flag. Each
      bucket holds the sums, over the rows of its date and hour, of purchase
      and feed-in, an unknown value counting as zero. */
  function HourlyTotals(rows: seq<Row>): (hs: seq<HourlyTotal>)
    ensures forall i :: 0 <= i < |hs| ==>
      && hs[i].gridPurchase == Sum(rows, SlotOf, Slot(hs[i].date, hs[i].hour), Purchase)
      && hs[i].gridFeedin == Sum(rows, SlotOf, Slot(hs[i].date, hs[i].hour), Feedin)
  {
    WithPeakFlags(GroupBy(rows, SlotOf))
  }

  /** No two rows of the hourly output share a date and hour. */
  lemma HourlyDistinctSlots(rows: seq<Row>)
    ensures forall i, j :: 0 <= i < j < |HourlyTotals(rows)| ==>
      !(HourlyTotals(rows)[i].date == HourlyTotals(rows)[j].date && HourlyTotals(rows)[i].hour == HourlyTotals(rows)[j].hour)
  {
    var bs := GroupBy(rows, SlotOf);
    var hs := WithPeakFlags(bs);
    GroupByDistinctKeys(rows, SlotOf);
    forall i, j | 0 <= i < j < |hs| ensures !(hs[i].date == hs[j].date && hs[i].hour == hs[j].hour) {
      assert bs[i].key != bs[j].key;
    }
  }

  /** The hourly output has a row for a date and hour exactly when some
      cleaned row has that date and that hour, both known. */
  lemma HourlySlotPresent(rows: seq<Row>, d: Date, h: Hour)
    ensures (exists i :: 0 <= i < |HourlyTotals(rows)| && HourlyTotals(rows)[i].date == d && HourlyTotals(rows)[i].hour == h)
        <==> (exists j :: 0 <= j < |rows| && rows[j].m.date == Some(d) && rows[j].hour == Some(h))
  {
    var bs := GroupBy(rows, SlotOf);
    var hs := WithPeakFlags(bs);
    assert HourlyTotals(rows) == hs;
    var k := Slot(d, h);
    KeysExact(rows, SlotOf, k);
    var ks := Keys(rows, SlotOf);
    if exists i :: 0 <= i < |hs| && hs[i].date == d && hs[i].hour == h {
      var i :| 0 <= i < |hs| && hs[i].date == d && hs[i].hour == h;
      assert ks[i] == k;
      var j :| 0 <= j < |rows| && SlotOf(rows[j]) == Some(k);
      assert rows[j].m.date == Some(d) && rows[j].hour == Some(h);
    }
    if exists j :: 0 <= j < |rows| && rows[j].m.date == Some(d) && rows[j].hour == Some(h) {
      var j :| 0 <= j < |rows| && rows[j].m.date == Some(d) && rows[j].hour == Some(h);
      assert SlotOf(rows[j]) == Some(k);
      var i :| 0 <= i < |ks| && ks[i] == k;
      assert hs[i].date == d && hs[i].hour == h;
    }
  }

  /** A row whose date or hour is unknown changes no part of the hourly
      output. */
  lemma UnknownSlotIgnored(rows: seq<Row>, r: Row)
    requires r.m.date.None? || r.hour.None?
    ensures HourlyTotals(rows + [r]) == HourlyTotals(rows)
  {
    var t := rows + [r];
    assert t[..|rows|] == rows;
    assert Keys(t, SlotOf) == Keys(rows, SlotOf);
    forall k: Slot, c: Column ensures Sum(t, SlotOf, k, c) == Sum(rows, SlotOf, k, c) {
      SumSnoc(rows, SlotOf, r, k, c);
    }
    assert GroupBy(t, SlotOf) == GroupBy(rows, SlotOf);
  }

  /** The bucket totals add up to the total over the rows whose date and
      hour are both known. */
  lemma HourlyConserves(rows: seq<Row>, c: Column)
    ensures Total(GroupBy(rows, SlotOf), c) == KeyedTotal(rows, SlotOf, c)
  {
    GroupByConserves(rows, SlotOf, c);
  }
}
