/** The per-device summary: cleaned rows grouped by serial with purchase and
    feed-in summed per device, ordered by purchase total, largest first. */
module Summary {
  import opened Records
  import opened Grouping

  /** The grouping key of the summary: the serial, which is always known. */
  function SerialOf(r: Row): (k: Option<string>)
    ensures k == Some(r.m.serial)
  {
    Some(r.m.serial)
  }

  /** Purchase totals never increase along the sequence. */
  predicate PurchaseDescending(gs: seq<Group<string>>) {
    forall i, j :: 0 <= i < j < |gs| ==> gs[i].purchase >= gs[j].purchase
  }

  /** Inserts a group into a descending sequence before the first group with
      a smaller purchase total. */
  function Insert(g: Group<string>, s: seq<Group<string>>): (r: seq<Group<string>>)
    requires PurchaseDescending(s)
    ensures PurchaseDescending(r)
    ensures multiset(r) == multiset(s) + multiset{g}
  {
    if s == [] then [g]
    else if s[0].purchase <= g.purchase then [g] + s
    else
      var rest := Insert(g, s[1..]);
      assert s == [s[0]] + s[1..];
      PrependDescending(s[0], g, s[1..], rest);
      [s[0]] + rest
  }

  /** A group whose purchase total bounds both `g` and a descending `tail`
      may head any descending rearrangement of `tail` with `g` added. */
  lemma PrependDescending(h: Group<string>, g: Group<string>, tail: seq<Group<string>>, rest: seq<Group<string>>)
    requires PurchaseDescending([h] + tail) && h.purchase > g.purchase
    requires PurchaseDescending(rest) && multiset(rest) == multiset(tail) + multiset{g}
    ensures PurchaseDescending([h] + rest)
  {
    var r := [h] + rest;
    forall j | 0 < j < |r| ensures r[0].purchase >= r[j].purchase {
      assert r[j] == rest[j - 1];
      assert rest[j - 1] in multiset(rest);
      if rest[j - 1] != g {
        var k :| 0 <= k < |tail| && tail[k] == rest[j - 1];
        var ht := [h] + tail;
        assert ht[0] == h && ht[k + 1] == tail[k];
        assert ht[0].purchase >= ht[k + 1].purchase;
      }
    }
  }

  /** Orders groups by purchase total, largest first. */
  function SortByPurchase(gs: seq<Group<string>>): (r: seq<Group<string>>)
    ensures PurchaseDescending(r)
    ensures multiset(r) == multiset(gs)
  {
    if gs == [] then []
    else
      assert gs == [gs[0]] + gs[1..];
      Insert(gs[0], SortByPurchase(gs[1..]))
  }

  /** The summary: one row per serial, ordered by purchase total, largest
      first. */
  function DeviceSummary(rows: seq<Row>): (r: seq<Group<string>>)
    ensures PurchaseDescending(r)
  {
    SortByPurchase(GroupBy(rows, SerialOf))
  }

  lemma {:induction false} InsertDistinctKeys(g: Group<string>, s: seq<Group<string>>)
    requires PurchaseDescending(s) && DistinctKeys(s)
    requires forall i :: 0 <= i < |s| ==> s[i].key != g.key
    ensures DistinctKeys(Insert(g, s))
  {
    if s != [] && s[0].purchase > g.purchase {
      var rest := Insert(g, s[1..]);
      InsertDistinctKeys(g, s[1..]);
      var r := Insert(g, s);
      assert r == [s[0]] + rest;
      forall j | 0 < j < |r| ensures r[0].key != r[j].key {
        assert rest[j - 1] in multiset(rest);
      }
    }
  }

  lemma {:induction false} SortDistinctKeys(gs: seq<Group<string>>)
    requires DistinctKeys(gs)
    ensures DistinctKeys(SortByPurchase(gs))
  {
    if gs != [] {
      var sorted := SortByPurchase(gs[1..]);
      SortDistinctKeys(gs[1..]);
      forall i | 0 <= i < |sorted| ensures sorted[i].key != gs[0].key {
        assert sorted[i] in multiset(gs[1..]);
      }
      InsertDistinctKeys(gs[0], sorted);
    }
  }

  lemma {:induction false} TotalInsert(g: Group<string>, s: seq<Group<string>>, c: Column)
    requires PurchaseDescending(s)
    ensures Total(Insert(g, s), c) == GroupAmount(g, c) + Total(s, c)
  {
    if s != [] && s[0].purchase > g.purchase {
      TotalInsert(g, s[1..], c);
      assert ([s[0]] + Insert(g, s[1..]))[1..] == Insert(g, s[1..]);
    }
  }

  lemma {:induction false} TotalSort(gs: seq<Group<string>>, c: Column)
    ensures Total(SortByPurchase(gs), c) == Total(gs, c)
  {
    if gs != [] {
      TotalSort(gs[1..], c);
      TotalInsert(gs[0], SortByPurchase(gs[1..]), c);
    }
  }

  /** Exactly one summary row per distinct serial: no serial twice, and a row
      for a serial exactly when some cleaned row has it. */
  lemma SummaryOnePerSerial(rows: seq<Row>, serial: string)
    ensures DistinctKeys(DeviceSummary(rows))
    ensures (exists i :: 0 <= i < |DeviceSummary(rows)| && DeviceSummary(rows)[i].key == serial)
        <==> (exists j :: 0 <= j < |rows| && rows[j].m.serial == serial)
  {
    var gs := GroupBy(rows, SerialOf);
    var out := DeviceSummary(rows);
    GroupByDistinctKeys(rows, SerialOf);
    SortDistinctKeys(gs);
    GroupByHasKey(rows, SerialOf, serial);
    if exists i :: 0 <= i < |out| && out[i].key == serial {
      var i :| 0 <= i < |out| && out[i].key == serial;
      assert out[i] in multiset(gs);
    }
    if exists i :: 0 <= i < |gs| && gs[i].key == serial {
      var i :| 0 <= i < |gs| && gs[i].key == serial;
      assert gs[i] in multiset(out);
    }
  }

  /** Each summary row holds, for its serial, the sums of purchase and
      feed-in over that device's rows, an unknown value counting as zero. */
  lemma SummaryTotals(rows: seq<Row>, i: nat)
    requires i < |DeviceSummary(rows)|
    ensures DeviceSummary(rows)[i].purchase == Sum(rows, SerialOf, DeviceSummary(rows)[i].key, Purchase)
    ensures DeviceSummary(rows)[i].feedin == Sum(rows, SerialOf, DeviceSummary(rows)[i].key, Feedin)
  {
    var gs := GroupBy(rows, SerialOf);
    assert DeviceSummary(rows)[i] in multiset(gs);
  }

  /** The summary rows add up to the grand totals over all cleaned rows. */
  lemma SummaryConserves(rows: seq<Row>, c: Column)
    ensures Total(DeviceSummary(rows), c) == GrandTotal(rows, c)
  {
    TotalSort(GroupBy(rows, SerialOf), c);
    GroupByConserves(rows, SerialOf, c);
    KeyedTotalAllKnown(rows, SerialOf, c);
  }
}
