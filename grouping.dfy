/** Group-by with summation over the cleaned rows: rows are grouped by a key
    that may be unknown (rows with an unknown key belong to no group), and
    each group holds the sums of the purchase and feed-in columns over its
    rows, an unknown value counting as zero. */
module Grouping {
  import opened Records
  import opened Seqs

  /** The two energy columns the aggregations sum. */
  datatype Column = Purchase | Feedin

  /** What a row adds to a column total: an unknown value adds zero. */
  function Amount(r: Row, c: Column): (a: real) {
    OrZero(if c == Purchase then r.m.gridPurchase else r.m.gridFeedin)
  }

  /** One output row of a group-by: the key and the two column totals. */
  datatype Group<K> = Group(key: K, purchase: real, feedin: real)

  function GroupAmount<K>(g: Group<K>, c: Column): (a: real) {
    if c == Purchase then g.purchase else g.feedin
  }

  /** The total of column `c` over the rows whose key is `k`. */
  function Sum<K(==)>(rows: seq<Row>, key: Row -> Option<K>, k: K, c: Column): (t: real)
    decreases |rows|
  {
    if rows == [] then 0.0
    else
      var n := |rows| - 1;
      Sum(rows[..n], key, k, c) + (if key(rows[n]) == Some(k) then Amount(rows[n], c) else 0.0)
  }

  /** The total of column `c` over the rows whose key is known. */
  function KeyedTotal<K>(rows: seq<Row>, key: Row -> Option<K>, c: Column): (t: real)
    decreases |rows|
  {
    if rows == [] then 0.0
    else
      var n := |rows| - 1;
      KeyedTotal(rows[..n], key, c) + (if key(rows[n]).Some? then Amount(rows[n], c) else 0.0)
  }

  /** The total of column `c` over all rows. */
  function GrandTotal(rows: seq<Row>, c: Column): (t: real)
    decreases |rows|
  {
    if rows == [] then 0.0 else GrandTotal(rows[..|rows| - 1], c) + Amount(rows[|rows| - 1], c)
  }

  /** The distinct known keys of the rows, in order of first appearance. */
  function Keys<K(==)>(rows: seq<Row>, key: Row -> Option<K>): (ks: seq<K>)
    decreases |rows|
  {
    if rows == [] then []
    else
      var n := |rows| - 1;
      var ks := Keys(rows[..n], key);
      if key(rows[n]).Some? && key(rows[n]).value !in ks then ks + [key(rows[n]).value] else ks
  }

  /** One group per key of `ks`, with that key's totals. */
  function GroupsFor<K(==)>(rows: seq<Row>, key: Row -> Option<K>, ks: seq<K>): (gs: seq<Group<K>>)
    ensures |gs| == |ks|
  {
    seq(|ks|, i requires 0 <= i < |ks| => Group(ks[i], Sum(rows, key, ks[i], Purchase), Sum(rows, key, ks[i], Feedin)))
  }

  /** Group-by-and-sum: one group per distinct known key. */
  function GroupBy<K(==)>(rows: seq<Row>, key: Row -> Option<K>): (gs: seq<Group<K>>)
    ensures forall i :: 0 <= i < |gs| ==>
      gs[i].purchase == Sum(rows, key, gs[i].key, Purchase) && gs[i].feedin == Sum(rows, key, gs[i].key, Feedin)
  {
    GroupsFor(rows, key, Keys(rows, key))
  }

  /** The total of column `c` over a list of groups. */
  function Total<K>(gs: seq<Group<K>>, c: Column): (t: real) {
    if gs == [] then 0.0 else GroupAmount(gs[0], c) + Total(gs[1..], c)
  }

  /** No two groups share a key. */
  predicate DistinctKeys<K(==)>(gs: seq<Group<K>>) {
    forall i, j :: 0 <= i < j < |gs| ==> gs[i].key != gs[j].key
  }

  /** A key is in the key list exactly when some row has it. */
  lemma {:induction false} KeysExact<K>(rows: seq<Row>, key: Row -> Option<K>, k: K)
    ensures k in Keys(rows, key) <==> exists i :: 0 <= i < |rows| && key(rows[i]) == Some(k)
    decreases |rows|
  {
    if rows != [] {
      var n := |rows| - 1;
      KeysExact(rows[..n], key, k);
      if exists i :: 0 <= i < |rows| && key(rows[i]) == Some(k) {
        var i :| 0 <= i < |rows| && key(rows[i]) == Some(k);
        if i < n {
          assert key(rows[..n][i]) == Some(k);
        }
      }
      if exists i :: 0 <= i < n && key(rows[..n][i]) == Some(k) {
        var i :| 0 <= i < n && key(rows[..n][i]) == Some(k);
        assert key(rows[i]) == Some(k);
      }
    }
  }

  /** The key list has no repeats. */
  lemma {:induction false} KeysDistinct<K>(rows: seq<Row>, key: Row -> Option<K>)
    ensures Distinct(Keys(rows, key))
    decreases |rows|
  {
    if rows != [] {
      KeysDistinct(rows[..|rows| - 1], key);
    }
  }

  /** Group-by never yields two groups with the same key. */
  lemma GroupByDistinctKeys<K>(rows: seq<Row>, key: Row -> Option<K>)
    ensures DistinctKeys(GroupBy(rows, key))
  {
    KeysDistinct(rows, key);
  }

  /** Group-by yields a group for a key exactly when some row has that key. */
  lemma GroupByHasKey<K>(rows: seq<Row>, key: Row -> Option<K>, k: K)
    ensures (exists i :: 0 <= i < |GroupBy(rows, key)| && GroupBy(rows, key)[i].key == k)
        <==> (exists j :: 0 <= j < |rows| && key(rows[j]) == Some(k))
  {
    KeysExact(rows, key, k);
    var ks := Keys(rows, key);
    var gs := GroupBy(rows, key);
    if k in ks {
      var i :| 0 <= i < |ks| && ks[i] == k;
      assert gs[i].key == k;
    }
  }

  /** Rows that never carry key `k` add nothing to its total. */
  lemma {:induction false} SumAbsent<K>(rows: seq<Row>, key: Row -> Option<K>, k: K, c: Column)
    requires forall i :: 0 <= i < |rows| ==> key(rows[i]) != Some(k)
    ensures Sum(rows, key, k, c) == 0.0
    decreases |rows|
  {
    if rows != [] {
      var n := |rows| - 1;
      assert forall i :: 0 <= i < n ==> rows[..n][i] == rows[i];
      SumAbsent(rows[..n], key, k, c);
    }
  }

  lemma SumSnoc<K>(rows: seq<Row>, key: Row -> Option<K>, r: Row, k: K, c: Column)
    ensures Sum(rows + [r], key, k, c) == Sum(rows, key, k, c) + (if key(r) == Some(k) then Amount(r, c) else 0.0)
  {
    assert (rows + [r])[..|rows|] == rows;
  }

  /** The sum, over the keys of `ks`, of each key's total. */
  function SumOverKeys<K(==)>(rows: seq<Row>, key: Row -> Option<K>, ks: seq<K>, c: Column): (t: real)
    decreases |ks|
  {
    if ks == [] then 0.0
    else SumOverKeys(rows, key, ks[..|ks| - 1], c) + Sum(rows, key, ks[|ks| - 1], c)
  }

  /** Adding one row to the table adds its amount to the sum over a list of
      distinct keys when its key is in the list, and nothing otherwise. */
  lemma {:induction false} SumOverKeysSnoc<K>(rows: seq<Row>, key: Row -> Option<K>, r: Row, ks: seq<K>, c: Column)
    requires Distinct(ks)
    ensures SumOverKeys(rows + [r], key, ks, c)
         == SumOverKeys(rows, key, ks, c) + (if key(r).Some? && key(r).value in ks then Amount(r, c) else 0.0)
    decreases |ks|
  {
    if ks != [] {
      var n := |ks| - 1;
      assert Distinct(ks[..n]);
      assert ks == ks[..n] + [ks[n]];
      assert ks[n] !in ks[..n];
      SumOverKeysSnoc(rows, key, r, ks[..n], c);
      SumSnoc(rows, key, r, ks[n], c);
    }
  }

  lemma TotalSnoc<K>(gs: seq<Group<K>>, g: Group<K>, c: Column)
    ensures Total(gs + [g], c) == Total(gs, c) + GroupAmount(g, c)
  {
    if gs != [] {
      assert (gs + [g])[1..] == gs[1..] + [g];
      TotalSnoc(gs[1..], g, c);
    }
  }

  lemma {:induction false} TotalGroupsFor<K>(rows: seq<Row>, key: Row -> Option<K>, ks: seq<K>, c: Column)
    ensures Total(GroupsFor(rows, key, ks), c) == SumOverKeys(rows, key, ks, c)
    decreases |ks|
  {
    if ks != [] {
      var n := |ks| - 1;
      TotalGroupsFor(rows, key, ks[..n], c);
      var g := GroupsFor(rows, key, ks)[n];
      assert GroupsFor(rows, key, ks) == GroupsFor(rows, key, ks[..n]) + [g];
      TotalSnoc(GroupsFor(rows, key, ks[..n]), g, c);
    }
  }

  /** Summing the group totals gives the total over every row with a known
      key: no row is counted twice and none with a known key is lost. */
  lemma {:induction false} GroupByConserves<K>(rows: seq<Row>, key: Row -> Option<K>, c: Column)
    ensures Total(GroupBy(rows, key), c) == KeyedTotal(rows, key, c)
    decreases |rows|
  {
    TotalGroupsFor(rows, key, Keys(rows, key), c);
    if rows != [] {
      var n := |rows| - 1;
      var p, r := rows[..n], rows[n];
      assert rows == p + [r];
      GroupByConserves(p, key, c);
      TotalGroupsFor(p, key, Keys(p, key), c);
      var ks := Keys(p, key);
      KeysDistinct(p, key);
      SumOverKeysSnoc(p, key, r, ks, c);
      if key(r).Some? && key(r).value !in ks {
        var k := key(r).value;
        assert Keys(rows, key) == ks + [k];
        assert (ks + [k])[..|ks|] == ks;
        KeysExact(p, key, k);
        SumAbsent(p, key, k, c);
        SumSnoc(p, key, r, k, c);
      }
    }
  }

  /** When every row has a known key, the keyed total is the grand total. */
  lemma {:induction false} KeyedTotalAllKnown<K>(rows: seq<Row>, key: Row -> Option<K>, c: Column)
    requires forall i :: 0 <= i < |rows| ==> key(rows[i]).Some?
    ensures KeyedTotal(rows, key, c) == GrandTotal(rows, c)
    decreases |rows|
  {
    if rows != [] {
      var n := |rows| - 1;
      assert forall i :: 0 <= i < n ==> rows[..n][i] == rows[i];
      KeyedTotalAllKnown(rows[..n], key, c);
    }
  }
}
