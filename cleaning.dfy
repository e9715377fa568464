/** The cleaning stage: exact-duplicate removal keeping the first
    occurrence, then removal of rows whose three energy values are all
    unknown, then the derived hour column. Each step is specified as a
    selection by a row mask and carried out by a loop. */
module Cleaning {
  import opened Records
  import opened Seqs

  /** Row i is a first occurrence when no earlier row equals it: the
      negation of the "duplicated" mask with the first occurrence kept. */
  function FirstOccurrenceMask<T(==)>(s: seq<T>): (keep: seq<bool>)
    ensures |keep| == |s|
  {
    seq(|s|, i requires 0 <= i < |s| => s[i] !in s[..i])
  }

  /** Exact-duplicate removal: every record equal to an earlier one goes. */
  function DropDuplicates<T(==)>(s: seq<T>): (r: seq<T>) {
    Select(s, FirstOccurrenceMask(s))
  }

  /** At least one of the three energy values is known. */
  predicate HasEnergy(m: Measurement) {
    m.gridPurchase.Some? || m.gridFeedin.Some? || m.directConsumption.Some?
  }

  function EnergyMask(s: seq<Measurement>): (keep: seq<bool>)
    ensures |keep| == |s|
  {
    seq(|s|, i requires 0 <= i < |s| => HasEnergy(s[i]))
  }

  /** The completeness filter: drops the records whose three energy values
      are all unknown. */
  function DropIncomplete(s: seq<Measurement>): (r: seq<Measurement>) {
    Select(s, EnergyMask(s))
  }

  /** Both cleaning filters, in the order the table goes through them: the
      cleaned table has no two equal records, and every record in it has a
      known energy value. */
  function Clean(s: seq<Measurement>): (r: seq<Measurement>)
    ensures Distinct(r)
    ensures forall i :: 0 <= i < |r| ==> HasEnergy(r[i])
  {
    var d := DropDuplicates(s);
    DropDuplicatesDistinct(s);
    SelectDistinct(d, EnergyMask(d));
    DropIncompleteHasEnergy(d);
    DropIncomplete(d)
  }

  /** The cleaned table with the hour column derived from the timestamp. */
  function WithHours(s: seq<Measurement>): (rows: seq<Row>)
    ensures |rows| == |s|
  {
    seq(|s|, i requires 0 <= i < |s| => Row(s[i], HourOf(s[i].timestamp)))
  }

  lemma DropDuplicatesSnoc<T>(s: seq<T>, x: T)
    ensures DropDuplicates(s + [x]) == DropDuplicates(s) + (if x in s then [] else [x])
  {
    var t := s + [x];
    assert t[..|s|] == s;
    assert FirstOccurrenceMask(t) == FirstOccurrenceMask(s) + [x !in s] by {
      forall i | 0 <= i < |s| ensures t[..i] == s[..i] {
      }
    }
    SelectSnoc(s, FirstOccurrenceMask(s), x, x !in s);
  }

  lemma DropIncompleteSnoc(s: seq<Measurement>, x: Measurement)
    ensures DropIncomplete(s + [x]) == DropIncomplete(s) + (if HasEnergy(x) then [x] else [])
  {
    assert EnergyMask(s + [x]) == EnergyMask(s) + [HasEnergy(x)];
    SelectSnoc(s, EnergyMask(s), x, HasEnergy(x));
  }

  /** Duplicate removal loses no record: every record of the input, however
      it differs from the others, is in the output. */
  lemma {:induction false} DropDuplicatesMembers<T>(s: seq<T>)
    ensures forall x :: x in DropDuplicates(s) <==> x in s
    decreases |s|
  {
    if s != [] {
      var n := |s| - 1;
      DropDuplicatesMembers(s[..n]);
      assert s == s[..n] + [s[n]];
      DropDuplicatesSnoc(s[..n], s[n]);
    }
  }

  /** After duplicate removal no two records are equal. */
  lemma {:induction false} DropDuplicatesDistinct<T>(s: seq<T>)
    ensures Distinct(DropDuplicates(s))
    decreases |s|
  {
    if s != [] {
      var n := |s| - 1;
      DropDuplicatesDistinct(s[..n]);
      DropDuplicatesMembers(s[..n]);
      assert s == s[..n] + [s[n]];
      DropDuplicatesSnoc(s[..n], s[n]);
    }
  }

  /** A table without duplicates is left as it is. */
  lemma DropDuplicatesOfDistinct<T>(s: seq<T>)
    requires Distinct(s)
    ensures DropDuplicates(s) == s
  {
    SelectAll(s, FirstOccurrenceMask(s));
  }

  /** The completeness filter keeps each record exactly as often as it
      occurs when one of its energy values is known, and never otherwise. */
  lemma {:induction false} DropIncompleteCount(s: seq<Measurement>, x: Measurement)
    ensures multiset(DropIncomplete(s))[x] == if HasEnergy(x) then multiset(s)[x] else 0
    decreases |s|
  {
    if s != [] {
      var n := |s| - 1;
      DropIncompleteCount(s[..n], x);
      assert s == s[..n] + [s[n]];
      DropIncompleteSnoc(s[..n], s[n]);
    }
  }

  /** A record survives the completeness filter exactly when it is in the
      input and one of its energy values is known. */
  lemma DropIncompleteMembers(s: seq<Measurement>, x: Measurement)
    ensures x in DropIncomplete(s) <==> x in s && HasEnergy(x)
  {
    DropIncompleteCount(s, x);
  }

  /** Every record the completeness filter keeps has a known energy value. */
  lemma DropIncompleteHasEnergy(s: seq<Measurement>)
    ensures forall i :: 0 <= i < |DropIncomplete(s)| ==> HasEnergy(DropIncomplete(s)[i])
  {
    forall i | 0 <= i < |DropIncomplete(s)| ensures HasEnergy(DropIncomplete(s)[i]) {
      DropIncompleteMembers(s, DropIncomplete(s)[i]);
    }
  }

  /** Cleaning an already cleaned table changes nothing. */
  lemma CleanIdempotent(s: seq<Measurement>)
    ensures Clean(Clean(s)) == Clean(s)
  {
    var c := Clean(s);
    DropDuplicatesOfDistinct(c);
    SelectAll(c, EnergyMask(c));
  }

  /** Exact-duplicate removal, one row at a time, remembering the rows seen. */
  method DropDuplicateRows(s: seq<Measurement>) returns (r: seq<Measurement>)
    ensures r == DropDuplicates(s)
  {
    r := [];
    var seen: set<Measurement> := {};
    for i := 0 to |s|
      invariant r == DropDuplicates(s[..i])
      invariant forall x :: x in seen <==> x in s[..i]
    {
      assert s[..i + 1] == s[..i] + [s[i]];
      DropDuplicatesSnoc(s[..i], s[i]);
      if s[i] !in seen {
        r := r + [s[i]];
        seen := seen + {s[i]};
      }
    }
    assert s[..|s|] == s;
  }

  /** The completeness filter, one row at a time. */
  method DropIncompleteRows(s: seq<Measurement>) returns (r: seq<Measurement>)
    ensures r == DropIncomplete(s)
  {
    r := [];
    for i := 0 to |s|
      invariant r == DropIncomplete(s[..i])
    {
      assert s[..i + 1] == s[..i] + [s[i]];
      DropIncompleteSnoc(s[..i], s[i]);
      if s[i].gridPurchase.Some? || s[i].gridFeedin.Some? || s[i].directConsumption.Some? {
        r := r + [s[i]];
      }
    }
    assert s[..|s|] == s;
  }

  /** Adds the hour column: each row's hour is the hour of its timestamp,
      unknown exactly when the timestamp is, and otherwise 0 to 23. */
  method AddHourColumn(s: seq<Measurement>) returns (rows: seq<Row>)
    ensures rows == WithHours(s)
    ensures forall i :: 0 <= i < |rows| ==> rows[i].m == s[i] && (rows[i].hour.None? <==> s[i].timestamp.None?)
  {
    rows := [];
    for i := 0 to |s|
      invariant rows == WithHours(s[..i])
    {
      rows := rows + [Row(s[i], HourOf(s[i].timestamp))];
    }
    assert s[..|s|] == s;
  }
}
