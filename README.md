# Energy measurement pipeline, modelled in Dafny

This is a model of a batch script, `Pipline.py`. The script reads per-device
energy readings from a semicolon-separated file. Each reading has a serial, a
timestamp, a date, and three energy values: grid purchase, grid feed-in and
direct consumption. The script writes three tables:

- the cleaned readings;
- hourly totals per (date, hour), each flagged when it is the peak feed-in
  hour of its date;
- per-device totals, ordered by purchase, largest first.

The model is a chain of stages over a sequence of records. Each stage is one
module:

- `Records` holds the data model. `RawRow` is an input row as text.
  `Measurement` is a coerced row, in which every parsed field is an `Option`,
  so an unknown value (pandas' NaN/NaT) is never the same as 0. `Row` is a
  cleaned row with its derived hour. The hour is the `Hour` subset type,
  0 to 23.
- `Coercion` converts each text column. The numeric parser and the date-time
  parser are parameters, because they are library code. A text the parser
  cannot read becomes `None`. `timestamp` is parsed from the timestamp column
  and `date` from the separate date column (line 18). `hour` is later
  derived from `timestamp` alone (line 27). The two temporal sources stay
  separate, as they are in the code.
- `DecimalText` is one concrete numeric parser, for plain decimal literals
  (sign, digits, an optional point). Its lemmas prove two things. Every
  integer's text, negative ones included, parses back to that integer. A
  text holding a foreign character parses to unknown.
- `Seqs` and `Cleaning` hold the cleaning stage. Duplicate removal and the
  completeness filter are both selections by a row mask. `Select` is the
  `df[mask]` of pandas, so "stable filter" holds by construction.
  `DropDuplicates` keeps row i exactly when no earlier row equals it.
  `DropIncomplete` keeps a row exactly when one of its three energy values
  is known. The script works step by step on one table, so each step is also
  a method with a loop (`DropDuplicateRows`, `DropIncompleteRows`,
  `AddHourColumn`, `Coercion.CoerceTable`). Each of these methods is proved
  to return what its specification function gives.
- `Grouping` is a generic group-by-and-sum. It groups by a key that may be
  unknown, and a row with an unknown key joins no group. It sums the
  purchase and feed-in columns, with unknown counted as zero.
- `Hourly` covers lines 30-33. It groups by `(date, hour)` (`SlotOf`), takes
  the largest feed-in total per date (`DayMax`), and adds the peak flag
  (`WithPeakFlags`). A tie flags every maximum.
- `Summary` covers line 36. It groups by serial and sorts by purchase total,
  descending (`SortByPurchase`, an insertion sort).
- `Pipeline.Run` chains the stages in the script's order. It also holds the
  worked scenarios: the "abc" row against the "10" row, the row with empty
  energy values, and the two days of device BAT1.

Three facts about the code shape the model:

- `date` is parsed from the raw date column (line 18), not taken from
  `timestamp`. So a row can have a known date and an unknown hour. Such a
  row joins no hourly bucket.
- Devices with equal purchase totals appear in the summary in no promised
  order (line 36). `sort_values` sorts by purchase alone, so the model
  states only the non-increasing order.
- A row with no serial is not rejected; see "Left out".

## Model

| member | source | states |
|---|---|---|
| Records.HourOf | Pipline.py:27 | the hour is unknown exactly when the timestamp is; otherwise it is the hour h, 0 to 23, with h·3600 s ≤ time of day < (h+1)·3600 s |
| Coercion.Coerce | Pipline.py:7-18 | coercing a row keeps its serial and its other columns unchanged |
| Coercion.CoerceTable | Pipline.py:10-18 | the coerced table has one measurement per raw row, in the same order, each the coercion of that row |
| Coercion.UnreadableTimestamp | Pipline.py:15 | if the timestamp text does not parse, both the timestamp and the hour derived from it are unknown |
| Coercion.DateIgnoresTimestamp | Pipline.py:18 | the date depends only on the date column: changing the timestamp text leaves it unchanged, and it is known exactly when the date text parses |
| Coercion.UnparsableEnergyIsUnknown | Pipline.py:7-12 | with the decimal parser, each energy column whose text holds a non-numeric character becomes unknown (None), never 0, whatever the other columns hold |
| Coercion.IntegerEnergyIsKept | Pipline.py:7-12 | with the decimal parser, each energy column whose text is an integer, negative or not, is kept with exactly that value, whatever the other two columns hold |
| Coercion.MixedEnergyRow | Pipline.py:7-12 | a row with purchase "10", feed-in "abc" and empty direct consumption coerces to 10, unknown and unknown: each column is coerced on its own |
| DecimalText.ParseDecimal | Pipline.py:8 | the parse is unknown for the empty text and for any text holding a character no decimal literal holds, so such a cell is never read as a number, let alone 0 |
| DecimalText.ParseIntText | Pipline.py:8 | rendering any integer and parsing the text back gives that integer |
| DecimalText.ParseNegative | Pipline.py:8 | a leading minus negates the value of any unsigned text (".5" included), so negative values are accepted as they are |
| Seqs.SelectMembers | Pipline.py:21-24 | a mask selection holds x exactly when some kept position of the input holds x |
| Seqs.SelectDistinct | Pipline.py:21-24 | filtering a sequence without repeats leaves no repeats |
| Cleaning.DropDuplicateRows | Pipline.py:21 | the loop returns exactly the rows that have no equal earlier row, in input order (first occurrence kept) |
| Cleaning.DropDuplicatesMembers | Pipline.py:21 | duplicate removal loses no record: a record is in the output iff it is in the input, so records that differ in any field (unknown versus known included) are all kept |
| Cleaning.DropDuplicatesDistinct | Pipline.py:21 | after duplicate removal no two records are equal |
| Cleaning.DropDuplicatesOfDistinct | Pipline.py:21 | a table without duplicates passes through unchanged |
| Cleaning.DropIncompleteRows | Pipline.py:24 | the loop returns exactly the rows with at least one known energy value, in input order |
| Cleaning.DropIncompleteCount | Pipline.py:24 | a record with a known energy value keeps every occurrence; a record whose three energy values are all unknown keeps none |
| Cleaning.DropIncompleteMembers | Pipline.py:24 | a record survives the completeness filter iff it is in the input and one energy value is known, whatever its timestamp |
| Cleaning.DropIncompleteHasEnergy | Pipline.py:24 | every record the completeness filter keeps has a known energy value |
| Cleaning.Clean | Pipline.py:21-24 | the cleaned table has no two equal records, and every record in it has a known energy value |
| Cleaning.CleanIdempotent | Pipline.py:21-24 | running duplicate removal and then the filter on an already cleaned table returns the same table |
| Cleaning.AddHourColumn | Pipline.py:27 | each cleaned row gets the hour of its own timestamp, unknown exactly when the timestamp is; the measurement itself is unchanged |
| Grouping.GroupBy | Pipline.py:30 | each group's purchase and feed-in are the sums over the rows with that key, unknown counted as 0 |
| Grouping.GroupByDistinctKeys | Pipline.py:30 | no two groups have the same key |
| Grouping.GroupByHasKey | Pipline.py:30 | there is a group for key k iff some row has key k (a row with an unknown key makes no group) |
| Grouping.GroupByConserves | Pipline.py:30 | the group totals add up to the total over all rows with a known key |
| Grouping.KeyedTotalAllKnown | Pipline.py:36 | when every row has a known key, the keyed total is the grand total |
| Hourly.SlotOf | Pipline.py:30 | a row's bucket key is known iff both its date and its hour are known, and is then that (date, hour) |
| Hourly.DayMax | Pipline.py:33 | the largest feed-in total among a date's buckets: no bucket of that date is above it, and one bucket equals it; unknown exactly when the date has no bucket |
| Hourly.WithPeakFlags | Pipline.py:33 | flagging keeps each bucket's date, hour and two totals |
| Hourly.PeakFlagIff | Pipline.py:33 | a bucket is flagged iff no bucket of the same date has a larger feed-in total, so every tied maximum is flagged |
| Hourly.DayHasPeak | Pipline.py:33 | every date that has a bucket has at least one flagged bucket |
| Hourly.HourlyTotals | Pipline.py:30-33 | the hourly table: each row's totals are the purchase and feed-in sums over the rows of its date and hour, unknown counted as 0 |
| Hourly.HourlyDistinctSlots | Pipline.py:30 | no two hourly rows share a (date, hour) |
| Hourly.HourlySlotPresent | Pipline.py:30 | there is an hourly row for (d, h) iff some cleaned row has date d and hour h, both known |
| Hourly.UnknownSlotIgnored | Pipline.py:30 | adding a row whose date or hour is unknown leaves the whole hourly output unchanged |
| Hourly.HourlyConserves | Pipline.py:30 | the bucket totals add up to the total over the rows whose date and hour are both known |
| Summary.Insert | Pipline.py:36 | inserting into a descending sequence gives a descending sequence with the same groups plus the new one |
| Summary.SortByPurchase | Pipline.py:36 | the result is ordered non-increasingly by purchase total and is a permutation of the groups |
| Summary.DeviceSummary | Pipline.py:36 | the device summary is ordered non-increasingly by purchase total |
| Summary.SummaryOnePerSerial | Pipline.py:36 | the summary has no serial twice, and has a row for a serial iff some cleaned row has it |
| Summary.SummaryTotals | Pipline.py:36 | each summary row's totals are the purchase and feed-in sums over that device's rows, unknown counted as 0 |
| Summary.SummaryConserves | Pipline.py:36 | the summary totals add up to the grand totals over all cleaned rows, for purchase and for feed-in |
| Pipeline.Run | Pipline.py:10-36 | a run returns the coerced, cleaned table with hours, and the hourly and device tables over it; every cleaned row has a known energy value, and no two cleaned measurements are equal |
| Pipeline.UnknownAndKnownBothKept | Pipline.py:10-21 | two rows alike except for purchase texts "abc" and "10" coerce to unknown and 10, and duplicate removal keeps both |
| Pipeline.EmptyEnergyRowDropped | Pipline.py:24 | a row whose three energy texts are empty is not in the cleaned table |
| Pipeline.Bat1HourlyBucket | Pipline.py:30 | with BAT1's purchases of 5 and 10 at hour 3 of 2024-01-01 (and 0 on 2024-01-02), that bucket's purchase total is 15 |
| Pipeline.Bat1Summary | Pipline.py:36 | in the same example, the summary is the single row BAT1 with purchase 15 and feed-in 0 |

## Left out

- Reading and writing the files (lines 4 and 39-41). The raw rows are a
  given sequence, and the three tables are returned values.
- The grammars of `pd.to_numeric` and `pd.to_datetime`. Both are parameters
  of the coercion stage. `DecimalText.ParseDecimal` is one concrete numeric
  parser. It reads plain decimal literals only, so it does not accept
  exponents, surrounding spaces or "inf", which pandas does accept. Time
  zones and the instant's resolution beyond a time of day are not modelled.
- Format inference across a column. `pd.to_datetime` may choose a format
  from the column as a whole. The model applies the parser to each cell on
  its own.
- Floating-point arithmetic: sums are exact `real` sums, and feed-in totals
  are compared exactly.
- Group order. pandas sorts the group keys of the hourly table. The model
  emits groups in the order their keys first appear. No property here
  depends on that order.
- SortByPurchase: the order of devices with equal purchase totals is that
  of an insertion sort. pandas' default sort promises no tie order, so only
  the non-increasing order and the permutation are stated.
- A missing serial. pandas reads an empty serial cell as NaN, and `groupby`
  drops such rows from the summary. The model takes the serial as always
  present.
- Column types chosen by `read_csv` (a serial or an extra column read as a
  number). Extra columns are kept as text. They take part in duplicate
  detection and are otherwise passed through.
- Missing-value markers in the serial and extra columns. `read_csv` turns
  "", "NA", "NaN", "null" and similar texts into NaN, and `drop_duplicates`
  (line 21) treats two NaNs as equal. The model compares the raw texts, so
  two rows that differ only in "" versus "NA" in an extra column are both
  kept by the model, where pandas keeps one.
- Coercion.Coerce: its contract states only that the serial and the extra
  columns pass through. What the parsers give is stated by the lemmas
  beside it.
