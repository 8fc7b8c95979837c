# Electrical-heating period consumption limit, modelled in Dafny

The electrical-heating calculation of the measurements platform works on three tables:

- the periods of electrical-heating child metering points;
- the consumption periods of their parent metering points;
- the parents' quarter-hour time series.

It produces, for every electrical-heating child, daily quantities capped by a yearly
consumption limit. The steps are:

1. Every child period is paired with the periods of its parent. The overlap of the two
   periods is computed.
2. The parent period is split into calendar years. Each yearly piece gets a share of
   the yearly limit, in proportion to its days.
3. The parent's quantities are summed per day. A running sum per child and yearly piece
   then caps the day on which the limit is reached to what is left of the limit. Every
   later day is capped to zero.
4. Only the days whose value differs from an earlier calculated value are emitted.

The calculation runs on the local wall clock. Its inputs are converted from UTC and its
results are converted back to UTC.

The model states each step over sequences of records:

- `Calendar`: the proleptic Gregorian calendar on instants counted in seconds
  (`F.year`, `date_trunc("day")`, `datediff`).
- `PysparkFunctions`: `begining_of_year`, `days_in_year`, `get_timestamp_columns`, the
  two per-column converters, and `convert_timezone`. `convert_timezone` is a method
  whose loop converts one column per step, with its invariant.
- `PeriodLimits`: the electrical-heating filter, the child/parent pairing, the yearly
  split, the clipping to the year and the pro-rata limit.
- `DailyConsumption`: the daily sums, the tagging with child ids, and the join to the
  previously calculated values.
- `Capping`: the join to the limit rows, the running-sum window, the capping, and the
  comparison with the previous values.
- `Calculation`: `execute_core_logic` end to end. This includes the conversion of the
  records to local time and back.
- `Sequences` and `Wrappers`: generic helpers.

What is proved:

- The overlap is the intersection of the two periods.
- The yearly pieces are exactly the intersections of the parent period with the
  calendar years it touches.
- A full year gets exactly the yearly limit, and the limit grows with the piece.
- Summing per day neither loses nor double-counts a quantity.
- The running sum is computed over the whole joined table, with all children and
  yearly pieces mixed in any order. When no two rows of a window partition share a day,
  a row's running sum is the consumption of its own partition up to and including its
  day.
- On the calculation's own joined table, the capped values of every window partition
  sum to the smaller of the piece's consumption and its (rounded) limit. A window
  partition is one child's yearly piece. This holds for the corrected join, with
  non-negative readings, under the non-overlap conditions below.
- Every capped day lies between zero and its own quantity.
- Every emitted measurement belongs to an electrical-heating child, with the join as
  written or the corrected one. Its day lies in the overlap of one of the child's
  periods with a period of its parent. Its quantity lies between zero and the parent's
  total for that day.
- Suppose no two periods of a child overlap, and no two periods of a parent overlap.
  Then the corrected pipeline emits at most one value per child and day. These
  non-overlap conditions are assumptions of this model. The comment at
  `calculation.py` lines 89-90 assumes something else: only one overlap between a
  child period and a parent period.

## Model

Paths are relative to the repository root. `calculation.py` stands for
`source/electrical_heating/src/electrical_heating/domain/calculation.py` and
`pyspark_functions.py` for the file beside it; the table uses the full paths.

| member | source | states |
|---|---|---|
| Calendar.DayNumber | source/electrical_heating/src/electrical_heating/domain/calculation.py:158-160 | the day an instant falls on, counted from 1 January 1970, as the cast of a timestamp to a date |
| Calendar.DateTruncDay | source/electrical_heating/src/electrical_heating/domain/calculation.py:170 | the truncated day is a midnight (a whole number of days), and it is the midnight of the instant's day: at most the instant, less than one day before it |
| Calendar.DateDiff | source/electrical_heating/src/electrical_heating/domain/calculation.py:158-160 | `datediff` counts whole days: the start's midnight plus that many days is the end's midnight |
| Calendar.Year | source/electrical_heating/src/electrical_heating/domain/calculation.py:142 | `year` is the year whose range of days holds the instant's day |
| Calendar.YearStart | source/electrical_heating/src/electrical_heating/domain/pyspark_functions.py:72 | 1 January 00:00 of a year, the value `date_trunc("year")` gives every instant of that year |
| Calendar.IsLeapYear | source/electrical_heating/src/electrical_heating/domain/pyspark_functions.py:78-84 | the Gregorian leap-year rule: divisible by 4, and not by 100 unless by 400 |
| Calendar.DaysInYear | source/electrical_heating/src/electrical_heating/domain/pyspark_functions.py:78-84 | 366 days in a leap year, 365 otherwise |
| Calendar.YearBounds | source/electrical_heating/src/electrical_heating/domain/calculation.py:142 | an instant is in year y exactly when it lies in [1 January y, 1 January y+1) |
| Calendar.YearLength | source/electrical_heating/src/electrical_heating/domain/pyspark_functions.py:78-84 | the day difference between two consecutive year starts is the length of the year (365, or 366 in a leap year) |
| Calendar.YearStartIsMidnightOfDayOne | source/electrical_heating/src/electrical_heating/domain/pyspark_functions.py:72 | a year start is midnight and day 1 of its year |
| PysparkFunctions.AddYearsToYearStart | source/electrical_heating/src/electrical_heating/domain/pyspark_functions.py:74 | `add_months` of 12 × n months applied to a year start: the year start n years later, since 1 January is never clamped |
| PysparkFunctions.StartOfYearPlusValue | source/electrical_heating/src/electrical_heating/domain/pyspark_functions.py:72-75 | the truncation to the year, moved on by the years to add when that is positive |
| PysparkFunctions.BeginningOfYear | source/electrical_heating/src/electrical_heating/domain/pyspark_functions.py:69-75 | a missing date gives a missing result; otherwise the result is 1 January 00:00 of the date's year plus `years_to_add` when that is positive (zero or less acts as zero), and with no offset it is not after the date |
| PysparkFunctions.StartOfYearPlus | source/electrical_heating/src/electrical_heating/domain/pyspark_functions.py:72-75 | the truncation to the year, moved on by 12 × n months, is the year start n years later |
| PysparkFunctions.BeginningOfYearIdempotent | source/electrical_heating/src/electrical_heating/domain/pyspark_functions.py:72 | truncating an already truncated year start changes nothing |
| PysparkFunctions.DaysInYearOf | source/electrical_heating/src/electrical_heating/domain/pyspark_functions.py:78-84 | the day of the year of 31 December: 366 exactly in Gregorian leap years, 365 otherwise |
| PysparkFunctions.ColumnsNamed | source/electrical_heating/src/electrical_heating/domain/pyspark_functions.py:12 | exactly the columns `F.col(name)` can refer to: those with that name |
| PysparkFunctions.ConvertValues | source/electrical_heating/src/electrical_heating/domain/pyspark_functions.py:12 | the conversion applied to every value of a column, keeping its length; a null stays null |
| PysparkFunctions.TemporaryColumn | source/electrical_heating/src/electrical_heating/domain/pyspark_functions.py:10-15 | the column that `select` adds: the converted values of the named column under `<name>_tmp` |
| PysparkFunctions.ConvertedColumn | source/electrical_heating/src/electrical_heating/domain/pyspark_functions.py:12-17 | a column after its conversion: the same name, timestamp type, converted values |
| PysparkFunctions.Drop | source/electrical_heating/src/electrical_heating/domain/pyspark_functions.py:16 | `drop(name)` keeps exactly the columns with another name |
| PysparkFunctions.WithColumnRenamed | source/electrical_heating/src/electrical_heating/domain/pyspark_functions.py:17 | `withColumnRenamed` renames the matching column in place and leaves every other column as it was |
| PysparkFunctions.ConvertColumn | source/electrical_heating/src/electrical_heating/domain/pyspark_functions.py:6-33 | a column name that matches no column, or several, is an analysis error; otherwise the result is the frame without that column, followed by the converted column under its own name, and every other column is untouched |
| PysparkFunctions.ConvertColumnShape | source/electrical_heating/src/electrical_heating/domain/pyspark_functions.py:9-17 | selecting the temporary column, dropping the original and renaming the temporary one back gives the frame without the column plus the converted column |
| PysparkFunctions.ConvertUtcToLocaltime | source/electrical_heating/src/electrical_heating/domain/pyspark_functions.py:6-18 | the column is replaced by its UTC-to-local conversion, and every other column is untouched |
| PysparkFunctions.ConvertLocaltimeToUtc | source/electrical_heating/src/electrical_heating/domain/pyspark_functions.py:21-33 | the column is replaced by its local-to-UTC conversion, and every other column is untouched |
| PysparkFunctions.TimestampColumns | source/electrical_heating/src/electrical_heating/domain/pyspark_functions.py:38-42 | exactly the timestamp-typed columns, in schema order |
| PysparkFunctions.GetTimestampColumns | source/electrical_heating/src/electrical_heating/domain/pyspark_functions.py:36-42 | exactly the names of the timestamp-typed columns, in schema order |
| PysparkFunctions.TimestampColumnsDistinct | source/electrical_heating/src/electrical_heating/domain/pyspark_functions.py:36-42 | the timestamp columns of a frame with distinct names have distinct names |
| PysparkFunctions.ConvertTimezone | source/electrical_heating/src/electrical_heating/domain/pyspark_functions.py:45-66 | a frame without timestamp columns comes back unchanged; otherwise every timestamp column is converted exactly once, local-to-UTC when `to_utc` is set and UTC-to-local otherwise, and the other columns are untouched |
| PysparkFunctions.NoTimestampColumns | source/electrical_heating/src/electrical_heating/domain/pyspark_functions.py:53-56 | with no timestamp columns, the converted frame equals the input |
| PysparkFunctions.Partial | source/electrical_heating/src/electrical_heating/domain/pyspark_functions.py:63-64 | the frame after the first i passes of the loop: the columns other than the first i timestamp columns, followed by those columns converted |
| PysparkFunctions.ConvertStep | source/electrical_heating/src/electrical_heating/domain/pyspark_functions.py:63-64 | each pass of the loop converts the next timestamp column and succeeds |
| PysparkFunctions.PartialComplete | source/electrical_heating/src/electrical_heating/domain/pyspark_functions.py:63-66 | after the last pass, the non-timestamp columns are followed by all timestamp columns, each converted |
| PeriodLimits.IsElectricalHeating | source/electrical_heating/src/electrical_heating/domain/calculation.py:56-59 | the child period's type is electrical heating |
| PeriodLimits.ElectricalHeatingChildren | source/electrical_heating/src/electrical_heating/domain/calculation.py:56-59 | exactly the child periods of type electrical heating are kept |
| PeriodLimits.OpenEnd | source/electrical_heating/src/electrical_heating/domain/calculation.py:96-104 | a missing period end reads as 1 January of the year after today, which is after today |
| PeriodLimits.PeriodEnd | source/electrical_heating/src/electrical_heating/domain/calculation.py:96-103 | a given period end is kept; a missing one reads as 1 January of the year after today, which is after today |
| PeriodLimits.OverlapStart | source/electrical_heating/src/electrical_heating/domain/calculation.py:91-94 | the later of the child start and the parent start: not before either, and equal to one of them |
| PeriodLimits.OverlapEnd | source/electrical_heating/src/electrical_heating/domain/calculation.py:95-104 | the earlier of the two period ends, a missing end read as the open end: not after either, and equal to one of them |
| PeriodLimits.OverlapIsIntersection | source/electrical_heating/src/electrical_heating/domain/calculation.py:89-104 | an instant lies in [overlap start, overlap end) exactly when it lies in both the child period and the parent period |
| PeriodLimits.Overlaps | source/electrical_heating/src/electrical_heating/domain/calculation.py:127-130 | the overlap of a child period and a parent period is not empty |
| PeriodLimits.YearStarts | source/electrical_heating/src/electrical_heating/domain/calculation.py:106-115 | the year starts of the years from `first` to `last`, each once |
| PeriodLimits.YearlySequence | source/electrical_heating/src/electrical_heating/domain/calculation.py:106-115 | `F.sequence` by one year fails when start is after stop; otherwise it yields exactly the year starts between them, each once |
| PeriodLimits.YearlySequenceBounds | source/electrical_heating/src/electrical_heating/domain/calculation.py:106-115 | a year start lies between the sequence bounds exactly when its year lies between their years |
| PeriodLimits.SequenceStart | source/electrical_heating/src/electrical_heating/domain/calculation.py:108 | the first year start is 1 January of the parent start year, not after the parent start |
| PeriodLimits.SequenceStop | source/electrical_heating/src/electrical_heating/domain/calculation.py:109-112 | the last year start is 1 January of the parent end year (the open end when missing) |
| PeriodLimits.SequenceLegal | source/electrical_heating/src/electrical_heating/domain/calculation.py:106-130 | for a pair that survives the overlap filter, the sequence bounds are in order, so the sequence cannot fail |
| PeriodLimits.PairRows | source/electrical_heating/src/electrical_heating/domain/calculation.py:70-131 | a pair yields rows exactly when its periods overlap; every row carries the ids, the overlap bounds and both periods with open ends resolved; there is one row for each year of the parent period, each once |
| PeriodLimits.ParentRows | source/electrical_heating/src/electrical_heating/domain/calculation.py:70-77 | the rows of one child are those of its pairs with the periods of its parent; with disjoint parent periods no row appears twice |
| PeriodLimits.ChildParentPairs | source/electrical_heating/src/electrical_heating/domain/calculation.py:70-131 | a row is produced exactly when it comes from an electrical-heating child and a period of its parent; with disjoint child and parent periods no row appears twice |
| PeriodLimits.SharedInstant | source/electrical_heating/src/electrical_heating/domain/calculation.py:89-104 | two pairs whose overlaps share an instant have child periods that intersect and parent periods that intersect |
| PeriodLimits.RowDeterminesParent | source/electrical_heating/src/electrical_heating/domain/calculation.py:89-90 | with disjoint parent periods, a paired row comes from one parent period only |
| PeriodLimits.RowDeterminesChild | source/electrical_heating/src/electrical_heating/domain/calculation.py:89-90 | with disjoint child periods, a paired row comes from one child period only |
| PeriodLimits.ClipToYear | source/electrical_heating/src/electrical_heating/domain/calculation.py:141-152 | only the consumption start and end of the row change; for a row whose year column is a year start, the clipped start lies in that year |
| PeriodLimits.ClipIsIntersection | source/electrical_heating/src/electrical_heating/domain/calculation.py:133-153 | the clipped piece is the intersection of the parent period with the row's calendar year, lies within [1 Jan Y, 1 Jan Y+1] and starts in year Y |
| PeriodLimits.ClipStart | source/electrical_heating/src/electrical_heating/domain/calculation.py:141-146 | the clipped start is the later of the start and 1 January of the row's year |
| PeriodLimits.ClipEnd | source/electrical_heating/src/electrical_heating/domain/calculation.py:147-152 | the clipped end is the earlier of the end and 1 January of the next year |
| PeriodLimits.PeriodConsumptionLimit | source/electrical_heating/src/electrical_heating/domain/calculation.py:155-164 | the limit of a piece whose start is not after its end is non-negative for a non-negative yearly limit |
| PeriodLimits.ProRata | source/electrical_heating/src/electrical_heating/domain/calculation.py:157-162 | `days` days' share of a yearly amount over a year of the given length |
| PeriodLimits.ProRataWhole | source/electrical_heating/src/electrical_heating/domain/calculation.py:157-162 | all days of a year give the whole yearly amount |
| PeriodLimits.ProRataMonotone | source/electrical_heating/src/electrical_heating/domain/calculation.py:157-162 | more days never give a smaller share |
| PeriodLimits.FullYearLimit | source/electrical_heating/src/electrical_heating/domain/calculation.py:155-164 | a piece covering a whole calendar year gets exactly the yearly limit |
| PeriodLimits.LimitMonotone | source/electrical_heating/src/electrical_heating/domain/calculation.py:155-164 | the limit of a piece grows with its end |
| PeriodLimits.LimitBounds | source/electrical_heating/src/electrical_heating/domain/calculation.py:155-164 | the limit of a piece inside one year lies between zero and the yearly limit |
| PeriodLimits.LimitOf | source/electrical_heating/src/electrical_heating/domain/calculation.py:133-164 | a limit row carries its paired row clipped to the year |
| PeriodLimits.PeriodLimits | source/electrical_heating/src/electrical_heating/domain/calculation.py:155-164 | the limit rows are exactly the clipped yearly pieces of the paired rows, each with its limit |
| PeriodLimits.LimitsOfOwnPieces | source/electrical_heating/src/electrical_heating/domain/calculation.py:155-164 | every limit row carries the limit of its own clipped piece, a function of the piece's start and end only |
| PeriodLimits.PeriodLimitsFacts | source/electrical_heating/src/electrical_heating/domain/calculation.py:70-164 | every limit row comes from an electrical-heating child overlapping a period of its parent; it carries that overlap; its piece lies within one calendar year and starts in it; its limit is between zero and the yearly limit |
| PeriodLimits.PairLimitFacts | source/electrical_heating/src/electrical_heating/domain/calculation.py:106-164 | every yearly row of a pair gives a well-formed limit row, and the pair overlaps |
| PeriodLimits.LimitOfYearPiece | source/electrical_heating/src/electrical_heating/domain/calculation.py:141-164 | a row whose year lies within its consumption period gives a well-formed limit row |
| PeriodLimits.PairRowPerChildYearInstant | source/electrical_heating/src/electrical_heating/domain/calculation.py:89-90 | with disjoint child and parent periods, two paired rows of one child and one year that both cover an instant are the same row |
| PeriodLimits.PairRowsOnePerChildYear | source/electrical_heating/src/electrical_heating/domain/calculation.py:89-90 | the same for two rows whose overlaps intersect |
| PeriodLimits.LimitRowOrigin | source/electrical_heating/src/electrical_heating/domain/calculation.py:133-164 | every limit row has a paired row with the same child, overlap and year |
| PeriodLimits.PeriodLimitsDistinct | source/electrical_heating/src/electrical_heating/domain/calculation.py:70-164 | with disjoint child and parent periods, no limit row is produced twice |
| PeriodLimits.PeriodLimitsOnePerChildYear | source/electrical_heating/src/electrical_heating/domain/calculation.py:89-90 | with disjoint child and parent periods, two limit rows of one child and one year whose overlaps intersect are the same row |
| DailyConsumption.DateOf | source/electrical_heating/src/electrical_heating/domain/calculation.py:168-171 | the day of a reading: `date_trunc("day")` of its observation time |
| DailyConsumption.KeyOf | source/electrical_heating/src/electrical_heating/domain/calculation.py:174-177 | the daily window's key of a reading: its metering point and day |
| DailyConsumption.DailyTotal | source/electrical_heating/src/electrical_heating/domain/calculation.py:179-182 | the sum of the quantities of all readings with a given key, as `F.sum` over the daily window |
| DailyConsumption.DailyRowOf | source/electrical_heating/src/electrical_heating/domain/calculation.py:179-182 | the daily row of a (metering point, day) key carries that key, and its total is not negative when no reading is |
| DailyConsumption.DailyConsumption | source/electrical_heating/src/electrical_heating/domain/calculation.py:168-183 | after `drop_duplicates` no daily row appears twice |
| DailyConsumption.DailyConsumptionByKey | source/electrical_heating/src/electrical_heating/domain/calculation.py:174-183 | there is one daily row per distinct (metering point, day) key, carrying that key's total |
| DailyConsumption.DailyConsumptionKeys | source/electrical_heating/src/electrical_heating/domain/calculation.py:168-183 | each daily row's quantity is the sum of its points on that day; every point's day has a row; no two rows share metering point and day |
| DailyConsumption.DailyTotalNonNegative | source/electrical_heating/src/electrical_heating/domain/calculation.py:182 | non-negative quantities give a non-negative daily total |
| DailyConsumption.DailyConsumptionConserves | source/electrical_heating/src/electrical_heating/domain/calculation.py:168-183 | the daily rows sum to the total of all points: nothing is lost or counted twice |
| DailyConsumption.SumOfDailyRows | source/electrical_heating/src/electrical_heating/domain/calculation.py:179-182 | summing the rows built from a list of keys equals summing the keys' totals |
| DailyConsumption.IdsOf | source/electrical_heating/src/electrical_heating/domain/calculation.py:185-188 | the (child id, parent id) pair of a child period |
| DailyConsumption.UniqueChildParentIds | source/electrical_heating/src/electrical_heating/domain/calculation.py:185-188 | every (child, parent) id pair of the children, each once |
| DailyConsumption.TagRow | source/electrical_heating/src/electrical_heating/domain/calculation.py:190-204 | the left join: a parent's day is repeated once per child id of that parent, and a day of a metering point that is nobody's parent is kept once without a child |
| DailyConsumption.TagWithChildren | source/electrical_heating/src/electrical_heating/domain/calculation.py:190-204 | the tagged rows are exactly the tags of the daily rows; no row appears twice |
| DailyConsumption.Consumption | source/electrical_heating/src/electrical_heating/domain/calculation.py:205-207 | exactly the tagged rows that have a child |
| DailyConsumption.Untag | source/electrical_heating/src/electrical_heating/domain/calculation.py:212-216 | a tagged row without its child column |
| DailyConsumption.PreviouslyCalculated | source/electrical_heating/src/electrical_heating/domain/calculation.py:209-217 | exactly the untagged rows, without the tag column |
| DailyConsumption.TaggingSplitsDaily | source/electrical_heating/src/electrical_heating/domain/calculation.py:190-217 | the previous values are exactly the days of metering points that are nobody's parent, and every parent day appears in the consumption with each of its children |
| DailyConsumption.PreviousMatches | source/electrical_heating/src/electrical_heating/domain/calculation.py:223-229 | the condition of the join to the earlier values: the tag is the earlier row's metering point, on the same day |
| DailyConsumption.JoinPreviousRow | source/electrical_heating/src/electrical_heating/domain/calculation.py:219-238 | the left join of one row: it carries the child's earlier value for that day when one exists, and nothing otherwise |
| DailyConsumption.JoinPrevious | source/electrical_heating/src/electrical_heating/domain/calculation.py:219-238 | the join is the union of the per-row joins; with one previous value per metering point and day, no row appears twice |
| DailyConsumption.JoinPreviousRowSingle | source/electrical_heating/src/electrical_heating/domain/calculation.py:219-231 | with one previous value per metering point and day, each consumption row is joined to exactly one row |
| Capping.CoversDate | source/electrical_heating/src/electrical_heating/domain/calculation.py:249-262 | the day lies in the limit row's overlap and in the limit row's calendar year |
| Capping.MatchesAsWritten | source/electrical_heating/src/electrical_heating/domain/calculation.py:241-262 | the join condition as written: the consumption row is the parent's, and the limit row covers its day |
| Capping.Matches | source/electrical_heating/src/electrical_heating/domain/calculation.py:241-262 | the corrected join condition: also, the consumption row is tagged with the limit row's child |
| Capping.JoinedOf | source/electrical_heating/src/electrical_heating/domain/calculation.py:263-275 | the joined row: the piece bounds, child id and limit of the limit row, with the day, quantity and earlier value of the consumption row |
| Capping.MatchingLimits | source/electrical_heating/src/electrical_heating/domain/calculation.py:241-262 | the limit rows one consumption row joins with, each once |
| Capping.JoinWith | source/electrical_heating/src/electrical_heating/domain/calculation.py:241-276 | the inner join: exactly the combinations of a consumption row and a matching limit row |
| Capping.JoinMeteringPointsAsWritten | source/electrical_heating/src/electrical_heating/domain/calculation.py:241-276 | a row is joined exactly when it combines a consumption row with a limit row of the same parent covering its day |
| Capping.CorrectedJoinWithinAsWritten | source/electrical_heating/src/electrical_heating/domain/calculation.py:241-276 | every row of the corrected join is also a row of the join as written |
| Capping.JoinMeteringPoints | source/electrical_heating/src/electrical_heating/domain/calculation.py:241-276 | the join on the parent id and the child id: exactly the limit rows of the row's own child that cover its day |
| Capping.JoinOneRowPerChildDay | source/electrical_heating/src/electrical_heating/domain/calculation.py:241-276 | with one consumption row per parent, child and day, and one limit row per child and day, the join holds each child and day at most once |
| Capping.MatchingAtMostOne | source/electrical_heating/src/electrical_heating/domain/calculation.py:241-262 | with one limit row per child and day, a consumption row matches at most one limit row |
| Capping.CrossKeys | source/electrical_heating/src/electrical_heating/domain/calculation.py:241-276 | the row one consumption row joins to differs in child or day from the rows of all other consumption rows |
| Capping.OneRowPerChildDayAppend | source/electrical_heating/src/electrical_heating/domain/calculation.py:241-276 | adding at most one row with a new child and day keeps one row per child and day |
| Capping.SamePartition | source/electrical_heating/src/electrical_heating/domain/calculation.py:279-283 | two joined rows share child id, piece start and piece end, the key of `period_window` |
| Capping.NotAfter | source/electrical_heating/src/electrical_heating/domain/calculation.py:284-285 | the window order: an earlier day comes first, and rows of the same day come in input order |
| Capping.WithCumulative | source/electrical_heating/src/electrical_heating/domain/calculation.py:288-294 | a joined row with its running sum and the columns `period_consumption` selects |
| Capping.PeriodConsumption | source/electrical_heating/src/electrical_heating/domain/calculation.py:278-295 | each joined row with its running sum, duplicates dropped |
| Capping.RunningSumBelow | source/electrical_heating/src/electrical_heating/domain/calculation.py:278-289 | the quantities of the first n rows of the table that are in row i's partition and not after it in the window order (rows of one day in input order) |
| Capping.CumulativeQuantity | source/electrical_heating/src/electrical_heating/domain/calculation.py:288-289 | the running sum of row i: `RunningSumBelow` over the whole table |
| Capping.PartitionOf | source/electrical_heating/src/electrical_heating/domain/calculation.py:278-283 | exactly the rows of the table in k's partition: the same child, piece start and piece end |
| Capping.RunningSumBelowIsPartitionTotal | source/electrical_heating/src/electrical_heating/domain/calculation.py:278-289 | when no two rows of a partition share a day, the running sum over the first n rows of the table is what those rows add to row i's partition up to its day |
| Capping.CumulativeIsPartitionTotal | source/electrical_heating/src/electrical_heating/domain/calculation.py:278-289 | when no two rows of a partition share a day, a row's running sum, on a table mixing partitions in any order, is the consumption of its own partition up to and including its day |
| Capping.RoundBetween | source/electrical_heating/src/electrical_heating/domain/calculation.py:315 | rounding half up to thousandths lies between the integers around the value |
| Capping.RoundShift | source/electrical_heating/src/electrical_heating/domain/calculation.py:315 | rounding commutes with adding whole thousandths |
| Capping.RoundInt | source/electrical_heating/src/electrical_heating/domain/calculation.py:315 | a whole number of thousandths is unchanged by the cast |
| Capping.RoundHalfUp | source/electrical_heating/src/electrical_heating/domain/calculation.py:315 | the cast to three decimals, in thousandths: the nearest integer, halves rounded away from zero |
| Capping.CappedValue | source/electrical_heating/src/electrical_heating/domain/calculation.py:298-314 | for a non-negative quantity, the value of the `F.when` chain lies between zero and the quantity |
| Capping.CappedQuantity | source/electrical_heating/src/electrical_heating/domain/calculation.py:298-316 | the `F.when` value cast to thousandths; what it means is stated by `CappedIsHeadroomUsed` and `CappedBounds` |
| Capping.CappedIsHeadroomUsed | source/electrical_heating/src/electrical_heating/domain/calculation.py:297-316 | the capped quantity of a day is the part of the (rounded) limit that this day's consumption uses up |
| Capping.CappedBounds | source/electrical_heating/src/electrical_heating/domain/calculation.py:297-316 | a capped day lies between zero and the day's own quantity |
| Capping.CapRow | source/electrical_heating/src/electrical_heating/domain/calculation.py:297-321 | a running-sum row with its quantity replaced by the capped quantity and the other columns kept; its bounds are `Calculation.CapRowBounds` |
| Capping.PeriodConsumptionWithLimit | source/electrical_heating/src/electrical_heating/domain/calculation.py:297-322 | every row capped, each once |
| Capping.CappedWithinTotal | source/electrical_heating/src/electrical_heating/domain/calculation.py:297-316 | the capped values of a partition with non-negative quantities and no two rows on one day sum to the smaller of its consumption and its rounded limit, whatever order its rows are in |
| Capping.WindowCapsWithinPartition | source/electrical_heating/src/electrical_heating/domain/calculation.py:288-316 | the capping of a row's running sum is `WindowCapped`: its own partition's consumption up to its day, capped at its limit |
| Capping.PartitionCappingTotal | source/electrical_heating/src/electrical_heating/domain/calculation.py:278-322 | on a whole joined table with no two rows of a partition on one day: the capped values of each partition whose rows are non-negative and share one limit sum to the smaller of its consumption and its rounded limit |
| Capping.PeriodConsumptionKeepsEveryRow | source/electrical_heating/src/electrical_heating/domain/calculation.py:288-295 | with one row per child and day, `drop_duplicates` keeps every row: row i of the result is joined row i with its running sum |
| Capping.CappingKeepsEveryRow | source/electrical_heating/src/electrical_heating/domain/calculation.py:297-322 | rows that differ in child or day all survive the capping's `drop_duplicates`: the result is every row capped, in order |
| Capping.WindowKeepsEveryRow | source/electrical_heating/src/electrical_heating/domain/calculation.py:288-322 | with one row per child and day, the capped table has one row per joined row, row i capped from its running sum, and no partition has two rows on one day |
| Capping.Changed | source/electrical_heating/src/electrical_heating/domain/calculation.py:324-328 | a capped row is kept when there is no earlier value or the earlier value differs |
| Capping.MeasurementOf | source/electrical_heating/src/electrical_heating/domain/calculation.py:329-333 | the child id, date and quantity of a capped row |
| Capping.CompareWithPrevious | source/electrical_heating/src/electrical_heating/domain/calculation.py:324-333 | a capped day is emitted, as child id, date and quantity, exactly when there is no earlier value or the earlier value differs |
| Calculation.LocalChildren | source/electrical_heating/src/electrical_heating/domain/calculation.py:56-65 | exactly the electrical-heating child periods, with both period timestamps converted to local time |
| Calculation.LocalParents | source/electrical_heating/src/electrical_heating/domain/calculation.py:60-62 | the parent periods converted to local time |
| Calculation.LocalPoints | source/electrical_heating/src/electrical_heating/domain/calculation.py:66 | every point, with its observation time converted to local time |
| Calculation.LocalInstant | source/electrical_heating/src/electrical_heating/domain/calculation.py:60-65 | an optional timestamp converted to local time; a missing one stays missing |
| Calculation.LocalChildPeriod | source/electrical_heating/src/electrical_heating/domain/calculation.py:63-65 | a child period with both period timestamps converted to local time |
| Calculation.LocalConsumptionPeriod | source/electrical_heating/src/electrical_heating/domain/calculation.py:60-62 | a parent period with both period timestamps converted to local time |
| Calculation.LocalPoint | source/electrical_heating/src/electrical_heating/domain/calculation.py:66 | a reading with its observation time converted to local time |
| Calculation.UtcMeasurement | source/electrical_heating/src/electrical_heating/domain/calculation.py:335-337 | a result row with its date converted from local time to UTC; the other columns are kept |
| Calculation.ConsumptionRows | source/electrical_heating/src/electrical_heating/domain/calculation.py:185-238 | the tagged daily consumption joined to the earlier values; what its rows are is stated by `ConsumptionRowOrigin`, `ConsumptionRowsTagEveryChild` and `ConsumptionRowsOnePerKey` |
| Calculation.CappedMeasurements | source/electrical_heating/src/electrical_heating/domain/calculation.py:278-333 | the window, the capping and the change filter; what they emit is stated by `CappedMeasurementOrigin`, `CappedMeasurementsOnePerChildDay` and `LocalCappedTable` |
| Calculation.JoinedRowsAsWritten | source/electrical_heating/src/electrical_heating/domain/calculation.py:56-276 | the join as written on the local clock; its rows are described by `JoinedRowOrigin` |
| Calculation.JoinedRows | source/electrical_heating/src/electrical_heating/domain/calculation.py:56-276 | the corrected join on the local clock; its rows are described by `JoinedRowOrigin`, `JoinedRowsOnePerChildDay` and `JoinedRowsPriced` |
| Calculation.LocalMeasurementsAsWritten | source/electrical_heating/src/electrical_heating/domain/calculation.py:56-333 | the calculation on the local clock with the join as written; stated by `LocalMeasurementOrigin` |
| Calculation.LocalMeasurements | source/electrical_heating/src/electrical_heating/domain/calculation.py:56-333 | the calculation on the local clock with the corrected join; stated by `LocalMeasurementOrigin`, `LocalMeasurementsOnePerChildDay` and `LocalCappingTotal` |
| Calculation.ExecuteCoreLogicAsWritten | source/electrical_heating/src/electrical_heating/domain/calculation.py:50-339 | the calculation with the join as written: one output row per measurement computed on the local clock |
| Calculation.ExecuteCoreLogic | source/electrical_heating/src/electrical_heating/domain/calculation.py:50-339 | the calculation with the corrected join: one output row per measurement computed on the local clock |
| Calculation.ConsumptionRowOrigin | source/electrical_heating/src/electrical_heating/domain/calculation.py:185-238 | every consumption row is tagged with a child of its metering point and carries that metering point's total for the day |
| Calculation.ConsumptionRowsTagEveryChild | source/electrical_heating/src/electrical_heating/domain/calculation.py:190-207 | every daily row of a parent reaches the consumption once for each of its children |
| Calculation.ConsumptionRowsOnePerKey | source/electrical_heating/src/electrical_heating/domain/calculation.py:179-238 | the consumption holds at most one row per parent, child and day |
| Calculation.CappedMeasurementOrigin | source/electrical_heating/src/electrical_heating/domain/calculation.py:278-333 | every emitted value is the capped value of a joined row whose earlier value differs, and lies between zero and that row's quantity |
| Calculation.CapRowBounds | source/electrical_heating/src/electrical_heating/domain/calculation.py:297-316 | a capped row lies between zero and its quantity |
| Calculation.LimitRowOrigin | source/electrical_heating/src/electrical_heating/domain/calculation.py:56-164 | every instant of a limit row's overlap lies in a local electrical-heating child period and a local period of its parent, and the limit is non-negative |
| Calculation.LocalPairOverlap | source/electrical_heating/src/electrical_heating/domain/calculation.py:70-104 | an instant in the overlap of a local child period and a local period of its parent lies in that child's overlap with its parent |
| Calculation.LimitsFromChildrenHolds | source/electrical_heating/src/electrical_heating/domain/calculation.py:56-164 | every limit row the pipeline computes satisfies the above |
| Calculation.DailyTotalsHold | source/electrical_heating/src/electrical_heating/domain/calculation.py:168-238 | every consumption row carries the day's total and falls on midnight |
| Calculation.JoinedRowOrigin | source/electrical_heating/src/electrical_heating/domain/calculation.py:241-276 | every row of the join as written (and so of the corrected join) is a child's midnight inside a child/parent overlap, carrying the parent's total for that day, which is non-negative for non-negative readings, and a non-negative limit |
| Calculation.MeasurementOrigin | source/electrical_heating/src/electrical_heating/domain/calculation.py:241-333 | every capped measurement of rows drawn from the join as written is a child's midnight inside a child/parent overlap, between zero and the parent's total for that day |
| Calculation.LocalMeasurementOrigin | source/electrical_heating/src/electrical_heating/domain/calculation.py:50-333 | the same for the measurements on the local clock, with either join |
| Calculation.ExecuteCoreLogicOrigin | source/electrical_heating/src/electrical_heating/domain/calculation.py:50-339 | every measurement emitted with either join names an electrical-heating child; its date is the UTC form of a local midnight inside an overlap of one of the child's periods with a period of its parent; its quantity lies between zero and the parent's total for that local day |
| Calculation.CappedMeasurementsOnePerChildDay | source/electrical_heating/src/electrical_heating/domain/calculation.py:278-333 | joined rows with one row per child and day give measurements with one value per child and day |
| Calculation.CoveringLimitsMeet | source/electrical_heating/src/electrical_heating/domain/calculation.py:249-262 | two limit rows covering the same day are for the same year, and their overlaps intersect |
| Calculation.PeriodLimitsOnePerChildDay | source/electrical_heating/src/electrical_heating/domain/calculation.py:89-90 | with disjoint child and parent periods, at most one limit row of a child covers any day |
| Calculation.LocalMeasurementsOnePerChildDay | source/electrical_heating/src/electrical_heating/domain/calculation.py:50-333 | with disjoint local child and parent periods, the corrected calculation emits at most one value per child and day |
| Calculation.JoinedRowsOnePerChildDay | source/electrical_heating/src/electrical_heating/domain/calculation.py:241-276 | with no two periods of a child and no two periods of a parent overlapping, the corrected join holds each child and day at most once |
| Calculation.JoinedLimitOfPiece | source/electrical_heating/src/electrical_heating/domain/calculation.py:263-271 | when every limit row carries its own piece's limit, so does every joined row: rows of one window partition share one limit |
| Calculation.JoinPriced | source/electrical_heating/src/electrical_heating/domain/calculation.py:241-276 | with non-negative readings, every row of either join has a non-negative quantity and the non-negative limit of its own piece |
| Calculation.JoinedRowsPriced | source/electrical_heating/src/electrical_heating/domain/calculation.py:56-276 | the same for the calculation's corrected join on the local clock |
| Calculation.LocalCappedTable | source/electrical_heating/src/electrical_heating/domain/calculation.py:278-322 | under the non-overlap conditions, the capped table of the calculation has one row per joined row, with its child and day and the value `WindowCapped` gives it |
| Calculation.PricedPartitionCapping | source/electrical_heating/src/electrical_heating/domain/calculation.py:278-322 | on priced rows with one row per child and day, every window partition's capped values sum to the smaller of its consumption and its rounded limit |
| Calculation.LocalCappingTotal | source/electrical_heating/src/electrical_heating/domain/calculation.py:50-322 | with the corrected join, non-negative readings and the non-overlap conditions, every window partition (one child's yearly piece) of the calculation's joined table has capped values summing to the smaller of the piece's consumption and its rounded limit |
| Calculation.JoinOnParentIdDoubleCounts | source/electrical_heating/src/electrical_heating/domain/calculation.py:190-248 | for a parent P with two electrical-heating children C1 and C2, the join as written gives C1's limit row the parent's day twice, once per child tag |
| Calculation.JoinOnBothIdsCountsOnce | source/electrical_heating/src/electrical_heating/domain/calculation.py:190-248 | on the same input, the join on both ids gives C1 the day once |
| Calculation.ExampleCaps | source/electrical_heating/src/electrical_heating/domain/calculation.py:297-316 | a day of 5.000 against a limit of 8.000 keeps 5.000 when it comes first and 3.000 when it follows itself |
| Calculation.CapTwoNewRows | source/electrical_heating/src/electrical_heating/domain/calculation.py:297-333 | two rows that cap to different values and have no earlier value are both emitted |
| Calculation.RepeatedRowWindow | source/electrical_heating/src/electrical_heating/domain/calculation.py:278-289 | a day that appears twice in a partition is summed twice by the running sum |
| Calculation.TwiceCountedDay | source/electrical_heating/src/electrical_heating/domain/calculation.py:278-333 | for the example's day counted twice (5.000 kWh against a limit of 8.000 kWh), two values are emitted for the same child and day: 5.000 and 3.000 |
| Calculation.OnceCountedDay | source/electrical_heating/src/electrical_heating/domain/calculation.py:278-333 | with the day counted once, the single value 5.000 is emitted |

## Left out

- Spark's execution engine is not modelled: distribution, lazy evaluation, the physical
  joins, and `drop_duplicates` as an operator. Tables are sequences, and a join or window
  is stated by what rows it yields. The order of rows in a result carries no meaning.
- Time zones are not modelled beyond an abstract conversion. `from_utc_timestamp` and
  `to_utc_timestamp` depend on the tz database, so a time zone is a pair of functions on
  instants, `fromUtc` and `toUtc`. No property of the pair (such as a round trip) is
  assumed.
- `convert_from_utc` and `convert_to_utc` are imported by `calculation.py` but are not
  defined in `pyspark_functions.py`. They are modelled as `convert_timezone` in either
  direction, applied to the timestamp fields of the typed records.
- The docstring of `get_timestamp_columns` says timestamp and date columns, but the code
  selects only `TimestampType`. The model follows the code.
- `F.current_date()` is the parameter `today`.
- The constants module is not part of this model. `ELECTRICAL_HEATING_LIMIT_YEARLY` is
  the parameter `yearlyLimit`, in thousandths of a kWh.
- The electrical-heating type tag is the string `"electrical_heating"`. Line 58 compares
  with `em.MeteringPointType.ELECTRICAL_HEATING.value` and line 81 with
  `ELECTRICAL_HEATING_METERING_POINT_TYPE`. The model reads both as that one string. The
  second filter (lines 78-83) then keeps every row the first one kept, so it is left out.
- PysparkFunctions.ColumnsNamed, PysparkFunctions.Drop and PysparkFunctions.WithColumnRenamed
  compare column names exactly. Spark resolves column names case-insensitively by default.
- Floating point is not modelled. The limit of a yearly piece is an exact rational,
  where Spark divides in double precision; the quantity cast to `DecimalType(38,3)`
  rounds half up to thousandths.
- Capping.PeriodConsumption: rows of one child and period with the same date are summed
  in input order. Spark's `orderBy(date)` leaves their order open. With the corrected
  join there is at most one row per child and day, so no tie occurs.
- PeriodLimits.YearlySequence: the failure of `F.sequence` for a start after its stop
  only arises for pairs that the overlap filter discards (`PeriodLimits.SequenceLegal`).
  The model pairs only overlapping periods, which is the filter pushed below the explode.
- Calculation.ExecuteCoreLogic: its own contract only gives the size of the result. What
  the rows mean is stated by `Calculation.ExecuteCoreLogicOrigin`,
  `Calculation.LocalMeasurementsOnePerChildDay`, `Calculation.LocalCappedTable` and
  `Calculation.LocalCappingTotal`.
- Calculation.ExecuteCoreLogicAsWritten: its own contract only gives the size of the
  result. Where its rows come from is stated by `Calculation.ExecuteCoreLogicOrigin`.
  Its behaviour on the double-counting input is stated by the Findings lemmas.
- Calculation.LocalCappingTotal is stated for the corrected join only. With the join as
  written, a partition can hold one day twice (see Findings), and the running sum then
  counts that day twice.
- Calculation.LocalMeasurementsOnePerChildDay, Calculation.JoinedRowsOnePerChildDay,
  Calculation.LocalCappedTable and Calculation.LocalCappingTotal rest on conditions that
  this model assumes:
  - no two periods of one electrical-heating child overlap;
  - no two periods of one parent overlap;
  - no period row is listed twice.

  The source does not state these conditions. Its comment at lines 89-90 assumes only one
  overlap between a child period and a parent period. The conditions are stated on the
  periods after conversion to local time.
- Frames are modelled at the record level once converted. The column order that the
  converters leave behind is modelled by `PysparkFunctions.ConvertTimezone` but plays
  no part in the calculation.

## Findings

| source | as written | input that shows it | evidently intended | confidence | as-written member | corrected member |
|---|---|---|---|---|---|---|
| source/electrical_heating/src/electrical_heating/domain/calculation.py:241-248 | the consumption rows are joined to the limit rows on the parent id alone; lines 190-204 repeat each parent day once per electrical-heating child id of that parent, and lines 232-237 drop the child id | parent P with children C1 and C2 (both electrical heating, e.g. one replaced by the other), one day of 5.000 kWh on P, and C1's limit row of 8.000 kWh covering that day: C1's partition sees the day twice and emits two values for the same day, 5.000 and 3.000 | each parent day joins only to the limit rows of the child it was tagged with, so C1 gets the day once, with the single value 5.000 | medium; not executed | Capping.JoinMeteringPointsAsWritten, Calculation.JoinOnParentIdDoubleCounts, Calculation.TwiceCountedDay | Capping.JoinMeteringPoints, Calculation.JoinOnBothIdsCountsOnce, Calculation.OnceCountedDay, Capping.JoinOneRowPerChildDay, Calculation.JoinedRowsOnePerChildDay, Calculation.LocalMeasurementsOnePerChildDay, Calculation.LocalCappingTotal |
