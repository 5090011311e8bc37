# vincit core in Dafny

A model of the core of vincit, a command-line tool that takes a coin and a date range and
fetches that coin's market history from a web API. It turns the samples it receives into one
price, volume and market cap per calendar day, and runs three analyses over that daily
series:

- the longest run of falling prices;
- the day of highest trading volume;
- a day to buy and a day to sell.

The model covers two C files.

- `timedate.c` — the calendar arithmetic. The `Calendar` module models the leap-year
  rule, the `days_in_month` table, the day count and Unix timestamp of a date
  (`get_timestamp`, with its 32-bit arithmetic), and the decoding of a day count back
  into a date (`add_days_to_date`). It also models the validity check against the data
  floor 2013-04-28 (`is_valid_date`) and the inclusive day count between two dates
  (`days_between`).
- `main.c` — the series builder and the analyses.
  - `Series` models `process_json_data` as a class `DailySeries` over the four arrays of
    `data_t`. It covers the key routing by `strcmp`, the 1:1 copy of daily data, the
    bucketing of sub-daily data and the shrink of `num_entries`. `Series` also holds the
    granularity classification in `main`.
  - `Bucketing` states on values which sample each day gets, both as the scan the program
    performs and as a description without the scan, and proves that the two agree.
  - `Trends` models `exercise_a`, `exercise_b` and `exercise_c` as written, each against a
    predicate that says exactly what it reports. Beside each stands the analysis as
    evidently intended, proved against its own predicate.
- `CSemantics` holds the pieces of C the model relies on:
  - unsigned wrap-around as reductions modulo 2^8, 2^16 and 2^32;
  - C99 truncating division;
  - `strcmp`.

Prices, volumes and market caps are C doubles. They are modelled as `real`, because only
comparison and subtraction are applied to them.

## Model

| member | source | states |
|---|---|---|
| CSemantics.TruncDiv | main.c:396 | C99 `/`: the remainder lies in [0, b) for a non-negative dividend and in (-b, 0] for a negative one |
| CSemantics.Strcmp | main.c:360-365 | strcmp, reading past the end of a string as its NUL terminator: a string always compares equal to itself |
| CSemantics.StrcmpZeroIffEqual | main.c:360-365 | for strings without NUL, strcmp returns 0 exactly when the strings are equal |
| Calendar.DaysInMonthTable | timedate.c:7 | the `days_in_month` table: every month has 28 to 31 days |
| Calendar.YearLength | timedate.c:28 | a year has 365 days, or 366 in a leap year |
| Calendar.IsLeapYear | timedate.c:60-71 | a year is a leap year iff divisible by 4 and not by 100, unless divisible by 400 |
| Calendar.LeapYearExamples | timedate.c:60-71 | 2000, 2012 and 2024 are leap years; 1900, 2023 and 2100 are not |
| Calendar.DaysBeforeMonthTotals | timedate.c:7 | the table sums to 334 days before December and 365 days in all |
| Calendar.MonthStep | timedate.c:7 | one month further adds that month's real length (29 for a leap February) to the day count |
| Calendar.DaysLeftCoversMonth | timedate.c:7 | the months of a year fill it: each month fits in what is left of its year |
| Calendar.DayCount | timedate.c:112-126 | the day count get_timestamp sums is not negative for a date whose day is at least 1 |
| Calendar.Timestamp | timedate.c:112-132 | the timestamp is the day count × 86400 computed in uint32_t, so it lies below 2^32 |
| Calendar.AddMonths | timedate.c:119-123 | the month loop adds the table's lengths of the months before the date's month to the wrapped counter |
| Calendar.GetTimestamp | timedate.c:111-137 | the loops over years and months, in a uint32_t counter, yield (day count × 86400) mod 2^32 |
| Calendar.TimestampTail | timedate.c:124-132 | adding the day, the conditional leap day and the scaling to the wrapped counter gives the timestamp of the date |
| Calendar.TimestampUnwrapped | timedate.c:132 | below 49710 days the product does not wrap: the timestamp is the day count × 86400 |
| Calendar.EpochIsZero | timedate.c:111-137 | 1970-01-01 has timestamp 0 |
| Calendar.Next | timedate.c:111-137 | the next calendar date stays in its year or is 1 January of the next |
| Calendar.Successor | timedate.c:111-137 | the next date (the next day, the 1st of the next month, 1 March after 29 February, 1 January of the next year) is a calendar date whose day count is one more |
| Calendar.ConsecutiveDatesDifferByOneDay | timedate.c:111-137 | the next calendar date's timestamp is exactly 86400 seconds later, below the wrap-around |
| Calendar.DayCountInYear | timedate.c:111-137 | the day count of a calendar date lies inside its own year |
| Calendar.CalendarDateDayCountNonNegative | timedate.c:111-137 | a calendar date's day count is not negative |
| Calendar.DaysBeforeYearOrdered | timedate.c:115-117 | whole years are laid end to end in the day count |
| Calendar.DaysBeforeMonthOrdered | timedate.c:119-123 | months within a year are laid end to end in the day count |
| Calendar.DaysBeforeYearBound | timedate.c:115-117 | the day count of a year start grows by at most 366 a year |
| Calendar.DayCountInjective | timedate.c:111-137 | two calendar dates with the same day count are the same date |
| Calendar.IsValidDate | timedate.c:73-109 | the date is accepted iff it is 29 February of a leap year, or its day lies in its month and it is not before 2013-04-28 |
| Calendar.ValidDateShape | timedate.c:73-109 | an accepted date has a day within its month and a non-negative day count |
| Calendar.ValidDateExamples | timedate.c:76-97 | the leap-day rule, the floor 2013-04-28 and out-of-range days on concrete dates, including the accepted 2012-02-29 |
| Calendar.DaysBetween | timedate.c:139-155 | 0 for an invalid date, otherwise 1 + (ts(end) − ts(begin) + 1) / 86400 with truncation, in uint32_t |
| Calendar.InclusiveCount | timedate.c:150 | for two day counts in order below the wrap, 1 + (difference of their timestamps + 1) / 86400 in uint32_t is 1 + their difference |
| Calendar.TruncDivWholeDays | timedate.c:150 | whole days plus one second, divided with truncation, give back the days (one more for a negative count) |
| Calendar.DaysBetweenInclusive | timedate.c:139-155 | for valid dates in order, days_between is 1 + the difference of their day counts |
| Calendar.DaysBetweenReversed | timedate.c:139-155 | an end k days before the begin gives 1, 0 or 2 − k wrapped to uint32_t |
| Calendar.DaysBetweenExamples | timedate.c:139-155 | 2021-01-01 to itself counts 1; to 2021-01-31 counts 31 |
| Calendar.DateRecord.constructor | timedate.c:9 | the output record starts out holding the given date |
| Calendar.AddDaysToDate | timedate.c:9-58 | a missing date returns 0 and leaves the output unchanged; otherwise returns 1 and writes a calendar date whose day count is (offset + ts/86400) mod 2^16; below the wrap its timestamp is the input's plus 86400 × offset, and adding 0 days gives back the date |
| Calendar.YearPeel | timedate.c:28-31 | peeling a whole year keeps the decoding invariant |
| Calendar.MonthPeel | timedate.c:32-44 | peeling a whole month (29 days for a leap February) keeps the decoding invariant and never passes December |
| Calendar.DecodingDone | timedate.c:37-48 | when fewer days remain than the month holds, the decoded date is a calendar date with the target day count |
| Calendar.ShiftedDayCount | timedate.c:21-23 | the day count add_days_to_date decodes is computed in uint16_t, so it lies below 2^16 |
| Calendar.AddDaysFacts | timedate.c:21-23 | the decoded date's timestamp is the input's shifted by whole days, and 0 days gives the same date |
| Calendar.ShiftedDayCountUnwrapped | timedate.c:21-23 | below the wrap, adding n days adds exactly n to the day count |
| Bucketing.Seconds | main.c:396 | a sample's millisecond timestamp divided by 1000 with truncation toward zero keeps its sign and does not grow in magnitude |
| Bucketing.Midnight | main.c:397 | the next day's midnight is the begin timestamp plus the wrapped uint32_t day offset, so it lies in [base, base + 2^32) |
| Bucketing.Overlay | main.c:439-450 | writing a prefix into an array replaces its first slots and keeps the rest |
| Bucketing.PicksFrom | main.c:387-437 | the scan from sample j on picks between 1 and num_entries samples, all within the array |
| Bucketing.PartialBucketingDone | main.c:387-393 | a scan stopped by the end of the array or a full series has chosen a bucketing |
| Bucketing.PartialBucketingPick | main.c:403-432 | a sample that qualifies for the next day extends the partial bucketing |
| Bucketing.PartialBucketingSkip | main.c:403 | a sample that does not qualify keeps it |
| Bucketing.PicksFromIsBucketing | main.c:387-437 | the scan's choice meets the declarative bucketing: day 0 the first sample, each later day the first qualifying sample after the previous day's, or the last sample |
| Bucketing.BucketPicksIsBucketing | main.c:374-437 | the whole sub-daily scan chooses a bucketing |
| Bucketing.BucketingUnique | main.c:374-437 | the bucketing is unique: any two choices meeting it are equal |
| Bucketing.OnlyLastDayMayEnd | main.c:403 | only the last chosen day can hold the last sample |
| Bucketing.NextPickIsFirst | main.c:403 | each day's sample is the first qualifying one after the previous day's |
| Bucketing.BucketingExample | main.c:374-437 | hourly samples from timestamp 0 over four days choose samples 0, 2 and 4 |
| Bucketing.ChooseNext | main.c:410-431 | writing the next day's sample into slot d of both arrays extends their contents by that day |
| Series.ColumnOf | main.c:360-370 | a key routed to a column strcmp-matches that column's name |
| Series.ColumnOfNone | main.c:360-370 | a key ends the processing iff it strcmp-matches none of the three names |
| Series.PricesKey | main.c:360-361 | the key "prices" routes to the price array |
| Series.MarketCapsKey | main.c:362-363 | the key "market_caps" routes to the market cap array |
| Series.TotalVolumesKey | main.c:364-365 | the key "total_volumes" routes to the volume array |
| Series.PricesOnlyByName | main.c:360-361 | for names without NUL, a key routes to the price array iff it is "prices" |
| Series.MarketCapsOnlyByName | main.c:362-363 | for names without NUL, a key routes to the market cap array iff it is "market_caps" |
| Series.TotalVolumesOnlyByName | main.c:364-365 | for names without NUL, a key routes to the volume array iff it is "total_volumes" |
| Series.Picks | main.c:374-450 | the samples a column gets all exist; there are at most num_entries of them for sub-daily data and one per sample for daily data |
| Series.KnownPrefixAt | main.c:353-371 | an entry up to the first unknown key comes before it iff its own key is known |
| Series.AllKnownIff | main.c:353-371 | all entries are processed iff every key is known |
| Series.ThroughStep | main.c:353-451 | processing one more known entry writes its chosen samples over its column and the timestamps |
| Series.ShrunkCount | main.c:454-461 | the shrunk count stays below 2^16, and for a non-empty series it lies between 1 and num_entries |
| Series.ShrunkCountIsMin | main.c:454-461 | for a non-empty series the shrink takes the minimum of num_entries and the last array's length; an empty last array changes nothing |
| Series.ShrunkCountFits | main.c:454-461 | the shrunk count still fits the arrays and uint16_t |
| Series.OverlayTwice | main.c:443 | a later, at least as long write of the shared timestamp array hides an earlier one |
| Series.ResponseInApiOrder | main.c:353-452 | for the API's three keys in order, each column holds its own array's chosen samples and the timestamps are those of the total volumes |
| Series.ShrinkCountsSamplesNotDays | main.c:454-461 | three hourly samples on the first of three requested days fill two days, yet num_entries stays 3 |
| Series.ReceivedDays | main.c:454-461 | the intended shrink: at most num_entries and at most the number of days the last array filled, and equal to one of them |
| Series.ReceivedDaysAgrees | main.c:454-461 | for daily data the intended shrink is the program's; for sub-daily data it is the number of days bucketed |
| Series.InsufficientDailyData | main.c:454-461 | 5 requested days with 3 samples shrink to 3; with 7 samples the count stays at 5 |
| Series.DailySeries.constructor | main.c:523-526 | the four arrays are allocated with num_entries slots each |
| Series.DailySeries.FillColumn | main.c:360-450 | one known key fills its column and the timestamps with its chosen samples, bucketed or 1:1 |
| Series.DailySeries.FillEntry | main.c:353-451 | one pass of the entry loop for a known key extends the contents by that entry |
| Series.DailySeries.FillEntries | main.c:353-452 | the loop fills the entries in order up to the first unknown key; the array length is that of the last entry filled |
| Series.DailySeries.ShrinkToReceived | main.c:454-461 | num_entries becomes the shrunk count, with the uint32_t and uint16_t conversions |
| Series.DailySeries.ProcessJsonData | main.c:329-464 | returns 0 iff every key is known, otherwise 1; the arrays hold the entries processed in order; num_entries is shrunk to the last array only when 0 is returned |
| Series.FillBucketed | main.c:374-437 | the sub-daily branch writes exactly the bucketing's chosen values and timestamps into the first days |
| Series.FillDaily | main.c:439-450 | the daily branch writes sample j into day j of both arrays |
| Series.Classify | main.c:548-604 | under 100 bytes nothing is classified; otherwise daily iff size mod 2^32 < 200 × days, and 5-minute iff it is ≥ 3000 × days |
| Series.NotDailyData | main.c:592-604 | not_daily_data is set iff the classification is hourly or 5-minute |
| Series.ClassifyMonotone | main.c:592-604 | a larger response for the same days is never classified as coarser |
| Series.ClassifyExamples | main.c:584-604 | about 100 bytes a day is daily, 2400 hourly, 14000 5-minute; 99 bytes stops the program |
| Trends.DayToDate | main.c:107-108 | the converted day is a calendar date whose day count is the begin date's shifted by that day |
| Trends.ExerciseA | main.c:75-113 | reports the earliest longest falling run that a non-fall closes (0, 0, 0 when none), with both end days converted to dates |
| Trends.FallingStartsAt | main.c:89-100 | a falling stretch reaching the end of the current run starts inside it |
| Trends.ClosedRunsEndBeforeStart | main.c:89-101 | when the scan ends, every closed run ended before the open one began |
| Trends.DeclineReportUnique | main.c:75-113 | the decline report is determined by the prices |
| Trends.DeclineExample | main.c:75-113 | [10, 9, 8, 12, 11, 10, 9, 8, 7, 9] reports 5 falling days from day 3 to day 8 |
| Trends.DeclineToTheEndIsMissed | main.c:89-101 | [3, 2, 1] falls throughout, yet no decline is reported |
| Trends.LongestDecline | main.c:75-113 | the longest falling stretch, earliest first, including one that reaches the last day |
| Trends.FallingStaysInRun | main.c:89-100 | a falling stretch reaching into the current run lies inside it |
| Trends.LongestDeclineOfFallingSeries | main.c:75-113 | the corrected scan reports the two falling days of [3, 2, 1] |
| Trends.ExerciseB | main.c:115-143 | reports the first examined day whose volume beats the first day's price and all earlier volumes (days 0 .. n−2), or day 0 with that price |
| Trends.SeededPeakUnique | main.c:115-143 | the report is determined by the seed and the volumes |
| Trends.SeededPeakExample | main.c:115-143 | [5, 20, 3, 20, 1] with a small seed reports day 1 with 20 |
| Trends.SeededPeakMisses | main.c:124-127 | a first price above every volume hides them all, and the last day is never examined |
| Trends.PeakVolume | main.c:115-143 | the first day of highest volume among all days |
| Trends.PeakVolumeExamples | main.c:115-143 | the corrected scan finds the peak on the last day of [1, 2] and on day 1 of [5, 20, 3] |
| Trends.HeuristicTrade | main.c:191-320 | the heuristic's trade, if any, buys on an earlier day than it sells, both within the series |
| Trends.Stored | main.c:297-320 | the stored report keeps whether there is a deal, with both days in uint16_t range |
| Trends.FirstMaxIndex | main.c:196-197 | the first day of the highest price among days 0 .. n−1 |
| Trends.FirstMinIndex | main.c:229-230 | the first day of the lowest price among days 0 .. n−1 |
| Trends.FirstMaxUnique | main.c:196-197 | there is only one first highest day |
| Trends.FirstMinUnique | main.c:229-230 | there is only one first lowest day |
| Trends.ExerciseC | main.c:145-324 | with no days there is no opportunity; for positive prices the report is the heuristic trade (sell on the first highest day, buy on the first lowest day up to it), with days in uint8_t; a deal's days are converted to dates |
| Trends.TrackExtremes | main.c:196-252 | a new highest, a new lowest or a quiet day keeps the candidate-pair invariant |
| Trends.SettlePairs | main.c:254-282 | with positive prices the end-of-day replacement leaves the pairs unchanged |
| Trends.TrackerStart | main.c:163-175 | before the first day the single pair buys on day 0 with no sell |
| Trends.NewMaxKeepsTracker | main.c:196-225 | a new highest price sells the first pair on that day, after the open second pair takes its place |
| Trends.NewMinKeepsTracker | main.c:229-252 | a new lowest price moves the buy day of an unsold pair or opens a second pair |
| Trends.QuietKeepsTracker | main.c:191-252 | a day that is neither highest nor lowest changes nothing |
| Trends.TrackerNeverSwaps | main.c:254-282 | with positive prices an open second pair has no sell and never beats the first pair |
| Trends.TrackerResult | main.c:297-320 | after the last day the first pair is the heuristic trade |
| Trends.HeuristicTradeIsProfitable | main.c:297-320 | a reported trade buys before it sells and at a lower price |
| Trends.HeuristicNoOpportunity | main.c:303-320 | no opportunity is reported iff no price exceeds the first day's |
| Trends.BestTrade | main.c:145-324 | a buy-before-sell pair of largest gain, buying and selling at that day's prices; no opportunity iff prices never rise |
| Trends.HeuristicAgainstBest | main.c:145-324 | every heuristic trade is a real gain, and it is the best when the lowest price comes before the highest |
| Trends.HeuristicMissesGain | main.c:145-324 | [7, 1, 5, 3, 6, 4] reports no opportunity, although buying on day 1 and selling on day 4 gains 5 |
| Trends.FallingPricesNoTrade | main.c:303-320 | [9, 8, 7, 6] reports no opportunity and has no gain |

## Left out

- Fetching the data, its HTTP layer and the JSON parser are outside the model: curl, `json_parse`, the request URL and the response buffer. The parsed response object is given as its entries in document order (a key and its `[timestamp_ms, value]` samples), so ordering and duplicate keys behave as in the program's walk over the object.
- Printing is not modelled: the reports, warnings and debug output. Each analysis returns what it prints. The return-on-investment figures in exercise_c are only printed, so they are left out, and the `principal` parameter with them.
- `parse_date`, argument handling and the rest of `main` are not part of this model: building the request and freeing memory. The only part of `main` modelled is the granularity classification and the 100-byte guard before it.
- Calendar.IsValidDate: the "date in the future" branch is switched off by a constant flag and has no implementation, so it is left out. The month must lie in 1..12, because the table is indexed with `month - 1` before the month is checked.
- Calendar.AddDaysToDate: the output record is a separate object from the input, so aliasing between input and output pointers is not modelled.
- Series.FillBucketed: the tie-break that would prefer the previous sample when it is closer to midnight is switched off by a constant flag (`autism = 0`), so it is not modelled; the found sample is always used.
- Series.DailySeries.ProcessJsonData: the object must have fewer than 256 entries, because the loop index is uint8_t and would never reach a larger length.
- Series.DailySeries.ProcessJsonData: the caller must guarantee that each processed array fits: a daily array has at most as many samples as the buffers hold, and a sub-daily array is non-empty with at least one day allocated. The source writes out of bounds or reads a missing sample otherwise, which the model does not describe.
- Series.ColumnOf: key names holding a NUL character compare as their prefix before it, as strcmp does. The lemmas tying a key to its exact name are stated for names without NUL.
- Trends.ExerciseC: the report is stated exactly only for positive prices. With a zero or negative price, the zero sell price that marks a pair without a sell can collide with a real price. For other prices only the no-days case and the date conversion are stated.
- Trends.ExerciseC: the two-element `pair` array of the source is held in two variables.
- Series.DailySeries.constructor: takes num_entries as a uint16_t value; the conversion of days_between's uint32_t result into it (main.c:517) is not modelled.
- Series.Classify: requires at least one requested day. With valid dates and an end two days before the begin, days_between returns 0 (Calendar.DaysBetweenReversed), main.c:517 stores it as num_entries and main.c:592 divides the response size by it; that division by zero is not modelled.
- Trends.ExerciseA, Trends.ExerciseB: the uint16_t loop counters and day variables are modelled as unbounded, because `num_entries` is below 2^16.

## Findings

| source | as written | input that shows it | evidently intended | confidence | as-written member | corrected member |
|---|---|---|---|---|---|---|
| main.c:89-101 | a falling run is scored only when a non-fall ends it, so a run that lasts to the last day is never counted | prices [3, 2, 1]: reports 0 days | the longest falling run, including one that reaches the last day (2 days, day 0 to day 2) | not executed | Trends.DeclineToTheEndIsMissed | Trends.LongestDecline |
| main.c:124-131 | the maximum volume is seeded with the first day's price, and the loop stops before the last day | volumes [1, 2] with first price 0.5: reports day 0 with 1, missing day 1 with 2; a first price of 100 over volumes [5, 20, 3] reports 100 | the first day of highest volume over all days, seeded with the first volume | not executed | Trends.SeededPeakMisses | Trends.PeakVolume |
| main.c:191-282 | the two-pair heuristic sells on the first highest day and buys on the lowest day before it, so it misses gains made after the highest day | prices [7, 1, 5, 3, 6, 4]: reports no opportunity | the buy-before-sell pair with the largest gain: buy on day 1, sell on day 4, gain 5 | not executed | Trends.HeuristicMissesGain | Trends.BestTrade |
| main.c:454-461 | in sub-daily mode the shrink compares the number of samples with num_entries, not the number of days they filled | three hourly samples on day 0 with three days requested: two days filled, num_entries stays 3, day 2 is left unwritten | shrink num_entries to the number of days filled | not executed | Series.ShrinkCountsSamplesNotDays | Series.ReceivedDays |
