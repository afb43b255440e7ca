# Availability checker: interval core in Dafny

This project models the interval algebra of the availability checker
(`AvailabilityChecker.get_available_slots_async` in `avail.py`). It also models the two
pure helpers next to it: the range test of the response cache and the ordinal-suffix
helper used for day labels.

Instants are whole minutes in one fixed timezone. An interval is the half-open span
`[start, end)`. The pipeline runs as follows:

1. **Busy merge** (`BusyMerge`). A stable sort by start is followed by a sweep that extends
   the current interval while the next one starts at or before its end. Touching busy
   intervals therefore coalesce.
2. **Day window and tiling** (`WorkWindow`). A day is given by its local midnight.
   Standard mode uses [09:00, next midnight). Professional mode uses [09:00, 17:00).
   The window is cut into `[t, t + 15)` slots while `t` is before the window end.
3. **Availability filter and adjacency join** (`Resolver`). A slot is kept when no merged
   busy interval overlaps it under the half-open test. Kept slots are then joined when
   one starts exactly where the previous one ended.
4. **Day planning** (`Planner`). The planner walks the requested days. Professional mode
   skips Saturdays and Sundays. Each day's free list is appended under its two-letter
   weekday label (`Mo` … `Su`). A day with nothing free adds no key.
5. **Cache range test** (`Cache`) and **ordinal suffix** (`Ordinal`).

The main results are these:

- The merged busy list is sorted and strictly separated. It covers exactly the busy
  minutes, and merging it again changes nothing. For proper spans (`start < end`) it
  does not depend on input order.
- For one day and busy spans with `start < end`, a minute is reported free exactly when
  it lies in the window and no minute of its 15-minute block is busy
  (`Resolver.DayFreeMinutes`). For ranges of at most a week, the planner lifts this to
  the whole report (`Planner.WeekReportIsExact`). For any busy list, reversed spans
  included, `Resolver.FreeIntervalsExact` states the day's free minutes through the
  overlap scan itself.

The model follows `avail.py` as written; in particular:

- Busy intervals with `start >= end` are not dropped. They go through the merge, and the
  overlap test can still block slots because of them. `BusyMerge.MalformedOrderMatters`
  shows that such an interval can make the merge result depend on input order.
- Tiling does not drop a partial last block. It overruns the window end
  (`WorkWindow.TilePartialOverruns`). With the fixed hours every window is a whole number
  of blocks, so this never happens in practice.
- The check that `days` is positive lives in the command line (`avail.py:711-713`). The
  planner itself just runs its day loop zero times. `Planner.ComputeAvailability` models
  the check, and `Planner.AvailableSlots` models the planner.
- The standard window ends at midnight (`day_end_hour = 0`).

## Model

| member | source | states |
|---|---|---|
| Intervals.OverlapIffSharedMinute | avail.py:525 | for proper spans, the half-open overlap test holds exactly when the two spans share a minute |
| BusyMerge.SortByStart | avail.py:472 | the sorted busy list is a permutation of the input, ordered by start |
| BusyMerge.SortIsStable | avail.py:472 | intervals with the same start keep their input order, as Python's stable sort keeps them |
| BusyMerge.Sweep | avail.py:477-486 | the sweep emits between 1 and 1 + rest intervals; the first starts at the accumulator's start; each emitted interval ends strictly before the next one starts |
| BusyMerge.SweepCoverage | avail.py:479-486 | over start-sorted input, the sweep covers exactly the minutes of the accumulator and of the unvisited intervals |
| BusyMerge.MergeBusy | avail.py:472-486 | the merged list is no longer than the input and empty iff the input is; it is sorted and pairwise strictly separated; a minute is in it iff it is in some input interval |
| BusyMerge.MergeIdempotent | avail.py:472-486 | merging an already merged list returns it unchanged |
| BusyMerge.MergeWellFormed | avail.py:479-486 | merging proper spans yields proper spans |
| BusyMerge.SeparatedCoverIsUnique | avail.py:472-486 | two sorted, strictly separated lists of proper spans covering the same minutes are equal |
| BusyMerge.MergeOrderIndependent | avail.py:470-486 | for proper spans, any reordering of the concatenated provider lists gives the same merged list |
| BusyMerge.MalformedOrderMatters | avail.py:472-486 | with a kept span whose start is after its end, two orders of the same input merge to different lists |
| WorkWindow.DayWindow | avail.py:501-506 | the window is a proper span inside the day, a whole number of 15-minute blocks long; in standard mode it ends at the next midnight |
| WorkWindow.Tile | avail.py:509-515 | slot k is [t + 15k, t + 15(k+1)), and there are ceil((end - t) / 15) slots when t < end, none otherwise |
| WorkWindow.TileShape | avail.py:509-515 | slots are proper and ordered; the first starts at the window start; each starts where the previous ended; every start is before the window end and the last end is at or past it |
| WorkWindow.TileExact | avail.py:509-515 | when the window is a whole number of blocks, there are length / 15 slots, all inside the window, and the last one ends at the window end |
| WorkWindow.TilePartialOverruns | avail.py:512-515 | when the window is not a whole number of blocks, the last slot ends after the window end |
| WorkWindow.TileCoverage | avail.py:509-515 | the slots cover exactly [t, t + 15n); a covered minute lies in exactly one slot, the block that holds it |
| WorkWindow.StandardDayHasSixtySlots | avail.py:504-515 | a standard day is tiled into 60 slots |
| WorkWindow.ProfessionalDayHasThirtyTwoSlots | avail.py:501-515 | a professional day is tiled into 32 slots |
| Resolver.IsAvailable | avail.py:522-527 | the scan with early exit answers true iff no busy interval overlaps the slot |
| Resolver.FreeSlots | avail.py:518-530 | a slot is kept iff it is a candidate and no busy interval overlaps it; the kept slots are an order-preserving subsequence of the candidates |
| Resolver.FreeSlotsOrdered | avail.py:518-530 | filtering ordered proper slots leaves ordered proper slots |
| Resolver.JoinFrom | avail.py:536-545 | the join emits between 1 and 1 + rest intervals; the first starts at the accumulator's start; no emitted interval ends where the next starts |
| Resolver.MergeAdjacent | avail.py:533-545 | the joined list is no longer than its input, empty iff the input is, and never touching |
| Resolver.JoinFromOrdered | avail.py:538-545 | over ordered proper slots, the join yields proper, strictly separated intervals starting no earlier than the accumulator, covering exactly the same minutes |
| Resolver.MergeAdjacentOrdered | avail.py:533-545 | joining ordered proper slots keeps exactly their minutes; the result is proper and strictly separated |
| Resolver.MergeAdjacentWithin | avail.py:533-545 | every joined interval lies within any bounds that hold every slot |
| Resolver.JoinChain | avail.py:538-545 | a chain of slots, each starting where the last ended, joins into the single interval from the first start to the last end |
| Resolver.FreeIntervals | avail.py:509-545 | a day's free intervals never touch, and there are no more of them than candidate slots |
| Resolver.FreeSlotMinute | avail.py:509-530 | before joining, a minute lies in a kept slot iff it is in the tiled span and its 15-minute block passes the overlap scan |
| Resolver.FreeIntervalsExact | avail.py:509-545 | a minute is free iff it lies in the tiled span and the slot holding it passes the overlap scan |
| Resolver.FreeIntervalsShape | avail.py:509-545 | for a window of whole blocks, the free intervals are proper, strictly separated and inside the window |
| Resolver.NothingBusyWholeWindow | avail.py:509-545 | with nothing busy, the whole window is one free interval |
| Resolver.AvailableIffUncovered | avail.py:524-527 | for proper spans, a slot passes the overlap scan iff none of its minutes is busy |
| Resolver.MergeKeepsAvailability | avail.py:474-527 | for proper spans, testing slots against the merged list gives the same answer as testing them against the raw list |
| Resolver.DayFreeMinutes | avail.py:472-545 | end to end for one day: a minute is free iff it is in the window and no minute of its 15-minute block is busy in the raw provider data |
| Planner.DayLoopRunsDays | avail.py:182-553 | the loop `while current_day < end_time`, advancing one day per pass from a midnight to `days` days later, makes `days` passes for a positive count and none otherwise |
| Planner.DayCount | avail.py:182-553 | the number of days planned equals the number of passes of the day loop from the first midnight to `end_time`, and is `days` when that is positive |
| Planner.WeekdayAdvances | avail.py:492-553 | the loop's first day has the request's first weekday, and each pass moves to the next weekday, Sunday wrapping to Monday |
| Planner.LabelIsDayLabel | avail.py:547-548 | every day's key is one of the seven two-letter weekday labels |
| Planner.SkippedIffWeekendLabel | avail.py:493-498 | a day is skipped exactly when the mode is professional and its label is "Sa" or "Su" |
| Planner.DayFreeExact | avail.py:493-545 | a skipped day has nothing free; any other day's free intervals are proper and strictly apart, and a minute is free iff it lies in the day's window and its 15-minute block passes the overlap scan |
| Planner.PlanDays | avail.py:488-553 | every key of the report holds a non-empty list |
| Planner.AddDay | avail.py:547-551 | an empty free list leaves the report unchanged; otherwise the list is appended after any entries already under the label, and other labels are untouched |
| Planner.AvailableSlots | avail.py:469-555 | every key of the report is a weekday label; a label is a key iff the days carrying it have something free, and it holds their free lists concatenated in day order |
| Planner.ComputeAvailability | avail.py:711-713 | a non-positive day count is an error and nothing else is; every key of a report is one of the seven weekday labels |
| Planner.PlanIsPerLabelConcatenation | avail.py:488-553 | a label is a key iff the days carrying it have something free; its value is their free lists concatenated in day order |
| Planner.KeysComeFromDays | avail.py:547-551 | every key is the label of some day in the range that had something free |
| Planner.ProfessionalOmitsWeekends | avail.py:494-498 | in professional mode, Saturday and Sunday never appear as keys |
| Planner.WeekendsNeverKeys | avail.py:494-498 | in professional mode, a plan whose skipped days have nothing free never has "Sa" or "Su" as a key |
| Planner.ShortRangeOneDayPerKey | avail.py:547-551 | in a range of at most seven days, a day's label is a key iff that day has something free, and it then holds exactly that day's list |
| Planner.WeekReportIsExact | avail.py:469-555 | for a range of at most a week and proper busy spans, a minute of a day that is not skipped is reported under its label iff it lies in the window and its 15-minute block has no busy minute |
| Planner.OneDayReport | avail.py:488-555 | a one-day request reports that day's free list under its label when it is not empty, and nothing otherwise |
| Planner.OneMeetingSplitsStandardDay | avail.py:469-555 | one standard day with a 10:00-10:30 meeting reports exactly 09:00-10:00 and 10:30-24:00 under that day's label |
| Cache.EventsInRange | avail.py:123-130 | an event is returned iff it is cached and not (ends at or before the range start or starts at or after the range end); each overlapping event appears as many times as in the cache, the others not at all; order is kept |
| Cache.LoadCachedRange | avail.py:121-132 | the cache answers iff its range covers the requested one, and then with exactly the overlapping events, with their multiplicities, in cache order |
| Cache.CacheHitKeepsBusyMinutes | avail.py:121-132 | on a hit, a minute of the requested range is busy in the answer iff it is busy in the cached events |
| Ordinal.OrdinalSuffix | avail.py:586-590 | the suffix is two letters, one of st/nd/rd/th, and "th" for 11 to 13 |
| Ordinal.OrdinalSuffixMatchesCalendar | avail.py:586-590 | for days 1 to 31 the suffix is the English one (1st, 2nd, 3rd, 4th … 11th, 12th, 13th … 21st, 22nd, 23rd … 31st) |

## Left out

- OAuth, credentials and the Google and Outlook API calls (avail.py:139-446): network and foreign library calls. The busy list is an input.
- asyncio, the thread pool and parallel fetching (avail.py:449-466): concurrency plumbing. The concatenated busy list is one plain sequence.
- The cache file: its existence, modification-time freshness, JSON parsing, metadata check and write-back (avail.py:101-118, 61-99): filesystem I/O. A `Cache.CacheEntry` stands for a readable, fresh file with metadata.
- Timestamp parsing and timezones: instants are minutes in one fixed zone, and every day is 1440 minutes long. DST transitions are not modelled.
- Weekday and label come from a given weekday of the first day, counting forward. `strftime` is assumed to use English abbreviations.
- The command line, config load and save, clipboard and timing output, and the text of `format_available_slots` apart from the ordinal helper: presentation and I/O.
- BusyMerge.MergeOrderIndependent: holds only for proper spans, because the source keeps spans with `start >= end` and these can make the order matter (see `BusyMerge.MalformedOrderMatters`).
- Planner.WeekReportIsExact: stated for ranges of at most seven days. For longer ranges a label collects several days, and `Planner.PlanIsPerLabelConcatenation` describes the value.
- Resolver.DayFreeMinutes: stated for proper busy spans only. Spans with `start >= end` are kept by the source and can block a slot that shares no minute with them.
