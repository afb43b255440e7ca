/**
  The day loop of `get_available_slots_async`: walk the requested days from
  local midnight, skip weekends in professional mode, resolve each day's free
  intervals against the merged busy list, and collect them under the day's
  two-letter weekday label. Lists for a label that recurs (ranges longer than
  a week) are appended in day order; a day with nothing free adds no key.
 */
module Planner {
  import opened Intervals
  import opened WorkWindow
  import opened Resolver
  import BusyMerge

  /** `datetime.weekday()`: Monday is 0, Sunday is 6. */
  type Weekday = d: int | 0 <= d < 7

  /** `strftime("%a")[:2]` for each weekday, Monday first. */
  const DayLabels: seq<string> := ["Mo", "Tu", "We", "Th", "Fr", "Sa", "Su"]

  /** One availability request: the first day's local midnight and weekday,
      the number of days asked for, and the mode. */
  datatype Request = Request(firstMidnight: int, firstWeekday: Weekday, days: int, mode: Mode)

  type Report = map<string, seq<Interval>>

  /** Passes of `while current_day < end_time` when `current_day` starts at
      `cur` and every pass, skipped or not, advances it by one day. */
  function DayLoop(cur: int, end: int): nat
    decreases end - cur
  {
    if cur < end then 1 + DayLoop(cur + MinutesPerDay, end) else 0
  }

  /** From a midnight to `days` days later the loop makes `days` passes, or
      none when `days` is not positive. */
  lemma {:induction false} DayLoopRunsDays(start: int, days: int)
    ensures DayLoop(start, start + MinutesPerDay * days) == if days > 0 then days else 0
    decreases if days > 0 then days else 0
  {
    if days > 0 {
      assert start + MinutesPerDay * days == (start + MinutesPerDay) + MinutesPerDay * (days - 1);
      DayLoopRunsDays(start + MinutesPerDay, days - 1);
    }
  }

  /** The number of days the request's loop visits, `end_time` being `days` days after the start. */
  function DayCount(req: Request): (n: nat)
    ensures n == DayLoop(req.firstMidnight, req.firstMidnight + MinutesPerDay * req.days)
    ensures req.days > 0 ==> n == req.days
  {
    DayLoopRunsDays(req.firstMidnight, req.days);
    if req.days > 0 then req.days else 0
  }

  /** The weekday of the `i`-th day of the loop. */
  function WeekdayOf(req: Request, i: nat): Weekday {
    (req.firstWeekday + i) % 7
  }

  /** The loop starts on the request's first weekday, and each pass moves to the next weekday. */
  lemma WeekdayAdvances(req: Request, i: nat)
    ensures WeekdayOf(req, 0) == req.firstWeekday
    ensures WeekdayOf(req, i + 1) == (WeekdayOf(req, i) + 1) % 7
  {
  }

  /** The report key of the `i`-th day: its weekday's two-letter label. */
  function Label(req: Request, i: nat): string {
    DayLabels[WeekdayOf(req, i)]
  }

  /** Every day's key is one of the seven two-letter labels. */
  lemma LabelIsDayLabel(req: Request, i: nat)
    ensures Label(req, i) in DayLabels && |Label(req, i)| == 2
  {
  }

  function Midnight(req: Request, i: nat): int {
    req.firstMidnight + MinutesPerDay * i
  }

  /** Professional mode passes over Saturdays and Sundays. */
  predicate Skipped(req: Request, i: nat) {
    req.mode == Professional && WeekdayOf(req, i) >= 5
  }

  /** A day is skipped exactly when the mode is professional and its key is "Sa" or "Su". */
  lemma SkippedIffWeekendLabel(req: Request, i: nat)
    ensures Skipped(req, i) <==> req.mode == Professional && (Label(req, i) == "Sa" || Label(req, i) == "Su")
  {
  }

  /** The merged free intervals of day `i` (empty for a skipped day). */
  function DayFree(req: Request, busy: seq<Interval>, i: nat): seq<Interval> {
    if Skipped(req, i) then [] else FreeIntervals(DayWindow(req.mode, Midnight(req, i)), busy)
  }

  /** A skipped day has nothing free; any other day's free intervals are proper,
      strictly apart, and hold exactly the window minutes whose block passes the scan. */
  lemma DayFreeExact(req: Request, busy: seq<Interval>, i: nat, m: int)
    ensures Skipped(req, i) ==> DayFree(req, busy, i) == []
    ensures AllWellFormed(DayFree(req, busy, i)) && Separated(DayFree(req, busy, i))
    ensures var w := DayWindow(req.mode, Midnight(req, i));
      !Skipped(req, i) ==> (Covers(DayFree(req, busy, i), m) <==> Contains(w, m) && IsAvailable(BlockOf(w.start, m), busy))
  {
    if !Skipped(req, i) {
      var w := DayWindow(req.mode, Midnight(req, i));
      TileExact(w.start, w.end);
      FreeIntervalsShape(w, busy);
      FreeIntervalsExact(w, busy, m);
    }
  }

  /** The loop body's per-day result for a fixed merged busy list. */
  function DayFreeOf(req: Request, busy: seq<Interval>): nat -> seq<Interval> {
    (i: nat) => DayFree(req, busy, i)
  }

  /** Records one day's free intervals under its label, after any already there. */
  function AddDay(report: Report, key: string, free: seq<Interval>): (r: Report)
    ensures |free| == 0 ==> r == report
    ensures |free| > 0 ==> r.Keys == report.Keys + {key}
    ensures |free| > 0 ==> r[key] == (if key in report then report[key] else []) + free
    ensures forall k :: k in report && k != key ==> k in r && r[k] == report[k]
  {
    if |free| == 0 then report
    else report[key := (if key in report then report[key] else []) + free]
  }

  /** `available_slots_by_day` after the first `n` days of the loop, where
      `free(i)` is what the loop body resolves for day `i`. */
  function PlanDays(req: Request, free: nat -> seq<Interval>, n: nat): (r: Report)
    ensures forall key :: key in r ==> |r[key]| > 0
  {
    if n == 0 then map[]
    else AddDay(PlanDays(req, free, n - 1), Label(req, n - 1), free(n - 1))
  }

  /** Reference view of one key: the free intervals of every day among the
      first `n` that carries `key`, in day order. */
  function Collected(req: Request, free: nat -> seq<Interval>, n: nat, key: string): seq<Interval> {
    if n == 0 then []
    else Collected(req, free, n - 1, key) + (if Label(req, n - 1) == key then free(n - 1) else [])
  }

  /** The result of the whole pipeline: merge the busy list, then plan the days.
      Every key is a weekday label, present exactly when the days carrying it
      have something free, and holding their free lists in day order. */
  function AvailableSlots(req: Request, busy: seq<Interval>): (r: Report)
    ensures forall key :: key in r ==> key in DayLabels
    ensures forall key :: key in r <==> |Collected(req, DayFreeOf(req, BusyMerge.MergeBusy(busy)), DayCount(req), key)| > 0
    ensures forall key :: key in r ==> r[key] == Collected(req, DayFreeOf(req, BusyMerge.MergeBusy(busy)), DayCount(req), key)
  {
    var free := DayFreeOf(req, BusyMerge.MergeBusy(busy));
    forall key {
      PlanIsPerLabelConcatenation(req, free, DayCount(req), key);
    }
    forall key | key in PlanDays(req, free, DayCount(req)) ensures key in DayLabels {
      KeysComeFromDays(req, free, DayCount(req), key);
    }
    PlanDays(req, free, DayCount(req))
  }

  /** The command line refuses a non-positive day count before any work. */
  function ComputeAvailability(req: Request, busy: seq<Interval>): (r: Result<Report>)
    ensures r.Err? <==> req.days <= 0
    ensures r.Ok? ==> forall key :: key in r.value ==> key in DayLabels
  {
    if req.days <= 0 then Err("Error: 'days' must be a positive integer.")
    else
      Ok(AvailableSlots(req, busy))
  }

  /** Each key of the plan holds exactly the concatenation, in day order, of
      the free lists of the days with that key, and is present exactly when
      that concatenation is not empty. */
  lemma {:induction false} PlanIsPerLabelConcatenation(req: Request, free: nat -> seq<Interval>, n: nat, key: string)
    ensures key in PlanDays(req, free, n) <==> |Collected(req, free, n, key)| > 0
    ensures key in PlanDays(req, free, n) ==> PlanDays(req, free, n)[key] == Collected(req, free, n, key)
  {
    if n > 0 {
      PlanIsPerLabelConcatenation(req, free, n - 1, key);
      AddDayTracks(PlanDays(req, free, n - 1), Label(req, n - 1), free(n - 1), key, Collected(req, free, n - 1, key));
    }
  }

  /** One day added to a report whose `key` entry is `before` (absent when empty). */
  lemma AddDayTracks(report: Report, day: string, free: seq<Interval>, key: string, before: seq<Interval>)
    requires key in report <==> |before| > 0
    requires key in report ==> report[key] == before
    ensures var after := before + (if day == key then free else []);
      (key in AddDay(report, day, free) <==> |after| > 0)
      && (key in AddDay(report, day, free) ==> AddDay(report, day, free)[key] == after)
  {
  }

  /** Every key names a day of the range with something free. */
  lemma {:induction false} KeysComeFromDays(req: Request, free: nat -> seq<Interval>, n: nat, key: string)
    requires key in PlanDays(req, free, n)
    ensures exists i :: 0 <= i < n && Label(req, i) == key && |free(i)| > 0
    ensures key in DayLabels
  {
    if n > 0 {
      AddDayKeys(PlanDays(req, free, n - 1), Label(req, n - 1), free(n - 1), key);
      if key in PlanDays(req, free, n - 1) {
        KeysComeFromDays(req, free, n - 1, key);
      } else {
        LabelIsDayLabel(req, n - 1);
      }
    }
  }

  /** A key of the report after one more day was there before or is that day's label. */
  lemma AddDayKeys(report: Report, day: string, free: seq<Interval>, key: string)
    ensures key in AddDay(report, day, free) <==> key in report || (key == day && |free| > 0)
  {
  }

  /** In professional mode Saturday and Sunday never appear in the result. */
  lemma ProfessionalOmitsWeekends(req: Request, busy: seq<Interval>, n: nat)
    requires req.mode == Professional
    ensures "Sa" !in PlanDays(req, DayFreeOf(req, busy), n) && "Su" !in PlanDays(req, DayFreeOf(req, busy), n)
  {
    WeekendsNeverKeys(req, DayFreeOf(req, busy), n);
  }

  /** A plan whose skipped days have nothing free has no weekend key in professional mode. */
  lemma {:induction false} WeekendsNeverKeys(req: Request, free: nat -> seq<Interval>, n: nat)
    requires req.mode == Professional
    requires forall i: nat :: Skipped(req, i) ==> free(i) == []
    ensures "Sa" !in PlanDays(req, free, n) && "Su" !in PlanDays(req, free, n)
  {
    if n > 0 {
      WeekendsNeverKeys(req, free, n - 1);
      SkippedIffWeekendLabel(req, n - 1);
      AddDayKeys(PlanDays(req, free, n - 1), Label(req, n - 1), free(n - 1), "Sa");
      AddDayKeys(PlanDays(req, free, n - 1), Label(req, n - 1), free(n - 1), "Su");
    }
  }

  /** Within a week no two days share a key. */
  lemma LabelsDistinctWithinWeek(req: Request, i: nat, j: nat)
    requires i < j < i + 7
    ensures Label(req, i) != Label(req, j)
  {
  }

  lemma {:induction false} CollectedSingleDay(req: Request, free: nat -> seq<Interval>, n: nat, i: nat)
    requires i < n <= 7
    ensures Collected(req, free, n, Label(req, i)) == free(i)
  {
    if n - 1 == i {
      CollectedFirstOfLabel(req, free, i);
    } else {
      CollectedSingleDay(req, free, n - 1, i);
      LabelsDistinctWithinWeek(req, i, n - 1);
      assert Collected(req, free, n, Label(req, i)) == Collected(req, free, n - 1, Label(req, i)) + [];
    }
  }

  /** Within its first week, the days before day `i` do not carry its label. */
  lemma CollectedFirstOfLabel(req: Request, free: nat -> seq<Interval>, i: nat)
    requires i < 7
    ensures Collected(req, free, i + 1, Label(req, i)) == free(i)
  {
    var key := Label(req, i);
    forall j | 0 <= j < i ensures Label(req, j) != key {
      LabelsDistinctWithinWeek(req, j, i);
    }
    CollectedNoDay(req, free, i, key);
    assert Collected(req, free, i + 1, key) == [] + free(i);
  }

  lemma {:induction false} CollectedNoDay(req: Request, free: nat -> seq<Interval>, n: nat, key: string)
    requires forall j :: 0 <= j < n ==> Label(req, j) != key
    ensures Collected(req, free, n, key) == []
  {
    if n > 0 {
      CollectedNoDay(req, free, n - 1, key);
    }
  }

  /** For a range of at most a week each key holds exactly one day's free list. */
  lemma ShortRangeOneDayPerKey(req: Request, free: nat -> seq<Interval>, n: nat, i: nat)
    requires i < n <= 7
    ensures Label(req, i) in PlanDays(req, free, n) <==> |free(i)| > 0
    ensures Label(req, i) in PlanDays(req, free, n) ==> PlanDays(req, free, n)[Label(req, i)] == free(i)
  {
    CollectedSingleDay(req, free, n, i);
    PlanIsPerLabelConcatenation(req, free, n, Label(req, i));
  }

  /** End to end, for a request of at most a week and proper busy spans: a
      minute of a day that is not skipped is listed under that day's key
      exactly when it lies in the day's window and no minute of its
      15-minute block is busy. */
  lemma WeekReportIsExact(req: Request, raw: seq<Interval>, i: nat, m: int)
    requires i < DayCount(req) <= 7
    requires !Skipped(req, i)
    requires AllWellFormed(raw)
    ensures var w := DayWindow(req.mode, Midnight(req, i));
      var report := AvailableSlots(req, raw);
      (Label(req, i) in report && Covers(report[Label(req, i)], m)) <==>
        Contains(w, m) && forall b :: Contains(BlockOf(w.start, m), b) ==> !Covers(raw, b)
  {
    var w := DayWindow(req.mode, Midnight(req, i));
    var free := DayFreeOf(req, BusyMerge.MergeBusy(raw));
    ShortRangeOneDayPerKey(req, free, DayCount(req), i);
    assert free(i) == FreeIntervals(w, BusyMerge.MergeBusy(raw));
    DayFreeMinutes(w, raw, m);
  }

  /** A standard one-day request with a single meeting from 10:00 to 10:30
      reports two free intervals for that day: 09:00-10:00 and 10:30-24:00. */
  lemma OneMeetingSplitsStandardDay(mid: int, wd: Weekday)
    ensures AvailableSlots(Request(mid, wd, 1, Standard), [Interval(mid + 600, mid + 630)])
      == map[DayLabels[wd] := [Interval(mid + 540, mid + 600), Interval(mid + 630, mid + 1440)]]
  {
    var req := Request(mid, wd, 1, Standard);
    var raw := [Interval(mid + 600, mid + 630)];
    var free := DayFreeOf(req, BusyMerge.MergeBusy(raw));
    OneMeetingFreeList(mid);
    assert free(0) == [Interval(mid + 540, mid + 600), Interval(mid + 630, mid + 1440)];
    OneDayReport(req, raw);
  }

  /** A one-day request reports that day's free list under its label, if it is not empty. */
  lemma OneDayReport(req: Request, raw: seq<Interval>)
    requires req.days == 1
    ensures var free := DayFreeOf(req, BusyMerge.MergeBusy(raw));
      AvailableSlots(req, raw) == if |free(0)| > 0 then map[DayLabels[req.firstWeekday] := free(0)] else map[]
  {
    SingleDayReport(req, DayFreeOf(req, BusyMerge.MergeBusy(raw)));
  }

  /** The standard day with the 10:00-10:30 meeting has exactly two free intervals. */
  lemma OneMeetingFreeList(mid: int)
    ensures FreeIntervals(DayWindow(Standard, mid), BusyMerge.MergeBusy([Interval(mid + 600, mid + 630)]))
      == [Interval(mid + 540, mid + 600), Interval(mid + 630, mid + 1440)]
  {
    var busy := BusyMerge.MergeBusy([Interval(mid + 600, mid + 630)]);
    var free := FreeIntervals(DayWindow(Standard, mid), busy);
    var expected := [Interval(mid + 540, mid + 600), Interval(mid + 630, mid + 1440)];
    FreeIntervalsShape(DayWindow(Standard, mid), busy);
    forall m ensures Covers(free, m) <==> Covers(expected, m) {
      OneMeetingFreeMinute(mid, m);
      CoversTail(expected, m);
      CoversTail(expected[1..], m);
    }
    BusyMerge.SeparatedCoverIsUnique(free, expected);
  }

  lemma OneMeetingFreeMinute(mid: int, m: int)
    ensures Covers(FreeIntervals(DayWindow(Standard, mid), BusyMerge.MergeBusy([Interval(mid + 600, mid + 630)])), m)
      <==> mid + 540 <= m < mid + 600 || mid + 630 <= m < mid + 1440
  {
    var raw := [Interval(mid + 600, mid + 630)];
    var w := DayWindow(Standard, mid);
    DayFreeMinutes(w, raw, m);
    if mid + 540 <= m {
      BlockMeetsMeeting(mid, m, raw);
    }
  }

  /** The 15-minute block of a minute in the standard window shares a minute
      with 10:00-10:30 exactly when the minute itself lies in that meeting. */
  lemma BlockMeetsMeeting(mid: int, m: int, raw: seq<Interval>)
    requires mid + 540 <= m
    requires raw == [Interval(mid + 600, mid + 630)]
    ensures (forall b :: Contains(BlockOf(mid + 540, m), b) ==> !Covers(raw, b)) <==> !(mid + 600 <= m < mid + 630)
  {
    forall b ensures Covers(raw, b) <==> mid + 600 <= b < mid + 630 {
      CoversTail(raw, b);
    }
    var blk := BlockOf(mid + 540, m);
    var k := (m - (mid + 540)) / BlockMinutes;
    assert blk.start == mid + 540 + 15 * k && blk.end == blk.start + 15;
    if mid + 600 <= m < mid + 630 {
      assert Contains(blk, m) && Covers(raw, m);
    } else if m < mid + 600 {
      assert k <= 3;
    } else {
      assert k >= 6;
    }
  }

  /** A one-day request reports that day's free list under its label, if it is not empty. */
  lemma SingleDayReport(req: Request, free: nat -> seq<Interval>)
    ensures PlanDays(req, free, 1) ==
      if |free(0)| > 0 then map[DayLabels[req.firstWeekday] := free(0)] else map[]
  {
    assert WeekdayOf(req, 0) == req.firstWeekday;
    assert [] + free(0) == free(0);
  }
}
