/**
  Day windows and their tiling into fixed-width candidate slots.

  A day is identified by its local midnight, in minutes. Standard mode
  looks at [09:00, next midnight), professional mode at [09:00, 17:00).
  Tiling emits `[t, t + 15)` while `t` is before the window end, so it never
  drops a partial last block: it would overrun the window instead.
 */
module WorkWindow {
  import opened Intervals

  const MinutesPerHour := 60
  const MinutesPerDay := 1440
  /** Width of one candidate slot, in minutes. */
  const BlockMinutes := 15
  const WorkStartHour := 9
  const WorkEndHour := 17
  /** Hour of the day after `current_day` at which a standard window ends. */
  const DayEndHour := 0

  datatype Mode = Standard | Professional

  /** The eligible span of the day whose local midnight is `midnight`. */
  function DayWindow(mode: Mode, midnight: int): (w: Interval)
    ensures WellFormed(w)
    ensures w.start == midnight + WorkStartHour * MinutesPerHour
    ensures mode.Professional? ==> w.end == midnight + WorkEndHour * MinutesPerHour
    ensures midnight <= w.start && w.end <= midnight + MinutesPerDay
    ensures (w.end - w.start) % BlockMinutes == 0
    ensures mode.Standard? ==> w.end == midnight + MinutesPerDay
  {
    var dayStart := midnight + WorkStartHour * MinutesPerHour;
    match mode
    case Professional => Interval(dayStart, midnight + WorkEndHour * MinutesPerHour)
    case Standard => Interval(dayStart, midnight + MinutesPerDay + DayEndHour * MinutesPerHour)
  }

  /** The candidate slots `all_slots` from `t` while `t < end`. */
  function Tile(t: int, end: int): (r: seq<Interval>)
    ensures |r| == if t < end then (end - t + BlockMinutes - 1) / BlockMinutes else 0
    ensures forall k :: 0 <= k < |r| ==> r[k] == Interval(t + BlockMinutes * k, t + BlockMinutes * (k + 1))
    decreases end - t
  {
    if t < end then [Interval(t, t + BlockMinutes)] + Tile(t + BlockMinutes, end) else []
  }

  /** The block of the tiling from `t` that holds minute `m`. */
  function BlockOf(t: int, m: int): (b: Interval)
    ensures Contains(b, m)
    ensures b.end - b.start == BlockMinutes
    ensures (b.start - t) % BlockMinutes == 0
  {
    var k := (m - t) / BlockMinutes;
    Interval(t + BlockMinutes * k, t + BlockMinutes * (k + 1))
  }

  /** Consecutive width-15 slots: the first starts at `t`, each starts where
      the previous ended, and every start is before `end`. */
  lemma TileShape(t: int, end: int)
    ensures var r := Tile(t, end);
      && AllWellFormed(r)
      && Ordered(r)
      && (|r| > 0 ==> r[0].start == t)
      && (forall k :: 0 <= k < |r| - 1 ==> r[k].end == r[k + 1].start)
      && (forall k :: 0 <= k < |r| ==> t <= r[k].start < end)
      && (|r| > 0 ==> end <= r[|r| - 1].end)
  {
  }

  /** When the window is a whole number of blocks the last slot ends exactly at its end. */
  lemma TileExact(t: int, end: int)
    requires t < end && (end - t) % BlockMinutes == 0
    ensures |Tile(t, end)| == (end - t) / BlockMinutes
    ensures Tile(t, end)[|Tile(t, end)| - 1].end == end
    ensures forall k :: 0 <= k < |Tile(t, end)| ==> t <= Tile(t, end)[k].start && Tile(t, end)[k].end <= end
  {
  }

  /** As written, a window that is not a whole number of blocks gets a last
      slot that runs past the window end. */
  lemma TilePartialOverruns(t: int, end: int)
    requires t < end && (end - t) % BlockMinutes != 0
    ensures end < Tile(t, end)[|Tile(t, end)| - 1].end
  {
  }

  /** The slots from `t` cover exactly the minutes of their blocks, and a
      minute lies in exactly one slot, the block that holds it. */
  lemma TileCoverage(t: int, end: int, m: int)
    ensures Covers(Tile(t, end), m) <==> t <= m < t + BlockMinutes * |Tile(t, end)|
    ensures t <= m < t + BlockMinutes * |Tile(t, end)| ==> BlockOf(t, m) in Tile(t, end)
    ensures forall k :: 0 <= k < |Tile(t, end)| && Contains(Tile(t, end)[k], m) ==> Tile(t, end)[k] == BlockOf(t, m)
  {
    var r := Tile(t, end);
    if t <= m < t + BlockMinutes * |r| {
      var k := (m - t) / BlockMinutes;
      assert r[k] == BlockOf(t, m);
      assert Contains(r[k], m);
    }
  }

  /** Standard mode tiles [09:00, 24:00) into 60 slots. */
  lemma StandardDayHasSixtySlots(midnight: int)
    ensures |Tile(DayWindow(Standard, midnight).start, DayWindow(Standard, midnight).end)| == 60
  {
  }

  /** Professional mode tiles [09:00, 17:00) into 32 slots. */
  lemma ProfessionalDayHasThirtyTwoSlots(midnight: int)
    ensures |Tile(DayWindow(Professional, midnight).start, DayWindow(Professional, midnight).end)| == 32
  {
  }
}
