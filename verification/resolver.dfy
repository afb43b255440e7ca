/**
  Availability of candidate slots and the merge of adjacent free slots.

  A slot is kept when no merged busy interval overlaps it under the
  half-open test; kept slots that touch (one starts exactly where the
  previous one ends) are joined into one free interval.
 */
module Resolver {
  import opened Intervals
  import opened WorkWindow
  import BusyMerge

  /** The source's inner scan over the busy list, stopping at the first overlap. */
  function IsAvailable(slot: Interval, busy: seq<Interval>): (r: bool)
    ensures r <==> forall i :: 0 <= i < |busy| ==> !Overlaps(slot, busy[i])
    decreases |busy|
  {
    if |busy| == 0 then true
    else if Overlaps(slot, busy[0]) then false
    else IsAvailable(slot, busy[1..])
  }

  /** `available_slots`: the candidates the busy list leaves free, in order. */
  function FreeSlots(slots: seq<Interval>, busy: seq<Interval>): (r: seq<Interval>)
    ensures |r| <= |slots|
    ensures forall x :: x in r <==> x in slots && IsAvailable(x, busy)
    ensures IsSubsequence(r, slots)
    decreases |slots|
  {
    if |slots| == 0 then []
    else if IsAvailable(slots[0], busy) then [slots[0]] + FreeSlots(slots[1..], busy)
    else
      var r := FreeSlots(slots[1..], busy);
      SubsequenceSkip(r, slots);
      r
  }

  lemma {:induction false} FreeSlotsOrdered(slots: seq<Interval>, busy: seq<Interval>)
    requires AllWellFormed(slots) && Ordered(slots)
    ensures AllWellFormed(FreeSlots(slots, busy)) && Ordered(FreeSlots(slots, busy))
    decreases |slots|
  {
    if |slots| > 0 {
      var t := FreeSlots(slots[1..], busy);
      FreeSlotsOrdered(slots[1..], busy);
      if IsAvailable(slots[0], busy) {
        forall j | 0 <= j < |t| ensures slots[0].end <= t[j].start {
          assert t[j] in t;
          OrderedAfterHead(slots, t[j]);
        }
        OrderedCons(slots[0], t);
      }
    }
  }

  /** The join loop of `merged_available_slots`: `cur` is the accumulator. */
  function JoinFrom(cur: Interval, rest: seq<Interval>): (r: seq<Interval>)
    ensures 1 <= |r| <= 1 + |rest|
    ensures r[0].start == cur.start
    ensures NeverTouch(r)
    decreases |rest|
  {
    if |rest| == 0 then [cur]
    else if rest[0].start == cur.end then JoinFrom(Interval(cur.start, rest[0].end), rest[1..])
    else [cur] + JoinFrom(rest[0], rest[1..])
  }

  /** `merged_available_slots`: consecutive free slots joined when one starts where the last ended. */
  function MergeAdjacent(slots: seq<Interval>): (r: seq<Interval>)
    ensures |r| <= |slots|
    ensures |r| == 0 <==> |slots| == 0
    ensures NeverTouch(r)
  {
    if |slots| == 0 then [] else JoinFrom(slots[0], slots[1..])
  }

  lemma {:induction false} JoinFromOrdered(cur: Interval, rest: seq<Interval>)
    requires WellFormed(cur) && AllWellFormed(rest) && Ordered(rest)
    requires forall i :: 0 <= i < |rest| ==> cur.end <= rest[i].start
    ensures AllWellFormed(JoinFrom(cur, rest))
    ensures Separated(JoinFrom(cur, rest))
    ensures forall k :: 0 <= k < |JoinFrom(cur, rest)| ==> cur.start <= JoinFrom(cur, rest)[k].start
    ensures forall m :: Covers(JoinFrom(cur, rest), m) <==> Contains(cur, m) || Covers(rest, m)
    decreases |rest|
  {
    if |rest| == 0 {
      forall m ensures Covers([cur], m) <==> Contains(cur, m) {
        CoversCons(cur, [], m);
      }
      assert forall m :: !Covers(rest, m);
    } else if rest[0].start == cur.end {
      var next := Interval(cur.start, rest[0].end);
      JoinFromOrdered(next, rest[1..]);
      forall m ensures Covers(JoinFrom(cur, rest), m) <==> Contains(cur, m) || Covers(rest, m) {
        CoversTail(rest, m);
      }
    } else {
      JoinFromOrdered(rest[0], rest[1..]);
      var t := JoinFrom(rest[0], rest[1..]);
      var r := [cur] + t;
      assert r == JoinFrom(cur, rest);
      SeparatedCons(cur, t);
      forall m ensures Covers(r, m) <==> Contains(cur, m) || Covers(rest, m) {
        CoversCons(cur, t, m);
        CoversTail(rest, m);
      }
    }
  }

  lemma {:induction false} JoinFromWithin(cur: Interval, rest: seq<Interval>, lo: int, hi: int)
    requires lo <= cur.start && cur.end <= hi
    requires forall i :: 0 <= i < |rest| ==> lo <= rest[i].start && rest[i].end <= hi
    ensures forall k :: 0 <= k < |JoinFrom(cur, rest)| ==> lo <= JoinFrom(cur, rest)[k].start && JoinFrom(cur, rest)[k].end <= hi
    decreases |rest|
  {
    if |rest| > 0 {
      if rest[0].start == cur.end {
        JoinFromWithin(Interval(cur.start, rest[0].end), rest[1..], lo, hi);
      } else {
        JoinFromWithin(rest[0], rest[1..], lo, hi);
      }
    }
  }

  /** Joining ordered proper slots keeps exactly their minutes, and the
      results are proper spans strictly apart from each other. */
  lemma MergeAdjacentOrdered(slots: seq<Interval>)
    requires AllWellFormed(slots) && Ordered(slots)
    ensures AllWellFormed(MergeAdjacent(slots)) && Separated(MergeAdjacent(slots))
    ensures forall m :: Covers(MergeAdjacent(slots), m) <==> Covers(slots, m)
  {
    if |slots| == 0 {
      assert forall m :: !Covers(slots, m);
    } else {
      JoinFromOrdered(slots[0], slots[1..]);
      forall m ensures Covers(MergeAdjacent(slots), m) <==> Covers(slots, m) {
        CoversTail(slots, m);
      }
    }
  }

  /** Every joined interval stays inside bounds that hold every slot. */
  lemma MergeAdjacentWithin(slots: seq<Interval>, lo: int, hi: int)
    requires forall i :: 0 <= i < |slots| ==> lo <= slots[i].start && slots[i].end <= hi
    ensures forall k :: 0 <= k < |MergeAdjacent(slots)| ==> lo <= MergeAdjacent(slots)[k].start && MergeAdjacent(slots)[k].end <= hi
  {
    if |slots| > 0 {
      JoinFromWithin(slots[0], slots[1..], lo, hi);
    }
  }

  /** A chain of slots, each starting where the last ended, joins into one interval. */
  lemma {:induction false} JoinChain(cur: Interval, rest: seq<Interval>)
    requires |rest| > 0 ==> rest[0].start == cur.end
    requires forall k :: 0 <= k < |rest| - 1 ==> rest[k].end == rest[k + 1].start
    ensures JoinFrom(cur, rest) == [Interval(cur.start, if |rest| == 0 then cur.end else rest[|rest| - 1].end)]
    decreases |rest|
  {
    if |rest| > 0 {
      JoinChain(Interval(cur.start, rest[0].end), rest[1..]);
    }
  }

  /** The free intervals of one day: tile the window, keep the free slots, join them. */
  function FreeIntervals(window: Interval, busy: seq<Interval>): (r: seq<Interval>)
    ensures NeverTouch(r)
    ensures |r| <= |Tile(window.start, window.end)|
  {
    MergeAdjacent(FreeSlots(Tile(window.start, window.end), busy))
  }

  /** A minute is free exactly when it lies in the tiled window and the block
      holding it overlaps no busy interval. */
  lemma FreeIntervalsExact(window: Interval, busy: seq<Interval>, m: int)
    ensures var tiles := Tile(window.start, window.end);
      Covers(FreeIntervals(window, busy), m) <==>
        window.start <= m < window.start + BlockMinutes * |tiles| && IsAvailable(BlockOf(window.start, m), busy)
  {
    var tiles := Tile(window.start, window.end);
    TileShape(window.start, window.end);
    FreeSlotsOrdered(tiles, busy);
    MergeAdjacentOrdered(FreeSlots(tiles, busy));
    FreeSlotMinute(window.start, window.end, busy, m);
  }

  /** Before joining: a minute is in a kept slot iff its block is a candidate that passes the scan. */
  lemma FreeSlotMinute(t: int, end: int, busy: seq<Interval>, m: int)
    ensures Covers(FreeSlots(Tile(t, end), busy), m) <==>
      t <= m < t + BlockMinutes * |Tile(t, end)| && IsAvailable(BlockOf(t, m), busy)
  {
    var tiles := Tile(t, end);
    var free := FreeSlots(tiles, busy);
    TileCoverage(t, end, m);
    if Covers(free, m) {
      var i :| 0 <= i < |free| && Contains(free[i], m);
      assert free[i] in tiles;
      var k :| 0 <= k < |tiles| && tiles[k] == free[i];
    }
    if t <= m < t + BlockMinutes * |tiles| && IsAvailable(BlockOf(t, m), busy) {
      assert BlockOf(t, m) in free;
      var i :| 0 <= i < |free| && free[i] == BlockOf(t, m);
      assert Contains(free[i], m);
    }
  }

  /** The free intervals of a day are proper, strictly apart, and inside the window
      when the window is a whole number of blocks. */
  lemma FreeIntervalsShape(window: Interval, busy: seq<Interval>)
    requires window.start < window.end && (window.end - window.start) % BlockMinutes == 0
    ensures AllWellFormed(FreeIntervals(window, busy)) && Separated(FreeIntervals(window, busy))
    ensures forall k :: 0 <= k < |FreeIntervals(window, busy)| ==>
      window.start <= FreeIntervals(window, busy)[k].start && FreeIntervals(window, busy)[k].end <= window.end
  {
    var tiles := Tile(window.start, window.end);
    var free := FreeSlots(tiles, busy);
    TileShape(window.start, window.end);
    FreeSlotsOrdered(tiles, busy);
    MergeAdjacentOrdered(free);
    FreeSlotsWithin(window.start, window.end, busy);
    MergeAdjacentWithin(free, window.start, window.end);
  }

  /** Kept slots of a whole-block window lie inside it. */
  lemma FreeSlotsWithin(t: int, end: int, busy: seq<Interval>)
    requires t < end && (end - t) % BlockMinutes == 0
    ensures forall i :: 0 <= i < |FreeSlots(Tile(t, end), busy)| ==>
      t <= FreeSlots(Tile(t, end), busy)[i].start && FreeSlots(Tile(t, end), busy)[i].end <= end
  {
    var tiles := Tile(t, end);
    var free := FreeSlots(tiles, busy);
    TileExact(t, end);
    forall i | 0 <= i < |free| ensures t <= free[i].start && free[i].end <= end {
      assert free[i] in tiles;
    }
  }

  /** With nothing busy the whole window is one free interval. */
  lemma NothingBusyWholeWindow(window: Interval)
    requires window.start < window.end && (window.end - window.start) % BlockMinutes == 0
    ensures FreeIntervals(window, []) == [window]
  {
    var tiles := Tile(window.start, window.end);
    TileShape(window.start, window.end);
    TileExact(window.start, window.end);
    assert FreeSlots(tiles, []) == tiles by {
      FreeSlotsAll(tiles, []);
    }
    JoinChain(tiles[0], tiles[1..]);
  }

  lemma {:induction false} FreeSlotsAll(slots: seq<Interval>, busy: seq<Interval>)
    requires forall i :: 0 <= i < |slots| ==> IsAvailable(slots[i], busy)
    ensures FreeSlots(slots, busy) == slots
    decreases |slots|
  {
    if |slots| > 0 {
      FreeSlotsAll(slots[1..], busy);
      assert [slots[0]] + slots[1..] == slots;
    }
  }

  /** For proper spans, the source's overlap scan against a busy list means
      "no minute of the slot is busy". */
  lemma AvailableIffUncovered(slot: Interval, busy: seq<Interval>)
    requires WellFormed(slot) && AllWellFormed(busy)
    ensures IsAvailable(slot, busy) <==> forall m :: Contains(slot, m) ==> !Covers(busy, m)
  {
    forall i | 0 <= i < |busy| {
      OverlapIffSharedMinute(slot, busy[i]);
    }
    if !IsAvailable(slot, busy) {
      var i :| 0 <= i < |busy| && Overlaps(slot, busy[i]);
      var m :| Contains(slot, m) && Contains(busy[i], m);
      assert Covers(busy, m);
    }
  }

  /** Checking slots against the merged busy list gives the same answer as
      checking them against the raw, unmerged list of proper spans. */
  lemma MergeKeepsAvailability(slot: Interval, raw: seq<Interval>)
    requires WellFormed(slot) && AllWellFormed(raw)
    ensures IsAvailable(slot, BusyMerge.MergeBusy(raw)) <==> IsAvailable(slot, raw)
  {
    BusyMerge.MergeWellFormed(raw);
    AvailableIffUncovered(slot, raw);
    AvailableIffUncovered(slot, BusyMerge.MergeBusy(raw));
  }

  /** End to end for one day: a minute is reported free exactly when it lies in
      the window and no minute of its 15-minute block is busy. */
  lemma DayFreeMinutes(window: Interval, raw: seq<Interval>, m: int)
    requires window.start < window.end && (window.end - window.start) % BlockMinutes == 0
    requires AllWellFormed(raw)
    ensures Covers(FreeIntervals(window, BusyMerge.MergeBusy(raw)), m) <==>
      Contains(window, m) && forall b :: Contains(BlockOf(window.start, m), b) ==> !Covers(raw, b)
  {
    TileExact(window.start, window.end);
    FreeIntervalsExact(window, BusyMerge.MergeBusy(raw), m);
    MergeKeepsAvailability(BlockOf(window.start, m), raw);
    AvailableIffUncovered(BlockOf(window.start, m), raw);
  }
}
