/**
  The busy-interval merge at the head of `get_available_slots_async`:
  a stable sort by start followed by one left-to-right sweep that extends
  the current interval while the next one starts at or before its end.
  Touching busy intervals therefore coalesce.
 */
module BusyMerge {
  import opened Intervals

  /** Places `x` after every element whose start is not greater than its own,
      the way a stable sort keyed on the start places a later element. */
  function InsertByStart(sorted: seq<Interval>, x: Interval): (r: seq<Interval>)
    ensures multiset(r) == multiset(sorted) + multiset{x}
    ensures forall y :: y in r ==> y in sorted || y == x
    decreases |sorted|
  {
    if |sorted| == 0 then [x]
    else
      var last := sorted[|sorted| - 1];
      var prefix := sorted[..|sorted| - 1];
      assert sorted == prefix + [last];
      if last.start <= x.start then sorted + [x]
      else InsertByStart(prefix, x) + [last]
  }

  lemma {:induction false} InsertKeepsSorted(sorted: seq<Interval>, x: Interval)
    requires SortedByStart(sorted)
    ensures SortedByStart(InsertByStart(sorted, x))
    decreases |sorted|
  {
    if |sorted| > 0 {
      var last := sorted[|sorted| - 1];
      var prefix := sorted[..|sorted| - 1];
      if x.start < last.start {
        assert SortedByStart(prefix);
        InsertKeepsSorted(prefix, x);
        var t := InsertByStart(prefix, x);
        assert InsertByStart(sorted, x) == t + [last];
        forall i | 0 <= i < |t| ensures t[i].start <= last.start {
          if t[i] in prefix {
            var j :| 0 <= j < |prefix| && prefix[j] == t[i];
            assert sorted[j] == t[i];
          }
        }
        SortedAppend(t, last);
      } else {
        assert InsertByStart(sorted, x) == sorted + [x];
        SortedAppend(sorted, x);
      }
    }
  }

  lemma SortedAppend(s: seq<Interval>, y: Interval)
    requires SortedByStart(s)
    requires forall i :: 0 <= i < |s| ==> s[i].start <= y.start
    ensures SortedByStart(s + [y])
  {
    var r := s + [y];
    forall i, j | 0 <= i < j < |r| ensures r[i].start <= r[j].start {
      assert r[i] == s[i];
      if j < |s| {
        assert r[j] == s[j];
      }
    }
  }

  /** `busy_slots.sort(key=lambda slot: slot[0])`: Python's sort is stable. */
  function SortByStart(s: seq<Interval>): (r: seq<Interval>)
    ensures multiset(r) == multiset(s)
    ensures SortedByStart(r)
    decreases |s|
  {
    if |s| == 0 then []
    else
      assert s == s[..|s| - 1] + [s[|s| - 1]];
      InsertKeepsSorted(SortByStart(s[..|s| - 1]), s[|s| - 1]);
      InsertByStart(SortByStart(s[..|s| - 1]), s[|s| - 1])
  }

  /** The elements of `s` whose start is `k`, in their order in `s`. */
  function WithStart(s: seq<Interval>, k: int): seq<Interval>
    decreases |s|
  {
    if |s| == 0 then []
    else (if s[0].start == k then [s[0]] else []) + WithStart(s[1..], k)
  }

  lemma {:induction false} WithStartAppend(a: seq<Interval>, b: seq<Interval>, k: int)
    ensures WithStart(a + b, k) == WithStart(a, k) + WithStart(b, k)
    decreases |a|
  {
    if |a| == 0 {
      assert a + b == b;
    } else {
      var ab := a + b;
      assert ab[0] == a[0];
      assert ab[1..] == a[1..] + b;
      WithStartAppend(a[1..], b, k);
      var head := if a[0].start == k then [a[0]] else [];
      assert WithStart(ab, k) == head + WithStart(a[1..] + b, k);
      assert WithStart(a, k) == head + WithStart(a[1..], k);
    }
  }

  lemma {:induction false} InsertKeepsKeyOrder(sorted: seq<Interval>, x: Interval, k: int)
    ensures WithStart(InsertByStart(sorted, x), k) == WithStart(sorted, k) + WithStart([x], k)
    decreases |sorted|
  {
    if |sorted| == 0 {
      assert [x] + [] == [x];
    } else {
      var last := sorted[|sorted| - 1];
      var prefix := sorted[..|sorted| - 1];
      assert sorted == prefix + [last];
      if last.start <= x.start {
        WithStartAppend(sorted, [x], k);
      } else {
        InsertKeepsKeyOrder(prefix, x, k);
        WithStartAppend(InsertByStart(prefix, x), [last], k);
        WithStartAppend(prefix, [last], k);
      }
    }
  }

  /** Stability: intervals that share a start keep their input order. */
  lemma {:induction false} SortIsStable(s: seq<Interval>, k: int)
    ensures WithStart(SortByStart(s), k) == WithStart(s, k)
    decreases |s|
  {
    if |s| > 0 {
      SortIsStable(s[..|s| - 1], k);
      StableStep(SortByStart(s[..|s| - 1]), s, k);
    }
  }

  /** One insertion step keeps the per-start order of the input seen so far. */
  lemma StableStep(t: seq<Interval>, s: seq<Interval>, k: int)
    requires |s| > 0
    requires WithStart(t, k) == WithStart(s[..|s| - 1], k)
    ensures WithStart(InsertByStart(t, s[|s| - 1]), k) == WithStart(s, k)
  {
    var prefix := s[..|s| - 1];
    var x := s[|s| - 1];
    assert s == prefix + [x];
    InsertKeepsKeyOrder(t, x, k);
    WithStartAppend(prefix, [x], k);
    calc {
      WithStart(InsertByStart(t, x), k);
      WithStart(t, k) + WithStart([x], k);
      WithStart(prefix, k) + WithStart([x], k);
      WithStart(prefix + [x], k);
    }
  }

  /** Sorting input that is already sorted by start changes nothing. */
  lemma {:induction false} SortSortedIsIdentity(s: seq<Interval>)
    requires SortedByStart(s)
    ensures SortByStart(s) == s
    decreases |s|
  {
    if |s| > 0 {
      var prefix := s[..|s| - 1];
      assert s == prefix + [s[|s| - 1]];
      SortSortedIsIdentity(prefix);
    }
  }

  /** The sweep of the source's merge loop: `cur` is the accumulator
      (current_start, current_end) and `rest` the intervals not yet visited. */
  function Sweep(cur: Interval, rest: seq<Interval>): (r: seq<Interval>)
    ensures 1 <= |r| <= 1 + |rest|
    ensures r[0].start == cur.start
    ensures Gapped(r)
    decreases |rest|
  {
    if |rest| == 0 then [cur]
    else if rest[0].start <= cur.end then
      Sweep(Interval(cur.start, Max(cur.end, rest[0].end)), rest[1..])
    else
      [cur] + Sweep(rest[0], rest[1..])
  }

  lemma {:induction false} SweepSorted(cur: Interval, rest: seq<Interval>)
    requires SortedByStart(rest)
    requires forall i :: 0 <= i < |rest| ==> cur.start <= rest[i].start
    ensures SortedByStart(Sweep(cur, rest))
    decreases |rest|
  {
    if |rest| > 0 {
      if rest[0].start <= cur.end {
        SweepSorted(Interval(cur.start, Max(cur.end, rest[0].end)), rest[1..]);
      } else {
        SweepSorted(rest[0], rest[1..]);
        var t := Sweep(rest[0], rest[1..]);
        assert forall k :: 0 <= k < |t| ==> rest[0].start <= t[k].start by {
          forall k | 0 <= k < |t| ensures rest[0].start <= t[k].start {
            if k > 0 {
              assert t[0].start <= t[k].start;
            }
          }
        }
      }
    }
  }

  /** The sweep covers exactly the minutes of the accumulator and the rest. */
  lemma {:induction false} SweepCoverage(cur: Interval, rest: seq<Interval>)
    requires SortedByStart(rest)
    requires forall i :: 0 <= i < |rest| ==> cur.start <= rest[i].start
    ensures forall m :: Covers(Sweep(cur, rest), m) <==> Contains(cur, m) || Covers(rest, m)
    decreases |rest|
  {
    if |rest| == 0 {
      forall m ensures Covers([cur], m) <==> Contains(cur, m) {
        CoversCons(cur, [], m);
      }
      assert forall m :: !Covers(rest, m);
    } else if rest[0].start <= cur.end {
      var next := Interval(cur.start, Max(cur.end, rest[0].end));
      SweepCoverage(next, rest[1..]);
      forall m ensures Covers(Sweep(cur, rest), m) <==> Contains(cur, m) || Covers(rest, m) {
        CoversTail(rest, m);
      }
    } else {
      SweepCoverage(rest[0], rest[1..]);
      forall m ensures Covers(Sweep(cur, rest), m) <==> Contains(cur, m) || Covers(rest, m) {
        CoversCons(cur, Sweep(rest[0], rest[1..]), m);
        CoversTail(rest, m);
      }
    }
  }

  lemma {:induction false} SweepWellFormed(cur: Interval, rest: seq<Interval>)
    requires WellFormed(cur) && AllWellFormed(rest)
    ensures AllWellFormed(Sweep(cur, rest))
    decreases |rest|
  {
    if |rest| > 0 {
      if rest[0].start <= cur.end {
        SweepWellFormed(Interval(cur.start, Max(cur.end, rest[0].end)), rest[1..]);
      } else {
        SweepWellFormed(rest[0], rest[1..]);
      }
    }
  }

  lemma GapsSeparate(s: seq<Interval>)
    requires SortedByStart(s)
    requires Gapped(s)
    ensures Separated(s)
  {
    forall i, j | 0 <= i < j < |s| ensures s[i].end < s[j].start {
      assert s[i].end < s[i + 1].start;
    }
  }

  /** The merged busy list `merged_busy_slots` (avail.py, busy merge). */
  function MergeBusy(busy: seq<Interval>): (r: seq<Interval>)
    ensures |r| <= |busy|
    ensures |r| == 0 <==> |busy| == 0
    ensures SortedByStart(r)
    ensures Separated(r)
    ensures forall m :: Covers(r, m) <==> Covers(busy, m)
  {
    var sorted := SortByStart(busy);
    assert |sorted| == |multiset(sorted)| == |multiset(busy)| == |busy|;
    if |sorted| == 0 then
      assert forall m :: !Covers(busy, m);
      []
    else
      SweepSorted(sorted[0], sorted[1..]);
      SweepCoverage(sorted[0], sorted[1..]);
      GapsSeparate(Sweep(sorted[0], sorted[1..]));
      assert forall x :: x in sorted <==> x in busy by {
        forall x ensures x in sorted <==> x in busy {
          assert x in sorted <==> x in multiset(sorted);
        }
      }
      forall m ensures Covers(sorted, m) <==> Covers(busy, m) {
        CoversSameElements(sorted, busy, m);
        CoversTail(sorted, m);
      }
      Sweep(sorted[0], sorted[1..])
  }

  /** Merging an already merged list is a no-op. */
  lemma MergeIdempotent(busy: seq<Interval>)
    ensures MergeBusy(MergeBusy(busy)) == MergeBusy(busy)
  {
    MergeOfSeparatedIsIdentity(MergeBusy(busy));
  }

  /** A list that is already sorted and strictly separated is its own merge. */
  lemma MergeOfSeparatedIsIdentity(s: seq<Interval>)
    requires SortedByStart(s) && Separated(s)
    ensures MergeBusy(s) == s
  {
    if |s| > 0 {
      MergeOfSorted(s);
      assert Gapped(s);
      SweepGappedIsIdentity(s);
    }
  }

  /** Each interval ends strictly before its successor starts. */
  predicate Gapped(s: seq<Interval>) {
    forall k :: 0 <= k < |s| - 1 ==> s[k].end < s[k + 1].start
  }

  /** A sweep over intervals that are already strictly apart emits them unchanged. */
  lemma {:induction false} SweepGappedIsIdentity(s: seq<Interval>)
    requires |s| > 0 && Gapped(s)
    ensures Sweep(s[0], s[1..]) == s
    decreases |s|
  {
    if |s| > 1 {
      var t := s[1..];
      assert Gapped(t) by {
        forall k | 0 <= k < |t| - 1 ensures t[k].end < t[k + 1].start {
          assert t[k] == s[k + 1] && t[k + 1] == s[k + 2];
        }
      }
      SweepGappedIsIdentity(t);
      assert s == [s[0]] + t;
    } else {
      assert s == [s[0]];
    }
  }

  /** Merging proper spans yields proper spans. */
  lemma MergeWellFormed(busy: seq<Interval>)
    requires AllWellFormed(busy)
    ensures AllWellFormed(MergeBusy(busy))
  {
    var sorted := SortByStart(busy);
    assert |sorted| == |multiset(sorted)| == |multiset(busy)| == |busy|;
    if |sorted| > 0 {
      assert AllWellFormed(sorted) by {
        forall i | 0 <= i < |sorted| ensures WellFormed(sorted[i]) {
          assert sorted[i] in multiset(busy);
        }
      }
      SweepWellFormed(sorted[0], sorted[1..]);
    }
  }

  lemma {:induction false} SeparatedTailFollowsHead(s: seq<Interval>, m: int)
    requires |s| > 0 && Separated(s)
    ensures Covers(s[1..], m) ==> s[0].end < m
  {
  }

  lemma HeadStartCovered(s: seq<Interval>)
    requires |s| > 0 && WellFormed(s[0])
    ensures Covers(s, s[0].start)
  {
  }

  lemma FirstStartIsLeast(s: seq<Interval>, m: int)
    requires AllWellFormed(s) && Separated(s)
    requires Covers(s, m)
    ensures s[0].start <= m
  {
  }

  lemma HeadEndUncovered(s: seq<Interval>)
    requires |s| > 0 && Separated(s)
    ensures !Covers(s, s[0].end)
  {
  }

  /** A set of minutes has exactly one sorted, strictly separated list of
      proper spans covering it. */
  lemma {:induction false} SeparatedCoverIsUnique(a: seq<Interval>, b: seq<Interval>)
    requires AllWellFormed(a) && AllWellFormed(b)
    requires Separated(a) && Separated(b)
    requires forall m :: Covers(a, m) <==> Covers(b, m)
    ensures a == b
    decreases |a| + |b|
  {
    if |a| == 0 && |b| == 0 {
      return;
    }
    if |a| > 0 {
      HeadStartCovered(a);
    }
    if |b| > 0 {
      HeadStartCovered(b);
    }
    assert |a| > 0 && |b| > 0;
    FirstStartIsLeast(a, b[0].start);
    FirstStartIsLeast(b, a[0].start);
    HeadEndUncovered(a);
    HeadEndUncovered(b);
    assert !Contains(b[0], a[0].end);
    assert !Contains(a[0], b[0].end);
    forall m ensures Covers(a[1..], m) <==> Covers(b[1..], m) {
      CoversTail(a, m);
      CoversTail(b, m);
      SeparatedTailFollowsHead(a, m);
      SeparatedTailFollowsHead(b, m);
    }
    SeparatedCoverIsUnique(a[1..], b[1..]);
    assert a == [a[0]] + a[1..];
    assert b == [b[0]] + b[1..];
  }

  /** For proper spans the merge result does not depend on the order in which
      the providers delivered them. */
  lemma MergeOrderIndependent(x: seq<Interval>, y: seq<Interval>)
    requires multiset(x) == multiset(y)
    requires AllWellFormed(x)
    ensures MergeBusy(x) == MergeBusy(y)
  {
    assert forall v :: v in x <==> v in y by {
      forall v ensures v in x <==> v in y {
        assert v in x <==> v in multiset(x);
      }
    }
    assert AllWellFormed(y) by {
      forall i | 0 <= i < |y| ensures WellFormed(y[i]) {
        assert y[i] in x;
      }
    }
    MergeWellFormed(x);
    MergeWellFormed(y);
    forall m ensures Covers(MergeBusy(x), m) <==> Covers(MergeBusy(y), m) {
      CoversSameElements(x, y, m);
    }
    SeparatedCoverIsUnique(MergeBusy(x), MergeBusy(y));
  }

  /** The source keeps intervals whose start is not before their end; with
      such an interval in the input the order of equal starts decides the result. */
  lemma MergeOfSorted(s: seq<Interval>)
    requires |s| > 0 && SortedByStart(s)
    ensures MergeBusy(s) == Sweep(s[0], s[1..])
  {
    SortSortedIsIdentity(s);
  }

  lemma MalformedOrderMatters()
    ensures MergeBusy([Interval(5, 3), Interval(5, 10)]) == [Interval(5, 3), Interval(5, 10)]
    ensures MergeBusy([Interval(5, 10), Interval(5, 3)]) == [Interval(5, 10)]
  {
    MalformedFirstStaysApart();
    MalformedSecondIsAbsorbed();
  }

  lemma MalformedFirstStaysApart()
    ensures MergeBusy([Interval(5, 3), Interval(5, 10)]) == [Interval(5, 3), Interval(5, 10)]
  {
    var s := [Interval(5, 3), Interval(5, 10)];
    MergeOfSorted(s);
    assert s[1..] == [Interval(5, 10)];
    var tail := Sweep(Interval(5, 10), []);
    assert tail == [Interval(5, 10)];
    assert Sweep(s[0], s[1..]) == [s[0]] + tail;
  }

  lemma MalformedSecondIsAbsorbed()
    ensures MergeBusy([Interval(5, 10), Interval(5, 3)]) == [Interval(5, 10)]
  {
    var s := [Interval(5, 10), Interval(5, 3)];
    MergeOfSorted(s);
    assert s[1..] == [Interval(5, 3)];
    assert Sweep(Interval(5, 10), [Interval(5, 3)]) == Sweep(Interval(5, 10), []);
  }
}
