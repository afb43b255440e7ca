/**
  Instants and intervals of the availability checker.

  Every instant is a whole number of minutes in one fixed timezone; the
  checker never mixes zones once the busy data reaches the interval core.
  An interval is the half-open span [start, end). The core never rejects an
  interval whose start is not before its end, so `Interval` admits them and
  `WellFormed` names the ones that are proper spans.
 */
module Intervals {

  datatype Interval = Interval(start: int, end: int)

  datatype Option<T> = None | Some(value: T)

  /** A value, or the message the checker reports instead of computing one. */
  datatype Result<T> = Ok(value: T) | Err(message: string)

  function Max(a: int, b: int): int {
    if a < b then b else a
  }

  predicate WellFormed(iv: Interval) {
    iv.start < iv.end
  }

  predicate AllWellFormed(s: seq<Interval>) {
    forall i :: 0 <= i < |s| ==> WellFormed(s[i])
  }

  /** Minute `m` lies in `iv` (half-open). */
  predicate Contains(iv: Interval, m: int) {
    iv.start <= m < iv.end
  }

  /** Minute `m` lies in some interval of `s`. */
  predicate Covers(s: seq<Interval>, m: int) {
    exists i :: 0 <= i < |s| && Contains(s[i], m)
  }

  /** The overlap test the checker uses everywhere: two spans overlap unless
      one ends at or before the other starts (touching is not overlap). */
  predicate Overlaps(a: Interval, b: Interval) {
    !(a.end <= b.start || a.start >= b.end)
  }

  predicate SortedByStart(s: seq<Interval>) {
    forall i, j :: 0 <= i < j < |s| ==> s[i].start <= s[j].start
  }

  /** Every interval ends strictly before any later one starts. */
  predicate Separated(s: seq<Interval>) {
    forall i, j :: 0 <= i < j < |s| ==> s[i].end < s[j].start
  }

  /** Every interval ends at or before any later one starts (touching allowed). */
  predicate Ordered(s: seq<Interval>) {
    forall i, j :: 0 <= i < j < |s| ==> s[i].end <= s[j].start
  }

  /** No interval ends exactly where its successor starts. */
  predicate NeverTouch(s: seq<Interval>) {
    forall k :: 0 <= k < |s| - 1 ==> s[k].end != s[k + 1].start
  }

  /** `xs` is `ys` with some elements removed, order kept. */
  predicate IsSubsequence<T(==)>(xs: seq<T>, ys: seq<T>)
    decreases |ys|
  {
    if |xs| == 0 then true
    else if |ys| == 0 then false
    else if xs[0] == ys[0] then IsSubsequence(xs[1..], ys[1..])
    else IsSubsequence(xs, ys[1..])
  }

  /** Dropping the first element of a subsequence leaves a subsequence. */
  lemma {:induction false} SubsequenceDropHead<T>(xs: seq<T>, ys: seq<T>)
    requires |xs| > 0 && IsSubsequence(xs, ys)
    ensures IsSubsequence(xs[1..], ys)
    decreases |ys|, 1
  {
    if xs[0] == ys[0] {
      SubsequenceSkip(xs[1..], ys);
    } else {
      SubsequenceDropHead(xs, ys[1..]);
      SubsequenceSkip(xs[1..], ys);
    }
  }

  /** A subsequence of the tail of `ys` is a subsequence of `ys`. */
  lemma {:induction false} SubsequenceSkip<T>(xs: seq<T>, ys: seq<T>)
    requires |ys| > 0 && IsSubsequence(xs, ys[1..])
    ensures IsSubsequence(xs, ys)
    decreases |ys|, 0
  {
    if |xs| > 0 && xs[0] == ys[0] {
      SubsequenceDropHead(xs, ys[1..]);
    }
  }

  /** Putting a proper span in front of ordered proper spans that start after it ends. */
  lemma OrderedCons(h: Interval, t: seq<Interval>)
    requires WellFormed(h) && AllWellFormed(t) && Ordered(t)
    requires forall j :: 0 <= j < |t| ==> h.end <= t[j].start
    ensures AllWellFormed([h] + t) && Ordered([h] + t)
  {
    var r := [h] + t;
    forall i | 0 <= i < |r| ensures WellFormed(r[i]) {
      if i > 0 {
        assert r[i] == t[i - 1];
      }
    }
    forall i, j | 0 <= i < j < |r| ensures r[i].end <= r[j].start {
      assert r[j] == t[j - 1];
      if i > 0 {
        assert r[i] == t[i - 1];
      }
    }
  }

  /** Putting a proper span in front of separated proper spans that start after it ends. */
  lemma SeparatedCons(h: Interval, t: seq<Interval>)
    requires WellFormed(h) && AllWellFormed(t) && Separated(t)
    requires forall j :: 0 <= j < |t| ==> h.end < t[j].start
    ensures AllWellFormed([h] + t) && Separated([h] + t)
  {
    var r := [h] + t;
    forall i | 0 <= i < |r| ensures WellFormed(r[i]) {
      if i > 0 {
        assert r[i] == t[i - 1];
      }
    }
    forall i, j | 0 <= i < j < |r| ensures r[i].end < r[j].start {
      assert r[j] == t[j - 1];
      if i > 0 {
        assert r[i] == t[i - 1];
      }
    }
  }

  /** In an ordered list, anything after the head starts no earlier than the head ends. */
  lemma OrderedAfterHead(s: seq<Interval>, x: Interval)
    requires |s| > 0 && Ordered(s) && x in s[1..]
    ensures s[0].end <= x.start
  {
    var i :| 0 <= i < |s[1..]| && s[1..][i] == x;
    assert s[i + 1] == x;
  }

  /** For proper spans the source's overlap test means exactly "they share a minute". */
  lemma OverlapIffSharedMinute(a: Interval, b: Interval)
    requires WellFormed(a) && WellFormed(b)
    ensures Overlaps(a, b) <==> exists m :: Contains(a, m) && Contains(b, m)
  {
    if Overlaps(a, b) {
      var m := Max(a.start, b.start);
      assert Contains(a, m) && Contains(b, m);
    }
  }

  lemma CoversCons(x: Interval, t: seq<Interval>, m: int)
    ensures Covers([x] + t, m) <==> Contains(x, m) || Covers(t, m)
  {
    var s := [x] + t;
    assert s[0] == x;
    if Covers(t, m) {
      var i :| 0 <= i < |t| && Contains(t[i], m);
      assert s[i + 1] == t[i];
    }
    if Covers(s, m) {
      var i :| 0 <= i < |s| && Contains(s[i], m);
      if i > 0 {
        assert t[i - 1] == s[i];
      }
    }
  }

  lemma CoversTail(s: seq<Interval>, m: int)
    requires |s| > 0
    ensures Covers(s, m) <==> Contains(s[0], m) || Covers(s[1..], m)
  {
  }

  /** Coverage depends only on which intervals occur, not on their order or multiplicity. */
  lemma CoversSameElements(a: seq<Interval>, b: seq<Interval>, m: int)
    requires forall x :: x in a <==> x in b
    ensures Covers(a, m) <==> Covers(b, m)
  {
    if Covers(a, m) {
      var i :| 0 <= i < |a| && Contains(a[i], m);
      assert a[i] in b;
      var j :| 0 <= j < |b| && b[j] == a[i];
    }
    if Covers(b, m) {
      var j :| 0 <= j < |b| && Contains(b[j], m);
      assert b[j] in a;
      var i :| 0 <= i < |a| && a[i] == b[j];
    }
  }
}
