/**
  The range predicates of `load_cache`: a cached provider response is used
  only when the range it was fetched for covers the requested range, and
  then only the events overlapping the requested range are handed back.
  Reading the file, its age and its metadata are not modelled; an entry
  stands for a cache file whose metadata was present and fresh.
 */
module Cache {
  import opened Intervals

  /** A cached response: the range it was fetched for and its events, in file order. */
  datatype CacheEntry = CacheEntry(rangeStart: int, rangeEnd: int, events: seq<Interval>)

  /** `cache_start <= start_time and cache_end >= end_time` */
  predicate CoversRange(entry: CacheEntry, start: int, end: int) {
    entry.rangeStart <= start && entry.rangeEnd >= end
  }

  /** `filtered_events`: the events overlapping [start, end), in their order,
      each as many times as it occurs in the cache. */
  function EventsInRange(events: seq<Interval>, start: int, end: int): (r: seq<Interval>)
    ensures forall e :: e in r <==> e in events && !(e.end <= start || e.start >= end)
    ensures forall e :: multiset(r)[e] == if Overlaps(e, Interval(start, end)) then multiset(events)[e] else 0
    ensures IsSubsequence(r, events)
    decreases |events|
  {
    if |events| == 0 then []
    else
      var t := EventsInRange(events[1..], start, end);
      assert events == [events[0]] + events[1..];
      if Overlaps(events[0], Interval(start, end)) then
        [events[0]] + t
      else
        SubsequenceSkip(t, events);
        t
  }

  /** The cache lookup: the overlapping events when the entry covers the range, else a miss. */
  function LoadCachedRange(entry: CacheEntry, start: int, end: int): (r: Option<seq<Interval>>)
    ensures r.Some? <==> entry.rangeStart <= start && entry.rangeEnd >= end
    ensures r.Some? ==> forall e :: e in r.value <==> e in entry.events && Overlaps(e, Interval(start, end))
    ensures r.Some? ==> forall e ::
      multiset(r.value)[e] == if Overlaps(e, Interval(start, end)) then multiset(entry.events)[e] else 0
    ensures r.Some? ==> IsSubsequence(r.value, entry.events)
  {
    if CoversRange(entry, start, end) then Some(EventsInRange(entry.events, start, end)) else None
  }

  /** On a hit no busy minute of the requested range is lost, and none outside
      the cached events is invented. */
  lemma CacheHitKeepsBusyMinutes(entry: CacheEntry, start: int, end: int, m: int)
    requires CoversRange(entry, start, end)
    requires start <= m < end
    ensures Covers(LoadCachedRange(entry, start, end).value, m) <==> Covers(entry.events, m)
  {
  }
}
