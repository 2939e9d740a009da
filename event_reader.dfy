/**
  `EventBaseReader`, the pure-Python reader of DAT/NPY event files: a cursor
  over a file of fixed-size events that loads a number of events or a slice
  of time, seeks to an event index or to a timestamp, and reports the file's
  duration.

  The file is its decoded events (`events`), the size of its header in bytes
  (`start`) and the size of one event in bytes (`evSize`); the file position is
  `start + cur * evSize`, `cur` being the number of events before it.
 */
module EventReader {
  import opened Wrappers
  import opened Events
  import opened Arith

  /** Python exceptions the reader lets escape. */
  datatype ReaderError =
    | ValueError    // `np.empty` with a negative size, or `delta_t < 1`
    | IndexError    // indexing the empty buffer of `load_n_events(-1)`
    | NegativeSeek  // seeking before the beginning of the file

  /** `batch` in `load_delta_t`: events read per chunk. */
  const Batch: nat := 100000

  predicate SortedInts(a: seq<int>) {
    forall i, j :: 0 <= i < j < |a| ==> a[i] <= a[j]
  }

  /** The timestamp of the last event, or 0 for an empty file. */
  function LastTime(events: seq<Event>): int {
    if events == [] then 0 else events[|events| - 1].t
  }

  // ---------------------------------------------------------------------------
  // numpy.searchsorted (side 'left')

  /** numpy's left binary search of `v` in `a[lo..hi]`. */
  function SearchSortedFrom(a: seq<int>, v: int, lo: nat, hi: nat): (r: nat)
    requires lo <= hi <= |a|
    ensures lo <= r <= hi
    decreases hi - lo
  {
    if lo >= hi then lo
    else
      var mid := lo + (hi - lo) / 2;
      if a[mid] < v then SearchSortedFrom(a, v, mid + 1, hi) else SearchSortedFrom(a, v, lo, mid)
  }

  /** `np.searchsorted(a, v)`. */
  function SearchSorted(a: seq<int>, v: int): (r: nat)
    ensures r <= |a|
  {
    SearchSortedFrom(a, v, 0, |a|)
  }

  lemma {:induction false} SearchSortedFromBrackets(a: seq<int>, v: int, lo: nat, hi: nat)
    requires SortedInts(a) && lo <= hi <= |a|
    requires forall i :: 0 <= i < lo ==> a[i] < v
    requires forall i :: hi <= i < |a| ==> a[i] >= v
    ensures forall i :: 0 <= i < SearchSortedFrom(a, v, lo, hi) ==> a[i] < v
    ensures forall i :: SearchSortedFrom(a, v, lo, hi) <= i < |a| ==> a[i] >= v
    decreases hi - lo
  {
    if lo < hi {
      var mid := lo + (hi - lo) / 2;
      if a[mid] < v {
        forall i | 0 <= i < mid + 1 ensures a[i] < v {
          assert a[i] <= a[mid];
        }
        SearchSortedFromBrackets(a, v, mid + 1, hi);
      } else {
        forall i | mid <= i < |a| ensures a[i] >= v {
          assert a[mid] <= a[i];
        }
        SearchSortedFromBrackets(a, v, lo, mid);
      }
    }
  }

  /** On sorted input `searchsorted` finds the first element not below `v`. */
  lemma SearchSortedIsLowerBound(a: seq<int>, v: int)
    requires SortedInts(a)
    ensures forall i :: 0 <= i < SearchSorted(a, v) ==> a[i] < v
    ensures forall i :: SearchSorted(a, v) <= i < |a| ==> a[i] >= v
  {
    SearchSortedFromBrackets(a, v, 0, |a|);
  }

  // ---------------------------------------------------------------------------
  // The binary search of seek_time

  /** How the binary search of `seek_time` ends: on an event whose timestamp
      is exactly the one sought, or with a window of at most `term` events. */
  datatype SearchEnd = Hit(middle: nat) | Window(low: nat, high: nat)

  function Bisect(ts: seq<int>, x: int, term: nat, low: nat, high: nat): (r: SearchEnd)
    requires low <= high <= |ts|
    ensures r.Hit? ==> low <= r.middle < high && ts[r.middle] == x
    ensures r.Window? ==> low <= r.low <= r.high <= high
    decreases high - low
  {
    if high - low <= term then Window(low, high)
    else
      var middle := (low + high) / 2;
      if ts[middle] > x then Bisect(ts, x, term, low, middle)
      else if ts[middle] < x then Bisect(ts, x, term, middle + 1, high)
      else Hit(middle)
  }

  /** The event index `seek_time(x, term)` leaves the cursor at, for
      0 < x <= the last timestamp: one past the match on an exact hit,
      otherwise the window's start plus `searchsorted` within the window. */
  function SeekTimeTarget(ts: seq<int>, x: int, term: nat): (r: nat)
    ensures r <= |ts|
  {
    match Bisect(ts, x, term, 0, |ts|)
    case Hit(m) => m + 1
    case Window(lo, hi) => lo + SearchSorted(ts[lo..hi], x)
  }

  /** A hit of the binary search is an event stamped exactly `x` inside the
      window searched. */
  lemma {:induction false} BisectHitMatches(ts: seq<int>, x: int, term: nat, low: nat, high: nat)
    requires low <= high <= |ts|
    ensures Bisect(ts, x, term, low, high).Hit? ==>
      && low <= Bisect(ts, x, term, low, high).middle < high
      && ts[Bisect(ts, x, term, low, high).middle] == x
    decreases high - low
  {
    if high - low > term {
      var middle := (low + high) / 2;
      assert low <= middle < high;
      if ts[middle] > x {
        BisectHitMatches(ts, x, term, low, middle);
      } else if ts[middle] < x {
        BisectHitMatches(ts, x, term, middle + 1, high);
      }
    }
  }

  /** On sorted timestamps the window the binary search ends with brackets
      `x`: everything before it is below `x`, everything after it above. */
  lemma {:induction false} BisectWindowBrackets(ts: seq<int>, x: int, term: nat, low: nat, high: nat)
    requires SortedInts(ts) && low <= high <= |ts|
    requires forall i :: 0 <= i < low ==> ts[i] < x
    requires forall i :: high <= i < |ts| ==> ts[i] > x
    ensures Bisect(ts, x, term, low, high).Window? ==>
      low <= Bisect(ts, x, term, low, high).low <= Bisect(ts, x, term, low, high).high <= high
    ensures Bisect(ts, x, term, low, high).Window? ==>
      forall i :: 0 <= i < Bisect(ts, x, term, low, high).low ==> ts[i] < x
    ensures Bisect(ts, x, term, low, high).Window? ==>
      forall i :: Bisect(ts, x, term, low, high).high <= i < |ts| ==> ts[i] > x
    decreases high - low
  {
    if high - low > term {
      var middle := (low + high) / 2;
      if ts[middle] > x {
        SortedAbove(ts, x, middle);
        assert Bisect(ts, x, term, low, high) == Bisect(ts, x, term, low, middle);
        BisectWindowBrackets(ts, x, term, low, middle);
      } else if ts[middle] < x {
        SortedBelow(ts, x, middle);
        assert Bisect(ts, x, term, low, high) == Bisect(ts, x, term, middle + 1, high);
        BisectWindowBrackets(ts, x, term, middle + 1, high);
      }
    }
  }

  /** On sorted timestamps, everything from a timestamp above `x` on is above `x`. */
  lemma SortedAbove(ts: seq<int>, x: int, k: nat)
    requires SortedInts(ts) && k < |ts| && ts[k] > x
    ensures forall i :: k <= i < |ts| ==> ts[i] > x
  {
    forall i | k <= i < |ts| ensures ts[i] > x {
      assert ts[k] <= ts[i];
    }
  }

  /** On sorted timestamps, everything up to a timestamp below `x` is below `x`. */
  lemma SortedBelow(ts: seq<int>, x: int, k: nat)
    requires SortedInts(ts) && k < |ts| && ts[k] < x
    ensures forall i :: 0 <= i <= k ==> ts[i] < x
  {
    forall i | 0 <= i <= k ensures ts[i] < x {
      assert ts[i] <= ts[k];
    }
  }

  /** On a sorted file `seek_time` either lands on the first event at or after
      `x`, or, after an exact hit, just past an event stamped exactly `x`. */
  lemma SeekTimeLowerBoundOrPastMatch(ts: seq<int>, x: int, term: nat)
    requires SortedInts(ts)
    ensures || ((forall i :: 0 <= i < SeekTimeTarget(ts, x, term) ==> ts[i] < x)
                && (forall i :: SeekTimeTarget(ts, x, term) <= i < |ts| ==> ts[i] >= x))
            || (0 < SeekTimeTarget(ts, x, term) && ts[SeekTimeTarget(ts, x, term) - 1] == x)
  {
    BisectHitMatches(ts, x, term, 0, |ts|);
    BisectWindowBrackets(ts, x, term, 0, |ts|);
    match Bisect(ts, x, term, 0, |ts|)
    case Hit(m) =>
      assert SeekTimeTarget(ts, x, term) == m + 1;
    case Window(lo, hi) =>
      WindowLowerBound(ts, x, lo, hi);
      assert SeekTimeTarget(ts, x, term) == lo + SearchSorted(ts[lo..hi], x);
  }

  /** Between a prefix below `x` and a suffix above it, `searchsorted` in the
      window completes the lower bound of `x`. */
  lemma WindowLowerBound(ts: seq<int>, x: int, lo: nat, hi: nat)
    requires SortedInts(ts) && lo <= hi <= |ts|
    requires forall i :: 0 <= i < lo ==> ts[i] < x
    requires forall i :: hi <= i < |ts| ==> ts[i] > x
    ensures var r := lo + SearchSorted(ts[lo..hi], x);
      (forall i :: 0 <= i < r ==> ts[i] < x) && (forall i :: r <= i < |ts| ==> ts[i] >= x)
  {
    var w := ts[lo..hi];
    assert SortedInts(w);
    SearchSortedIsLowerBound(w, x);
    var r := lo + SearchSorted(w, x);
    assert forall i :: lo <= i < hi ==> ts[i] == w[i - lo];
  }

  /** Without an event stamped exactly `x`, no hit is possible and `seek_time`
      lands on the first event at or after `x`. */
  lemma SeekTimeWithoutMatchIsLowerBound(ts: seq<int>, x: int, term: nat)
    requires SortedInts(ts)
    requires forall i :: 0 <= i < |ts| ==> ts[i] != x
    ensures var r := SeekTimeTarget(ts, x, term);
      (forall i :: 0 <= i < r ==> ts[i] < x) && (forall i :: r <= i < |ts| ==> ts[i] > x)
  {
    SeekTimeLowerBoundOrPastMatch(ts, x, term);
  }

  /** The exact-hit case skips the matching event: in [10, 20, 30], seeking 20
      with a window of 0 leaves the cursor at index 2 although the event at
      index 1 is stamped 20. */
  lemma SeekTimeExactHitSkipsMatch()
    ensures SeekTimeTarget([10, 20, 30], 20, 0) == 2
  {
    var ts := [10, 20, 30];
    assert Bisect(ts, 20, 0, 0, 3) == Hit(1);
  }

  /** Cutting the last of the batches read from `first` keeps the result a
      contiguous slice of the file. */
  lemma FlattenCut(init: seq<seq<Event>>, last: seq<Event>, idx: nat, events: seq<Event>, first: nat, lastStart: nat)
    requires first <= lastStart && idx <= |last| && lastStart + |last| <= |events|
    requires Flatten(init) == events[first..lastStart] && last == events[lastStart..lastStart + |last|]
    ensures Flatten(init + [last[..idx]]) == events[first..lastStart + idx]
  {
    assert last[..idx] == events[lastStart..lastStart + idx];
    FlattenExtend(init, last[..idx], events, first, lastStart, lastStart + idx);
  }

  // ---------------------------------------------------------------------------
  // The reading of load_delta_t

  /** Dropping the last of the batches that cover a slice of the file leaves
      the slice up to where that batch starts. */
  lemma FlattenInit(batches: seq<seq<Event>>, events: seq<Event>, first: nat, lastStart: nat, pos: nat)
    requires |batches| > 0 && first <= lastStart <= pos <= |events|
    requires Flatten(batches) == events[first..pos] && batches[|batches| - 1] == events[lastStart..pos]
    ensures Flatten(batches[..|batches| - 1]) == events[first..lastStart]
  {
    var init := batches[..|batches| - 1];
    assert Flatten(batches) == Flatten(init) + batches[|batches| - 1];
    assert events[first..pos] == events[first..lastStart] + events[lastStart..pos];
    assert Flatten(init) == events[first..pos][..lastStart - first];
  }

  /** Appending the batch that follows a contiguous slice of the file extends
      the slice. */
  lemma FlattenExtend(batches: seq<seq<Event>>, buffer: seq<Event>, events: seq<Event>, first: nat, pos: nat, next: nat)
    requires first <= pos <= next <= |events|
    requires Flatten(batches) == events[first..pos] && buffer == events[pos..next]
    ensures Flatten(batches + [buffer]) == events[first..next]
  {
    assert (batches + [buffer])[..|batches|] == batches;
    assert events[first..next] == events[first..pos] + events[pos..next];
  }

  /** Where a batch of `load_delta_t` that starts at `pos` ends; `batch` is
      the number of events read per chunk (`Batch` in `load_delta_t`). */
  function BatchEnd(events: seq<Event>, pos: nat, batch: nat): (e: nat)
    requires pos < |events| && batch > 0
    ensures pos < e <= |events|
  {
    Min(|events|, pos + batch)
  }

  /** Where the last batch `load_delta_t` reads from `pos` starts: batches are
      read until one ends at or after `expected`, or the file ends. */
  function LastBatchStart(events: seq<Event>, pos: nat, expected: int, batch: nat): (s: nat)
    requires pos < |events| && batch > 0
    ensures pos <= s < |events|
    decreases |events| - pos
  {
    var next := BatchEnd(events, pos, batch);
    if next == |events| || events[next - 1].t >= expected then pos
    else LastBatchStart(events, next, expected, batch)
  }

  /** A batch that ends below `expected` before the end of the file is
      followed by another. */
  lemma LastBatchStartNext(events: seq<Event>, pos: nat, expected: int, batch: nat)
    requires pos < |events| && batch > 0
    requires BatchEnd(events, pos, batch) < |events| && events[BatchEnd(events, pos, batch) - 1].t < expected
    ensures LastBatchStart(events, pos, expected, batch) == LastBatchStart(events, BatchEnd(events, pos, batch), expected, batch)
  {
  }

  /** A batch that reaches `expected` or the end of the file is the last. */
  lemma LastBatchStartHere(events: seq<Event>, pos: nat, expected: int, batch: nat)
    requires pos < |events| && batch > 0
    requires BatchEnd(events, pos, batch) == |events| || events[BatchEnd(events, pos, batch) - 1].t >= expected
    ensures LastBatchStart(events, pos, expected, batch) == pos
  {
  }

  /** The cursor after `load_delta_t` from `from` with `expected` =
      `current_time + delta_t`: the last batch is cut by `searchsorted`. */
  function DeltaTEnd(events: seq<Event>, from: nat, expected: int, batch: nat): (e: nat)
    requires from < |events| && batch > 0
    ensures from <= e <= |events|
  {
    var s := LastBatchStart(events, from, expected, batch);
    s + SearchSorted(Times(events[s..BatchEnd(events, s, batch)]), expected)
  }

  /** `current_time` after `load_delta_t`: `expected` when the last batch
      reached it, otherwise one past the last timestamp read. */
  function DeltaTTime(events: seq<Event>, from: nat, expected: int, batch: nat): int
    requires from < |events| && batch > 0
  {
    var e := BatchEnd(events, LastBatchStart(events, from, expected, batch), batch);
    if events[e - 1].t >= expected then expected else events[e - 1].t + 1
  }

  /** Every batch but the last ended below `expected`, and the last one ends
      at or after it or at the end of the file. */
  lemma {:induction false} LastBatchStartFacts(events: seq<Event>, pos: nat, expected: int, batch: nat)
    requires pos < |events| && batch > 0
    ensures LastBatchStart(events, pos, expected, batch) > pos ==> events[LastBatchStart(events, pos, expected, batch) - 1].t < expected
    ensures BatchEnd(events, LastBatchStart(events, pos, expected, batch), batch) == |events|
      || events[BatchEnd(events, LastBatchStart(events, pos, expected, batch), batch) - 1].t >= expected
    decreases |events| - pos
  {
    var next := BatchEnd(events, pos, batch);
    if !(next == |events| || events[next - 1].t >= expected) {
      LastBatchStartFacts(events, next, expected, batch);
    }
  }

  /** On a time-sorted file every event `load_delta_t` returns is stamped
      before `expected` = `current_time + delta_t`. */
  lemma LoadDeltaTBelow(events: seq<Event>, from: nat, expected: int, batch: nat)
    requires SortedByTime(events) && from < |events| && batch > 0
    ensures forall k :: from <= k < DeltaTEnd(events, from, expected, batch) ==> events[k].t < expected
  {
    var s := LastBatchStart(events, from, expected, batch);
    var e := BatchEnd(events, s, batch);
    var idx := SearchSorted(Times(events[s..e]), expected);
    assert DeltaTEnd(events, from, expected, batch) == s + idx;
    LastBatchStartFacts(events, from, expected, batch);
    DeltaTCut(events, from, s, e, expected, idx);
  }

  /** On a time-sorted file `load_delta_t` returns every such event: the
      event after the last one returned is stamped at or after `expected`. */
  lemma LoadDeltaTStops(events: seq<Event>, from: nat, expected: int, batch: nat)
    requires SortedByTime(events) && from < |events| && batch > 0
    ensures DeltaTEnd(events, from, expected, batch) < |events| ==> events[DeltaTEnd(events, from, expected, batch)].t >= expected
  {
    var s := LastBatchStart(events, from, expected, batch);
    var e := BatchEnd(events, s, batch);
    var idx := SearchSorted(Times(events[s..e]), expected);
    assert DeltaTEnd(events, from, expected, batch) == s + idx;
    LastBatchStartFacts(events, from, expected, batch);
    DeltaTCut(events, from, s, e, expected, idx);
  }

  /** The new `current_time` is the bound when events remain, and one past the
      last timestamp when the file ended first. */
  lemma LoadDeltaTTime(events: seq<Event>, from: nat, expected: int, batch: nat)
    requires SortedByTime(events) && from < |events| && batch > 0
    ensures DeltaTTime(events, from, expected, batch)
      == if DeltaTEnd(events, from, expected, batch) < |events| then expected else events[|events| - 1].t + 1
  {
    var s := LastBatchStart(events, from, expected, batch);
    var e := BatchEnd(events, s, batch);
    var idx := SearchSorted(Times(events[s..e]), expected);
    assert DeltaTEnd(events, from, expected, batch) == s + idx;
    LastBatchStartFacts(events, from, expected, batch);
    DeltaTCut(events, from, s, e, expected, idx);
    if s + idx == |events| {
      assert events[e - 1].t < expected;
    }
  }

  /** A slice of a time-sorted file has sorted timestamps. */
  lemma SortedSliceTimes(events: seq<Event>, lo: nat, hi: nat)
    requires SortedByTime(events) && lo <= hi <= |events|
    ensures SortedInts(Times(events[lo..hi]))
  {
    var ts := Times(events[lo..hi]);
    forall i, j | 0 <= i < j < |ts| ensures ts[i] <= ts[j] {
      assert ts[i] == events[lo + i].t && ts[j] == events[lo + j].t;
    }
  }

  /** In a time-sorted file, everything before an event below `x` is below `x`. */
  lemma SortedPrefixBelow(events: seq<Event>, first: nat, end: nat, x: int)
    requires SortedByTime(events) && first <= end <= |events|
    requires end > first ==> events[end - 1].t < x
    ensures forall k :: first <= k < end ==> events[k].t < x
  {
  }

  /** What `load_delta_t` makes of the batches it read: cutting the last one
      with `searchsorted` leaves the events up to `DeltaTEnd`, and the time
      it keeps is `DeltaTTime`. */
  lemma LoadedBatches(events: seq<Event>, first: nat, expected: int, batch: nat,
                      batches: seq<seq<Event>>, tmpTime: int, lastStart: nat)
    requires first < |events| && batch > 0 && lastStart == LastBatchStart(events, first, expected, batch)
    requires |batches| > 0
    requires Flatten(batches[..|batches| - 1]) == events[first..lastStart]
    requires batches[|batches| - 1] == events[lastStart..BatchEnd(events, lastStart, batch)]
    requires tmpTime == events[BatchEnd(events, lastStart, batch) - 1].t
    ensures (if tmpTime >= expected then expected else tmpTime + 1) == DeltaTTime(events, first, expected, batch)
    ensures Flatten(batches[..|batches| - 1] + [batches[|batches| - 1][..SearchSorted(Times(batches[|batches| - 1]), expected)]])
      == events[first..DeltaTEnd(events, first, expected, batch)]
  {
    var lastBatch := batches[|batches| - 1];
    var idx := SearchSorted(Times(lastBatch), expected);
    DeltaTParts(events, first, expected, batch, lastStart, lastBatch, idx);
    FlattenCut(batches[..|batches| - 1], lastBatch, idx, events, first, lastStart);
  }

  /** `DeltaTEnd` and `DeltaTTime` in terms of the last batch read. */
  lemma DeltaTParts(events: seq<Event>, first: nat, expected: int, batch: nat, lastStart: nat, lastBatch: seq<Event>, idx: nat)
    requires first < |events| && batch > 0 && lastStart == LastBatchStart(events, first, expected, batch)
    requires lastBatch == events[lastStart..BatchEnd(events, lastStart, batch)]
    requires idx == SearchSorted(Times(lastBatch), expected)
    ensures DeltaTEnd(events, first, expected, batch) == lastStart + idx
    ensures DeltaTTime(events, first, expected, batch)
      == if events[BatchEnd(events, lastStart, batch) - 1].t >= expected then expected
         else events[BatchEnd(events, lastStart, batch) - 1].t + 1
  {
  }

  /** Where `load_delta_t` cuts a sorted file: batches were read from `first`
      up to `pos`, the last one starting at `lastStart`, every event before it
      is below `expected`, and `searchsorted` cuts that last batch at the first
      event not before `expected`. */
  lemma DeltaTCut(events: seq<Event>, first: nat, lastStart: nat, pos: nat, expected: int, idx: nat)
    requires SortedByTime(events) && first <= lastStart < pos <= |events|
    requires lastStart > first ==> events[lastStart - 1].t < expected
    requires events[pos - 1].t >= expected || pos == |events|
    requires idx == SearchSorted(Times(events[lastStart..pos]), expected)
    ensures forall k :: first <= k < lastStart + idx ==> events[k].t < expected
    ensures lastStart + idx < |events| ==> events[lastStart + idx].t >= expected
    ensures lastStart + idx < |events| <==> events[pos - 1].t >= expected
  {
    SortedPrefixBelow(events, first, lastStart, expected);
    SliceLowerBound(events, lastStart, pos, expected);
    assert idx <= pos - lastStart;
    if lastStart + idx < pos {
      assert events[pos - 1].t >= expected;
    }
  }

  /** `searchsorted` over the timestamps of a slice of a time-sorted file
      splits the slice at the first event not before `x`. */
  lemma SliceLowerBound(events: seq<Event>, lo: nat, hi: nat, x: int)
    requires SortedByTime(events) && lo <= hi <= |events|
    ensures forall k :: lo <= k < lo + SearchSorted(Times(events[lo..hi]), x) ==> events[k].t < x
    ensures forall k :: lo + SearchSorted(Times(events[lo..hi]), x) <= k < hi ==> events[k].t >= x
  {
    SortedSliceTimes(events, lo, hi);
    var ts := Times(events[lo..hi]);
    SearchSortedIsLowerBound(ts, x);
    forall k | lo <= k < hi ensures events[k].t == ts[k - lo] {
    }
  }

  // ---------------------------------------------------------------------------
  // Byte positions

  lemma ScaledOrder(a: int, b: int, s: int)
    requires s > 0
    ensures a * s >= b * s <==> a >= b
  {
    if a >= b {
      assert a * s - b * s == (a - b) * s;
    } else {
      assert b * s - a * s == (b - a) * s;
    }
  }

  lemma ScaledQuotient(k: int, s: int)
    requires s > 0
    ensures (k * s) / s == k
  {
    var q, m := (k * s) / s, (k * s) % s;
    assert k * s == q * s + m && 0 <= m < s;
    assert (k - q) * s == m;
    if k - q >= 1 {
      ScaledOrder(k - q, 1, s);
    } else if k - q <= -1 {
      ScaledOrder(-1, k - q, s);
    }
  }

  class EventBaseReader {
    const events: seq<Event>
    /** `_start`: the byte offset of the first event. */
    const start: nat
    /** `_ev_size`: the bytes of one event. */
    const evSize: nat
    /** Events before the file position. */
    var cur: nat
    var currentTime: int
    var done: bool

    ghost predicate Valid()
      reads this`cur
    {
      evSize > 0 && cur <= |events|
    }

    /** `_end`: the size of the file. */
    function End(): int {
      start + |events| * evSize
    }

    /** `_file.tell()`. */
    function Tell(): int
      reads this`cur
    {
      start + cur * evSize
    }

    /** The `_file.tell() >= self._end` test of `done`. */
    lemma AtEnd()
      requires Valid()
      ensures Tell() >= End() <==> cur >= |events|
    {
      ScaledOrder(cur, |events|, evSize);
    }

    /** `event_count()`: `(_end - _start) // _ev_size` is the number of events. */
    function EventCount(): (n: int)
      requires evSize > 0
      ensures n == |events|
    {
      ScaledQuotient(|events|, evSize);
      (End() - start) / evSize
    }

    /** `current_event_index()`: `(tell() - _start) // _ev_size` is the number
        of events already consumed. */
    function CurrentEventIndex(): (i: int)
      requires Valid()
      reads this`cur
      ensures i == cur
    {
      ScaledQuotient(cur, evSize);
      (Tell() - start) / evSize
    }

    /** `__init__` after `open_file`: the cursor at the first event. */
    constructor (events: seq<Event>, start: nat, evSize: nat)
      requires evSize > 0
      ensures Valid()
      ensures this.events == events && this.start == start && this.evSize == evSize
      ensures cur == 0 && !done && currentTime == 0
    {
      this.events := events;
      this.start := start;
      this.evSize := evSize;
      cur := 0;
      done := false;
      currentTime := 0;
    }

    /** `reset()`. */
    method Reset()
      requires Valid()
      modifies this
      ensures Valid()
      ensures cur == 0 && !done && currentTime == 0
    {
      cur := 0;
      done := false;
      currentTime := 0;
    }

    /** `stream_events` / `np.fromfile`: reads `k` whole events at the cursor. */
    method ReadEvents(k: nat) returns (evs: seq<Event>)
      requires Valid() && cur + k <= |events|
      modifies this`cur
      ensures Valid()
      ensures evs == events[old(cur)..old(cur) + k] && cur == old(cur) + k
    {
      evs := events[cur..cur + k];
      cur := cur + k;
    }

    /** `load_n_events(n)`. */
    method LoadNEvents(n: int) returns (r: Result<seq<Event>, ReaderError>)
      requires Valid()
      modifies this
      ensures Valid()
      ensures n <= -2 ==> r == Err(ValueError) && unchanged(this)
      ensures n == -1 ==> r == Err(IndexError) && unchanged(this)
      // everything that is left, and the reader is done
      ensures n >= 0 && n >= |events| - old(cur) ==>
        && r == Ok(events[old(cur)..]) && cur == |events| && done
        && (old(cur) < |events| ==> currentTime == events[|events| - 1].t + 1)
      // n events; the time is that of the first event not loaded
      ensures 0 <= n < |events| - old(cur) ==>
        && r == Ok(events[old(cur)..old(cur) + n]) && cur == old(cur) + n
        && currentTime == events[cur].t && done == old(done)
    {
      if n < -1 {
        return Err(ValueError);
      }
      var pos := cur;
      var count := (End() - Tell()) / evSize;
      assert count == |events| - cur by {
        assert End() - Tell() == (|events| - cur) * evSize;
        ScaledQuotient(|events| - cur, evSize);
      }
      if n >= count {
        done := true;
        var evs := ReadEvents(count);
        if count > 0 {
          currentTime := evs[count - 1].t + 1;
        } else {
          // the last slot of an uninitialised buffer
          currentTime := *;
        }
        assert events[pos..pos + count] == events[pos..];
        return Ok(evs);
      } else {
        if n == -1 {
          // nothing is read, and indexing the empty buffer at -1 fails
          return Err(IndexError);
        }
        var evs := ReadEvents(n + 1);
        currentTime := evs[n].t;
        cur := pos + n;
        assert evs[..n] == events[pos..pos + n];
        return Ok(evs[..n]);
      }
    }

    /** `seek_event(n)`: clamps `n` to the file. */
    method SeekEvent(n: int) returns (r: Outcome<ReaderError>)
      requires Valid()
      modifies this
      ensures Valid()
      ensures n <= 0 ==> r == Pass && cur == 0 && currentTime == 0 && done == (|events| == 0)
      ensures 0 < n < |events| ==> r == Pass && cur == n && currentTime == events[n].t && !done
      ensures 0 < n && 0 < |events| <= n ==>
        r == Pass && cur == |events| && currentTime == events[|events| - 1].t + 1 && done
      // an empty file: one event before the start is either before the
      // beginning of the file or inside its header
      ensures 0 < n && |events| == 0 && start < evSize ==> r == Fail(NegativeSeek) && unchanged(this)
      ensures 0 < n && |events| == 0 && start >= evSize ==> r == Pass && cur == 0 && done
    {
      if n <= 0 {
        cur := 0;
        currentTime := 0;
      } else if n >= |events| {
        if |events| == 0 {
          if start < evSize {
            return Fail(NegativeSeek);
          }
          // the "event" read is the end of the header
          cur := 0;
          currentTime := *;
        } else {
          cur := |events| - 1;
          var evs := ReadEvents(1);
          currentTime := evs[0].t + 1;
        }
      } else {
        cur := n;
        var evs := ReadEvents(1);
        currentTime := evs[0].t;
        cur := n;
      }
      AtEnd();
      done := Tell() >= End();
      r := Pass;
    }

    /** `total_time()`: reads the last timestamp and restores the state. */
    method TotalTime() returns (time: int)
      requires Valid()
      modifies this
      ensures Valid()
      ensures time == LastTime(events)
      ensures cur == old(cur) && currentTime == old(currentTime) && done == old(done)
    {
      if |events| == 0 {
        return 0;
      }
      var pos, time0, done0 := cur, currentTime, done;
      var _ := SeekEvent(|events| - 1);
      var evs := ReadEvents(1);
      time := evs[0].t;
      cur, currentTime, done := pos, time0, done0;
    }

    /** `load_delta_t(delta_t)`. */
    method LoadDeltaT(deltaT: int) returns (r: Result<seq<Event>, ReaderError>)
      requires Valid()
      modifies this
      ensures Valid()
      ensures deltaT < 1 ==> r == Err(ValueError) && unchanged(this)
      ensures deltaT >= 1 && (old(done) || old(cur) == |events|) ==>
        r == Ok([]) && done && cur == old(cur) && currentTime == old(currentTime)
      ensures deltaT >= 1 && !old(done) && old(cur) < |events| ==>
        && cur == DeltaTEnd(events, old(cur), old(currentTime) + deltaT, Batch)
        && currentTime == DeltaTTime(events, old(cur), old(currentTime) + deltaT, Batch)
        && r == Ok(events[old(cur)..cur]) && done == (cur == |events|)
    {
      if deltaT < 1 {
        return Err(ValueError);
      }
      AtEnd();
      if done || Tell() >= End() {
        done := true;
        return Ok([]);
      }
      var events := LoadUntil(currentTime + deltaT, Batch);
      return Ok(events);
    }

    /** The body of `load_delta_t` once the cursor is known to be before the
        end: read the batches, cut the last one, update the time and `done`. */
    method LoadUntil(expected: int, batch: nat) returns (result: seq<Event>)
      requires Valid() && cur < |events| && currentTime < expected && batch > 0
      modifies this
      ensures Valid()
      ensures cur == DeltaTEnd(events, old(cur), expected, batch)
      ensures currentTime == DeltaTTime(events, old(cur), expected, batch)
      ensures result == events[old(cur)..cur] && done == (cur == |events|)
    {
      var first := cur;
      var batches, tmpTime, lastStart := ReadBatches(expected, batch);
      LoadedBatches(events, first, expected, batch, batches, tmpTime, lastStart);
      currentTime := if tmpTime >= expected then expected else tmpTime + 1;
      var init := batches[..|batches| - 1];
      var lastBatch := batches[|batches| - 1];
      var idx := SearchSorted(Times(lastBatch), expected);
      batches := init + [lastBatch[..idx]];
      result := Flatten(batches);
      cur := first + |result|;
      AtEnd();
      done := Tell() >= End();
    }

    /** The reading loop of `load_delta_t`: batches of at most `batch` events
        until one ends at or after `expected` or the file ends. */
    method ReadBatches(expected: int, batch: nat) returns (batches: seq<seq<Event>>, tmpTime: int, lastStart: nat)
      requires Valid() && cur < |events| && currentTime < expected && batch > 0
      modifies this`cur
      ensures Valid()
      ensures lastStart == LastBatchStart(events, old(cur), expected, batch)
      ensures cur == BatchEnd(events, lastStart, batch)
      ensures |batches| > 0
      ensures Flatten(batches[..|batches| - 1]) == events[old(cur)..lastStart]
      ensures batches[|batches| - 1] == events[lastStart..cur]
      ensures tmpTime == events[BatchEnd(events, lastStart, batch) - 1].t
    {
      // The first batch is always read: `current_time < expected` and the
      // cursor is before the end.
      var first := cur;
      var buffer := ReadBatch(batch);
      tmpTime := buffer[|buffer| - 1].t;
      batches := [buffer];
      lastStart := first;
      assert Flatten(batches) == Flatten([]) + buffer;
      batches, lastStart, tmpTime := ReadRest(first, batches, lastStart, tmpTime, expected, batch);
      ReadingDone(first, lastStart, batches, tmpTime, expected, batch);
    }

    /** The `while tmp_time < expected_time and pos < self._end` loop of
        `load_delta_t`. */
    method ReadRest(ghost first: nat, batches: seq<seq<Event>>, lastStart: nat, tmpTime: int, expected: int, batch: nat)
      returns (batches': seq<seq<Event>>, lastStart': nat, tmpTime': int)
      requires Reading(first, lastStart, batches, tmpTime, expected, batch)
      modifies this`cur
      ensures Reading(first, lastStart', batches', tmpTime', expected, batch)
      ensures tmpTime' >= expected || cur == |events|
    {
      batches', lastStart', tmpTime' := batches, lastStart, tmpTime;
      while tmpTime' < expected && cur < |events|
        invariant Reading(first, lastStart', batches', tmpTime', expected, batch)
        decreases |events| - cur
      {
        batches', lastStart', tmpTime' := ReadNextBatch(first, batches', lastStart', tmpTime', expected, batch);
      }
    }

    /** When the reading loop of `load_delta_t` stops, its last batch is the
        one `LastBatchStart` names and the others cover the file before it. */
    lemma ReadingDone(first: nat, lastStart: nat, batches: seq<seq<Event>>, tmpTime: int, expected: int, batch: nat)
      requires Reading(first, lastStart, batches, tmpTime, expected, batch)
      requires tmpTime >= expected || cur == |events|
      ensures Valid() && lastStart == LastBatchStart(events, first, expected, batch)
      ensures cur == BatchEnd(events, lastStart, batch)
      ensures |batches| > 0
      ensures Flatten(batches[..|batches| - 1]) == events[first..lastStart]
      ensures batches[|batches| - 1] == events[lastStart..cur]
      ensures tmpTime == events[BatchEnd(events, lastStart, batch) - 1].t
    {
      FlattenInit(batches, events, first, lastStart, cur);
      LastBatchStartHere(events, lastStart, expected, batch);
    }

    /** The state of the reading loop of `load_delta_t`: the batches read
        from `first` cover the file up to the cursor, the last one starts at
        `lastStart` and every earlier one ended below `expected`. */
    ghost predicate Reading(first: nat, lastStart: nat, batches: seq<seq<Event>>, tmpTime: int, expected: int, batch: nat)
      reads this`cur
    {
      && Valid() && batch > 0 && first <= lastStart < cur <= |events|
      && Flatten(batches) == events[first..cur]
      && |batches| > 0 && batches[|batches| - 1] == events[lastStart..cur]
      && cur == BatchEnd(events, lastStart, batch) && tmpTime == events[cur - 1].t
      && LastBatchStart(events, lastStart, expected, batch) == LastBatchStart(events, first, expected, batch)
    }

    /** One turn of the reading loop of `load_delta_t`. */
    method ReadNextBatch(ghost first: nat, batches: seq<seq<Event>>, lastStart: nat, tmpTime: int, expected: int, batch: nat)
      returns (batches': seq<seq<Event>>, lastStart': nat, tmpTime': int)
      requires Reading(first, lastStart, batches, tmpTime, expected, batch)
      requires tmpTime < expected && cur < |events|
      modifies this`cur
      ensures Reading(first, lastStart', batches', tmpTime', expected, batch)
      ensures old(cur) < cur
    {
      var pos := cur;
      var buffer := ReadBatch(batch);
      tmpTime' := buffer[|buffer| - 1].t;
      FlattenExtend(batches, buffer, events, first, pos, cur);
      assert BatchEnd(events, lastStart, batch) == pos < |events|;
      LastBatchStartNext(events, lastStart, expected, batch);
      batches' := batches + [buffer];
      lastStart' := pos;
    }

    /** One batch of `load_delta_t`: `min(batch, remaining)` events. */
    method ReadBatch(batch: nat) returns (buffer: seq<Event>)
      requires Valid() && cur < |events| && batch > 0
      modifies this`cur
      ensures Valid() && cur == BatchEnd(events, old(cur), batch)
      ensures buffer == events[old(cur)..cur] && |buffer| > 0
      ensures buffer[|buffer| - 1].t == events[cur - 1].t
    {
      var next := Min(|events|, cur + batch);
      buffer := ReadEvents(next - cur);
    }

    /** `seek_time(expected_time, term_criterion)`. */
    method SeekTime(expected: int, term: nat)
      requires Valid()
      modifies this
      ensures Valid()
      ensures expected > LastTime(events) ==> cur == |events| && done && currentTime == LastTime(events) + 1
      ensures expected <= 0 && expected <= LastTime(events) ==> cur == 0 && !done && currentTime == 0
      ensures 0 < expected <= LastTime(events) ==>
        && cur == SeekTimeTarget(Times(events), expected, term)
        && currentTime == expected && done == (cur == |events|)
    {
      var total := TotalTime();
      if expected > total {
        cur := |events|;
        done := true;
        var total' := TotalTime();
        currentTime := total' + 1;
        return;
      }
      if expected <= 0 {
        Reset();
        return;
      }
      var end := Bisection(expected, term);
      if end.Hit? {
        currentTime := expected;
        AtEnd();
        done := Tell() >= End();
        return;
      }
      var low, high := end.low, end.high;
      var _ := SeekEvent(low);
      var finalBuffer := ReadEvents(high - low);
      assert Times(finalBuffer) == Times(events)[low..high];
      var finalIndex := SearchSorted(Times(finalBuffer), expected);
      var _ := SeekEvent(low + finalIndex);
      currentTime := expected;
      AtEnd();
      done := Tell() >= End();
    }

    /** The binary-search loop of `seek_time`: it reads one event at the
        middle of the window and stops on an exact hit, leaving the cursor
        just past it, or once the window holds at most `term` events. */
    method Bisection(expected: int, term: nat) returns (end: SearchEnd)
      requires Valid()
      modifies this
      ensures Valid()
      ensures end == Bisect(Times(events), expected, term, 0, |events|)
      ensures end.Hit? ==> cur == end.middle + 1
      ensures end.Window? ==> end.low <= end.high <= |events|
    {
      ghost var ts := Times(events);
      var low, high := 0, |events|;
      while high - low > term
        invariant Valid() && 0 <= low <= high <= |events|
        invariant Bisect(ts, expected, term, low, high) == Bisect(ts, expected, term, 0, |events|)
        decreases high - low
      {
        var middle := (low + high) / 2;
        var _ := SeekEvent(middle);
        var mid := ReadEvents(1);
        if mid[0].t > expected {
          high := middle;
        } else if mid[0].t < expected {
          low := middle + 1;
        } else {
          return Hit(middle);
        }
      }
      return Window(low, high);
    }
  }
}
