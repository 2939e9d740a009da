/**
  The computations of the `metavision_raw_info` application: the
  human-readable rendering of a duration in microseconds, and the per-type
  statistics (event count, first and last timestamp) accumulated by the CD and
  external-trigger callbacks, from which the duration and the printed rows
  follow.
 */
module RawInfo {
  import opened Decimal
  import opened Events
  import opened Arith

  /** `std::numeric_limits<timestamp>::max()`. */
  const Int64Max: int := 0x7FFF_FFFF_FFFF_FFFF

  /** Microseconds in 365 days: the largest span `human_readable_time` renders whole. */
  const YearUs: int := 365 * 24 * 60 * 60 * 1000 * 1000

  /** C++ integer division, truncating toward zero. */
  function CDiv(a: int, b: int): int
    requires b > 0
  {
    if a >= 0 then a / b else -((-a) / b)
  }

  /** C++ `%`: the remainder takes the sign of the dividend. */
  function CMod(a: int, b: int): int
    requires b > 0
  {
    if a >= 0 then a % b else -((-a) % b)
  }

  const Units: seq<string> := ["d", "h", "m", "s", "ms", "us"]

  /** The six values `human_readable_time` stores in `vs`, days first. */
  function Components(t: int): (vs: seq<int>)
    ensures |vs| == 6
  {
    var t1 := CDiv(t, 1000);
    var t2 := CDiv(t1, 1000);
    var t3 := CDiv(t2, 60);
    var t4 := CDiv(t3, 60);
    var t5 := CDiv(t4, 24);
    [CMod(t5, 365), CMod(t4, 24), CMod(t3, 60), CMod(t2, 60), CMod(t1, 1000), CMod(t, 1000)]
  }

  function Piece(v: int, unit: string): string {
    IntToString(v) + unit + " "
  }

  /** The pieces for components `i` to 5. */
  function RenderFrom(vs: seq<int>, i: nat): string
    requires |vs| == 6 && i <= 6
    decreases 6 - i
  {
    if i == 6 then "" else Piece(vs[i], Units[i]) + RenderFrom(vs, i + 1)
  }

  /** Index of the first nonzero component at or after `i`, or 6. */
  function FirstNonZero(vs: seq<int>, i: nat): (k: nat)
    requires |vs| == 6 && i <= 6
    ensures i <= k <= 6
    ensures forall j :: i <= j < k ==> vs[j] == 0
    ensures k < 6 ==> vs[k] != 0
    decreases 6 - i
  {
    if i == 6 || vs[i] != 0 then i else FirstNonZero(vs, i + 1)
  }

  function Render(vs: seq<int>): string
    requires |vs| == 6
  {
    RenderFrom(vs, FirstNonZero(vs, 0))
  }

  /** `human_readable_time(t)`: fills the six components, skips the leading
      zero ones and prints the rest with their units. */
  method HumanReadableTime(t: int) returns (out: string)
    ensures out == Render(Components(t))
  {
    var vs := SplitDuration(t);
    ghost var cs := vs[..];
    var i := 0;
    while i < 6 && vs[i] == 0
      invariant 0 <= i <= 6 && vs[..] == cs
      invariant forall j :: 0 <= j < i ==> cs[j] == 0
    {
      i := i + 1;
    }
    ghost var first := i;
    assert first == FirstNonZero(cs, 0) by {
      FirstNonZeroIsFirst(cs, 0, first);
    }
    out := "";
    while i < 6
      invariant first <= i <= 6 && vs[..] == cs
      invariant out + RenderFrom(cs, i) == RenderFrom(cs, first)
    {
      assert vs[i] == cs[i];
      StringAssoc(out, Piece(cs[i], Units[i]), RenderFrom(cs, i + 1));
      out := out + Piece(vs[i], Units[i]);
      i := i + 1;
    }
  }

  /** The first half of `human_readable_time`: repeated remainder and
      truncating division store the components in a fresh array. */
  method SplitDuration(t: int) returns (vs: array<int>)
    ensures fresh(vs) && vs.Length == 6
    ensures vs[..] == Components(t)
  {
    vs := new int[6];
    var t1 := CDiv(t, 1000);
    var t2 := CDiv(t1, 1000);
    var t3 := CDiv(t2, 60);
    var t4 := CDiv(t3, 60);
    var t5 := CDiv(t4, 24);
    vs[5] := CMod(t, 1000);
    vs[4] := CMod(t1, 1000);
    vs[3] := CMod(t2, 60);
    vs[2] := CMod(t3, 60);
    vs[1] := CMod(t4, 24);
    vs[0] := CMod(t5, 365);
  }

  lemma StringAssoc(a: string, b: string, c: string)
    ensures a + (b + c) == (a + b) + c
  {
  }

  lemma {:induction false} FirstNonZeroIsFirst(vs: seq<int>, i: nat, k: nat)
    requires |vs| == 6 && i <= k <= 6
    requires forall j :: i <= j < k ==> vs[j] == 0
    requires k < 6 ==> vs[k] != 0
    ensures FirstNonZero(vs, i) == k
    decreases 6 - i
  {
    if i < k {
      FirstNonZeroIsFirst(vs, i + 1, k);
    }
  }

  lemma CDivOfNegation(a: int, b: int)
    requires b > 0
    ensures CDiv(-a, b) == -CDiv(a, b) && CMod(-a, b) == -CMod(a, b)
  {
  }

  /** Truncating division makes the rendering of `-t` the rendering of `t`
      with every component negated. */
  lemma ComponentsOfNegation(t: int)
    ensures forall i :: 0 <= i < 6 ==> Components(-t)[i] == -Components(t)[i]
  {
    var t1 := CDiv(t, 1000);
    var t2 := CDiv(t1, 1000);
    var t3 := CDiv(t2, 60);
    var t4 := CDiv(t3, 60);
    var t5 := CDiv(t4, 24);
    CDivOfNegation(t, 1000);
    CDivOfNegation(t1, 1000);
    CDivOfNegation(t2, 60);
    CDivOfNegation(t3, 60);
    CDivOfNegation(t4, 24);
    CDivOfNegation(t5, 365);
    assert Components(t) == [CMod(t5, 365), CMod(t4, 24), CMod(t3, 60), CMod(t2, 60), CMod(t1, 1000), CMod(t, 1000)];
    assert Components(-t) == [CMod(-t5, 365), CMod(-t4, 24), CMod(-t3, 60), CMod(-t2, 60), CMod(-t1, 1000), CMod(-t, 1000)];
  }

  /** For a non-negative duration every component lies in its unit's range. */
  lemma ComponentBounds(t: int)
    requires t >= 0
    ensures var vs := Components(t);
      && 0 <= vs[0] < 365 && 0 <= vs[1] < 24 && 0 <= vs[2] < 60
      && 0 <= vs[3] < 60 && 0 <= vs[4] < 1000 && 0 <= vs[5] < 1000
  {
  }

  /** Below 365 days the components recompose exactly to the duration. */
  lemma Recompose(t: int)
    requires 0 <= t < YearUs
    ensures var vs := Components(t);
      vs[0] * 86_400_000_000 + vs[1] * 3_600_000_000 + vs[2] * 60_000_000
        + vs[3] * 1_000_000 + vs[4] * 1000 + vs[5] == t
  {
    var t1 := t / 1000;
    var t2 := t1 / 1000;
    var t3 := t2 / 60;
    var t4 := t3 / 60;
    var t5 := t4 / 24;
    assert t == t1 * 1000 + t % 1000;
    assert t1 == t2 * 1000 + t1 % 1000;
    assert t2 == t3 * 60 + t2 % 60;
    assert t3 == t4 * 60 + t3 % 60;
    assert t4 == t5 * 24 + t4 % 24;
    assert t5 < 365 by {
      assert t1 * 1000 <= t;
      assert t2 * 1000 <= t1;
      assert t3 * 60 <= t2;
      assert t4 * 60 <= t3;
      assert t5 * 24 <= t4;
      assert t5 * 86_400_000_000 <= t;
    }
    assert t5 % 365 == t5;
  }

  lemma AllZeroRendersEmpty(vs: seq<int>)
    requires |vs| == 6
    ensures Render(vs) == "" <==> forall i :: 0 <= i < 6 ==> vs[i] == 0
  {
    var k := FirstNonZero(vs, 0);
    if k < 6 {
      assert Render(vs) == Piece(vs[k], Units[k]) + RenderFrom(vs, k + 1);
    }
  }

  /** Within a year either way, the rendering is empty exactly for zero. */
  lemma RendersEmptyIffZero(t: int)
    requires -YearUs < t < YearUs
    ensures Render(Components(t)) == "" <==> t == 0
  {
    AllZeroRendersEmpty(Components(t));
    if t > 0 {
      Recompose(t);
    } else if t < 0 {
      Recompose(-t);
      ComponentsOfNegation(t);
      assert Components(t) == Components(-(-t));
      ComponentsOfNegation(-t);
    }
  }

  /** The rendering skips the leading zero components and starts at the most
      significant nonzero one. */
  lemma RenderStartsAtLeadingComponent(vs: seq<int>, k: nat)
    requires |vs| == 6 && k < 6 && vs[k] != 0
    requires forall j :: 0 <= j < k ==> vs[j] == 0
    ensures Render(vs) == IntToString(vs[k]) + Units[k] + " " + RenderFrom(vs, k + 1)
  {
    FirstNonZeroIsFirst(vs, 0, k);
  }

  /** Day counts wrap at 365: a duration of exactly one year renders as nothing. */
  lemma OneYearRendersEmpty()
    ensures Render(Components(YearUs)) == ""
  {
    assert CDiv(YearUs, 1000) == 31_536_000_000;
    assert CDiv(31_536_000_000, 1000) == 31_536_000;
    assert CDiv(31_536_000, 60) == 525_600;
    assert CDiv(525_600, 60) == 8760;
    assert CDiv(8760, 24) == 365;
    var vs := Components(YearUs);
    assert vs == [0, 0, 0, 0, 0, 0];
    AllZeroRendersEmpty(vs);
  }

  /** A duration under one millisecond, negative ones included, splits into
      zero days, hours, minutes, seconds and milliseconds, and its microseconds. */
  lemma SubMillisecondComponents(t: int)
    requires -1000 < t < 1000
    ensures Components(t) == [0, 0, 0, 0, 0, t]
  {
    assert CDiv(t, 1000) == 0;
  }

  /** A duration under one millisecond, negative ones included, renders as its
      microseconds alone; with no event of any type the duration stays -1 and
      renders as "-1us ". */
  lemma SubMillisecondRendering(t: int)
    requires -1000 < t < 1000 && t != 0
    ensures Render(Components(t)) == IntToString(t) + "us "
  {
    var vs := Components(t);
    SubMillisecondComponents(t);
    FirstNonZeroIsFirst(vs, 0, 5);
  }

  // ---------------------------------------------------------------------------
  // Per-type statistics

  /** Event types, indexes into the statistics arrays. */
  const CD: nat := 0
  const ExtTrigger: nat := 1
  const TypeCount: nat := 2

  /** What the statistics arrays hold for one event type. */
  datatype TypeStats = TypeStats(numEvents: int, firstTs: int, lastTs: int)

  const InitialStats: TypeStats := TypeStats(0, Int64Max, -1)

  /** One callback invocation on a non-empty decoded buffer. */
  function Accumulate(s: TypeStats, batch: seq<Event>): TypeStats
    requires |batch| > 0
  {
    TypeStats(s.numEvents + |batch|, Min(s.firstTs, batch[0].t), Max(s.lastTs, batch[|batch| - 1].t))
  }

  /** The statistics after a sequence of callback invocations. */
  function AccumulateAll(s: TypeStats, batches: seq<seq<Event>>): TypeStats
    requires forall i :: 0 <= i < |batches| ==> |batches[i]| > 0
  {
    if batches == [] then s
    else Accumulate(AccumulateAll(s, batches[..|batches| - 1]), batches[|batches| - 1])
  }

  /** For a time-sorted stream of timestamps in [0, INT64_MAX], delivered in
      non-empty buffers, the statistics are the stream's length, its first
      timestamp and its last timestamp. */
  lemma {:induction false} AccumulateSortedStream(batches: seq<seq<Event>>)
    requires forall i :: 0 <= i < |batches| ==> |batches[i]| > 0
    requires SortedByTime(Flatten(batches))
    requires forall e :: e in Flatten(batches) ==> 0 <= e.t <= Int64Max
    ensures AccumulateAll(InitialStats, batches)
      == if Flatten(batches) == [] then InitialStats
         else TypeStats(|Flatten(batches)|, Flatten(batches)[0].t, Flatten(batches)[|Flatten(batches)| - 1].t)
  {
    if batches != [] {
      var init := batches[..|batches| - 1];
      var last := batches[|batches| - 1];
      var before := Flatten(init);
      assert Flatten(batches) == before + last;
      StreamSplit(before, last);
      AccumulateSortedStream(init);
      AccumulateExtends(before, last);
    }
  }

  /** What a sorted stream with timestamps in range says about its
      prefix and its last buffer. */
  lemma StreamSplit(before: seq<Event>, last: seq<Event>)
    requires |last| > 0 && SortedByTime(before + last)
    requires forall e :: e in before + last ==> 0 <= e.t <= Int64Max
    ensures SortedByTime(before)
    ensures forall e :: e in before ==> 0 <= e.t <= Int64Max
    ensures before == [] ==> last[0].t <= Int64Max && last[|last| - 1].t >= 0
    ensures before != [] ==> before[0].t <= last[0].t && before[|before| - 1].t <= last[|last| - 1].t
  {
    var all := before + last;
    SortedPrefix(before, last);
    assert last[0] == all[|before|] && last[|last| - 1] == all[|all| - 1];
    assert last[0] in all && last[|last| - 1] in all;
    if before != [] {
      assert all[0] == before[0] && all[|before| - 1] == before[|before| - 1];
    }
  }

  /** A prefix of a time-sorted sequence is time-sorted. */
  lemma SortedPrefix(a: seq<Event>, b: seq<Event>)
    requires SortedByTime(a + b)
    ensures SortedByTime(a)
  {
    forall i, j | 0 <= i < j < |a| ensures a[i].t <= a[j].t {
      assert a[i] == (a + b)[i] && a[j] == (a + b)[j];
    }
  }

  /** One more callback on the next buffer of a sorted stream keeps the
      statistics those of the whole stream so far. */
  lemma AccumulateExtends(before: seq<Event>, last: seq<Event>)
    requires |last| > 0
    requires before == [] ==> last[0].t <= Int64Max && last[|last| - 1].t >= 0
    requires before != [] ==> before[0].t <= last[0].t && before[|before| - 1].t <= last[|last| - 1].t
    ensures Accumulate(if before == [] then InitialStats else TypeStats(|before|, before[0].t, before[|before| - 1].t), last)
      == TypeStats(|before + last|, (before + last)[0].t, (before + last)[|before + last| - 1].t)
  {
    var all := before + last;
    assert all[|all| - 1] == last[|last| - 1];
    if before != [] {
      assert all[0] == before[0];
    } else {
      assert all == last;
    }
  }

  /** The three arrays of `main`, indexed by event type. */
  class EventStats {
    var numEvents: array<int>
    var firstTs: array<int>
    var lastTs: array<int>

    ghost predicate Valid()
      reads this
    {
      && numEvents.Length == TypeCount && firstTs.Length == TypeCount && lastTs.Length == TypeCount
      && numEvents != firstTs && numEvents != lastTs && firstTs != lastTs
    }

    function Of(kind: nat): TypeStats
      requires Valid() && kind < TypeCount
      reads this, numEvents, firstTs, lastTs
    {
      TypeStats(numEvents[kind], firstTs[kind], lastTs[kind])
    }

    /** The arrays as `std::fill` leaves them: counts 0, first INT64_MAX, last -1. */
    constructor ()
      ensures Valid() && fresh(numEvents) && fresh(firstTs) && fresh(lastTs)
      ensures forall k :: 0 <= k < TypeCount ==> Of(k) == InitialStats
    {
      numEvents := new int[TypeCount](_ => 0);
      firstTs := new int[TypeCount](_ => Int64Max);
      lastTs := new int[TypeCount](_ => -1);
    }

    /** The CD (`kind == CD`) or external-trigger callback on one decoded buffer. */
    method OnEvents(kind: nat, batch: seq<Event>)
      requires Valid() && kind < TypeCount
      requires |batch| > 0
      modifies numEvents, firstTs, lastTs
      ensures Valid()
      ensures Of(kind) == Accumulate(old(Of(kind)), batch)
      ensures forall k :: 0 <= k < TypeCount && k != kind ==> Of(k) == old(Of(k))
    {
      numEvents[kind] := numEvents[kind] + |batch|;
      firstTs[kind] := Min(firstTs[kind], batch[0].t);
      lastTs[kind] := Max(lastTs[kind], batch[|batch| - 1].t);
    }

    /** The duration: the largest last timestamp over all types, or -1. */
    method Duration() returns (duration: int)
      requires Valid()
      ensures duration >= -1
      ensures forall k :: 0 <= k < TypeCount ==> lastTs[k] <= duration
      ensures duration == -1 || exists k :: 0 <= k < TypeCount && lastTs[k] == duration
    {
      duration := -1;
      var i := 0;
      while i < TypeCount
        invariant 0 <= i <= TypeCount
        invariant duration >= -1
        invariant forall k :: 0 <= k < i ==> lastTs[k] <= duration
        invariant duration == -1 || exists k :: 0 <= k < i && lastTs[k] == duration
      {
        duration := Max(duration, lastTs[i]);
        i := i + 1;
      }
    }

    /** The types that get a row in the statistics table, in type order. */
    method PrintedRows() returns (rows: seq<nat>)
      requires Valid()
      ensures forall k :: k in rows <==> 0 <= k < TypeCount && numEvents[k] != 0
      ensures forall a, b :: 0 <= a < b < |rows| ==> rows[a] < rows[b]
    {
      rows := [];
      var i := 0;
      while i < TypeCount
        invariant 0 <= i <= TypeCount
        invariant forall k :: k in rows <==> 0 <= k < i && numEvents[k] != 0
        invariant forall a, b :: 0 <= a < b < |rows| ==> rows[a] < rows[b]
        invariant forall a :: 0 <= a < |rows| ==> rows[a] < i
      {
        if numEvents[i] != 0 {
          rows := rows + [i];
        }
        i := i + 1;
      }
    }
  }
}
