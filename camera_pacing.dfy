/** The work `Camera::Private::run_main_loop` does for one poll result, and
    the real-time pacer `emulate_real_time` it hands file buffers to, as
    functions of the pacer's clock state and of two oracles: the decoder's
    last timestamp after its k-th decode call, and the k-th reading of the
    system clock. */
module CameraPacing {
  import opened CameraEffects
  import opened Arith

  const TwoTo32: nat := 0x1_0000_0000

  /** A value of `uint64_t`. */
  type U64 = x: int | 0 <= x < 0x1_0000_0000_0000_0000

  /** Conversion to `uint64_t`: arithmetic modulo 2^64. */
  function ToU64(x: int): (r: U64)
    ensures 0 <= x < 0x1_0000_0000_0000_0000 ==> r == x
  {
    x % 0x1_0000_0000_0000_0000
  }

  /** `events_per_buffer_to_decode` at `reading_speed_factor` 1.0. */
  const EventsPerBuffer: nat := 1024
  /** `min_events_per_buffer_to_decode`. */
  const MinEventsPerBuffer: nat := 128

  /** `bytes_step_to_decode`, computed in `uint32_t`: the larger of the
      minimum (a count of events) and the raw event size times 1024. */
  function Step(rawEventSize: nat): (step: nat)
    ensures step >= MinEventsPerBuffer
  {
    Max(MinEventsPerBuffer, (rawEventSize * EventsPerBuffer) % TwoTo32)
  }

  /** The minimum of 128 is compared with a byte count: for every event size
      the sub-buffer holds 1024 events, and the minimum is only reached by a
      size of 0 bytes. */
  lemma StepIsOneKiloEvents(rawEventSize: nat)
    requires rawEventSize < 0x40_0000
    ensures Step(rawEventSize) == if rawEventSize == 0 then MinEventsPerBuffer else rawEventSize * EventsPerBuffer
  {
  }

  // ---------------------------------------------------------------------------
  // Sub-buffers

  /** The sub-buffers `(offset, length)` the pacer cuts from `offset` to the
      end `n` of a polled buffer, `step` bytes at a time. */
  function Chunks(n: nat, step: nat, offset: nat): seq<(nat, nat)>
    requires step > 0 && offset <= n
    decreases n - offset
  {
    if offset == n then []
    else
      var length := Min(n - offset, step);
      [(offset, length)] + Chunks(n, step, offset + length)
  }

  /** The sub-buffers start at `offset` and the last one ends at `n`; there
      are none exactly when nothing is left. */
  lemma {:induction false} ChunksEnds(n: nat, step: nat, offset: nat)
    requires step > 0 && offset <= n
    ensures Chunks(n, step, offset) == [] <==> offset == n
    ensures Chunks(n, step, offset) != [] ==> Chunks(n, step, offset)[0].0 == offset
    ensures Chunks(n, step, offset) != [] ==>
      var last := Chunks(n, step, offset)[|Chunks(n, step, offset)| - 1];
      last.0 + last.1 == n
    decreases n - offset
  {
    if offset < n {
      var length := Min(n - offset, step);
      var rest := Chunks(n, step, offset + length);
      ChunksEnds(n, step, offset + length);
      assert Chunks(n, step, offset) == [(offset, length)] + rest;
    }
  }

  /** Every sub-buffer is non-empty and as long as the step or the rest of the
      buffer, whichever is shorter. */
  lemma {:induction false} ChunksSizes(n: nat, step: nat, offset: nat)
    requires step > 0 && offset <= n
    ensures forall i :: 0 <= i < |Chunks(n, step, offset)| ==>
      Chunks(n, step, offset)[i].1 == Min(n - Chunks(n, step, offset)[i].0, step) && Chunks(n, step, offset)[i].1 > 0
    decreases n - offset
  {
    if offset < n {
      var length := Min(n - offset, step);
      var cs := Chunks(n, step, offset);
      var rest := Chunks(n, step, offset + length);
      ChunksSizes(n, step, offset + length);
      assert cs == [(offset, length)] + rest;
      forall i | 0 < i < |cs| ensures cs[i].1 == Min(n - cs[i].0, step) && cs[i].1 > 0 {
        assert cs[i] == rest[i - 1];
      }
    }
  }

  /** Each sub-buffer starts where the previous one ends. */
  lemma {:induction false} ChunksConsecutive(n: nat, step: nat, offset: nat)
    requires step > 0 && offset <= n
    ensures forall i :: 0 < i < |Chunks(n, step, offset)| ==>
      Chunks(n, step, offset)[i].0 == Chunks(n, step, offset)[i - 1].0 + Chunks(n, step, offset)[i - 1].1
    decreases n - offset
  {
    if offset < n {
      var length := Min(n - offset, step);
      var cs := Chunks(n, step, offset);
      var rest := Chunks(n, step, offset + length);
      ChunksConsecutive(n, step, offset + length);
      ChunksEnds(n, step, offset + length);
      assert cs == [(offset, length)] + rest;
      forall i | 0 < i < |cs| ensures cs[i].0 == cs[i - 1].0 + cs[i - 1].1 {
        assert cs[i] == rest[i - 1];
        if i > 1 {
          assert cs[i - 1] == rest[i - 2];
        }
      }
    }
  }

  // ---------------------------------------------------------------------------
  // Pacing

  /** The pacer's state: how many decode calls and clock readings happened,
      and the anchor `(first_ts_, first_ts_clock_)`. */
  datatype Pacer = Pacer(decodes: nat, clockReads: nat, firstTs: int, firstTsClock: U64)

  /** What the run thread works with: whether it emulates real time, the
      raw-data callbacks in call order, the sub-buffer step, and the decoder
      and clock oracles. */
  datatype Setup = Setup(
    emulate: bool,
    raw: seq<nat>,
    step: nat,
    lastTs: nat -> int,
    clock: nat -> U64)

  /** `init_clocks`: the anchor timestamp is the decoder's current one, and
      the anchor clock 0 means "not yet anchored". */
  function InitClocks(p: Pacer, lastTs: nat -> int): (q: Pacer)
    ensures q.firstTsClock == 0 && q.firstTs == lastTs(p.decodes)
    ensures q.decodes == p.decodes && q.clockReads == p.clockReads
  {
    p.(firstTs := lastTs(p.decodes), firstTsClock := 0)
  }

  /** Whether the anchor is set on this sub-buffer: only while unanchored and
      when the decoder's timestamp moved away from `first_ts_`. */
  predicate Anchors(p: Pacer, curTs: int) {
    p.firstTsClock == 0 && curTs != p.firstTs
  }

  /** `expected_ts`: the anchor clock plus the time elapsed in the stream since
      the anchor timestamp, in `uint64_t`. */
  function Expected(firstTsClock: U64, firstTs: int, curTs: int): U64 {
    ToU64(firstTsClock + (curTs - firstTs))
  }

  /** The pacer after one sub-buffer: one more decode call and clock reading,
      and the anchor set to the decoder's timestamp and the clock when due. */
  function Paced(p: Pacer, s: Setup): (q: Pacer)
    ensures q.decodes == p.decodes + 1 && q.clockReads == p.clockReads + 1
    ensures p.firstTsClock != 0 ==> q.firstTs == p.firstTs && q.firstTsClock == p.firstTsClock
  {
    var curTs := s.lastTs(p.decodes + 1);
    var anchor := Anchors(p, curTs);
    Pacer(p.decodes + 1, p.clockReads + 1,
          if anchor then curTs else p.firstTs,
          if anchor then s.clock(p.clockReads) else p.firstTsClock)
  }

  /** The sleep after one sub-buffer: until the expected time, when the clock
      read is behind it. */
  function PaceSleep(p: Pacer, s: Setup): (sleep: seq<Action>)
    ensures |sleep| <= 1 && forall i :: 0 <= i < |sleep| ==> sleep[i].Slept?
  {
    var q := Paced(p, s);
    var now := s.clock(p.clockReads);
    var expected := Expected(q.firstTsClock, q.firstTs, s.lastTs(q.decodes));
    if now < expected then [Slept(expected - now)] else []
  }

  /** One sub-buffer: decode it, give exactly its bytes to every raw callback,
      read the decoder's last timestamp and the clock, anchor if due, and sleep
      until the expected time when the clock is behind it. */
  function PaceChunk(p: Pacer, buffer: nat, chunk: (nat, nat), s: Setup): (r: (seq<Action>, Pacer))
    ensures r.1.decodes == p.decodes + 1 && r.1.clockReads == p.clockReads + 1
    ensures p.firstTsClock != 0 ==> r.1.firstTs == p.firstTs && r.1.firstTsClock == p.firstTsClock
  {
    ([Decoded(buffer, chunk.0, chunk.1)] + RawDeliveries(s.raw, buffer, chunk.0, chunk.1) + PaceSleep(p, s),
     Paced(p, s))
  }

  /** At most one sleep: no decode, no delivery, and its own duration. */
  lemma SleepTailFilters(tail: seq<Action>, c: nat)
    requires |tail| <= 1 && forall i :: 0 <= i < |tail| ==> tail[i].Slept?
    ensures DecodedRanges(tail) == [] && DeliveredTo(tail, c) == []
    ensures Sleeps(tail) == if tail == [] then [] else [tail[0].micros]
  {
    if tail != [] {
      assert tail[..0] == [];
    }
  }

  /** A decode alone: its range, no delivery and no sleep. */
  lemma DecodeFilters(buffer: nat, chunk: (nat, nat), c: nat)
    ensures DecodedRanges([Decoded(buffer, chunk.0, chunk.1)]) == [chunk]
    ensures DeliveredTo([Decoded(buffer, chunk.0, chunk.1)], c) == []
    ensures Sleeps([Decoded(buffer, chunk.0, chunk.1)]) == []
  {
    assert [Decoded(buffer, chunk.0, chunk.1)][..0] == [];
  }

  /** A sub-buffer's decode, its broadcast and at most one sleep after them:
      the decoder ran over the sub-buffer once, and the sleeps are the tail's. */
  lemma ChunkWorkFilters(buffer: nat, chunk: (nat, nat), raw: seq<nat>, tail: seq<Action>)
    requires |tail| <= 1 && forall i :: 0 <= i < |tail| ==> tail[i].Slept?
    ensures DecodedRanges([Decoded(buffer, chunk.0, chunk.1)] + RawDeliveries(raw, buffer, chunk.0, chunk.1) + tail) == [chunk]
    ensures Sleeps([Decoded(buffer, chunk.0, chunk.1)] + RawDeliveries(raw, buffer, chunk.0, chunk.1) + tail)
      == if tail == [] then [] else [tail[0].micros]
  {
    var dec := [Decoded(buffer, chunk.0, chunk.1)];
    var del := RawDeliveries(raw, buffer, chunk.0, chunk.1);
    DecodeFilters(buffer, chunk, 0);
    RawDeliveriesQuiet(raw, buffer, chunk.0, chunk.1);
    SleepTailFilters(tail, 0);
    assert DecodedRanges(dec + del + tail) == [chunk] by {
      DecodedAppend(dec, del);
      DecodedAppend(dec + del, tail);
    }
    assert Sleeps(dec + del + tail) == Sleeps(tail) by {
      SleepsAppend(dec, del);
      SleepsAppend(dec + del, tail);
    }
  }

  /** A sub-buffer's decode, its broadcast to distinct callbacks and at most
      one sleep: callback `c` received the sub-buffer once exactly when it is
      listed. */
  lemma ChunkWorkDeliveries(buffer: nat, chunk: (nat, nat), raw: seq<nat>, tail: seq<Action>, c: nat)
    requires forall i, j :: 0 <= i < j < |raw| ==> raw[i] != raw[j]
    requires |tail| <= 1 && forall i :: 0 <= i < |tail| ==> tail[i].Slept?
    ensures DeliveredTo([Decoded(buffer, chunk.0, chunk.1)] + RawDeliveries(raw, buffer, chunk.0, chunk.1) + tail, c)
      == if c in raw then [chunk] else []
  {
    var dec := [Decoded(buffer, chunk.0, chunk.1)];
    var del := RawDeliveries(raw, buffer, chunk.0, chunk.1);
    DecodeFilters(buffer, chunk, c);
    RawDeliveriesFilters(raw, buffer, chunk.0, chunk.1, c);
    SleepTailFilters(tail, c);
    DeliveredAppend(dec, del, c);
    DeliveredAppend(dec + del, tail, c);
  }

  /** The timing of one sub-buffer: no sleep while unanchored, and once
      anchored (on this sub-buffer or before) the thread sleeps exactly
      `expected - now` if and only if the clock is behind `expected`. */
  lemma PaceChunkTiming(p: Pacer, buffer: nat, chunk: (nat, nat), s: Setup)
    ensures p.firstTsClock == 0 && s.lastTs(p.decodes + 1) == p.firstTs ==> Sleeps(PaceChunk(p, buffer, chunk, s).0) == []
    ensures p.firstTsClock != 0 || s.lastTs(p.decodes + 1) != p.firstTs ==>
      var expected := Expected(PaceChunk(p, buffer, chunk, s).1.firstTsClock, PaceChunk(p, buffer, chunk, s).1.firstTs, s.lastTs(p.decodes + 1));
      Sleeps(PaceChunk(p, buffer, chunk, s).0) == if s.clock(p.clockReads) < expected then [expected - s.clock(p.clockReads)] else []
  {
    ChunkWorkFilters(buffer, chunk, s.raw, PaceSleep(p, s));
  }

  /** While the clock is within range of the anchor, the expected time is the
      plain sum: anchor clock plus elapsed stream time. */
  lemma ExpectedWithoutWrap(firstTsClock: U64, firstTs: int, curTs: int)
    requires 0 <= firstTsClock + (curTs - firstTs) < 0x1_0000_0000_0000_0000
    ensures Expected(firstTsClock, firstTs, curTs) == firstTsClock + (curTs - firstTs)
  {
  }

  /** The pacing of a list of sub-buffers, in order. */
  function PaceAll(p: Pacer, buffer: nat, chunks: seq<(nat, nat)>, s: Setup): (r: (seq<Action>, Pacer))
    ensures r.1.decodes == p.decodes + |chunks| && r.1.clockReads == p.clockReads + |chunks|
    ensures p.firstTsClock != 0 ==> r.1.firstTs == p.firstTs && r.1.firstTsClock == p.firstTsClock
    decreases |chunks|
  {
    if chunks == [] then ([], p)
    else
      var a := PaceChunk(p, buffer, chunks[0], s);
      var b := PaceAll(a.1, buffer, chunks[1..], s);
      (a.0 + b.0, b.1)
  }

  /** The decoder and every raw callback see the sub-buffers one after the
      other, exactly as cut. */
  lemma {:induction false} PaceAllRanges(p: Pacer, buffer: nat, chunks: seq<(nat, nat)>, s: Setup, c: nat)
    requires forall i, j :: 0 <= i < j < |s.raw| ==> s.raw[i] != s.raw[j]
    ensures DecodedRanges(PaceAll(p, buffer, chunks, s).0) == chunks
    ensures DeliveredTo(PaceAll(p, buffer, chunks, s).0, c) == if c in s.raw then chunks else []
    decreases |chunks|
  {
    if chunks != [] {
      var a := PaceChunk(p, buffer, chunks[0], s);
      var b := PaceAll(a.1, buffer, chunks[1..], s);
      assert PaceAll(p, buffer, chunks, s).0 == a.0 + b.0;
      assert [chunks[0]] + chunks[1..] == chunks;
      assert DecodedRanges(a.0 + b.0) == [chunks[0]] + chunks[1..]
          && DeliveredTo(a.0 + b.0, c) == if c in s.raw then [chunks[0]] + chunks[1..] else [] by {
        PaceAllRanges(a.1, buffer, chunks[1..], s, c);
        PaceChunkRanges(p, buffer, chunks[0], s, c);
        DecodedAppend(a.0, b.0);
        DeliveredAppend(a.0, b.0, c);
      }
    }
  }

  /** One sub-buffer is decoded once, and each listed raw callback receives
      exactly it. */
  lemma PaceChunkRanges(p: Pacer, buffer: nat, chunk: (nat, nat), s: Setup, c: nat)
    requires forall i, j :: 0 <= i < j < |s.raw| ==> s.raw[i] != s.raw[j]
    ensures DecodedRanges(PaceChunk(p, buffer, chunk, s).0) == [chunk]
    ensures DeliveredTo(PaceChunk(p, buffer, chunk, s).0, c) == if c in s.raw then [chunk] else []
  {
    ChunkWorkFilters(buffer, chunk, s.raw, PaceSleep(p, s));
    ChunkWorkDeliveries(buffer, chunk, s.raw, PaceSleep(p, s), c);
  }

  /** The pacer's anchor is set at most once: after it, the anchor stays. */
  lemma AnchorSetOnce(p: Pacer, buffer: nat, chunks: seq<(nat, nat)>, s: Setup)
    requires p.firstTsClock != 0
    ensures PaceAll(p, buffer, chunks, s).1.firstTs == p.firstTs
    ensures PaceAll(p, buffer, chunks, s).1.firstTsClock == p.firstTsClock
  {
  }

  // ---------------------------------------------------------------------------
  // One poll result

  /** A poll result: the value `wait_next_buffer` returned, the buffer
      `get_latest_raw_data` then gave, and its byte count. */
  datatype Poll = Poll(res: int, buffer: nat, bytes: nat)

  /** When emulating real time every buffer's byte count fits the pacer's
      `uint32_t` arithmetic. */
  predicate PollsFit(polls: seq<Poll>, emulate: bool)
  {
    emulate ==> forall i :: 0 <= i < |polls| ==> polls[i].bytes < TwoTo32
  }

  /** Without emulation: decode the whole buffer only when some decode
      callback is registered, then always give the whole buffer to every raw
      callback. */
  function DecodeAndDeliver(p: Pacer, poll: Poll, s: Setup, decodeTags: nat): (r: (seq<Action>, Pacer))
    ensures r.1.clockReads == p.clockReads && r.1.firstTs == p.firstTs && r.1.firstTsClock == p.firstTsClock
  {
    var decode := if decodeTags != 0 then [Decoded(poll.buffer, 0, poll.bytes)] else [];
    (decode + RawDeliveries(s.raw, poll.buffer, 0, poll.bytes),
     p.(decodes := p.decodes + |decode|))
  }

  /** Without emulation the decoder runs over the whole buffer if and only if
      a decode callback is registered, every raw callback receives the whole
      buffer, and nothing sleeps. */
  lemma DecodeAndDeliverRanges(p: Pacer, poll: Poll, s: Setup, decodeTags: nat, c: nat)
    requires forall i, j :: 0 <= i < j < |s.raw| ==> s.raw[i] != s.raw[j]
    ensures DecodedRanges(DecodeAndDeliver(p, poll, s, decodeTags).0) == if decodeTags != 0 then [(0, poll.bytes)] else []
    ensures DeliveredTo(DecodeAndDeliver(p, poll, s, decodeTags).0, c) == if c in s.raw then [(0, poll.bytes)] else []
    ensures Sleeps(DecodeAndDeliver(p, poll, s, decodeTags).0) == []
  {
    var decode := if decodeTags != 0 then [Decoded(poll.buffer, 0, poll.bytes)] else [];
    var del := RawDeliveries(s.raw, poll.buffer, 0, poll.bytes);
    assert DecodeAndDeliver(p, poll, s, decodeTags).0 == decode + del;
    assert DecodedRanges(decode) == (if decodeTags != 0 then [(0, poll.bytes)] else [])
        && DeliveredTo(decode, c) == [] && Sleeps(decode) == [] by {
      if decodeTags != 0 {
        DecodeFilters(poll.buffer, (0, poll.bytes), c);
      }
    }
    RawDeliveriesQuiet(s.raw, poll.buffer, 0, poll.bytes);
    RawDeliveriesFilters(s.raw, poll.buffer, 0, poll.bytes, c);
    DecodedAppend(decode, del);
    DeliveredAppend(decode, del, c);
    SleepsAppend(decode, del);
  }

  /** One iteration of the loop body for a non-negative poll result: nothing
      for 0; for a positive result, the pacer over the buffer's sub-buffers
      when emulating real time, the plain dispatch otherwise. */
  function Handle(p: Pacer, poll: Poll, s: Setup, decodeTags: nat): (r: (seq<Action>, Pacer))
    requires s.step > 0
  {
    if poll.res <= 0 then ([], p)
    else if s.emulate then PaceAll(p, poll.buffer, Chunks(poll.bytes, s.step, 0), s)
    else DecodeAndDeliver(p, poll, s, decodeTags)
  }

  /** The loop body over a list of non-negative poll results, in order. */
  function Serve(p: Pacer, polls: seq<Poll>, s: Setup, decodeTags: nat): (r: (seq<Action>, Pacer))
    requires s.step > 0
    decreases |polls|
  {
    if polls == [] then ([], p)
    else
      var a := Serve(p, polls[..|polls| - 1], s, decodeTags);
      var b := Handle(a.1, polls[|polls| - 1], s, decodeTags);
      (a.0 + b.0, b.1)
  }

  /** Everything one sub-buffer's pacing does is work on that buffer. */
  lemma PaceChunkWork(p: Pacer, buffer: nat, chunk: (nat, nat), s: Setup)
    ensures forall a :: a in PaceChunk(p, buffer, chunk, s).0 ==> BufferWork(a)
  {
  }

  /** Everything the pacer does over a buffer is work on that buffer. */
  lemma {:induction false} PaceAllWork(p: Pacer, buffer: nat, chunks: seq<(nat, nat)>, s: Setup)
    ensures forall a :: a in PaceAll(p, buffer, chunks, s).0 ==> BufferWork(a)
    decreases |chunks|
  {
    if chunks != [] {
      var c := PaceChunk(p, buffer, chunks[0], s);
      PaceChunkWork(p, buffer, chunks[0], s);
      PaceAllWork(c.1, buffer, chunks[1..], s);
    }
  }

  /** The loop body over a list of polls only ever works on the polled
      buffers: it notifies no callback and touches no stream or device. */
  lemma {:induction false} ServeWork(p: Pacer, polls: seq<Poll>, s: Setup, decodeTags: nat)
    requires s.step > 0
    ensures forall a :: a in Serve(p, polls, s, decodeTags).0 ==> BufferWork(a)
    decreases |polls|
  {
    if polls != [] {
      var a := Serve(p, polls[..|polls| - 1], s, decodeTags);
      var last := polls[|polls| - 1];
      ServeWork(p, polls[..|polls| - 1], s, decodeTags);
      if last.res > 0 && s.emulate {
        PaceAllWork(a.1, last.buffer, Chunks(last.bytes, s.step, 0), s);
      }
    }
  }

  /** How many poll results the loop serves: all of them up to the first
      negative one, which ends the loop. */
  function Served(polls: seq<Poll>): (k: nat)
    ensures k <= |polls|
    ensures forall i :: 0 <= i < k ==> polls[i].res >= 0
    ensures k < |polls| ==> polls[k].res < 0
  {
    if polls == [] || polls[0].res < 0 then 0
    else 1 + Served(polls[1..])
  }

  /** A zero poll result does nothing. */
  lemma ZeroPollIsIdle(p: Pacer, poll: Poll, s: Setup, decodeTags: nat)
    requires s.step > 0 && poll.res == 0
    ensures Handle(p, poll, s, decodeTags) == ([], p)
  {
  }
}
