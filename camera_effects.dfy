/** What the camera runtime does to the world, recorded in order: callback
    invocations, calls into the HAL facilities, sleeps. */
module CameraEffects {

  /** `CameraStatus`. */
  datatype Status = Started | Stopped

  datatype Action =
    /** A status-change callback called with a status. */
    | StatusChanged(callback: nat, status: Status)
    /** A runtime-error callback called with `DataTransferFailed`. */
    | DataTransferFailed(callback: nat)
    | EventsStreamStarted
    | EventsStreamStopped
    | DeviceControlStarted
    | DeviceControlStopped
    | DeviceControlReset
    /** The run thread joined. */
    | Joined
    | BiasesSaved(path: string)
    | RawLogRequested(path: string)
    | RawLogStopped
    /** The decoder ran over bytes `[offset, offset + length)` of a polled buffer. */
    | Decoded(buffer: nat, offset: nat, length: nat)
    /** A raw-data callback received bytes `[offset, offset + length)` of a polled buffer. */
    | RawDelivered(callback: nat, buffer: nat, offset: nat, length: nat)
    /** The run thread slept this many microseconds. */
    | Slept(micros: nat)

  /** Work on a polled buffer: a decode, a raw delivery or a pacing sleep. */
  predicate BufferWork(a: Action) {
    a.Decoded? || a.RawDelivered? || a.Slept?
  }

  /** The keys of a `std::map<CallbackId, _>` below `bound`, in the map's
      iteration order (ascending). */
  function Ascending(keys: set<nat>, bound: nat): (ids: seq<nat>)
    ensures |ids| <= bound
    decreases bound
  {
    if bound == 0 then []
    else Ascending(keys, bound - 1) + if bound - 1 in keys then [bound - 1] else []
  }

  /** The iteration lists exactly the keys below `bound`, each once, in
      strictly ascending order. */
  lemma {:induction false} AscendingFacts(keys: set<nat>, bound: nat)
    ensures forall i :: 0 <= i < |Ascending(keys, bound)| ==> Ascending(keys, bound)[i] in keys && Ascending(keys, bound)[i] < bound
    ensures forall i, j :: 0 <= i < j < |Ascending(keys, bound)| ==> Ascending(keys, bound)[i] < Ascending(keys, bound)[j]
    ensures forall k :: k in keys && k < bound ==> k in Ascending(keys, bound)
    decreases bound
  {
    if bound > 0 {
      AscendingFacts(keys, bound - 1);
      var init := Ascending(keys, bound - 1);
      var ids := Ascending(keys, bound);
      assert ids == init + if bound - 1 in keys then [bound - 1] else [];
      forall k | k in keys && k < bound ensures k in ids {
        if k < bound - 1 {
          assert k in init;
        } else {
          assert ids[|ids| - 1] == k;
        }
      }
    }
  }

  /** Every callback of `ids`, in order, called with `status`. */
  function StatusCalls(ids: seq<nat>, status: Status): (acts: seq<Action>)
    ensures |acts| == |ids|
    ensures forall i :: 0 <= i < |ids| ==> acts[i] == StatusChanged(ids[i], status)
  {
    seq(|ids|, i requires 0 <= i < |ids| => StatusChanged(ids[i], status))
  }

  /** Every callback of `ids`, in order, called with `DataTransferFailed`. */
  function ErrorCalls(ids: seq<nat>): (acts: seq<Action>)
    ensures |acts| == |ids|
    ensures forall i :: 0 <= i < |ids| ==> acts[i] == DataTransferFailed(ids[i])
  {
    seq(|ids|, i requires 0 <= i < |ids| => DataTransferFailed(ids[i]))
  }

  /** Every raw-data callback of `raw`, in order, given the same bytes. */
  function RawDeliveries(raw: seq<nat>, buffer: nat, offset: nat, length: nat): (acts: seq<Action>)
    ensures |acts| == |raw|
    ensures forall i :: 0 <= i < |raw| ==> acts[i] == RawDelivered(raw[i], buffer, offset, length)
  {
    seq(|raw|, i requires 0 <= i < |raw| => RawDelivered(raw[i], buffer, offset, length))
  }

  /** The byte ranges the decoder ran over, in order. */
  function DecodedRanges(acts: seq<Action>): seq<(nat, nat)> {
    if acts == [] then []
    else
      var last := acts[|acts| - 1];
      DecodedRanges(acts[..|acts| - 1]) + if last.Decoded? then [(last.offset, last.length)] else []
  }

  /** The byte ranges raw-data callback `c` received, in order. */
  function DeliveredTo(acts: seq<Action>, c: nat): seq<(nat, nat)> {
    if acts == [] then []
    else
      var last := acts[|acts| - 1];
      DeliveredTo(acts[..|acts| - 1], c) + if last.RawDelivered? && last.callback == c then [(last.offset, last.length)] else []
  }

  /** The sleeps of the run thread, in order. */
  function Sleeps(acts: seq<Action>): seq<nat> {
    if acts == [] then []
    else
      var last := acts[|acts| - 1];
      Sleeps(acts[..|acts| - 1]) + if last.Slept? then [last.micros] else []
  }

  lemma AppendAssoc(a: seq<Action>, b: seq<Action>, c: seq<Action>)
    ensures a + (b + c) == (a + b) + c
  {
  }

  /** The decoded ranges of a concatenation are those of its parts, in order. */
  lemma {:induction false} DecodedAppend(a: seq<Action>, b: seq<Action>)
    ensures DecodedRanges(a + b) == DecodedRanges(a) + DecodedRanges(b)
    decreases |b|
  {
    if b == [] {
      assert a + b == a;
    } else {
      assert (a + b)[..|a + b| - 1] == a + b[..|b| - 1];
      DecodedAppend(a, b[..|b| - 1]);
    }
  }

  /** What callback `c` received over a concatenation is what it received
      over its parts, in order. */
  lemma {:induction false} DeliveredAppend(a: seq<Action>, b: seq<Action>, c: nat)
    ensures DeliveredTo(a + b, c) == DeliveredTo(a, c) + DeliveredTo(b, c)
    decreases |b|
  {
    if b == [] {
      assert a + b == a;
    } else {
      assert (a + b)[..|a + b| - 1] == a + b[..|b| - 1];
      DeliveredAppend(a, b[..|b| - 1], c);
    }
  }

  /** The sleeps of a concatenation are those of its parts, in order. */
  lemma {:induction false} SleepsAppend(a: seq<Action>, b: seq<Action>)
    ensures Sleeps(a + b) == Sleeps(a) + Sleeps(b)
    decreases |b|
  {
    if b == [] {
      assert a + b == a;
    } else {
      assert (a + b)[..|a + b| - 1] == a + b[..|b| - 1];
      SleepsAppend(a, b[..|b| - 1]);
    }
  }

  /** A broadcast to the raw callbacks holds no decode and no sleep. */
  lemma {:induction false} RawDeliveriesQuiet(raw: seq<nat>, buffer: nat, offset: nat, length: nat)
    ensures DecodedRanges(RawDeliveries(raw, buffer, offset, length)) == []
    ensures Sleeps(RawDeliveries(raw, buffer, offset, length)) == []
    decreases |raw|
  {
    if raw != [] {
      var init := raw[..|raw| - 1];
      RawDeliveriesQuiet(init, buffer, offset, length);
      assert RawDeliveries(raw, buffer, offset, length)[..|raw| - 1] == RawDeliveries(init, buffer, offset, length);
    }
  }

  /** Each raw callback listed once receives one range from a broadcast, and
      a callback not listed receives nothing. */
  lemma {:induction false} RawDeliveriesFilters(raw: seq<nat>, buffer: nat, offset: nat, length: nat, c: nat)
    requires forall i, j :: 0 <= i < j < |raw| ==> raw[i] != raw[j]
    ensures DeliveredTo(RawDeliveries(raw, buffer, offset, length), c) == if c in raw then [(offset, length)] else []
    decreases |raw|
  {
    if raw != [] {
      var init := raw[..|raw| - 1];
      RawDeliveriesFilters(init, buffer, offset, length, c);
      assert RawDeliveries(raw, buffer, offset, length)[..|raw| - 1] == RawDeliveries(init, buffer, offset, length);
      assert c in raw <==> c in init || c == raw[|raw| - 1];
      if c == raw[|raw| - 1] {
        assert c !in init by {
          forall i | 0 <= i < |init| ensures init[i] != c {
            assert init[i] == raw[i];
          }
        }
      }
    }
  }

  /** Status notifications hold no decode, delivery or sleep. */
  lemma {:induction false} StatusCallsFilters(ids: seq<nat>, status: Status, c: nat)
    ensures var acts := StatusCalls(ids, status);
      DecodedRanges(acts) == [] && DeliveredTo(acts, c) == [] && Sleeps(acts) == []
    decreases |ids|
  {
    if ids != [] {
      StatusCallsFilters(ids[..|ids| - 1], status, c);
      assert StatusCalls(ids, status)[..|ids| - 1] == StatusCalls(ids[..|ids| - 1], status);
    }
  }
}
