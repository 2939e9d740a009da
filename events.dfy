/** Decoded events as the SDK and its Python readers see them: a timestamp in
    microseconds and the event's other fields, carried along unchanged. */
module Events {

  datatype Event = Event(t: int, attrs: seq<int>)

  predicate SortedByTime(s: seq<Event>) {
    forall i, j :: 0 <= i < j < |s| ==> s[i].t <= s[j].t
  }

  /** The timestamps of `s`, in order (the `ts` column of a numpy buffer). */
  function Times(s: seq<Event>): (ts: seq<int>)
    ensures |ts| == |s|
  {
    seq(|s|, i requires 0 <= i < |s| => s[i].t)
  }

  function Flatten(batches: seq<seq<Event>>): seq<Event>
  {
    if batches == [] then [] else Flatten(batches[..|batches| - 1]) + batches[|batches| - 1]
  }
}
