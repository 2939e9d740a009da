/**
  `StreamLoggerAlgorithm`: a logger that writes event buffers to a DAT file,
  optionally re-basing timestamps on the moment logging was enabled and
  splitting the output into numbered files every `split_time_seconds`.

  The output stream is modelled by the list of files it has opened, in order;
  each file records whether its header was written and the (re-based) events
  written to it. The file currently open, if any, is the last one. Whether an
  `open` succeeds is a parameter of the operation that opens.
 */
module StreamLogger {
  import opened Wrappers
  import opened Decimal
  import opened Paths
  import opened Events

  /** `std::numeric_limits<std::int32_t>::max()`: "splitting disabled". */
  const InvalidTimestamp: int := 0x7FFF_FFFF

  predicate IsInt32(x: int) {
    -0x8000_0000 <= x < 0x8000_0000
  }

  /** One file the logger opened: its name, whether the DAT header was written
      to it, and the events written to it, in order. */
  datatype OutFile = OutFile(name: string, header: bool, events: seq<Event>)

  /** The `std::runtime_error` thrown when `enable(true)` cannot open its file. */
  datatype LoggerError = CouldNotOpen(name: string)

  /** The name of split file number `counter`: the stem, an underscore, the
      counter padded with zeros to four digits, and the extension. */
  function SplitFileName(base: string, counter: nat, ext: string): string {
    base + "_" + ZeroPad(NatToString(counter), 4) + ext
  }

  /** `split_timestamp_us_` for a given `split_timestamp_secs_`. */
  function SplitUs(secs: int): int {
    if secs == InvalidTimestamp then InvalidTimestamp else secs * 1_000_000
  }

  /** What the write loop of `process_events` puts in the buffer: the events
      not older than `initial`, in input order, shifted by `initial`. */
  function Shifted(events: seq<Event>, initial: int): (r: seq<Event>)
    ensures |r| <= |events|
  {
    if events == [] then []
    else
      var e := events[|events| - 1];
      var rest := Shifted(events[..|events| - 1], initial);
      if e.t >= initial then rest + [Event(e.t - initial, e.attrs)] else rest
  }

  /** Re-basing loses nothing when every event is at or after the reset point. */
  lemma {:induction false} ShiftedKeepsRecent(events: seq<Event>, initial: int)
    requires forall i :: 0 <= i < |events| ==> events[i].t >= initial
    ensures |Shifted(events, initial)| == |events|
    ensures forall i :: 0 <= i < |events| ==> Shifted(events, initial)[i] == Event(events[i].t - initial, events[i].attrs)
  {
    if events != [] {
      var init := events[..|events| - 1];
      ShiftedKeepsRecent(init, initial);
      var e := events[|events| - 1];
      assert Shifted(events, initial) == Shifted(init, initial) + [Event(e.t - initial, e.attrs)];
      forall i | 0 <= i < |events| ensures Shifted(events, initial)[i] == Event(events[i].t - initial, events[i].attrs) {
        if i < |init| {
          assert events[i] == init[i];
        }
      }
    }
  }

  /** Re-based timestamps are never negative. */
  lemma {:induction false} ShiftedNonNegative(events: seq<Event>, initial: int)
    ensures forall e :: e in Shifted(events, initial) ==> e.t >= 0
  {
    if events != [] {
      ShiftedNonNegative(events[..|events| - 1], initial);
    }
  }

  /** Events older than the reset point are never written. */
  lemma {:induction false} ShiftedDropsOld(events: seq<Event>, initial: int)
    requires forall i :: 0 <= i < |events| ==> events[i].t < initial
    ensures Shifted(events, initial) == []
  {
    if events != [] {
      ShiftedDropsOld(events[..|events| - 1], initial);
    }
  }

  /** Writing two buffers one after the other writes what one buffer holding
      both would. */
  lemma {:induction false} ShiftedAppend(a: seq<Event>, b: seq<Event>, initial: int)
    ensures Shifted(a + b, initial) == Shifted(a, initial) + Shifted(b, initial)
    decreases |b|
  {
    if b == [] {
      assert a + b == a;
    } else {
      var b' := b[..|b| - 1];
      assert (a + b)[..|a + b| - 1] == a + b';
      assert (a + b)[|a + b| - 1] == b[|b| - 1];
      ShiftedAppend(a, b', initial);
    }
  }

  /** A time-sorted buffer stays time-sorted once re-based. */
  lemma {:induction false} ShiftedSorted(events: seq<Event>, initial: int)
    requires SortedByTime(events)
    ensures SortedByTime(Shifted(events, initial))
    ensures events != [] ==> forall x :: x in Shifted(events, initial) ==> x.t <= events[|events| - 1].t - initial
  {
    if events != [] {
      var init := events[..|events| - 1];
      var e := events[|events| - 1];
      assert SortedByTime(init) by {
        forall i, j | 0 <= i < j < |init| ensures init[i].t <= init[j].t {
          assert init[i] == events[i] && init[j] == events[j];
        }
      }
      ShiftedSorted(init, initial);
      var rest := Shifted(init, initial);
      assert forall x :: x in rest ==> x.t <= e.t - initial by {
        if init != [] {
          assert init[|init| - 1] == events[|events| - 2];
        }
      }
      if e.t >= initial {
        var r := rest + [Event(e.t - initial, e.attrs)];
        forall i, j | 0 <= i < j < |r| ensures r[i].t <= r[j].t {
          if j == |r| - 1 {
            assert r[i] in rest;
          }
        }
      }
    }
  }


  /** `files` with `more` appended to the events of its last file, and its
      header flag set. */
  function WriteToLast(files: seq<OutFile>, more: seq<Event>): (r: seq<OutFile>)
    requires |files| > 0
    ensures |r| == |files| && r[..|r| - 1] == files[..|files| - 1]
    ensures r[|r| - 1] == OutFile(files[|files| - 1].name, true, files[|files| - 1].events + more)
  {
    var f := files[|files| - 1];
    files[|files| - 1 := OutFile(f.name, true, f.events + more)]
  }

  class StreamLoggerAlgorithm {
    const width: nat
    const height: nat
    var splitCounter: nat
    var filename: string
    var filenameBase: string
    var filenameExt: string
    /** `output_.is_open()`. */
    var outputOpen: bool
    var enabled: bool
    var headerWritten: bool
    var splitTimestampSecs: int
    var splitTimestampUs: int
    var initialTimestamp: int
    var lastTimestamp: int
    /** Every file opened so far, in order; the open one, if any, is the last. */
    var files: seq<OutFile>

    ghost predicate Valid()
      reads this
    {
      && IsInt32(splitTimestampSecs)
      && splitTimestampUs == SplitUs(splitTimestampSecs)
      && (outputOpen ==> |files| > 0 && files[|files| - 1].header == headerWritten)
    }

    /** The constructor: nothing open, logging and splitting disabled. */
    constructor (filename: string, width: nat, height: nat)
      ensures Valid()
      ensures this.filename == filename && this.width == width && this.height == height
      ensures filenameBase == Stem(filename) && filenameExt == Extension(filename)
      ensures splitCounter == 0 && !outputOpen && !enabled && !headerWritten
      ensures splitTimestampSecs == InvalidTimestamp && splitTimestampUs == InvalidTimestamp
      ensures initialTimestamp == 0 && lastTimestamp == 0 && files == []
    {
      this.width := width;
      this.height := height;
      splitCounter := 0;
      this.filename := filename;
      filenameBase := Stem(filename);
      filenameExt := Extension(filename);
      outputOpen := false;
      enabled := false;
      headerWritten := false;
      splitTimestampSecs := InvalidTimestamp;
      splitTimestampUs := InvalidTimestamp;
      initialTimestamp := 0;
      lastTimestamp := 0;
      files := [];
    }

    /** `get_filename()`: the name the next `open` uses. */
    function GetFilename(): (name: string)
      reads this
      ensures splitTimestampUs == InvalidTimestamp ==> name == filename
      ensures splitTimestampUs != InvalidTimestamp ==>
        name == SplitFileName(filenameBase, splitCounter, filenameExt)
    {
      if splitTimestampUs != InvalidTimestamp then SplitFileName(filenameBase, splitCounter, filenameExt)
      else filename
    }

    /** `set_filename(filename)`. */
    method SetFilename(filename: string)
      requires Valid()
      modifies this
      ensures Valid()
      ensures this.filename == filename && filenameBase == Stem(filename) && filenameExt == Extension(filename)
      ensures splitCounter == old(splitCounter) && outputOpen == old(outputOpen) && enabled == old(enabled)
      ensures headerWritten == old(headerWritten) && splitTimestampSecs == old(splitTimestampSecs)
      ensures initialTimestamp == old(initialTimestamp) && lastTimestamp == old(lastTimestamp)
      ensures files == old(files)
    {
      var base, ext := Stem(filename), Extension(filename);
      this.filename := filename;
      filenameBase := base;
      filenameExt := ext;
    }

    /** Closes the stream if open, then opens `GetFilename()`; `ok` says
        whether the open succeeds. */
    method Reopen(ok: bool)
      requires Valid()
      modifies this
      ensures outputOpen == ok
      ensures files == old(files) + if ok then [OutFile(old(GetFilename()), false, [])] else []
      ensures splitCounter == old(splitCounter) && filename == old(filename)
      ensures filenameBase == old(filenameBase) && filenameExt == old(filenameExt)
      ensures enabled == old(enabled) && headerWritten == old(headerWritten)
      ensures splitTimestampSecs == old(splitTimestampSecs) && splitTimestampUs == old(splitTimestampUs)
      ensures initialTimestamp == old(initialTimestamp) && lastTimestamp == old(lastTimestamp)
    {
      var name := GetFilename();
      outputOpen := false;
      if ok {
        files := files + [OutFile(name, false, [])];
        outputOpen := true;
      }
    }

    /** The split settings of `enable`, applied whatever the state: a valid
        split time restarts the counter only when splitting was off. */
    method ApplySplitTime(splitSeconds: int)
      requires Valid() && IsInt32(splitSeconds)
      modifies this
      ensures Valid()
      ensures splitTimestampSecs == if splitSeconds != InvalidTimestamp then splitSeconds else old(splitTimestampSecs)
      ensures splitCounter ==
        if splitSeconds != InvalidTimestamp && old(splitTimestampSecs) == InvalidTimestamp then 0
        else old(splitCounter)
      ensures filename == old(filename) && lastTimestamp == old(lastTimestamp)
      ensures filenameBase == old(filenameBase) && filenameExt == old(filenameExt)
      ensures enabled == old(enabled) && files == old(files) && outputOpen == old(outputOpen)
      ensures headerWritten == old(headerWritten) && initialTimestamp == old(initialTimestamp)
    {
      if splitSeconds != InvalidTimestamp {
        var previouslyEnabled := splitTimestampSecs != InvalidTimestamp;
        if !previouslyEnabled {
          splitCounter := 0;
        }
        splitTimestampSecs := splitSeconds;
        splitTimestampUs := splitSeconds * 1_000_000;
      }
    }

    /** `enable(state, reset_ts, split_time_seconds)`; `openOk` says whether
        opening the output file would succeed. */
    method Enable(state: bool, resetTs: bool, splitSeconds: int, openOk: bool) returns (r: Outcome<LoggerError>)
      requires Valid() && IsInt32(splitSeconds)
      modifies this
      ensures Valid()
      // split settings are applied whatever the state
      ensures splitTimestampSecs == if splitSeconds != InvalidTimestamp then splitSeconds else old(splitTimestampSecs)
      ensures splitCounter ==
        if splitSeconds != InvalidTimestamp && old(splitTimestampSecs) == InvalidTimestamp then 0
        else old(splitCounter)
      ensures filename == old(filename) && lastTimestamp == old(lastTimestamp)
      ensures filenameBase == old(filenameBase) && filenameExt == old(filenameExt)
      ensures enabled == state
      // same state: nothing else happens
      ensures old(enabled) == state ==>
        r == Pass && files == old(files) && outputOpen == old(outputOpen)
        && headerWritten == old(headerWritten) && initialTimestamp == old(initialTimestamp)
      // disabling closes the file
      ensures old(enabled) && !state ==>
        r == Pass && !outputOpen && files == old(files)
        && headerWritten == old(headerWritten) && initialTimestamp == 0
      // enabling opens `GetFilename()`, computed with the new split settings
      ensures !old(enabled) && state && !openOk ==>
        r == Fail(CouldNotOpen(GetFilename())) && !outputOpen && files == old(files)
        && headerWritten == old(headerWritten) && initialTimestamp == 0
      ensures !old(enabled) && state && openOk ==>
        r == Pass && outputOpen && files == old(files) + [OutFile(GetFilename(), false, [])]
        && !headerWritten && initialTimestamp == if resetTs then old(lastTimestamp) else 0
    {
      ApplySplitTime(splitSeconds);
      if enabled == state {
        return Pass;
      }
      enabled := state;
      initialTimestamp := 0;
      if enabled {
        var name := GetFilename();
        Reopen(openOk);
        if !openOk {
          return Fail(CouldNotOpen(name));
        }
        headerWritten := false;
        initialTimestamp := if resetTs then lastTimestamp else 0;
      } else {
        outputOpen := false;
      }
      r := Pass;
    }

    /** `change_destination(filename, reset_ts)`. */
    method ChangeDestination(filename: string, resetTs: bool, openOk: bool) returns (r: Outcome<LoggerError>)
      requires Valid()
      modifies this
      ensures Valid()
      ensures enabled == old(enabled)
      ensures this.filename == filename && splitCounter == 0
      ensures filenameBase == Stem(filename) && filenameExt == Extension(filename)
      ensures splitTimestampSecs == old(splitTimestampSecs) && lastTimestamp == old(lastTimestamp)
      ensures !old(enabled) ==>
        r == Pass && files == old(files) && outputOpen == old(outputOpen)
        && headerWritten == old(headerWritten) && initialTimestamp == old(initialTimestamp)
      ensures old(enabled) && openOk ==>
        r == Pass && outputOpen && !headerWritten
        && files == old(files) + [OutFile(GetFilename(), false, [])]
        && initialTimestamp == if resetTs then old(lastTimestamp) else 0
      ensures old(enabled) && !openOk ==>
        r == Fail(CouldNotOpen(GetFilename())) && !outputOpen && files == old(files)
        && headerWritten == old(headerWritten) && initialTimestamp == 0
    {
      var previousState := enabled;
      if enabled {
        var _ := Enable(false, true, InvalidTimestamp, openOk);
      }
      SetFilename(filename);
      splitCounter := 0;
      r := Enable(previousState, resetTs, splitTimestampSecs, openOk);
    }

    /** `close()`. */
    method Close()
      requires Valid()
      modifies this
      ensures Valid() && !outputOpen
      ensures files == old(files) && enabled == old(enabled) && splitCounter == old(splitCounter)
      ensures filename == old(filename) && filenameBase == old(filenameBase) && filenameExt == old(filenameExt)
      ensures initialTimestamp == old(initialTimestamp) && lastTimestamp == old(lastTimestamp)
      ensures headerWritten == old(headerWritten) && splitTimestampSecs == old(splitTimestampSecs)
    {
      outputOpen := false;
    }

    /** Whether `split_file(ts)` starts a new file. */
    predicate SplitDue(ts: int)
      reads this
    {
      splitTimestampUs != InvalidTimestamp && ts - initialTimestamp >= splitTimestampUs
    }

    /** `split_file(ts)`; the new file's `open` is not checked by the source. */
    method SplitFile(ts: int, openOk: bool)
      requires Valid()
      modifies this
      ensures Valid()
      ensures enabled == old(enabled) && filename == old(filename)
      ensures filenameBase == old(filenameBase) && filenameExt == old(filenameExt)
      ensures splitTimestampSecs == old(splitTimestampSecs)
      ensures !old(SplitDue(ts)) ==>
        splitCounter == old(splitCounter) && outputOpen == old(outputOpen) && files == old(files)
        && headerWritten == old(headerWritten) && initialTimestamp == old(initialTimestamp)
        && lastTimestamp == old(lastTimestamp)
      ensures old(SplitDue(ts)) ==>
        splitCounter == old(splitCounter) + 1 && outputOpen == openOk && !headerWritten
        && initialTimestamp == ts && lastTimestamp == ts
        && files == old(files) + if openOk then [OutFile(SplitFileName(filenameBase, splitCounter, filenameExt), false, [])] else []
    {
      if splitTimestampUs != InvalidTimestamp && ts - initialTimestamp >= splitTimestampUs {
        splitCounter := splitCounter + 1;
        lastTimestamp := ts;
        Reopen(openOk);
        headerWritten := false;
        initialTimestamp := lastTimestamp;
      }
    }

    /** `process_events(first, last, ts)`; `openOk` is passed to the
        `split_file` it may call. */
    method ProcessEvents(events: seq<Event>, ts: int, openOk: bool)
      requires Valid()
      modifies this
      ensures Valid()
      ensures lastTimestamp == ts
      ensures enabled == old(enabled) && filename == old(filename) && splitTimestampSecs == old(splitTimestampSecs)
      ensures filenameBase == old(filenameBase) && filenameExt == old(filenameExt)
      ensures !(|events| > 0 && old(enabled) && old(outputOpen)) ==>
        files == old(files) && outputOpen == old(outputOpen) && headerWritten == old(headerWritten)
        && splitCounter == old(splitCounter) && initialTimestamp == old(initialTimestamp)
      ensures |events| > 0 && old(enabled) && old(outputOpen) ==>
        var written := WriteToLast(old(files), Shifted(events, old(initialTimestamp)));
        && |files| >= |written| && files[..|written|] == written
        && (!old(SplitDue(ts)) ==>
              files == written && outputOpen && headerWritten
              && splitCounter == old(splitCounter) && initialTimestamp == old(initialTimestamp))
        && (old(SplitDue(ts)) ==>
              splitCounter == old(splitCounter) + 1 && outputOpen == openOk && !headerWritten
              && initialTimestamp == ts
              && files == written + if openOk then [OutFile(GetFilename(), false, [])] else [])
    {
      if |events| > 0 && enabled && outputOpen {
        if !headerWritten {
          files := files[|files| - 1 := files[|files| - 1].(header := true)];
          headerWritten := true;
        }
        var buffer, written, last := FillBuffer(events, initialTimestamp, lastTimestamp);
        lastTimestamp := last;
        files := WriteToLast(files, buffer[..written]);
        SplitFile(ts, openOk);
      }
      lastTimestamp := ts;
    }
  }

  /** The write loop of `process_events`: copies the events not older than
      `initial`, re-based, into a buffer, and tracks the last copied timestamp
      (starting from `last0`). */
  method FillBuffer(events: seq<Event>, initial: int, last0: int) returns (buffer: array<Event>, written: nat, last: int)
    ensures fresh(buffer) && written <= buffer.Length
    ensures buffer[..written] == Shifted(events, initial)
    ensures last == last0 || exists i :: 0 <= i < |events| && events[i].t >= initial && last == events[i].t
  {
    buffer := new Event[|events|](_ => Event(0, []));
    written := 0;
    last := last0;
    var i := 0;
    while i < |events|
      invariant 0 <= written <= i <= |events|
      invariant buffer[..written] == Shifted(events[..i], initial)
      invariant last == last0 || exists k :: 0 <= k < i && events[k].t >= initial && last == events[k].t
    {
      if events[i].t >= initial {
        buffer[written] := Event(events[i].t - initial, events[i].attrs);
        written := written + 1;
        last := events[i].t;
      }
      assert events[..i + 1][..i] == events[..i];
      i := i + 1;
    }
    assert events[..i] == events;
  }

  /** A split name lies in the current directory, holding no '/', exactly
      when the configured name does not name only a root: the stem of "/",
      "//", "//host" or "//host/" keeps a '/'. */
  lemma SplitNameHasNoDirectory(filename: string, counter: nat)
    ensures '/' !in SplitFileName(Stem(filename), counter, Extension(filename)) <==> !RootOnly(filename)
  {
    var base, ext := Stem(filename), Extension(filename);
    StemThenExtensionIsFileName(filename);
    FileNameHasSlashIffRoot(filename);
    if RootOnly(filename) {
      ExtensionEndsFileName(filename);
      assert base != [] && base[0] == '/';
      assert SplitFileName(base, counter, ext)[0] == '/';
    } else {
      assert '/' !in base + ext;
      SplitNameKeepsOutChar(base, counter, ext, '/');
    }
  }

  /** A configured name ending in '/' (and not only a root) has the file name
      ".", so its split names are "._" and the padded counter. */
  lemma SplitNameOfDirectory(filename: string, counter: nat)
    requires filename != [] && filename[|filename| - 1] == '/' && !RootOnly(filename)
    ensures SplitFileName(Stem(filename), counter, Extension(filename)) == "._" + ZeroPad(NatToString(counter), 4)
  {
    StemOfDirectory(filename);
    DotSplitName(counter);
  }

  /** The split names of the stem "." with no extension. */
  lemma DotSplitName(counter: nat)
    ensures SplitFileName(".", counter, []) == "._" + ZeroPad(NatToString(counter), 4)
  {
  }

  lemma SplitNameKeepsOutChar(base: string, counter: nat, ext: string, c: char)
    requires c !in base + ext && c != '_' && !IsDigit(c)
    ensures c !in SplitFileName(base, counter, ext)
  {
    var digits := ZeroPad(NatToString(counter), 4);
    assert c !in digits by {
      PaddedNatRoundTrip(counter, 4);
    }
    assert c !in base && c !in ext;
    assert SplitFileName(base, counter, ext) == base + ("_" + digits) + ext;
  }

  /** Different split counters give different file names for the same base
      and extension, so within one destination a split never reopens (and
      truncates) an earlier part; `change_destination` restarts the counter,
      so parts of different destinations may share a name. */
  lemma SplitNamesDistinct(base: string, ext: string, a: nat, b: nat)
    requires a != b
    ensures SplitFileName(base, a, ext) != SplitFileName(base, b, ext)
  {
    var pa := ZeroPad(NatToString(a), 4);
    var pb := ZeroPad(NatToString(b), 4);
    var na := SplitFileName(base, a, ext);
    var nb := SplitFileName(base, b, ext);
    if na == nb {
      assert |pa| == |pb|;
      var lo := |base| + 1;
      assert na[lo..lo + |pa|] == pa;
      assert nb[lo..lo + |pb|] == pb;
      PaddedNatInjective(a, b, 4);
    }
  }

  /** Up to 9999 the counter is printed on exactly four digits. */
  lemma SplitCounterWidth(counter: nat)
    requires counter < 10000
    ensures |ZeroPad(NatToString(counter), 4)| == 4
  {
    var s := NatToString(counter);
    if |s| > 4 {
      NatToStringRoundTrip(counter);
      DigitsBound(s);
    }
  }

  /** A numeral with no leading zero and more than four digits is at least 10000. */
  lemma {:induction false} DigitsBound(s: string)
    requires AllDigits(s) && |s| > 4 && s[0] != '0'
    ensures ParseDigits(s) >= 10000
  {
    DigitsAtLeast(s);
    Pow10AtLeast(|s| - 1);
  }

  lemma {:induction false} Pow10AtLeast(k: nat)
    requires k >= 4
    ensures Pow10(k) >= 10000
  {
    if k > 4 {
      Pow10AtLeast(k - 1);
    }
  }

  lemma {:induction false} DigitsAtLeast(s: string)
    requires AllDigits(s) && |s| >= 1 && s[0] != '0'
    ensures ParseDigits(s) >= Pow10(|s| - 1)
  {
    if |s| > 1 {
      DigitsAtLeast(s[..|s| - 1]);
    }
  }

  function Pow10(k: nat): (p: nat)
    ensures p >= 1
  {
    if k == 0 then 1 else 10 * Pow10(k - 1)
  }
}
