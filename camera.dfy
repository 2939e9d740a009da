/** `Camera::Private` of the driver SDK as a sequential state machine: the
    callback registries, the running flag and its notifications, start and
    stop, the run thread's main loop (fed a list of poll results), recording,
    opening a RAW file, and the guards of the accessors. The run thread is
    folded into the calls that wait for it: `Start` also runs the thread's
    prologue, `RunLoop` runs its loop, `Stop` joins it. */
module CameraRuntime {
  import opened Wrappers
  import opened CameraEffects
  import opened CameraPacing
  import opened Paths
  import opened Arith

  /** The `CameraErrorCode`s and internal error codes the modelled code raises. */
  datatype CameraError =
    | CameraNotInitialized
    | CameraNotFound
    | FileDoesNotExist
    | NotARegularFile
    | WrongExtension
    | InvalidRawfile
    | CouldNotOpenFile
    | BiasesUnavailable
    | RoiUnavailable
    | ExtTriggerUnavailable
    | AntiFlickerModuleUnavailable
    | NoiseFilterModuleUnavailable
    | TriggerOutUnavailable
    | IEventsStreamNotFound
    | IDeviceControlNotFound
    | IDecoderNotFound
    | ILLBiasesNotFound
    | IGeometryNotFound
    | IRoiNotFound
    | IBoardIdentificationNotFound
    | ICDDecoderNotFound

  /** `RunThreadStatus`. */
  datatype ThreadStatus = ThreadStarted | ThreadRunning | ThreadStopped

  /** The facilities a HAL device answers `get_facility` with (present or
      not), the raw event size of its decoder, and its board serial. */
  datatype Device = Device(
    eventsStream: bool,
    geometry: bool,
    decoder: bool,
    cdDecoder: bool,
    extTriggerDecoder: bool,
    boardId: bool,
    rawEventSize: nat,
    serial: string)

  /** The objects the accessors of `Camera::Private` hand out. */
  datatype Facility = Biases | Roi | Geometry | Generation | RawData | Cd | ExtTrigger | AntiFlicker | NoiseFilter | TriggerOut

  /** A caller's function object, stored by a registry. */
  type Handler = nat

  /** The steps the run thread takes after the loop starts: the events stream
      starts, and a live camera's device control starts and resets. */
  function Prologue(fromFile: bool): (acts: seq<Action>)
    ensures |acts| >= 1 && acts[0] == EventsStreamStarted
    ensures fromFile <==> |acts| == 1
  {
    if fromFile then [EventsStreamStarted]
    else [EventsStreamStarted, DeviceControlStarted, DeviceControlReset]
  }

  /** What `run_from_file` and `run_from_camera` return for the loop's last
      poll result: `if (!run_main_loop()) return false; return true;` makes
      it 0 or 1. */
  function RunResult(res: int): (r: int)
    ensures r == 0 || r == 1
    ensures r == 0 <==> res == 0
  {
    if res == 0 then 0 else 1
  }

  /** Whatever the polls, the run thread never reports `DataTransferFailed`:
      neither the loop nor the STOPPED notifications of the `end_run` that
      follows it call a runtime-error callback, because `run` hands `end_run`
      the collapsed result, never -1. */
  lemma RunNeverReportsTransferFailure(p: Pacer, polls: seq<Poll>, s: Setup, decodeTags: nat, ids: seq<nat>)
    requires s.step > 0
    ensures forall i :: 0 <= i < |polls| ==> RunResult(polls[i].res) != -1
    ensures forall a :: a in Serve(p, polls, s, decodeTags).0 + StatusCalls(ids, Stopped) ==> !a.DataTransferFailed?
  {
    ServeWork(p, polls, s, decodeTags);
  }

  /** The file names `start_recording` derives from a path share one base and
      carry the extensions `.raw` and `.bias`; a path already ending in `.raw`
      is logged to itself. */
  lemma RecordingPaths(path: string)
    ensures Extension(RemoveExtension(path) + ".raw") == ".raw"
    ensures Extension(RemoveExtension(path) + ".bias") == ".bias"
    ensures Extension(path) == ".raw" ==> RemoveExtension(path) + ".raw" == path
  {
    RecordingExtension(RemoveExtension(path), ".raw");
    RecordingExtension(RemoveExtension(path), ".bias");
    RemoveExtensionRoundTrip(path);
  }

  /** Either recording extension, appended to any base, is its extension. */
  lemma RecordingExtension(base: string, ext: string)
    requires ext == ".raw" || ext == ".bias"
    ensures Extension(base + ext) == ext
  {
    assert forall i :: 1 <= i < |ext| ==> ext[i] != '.' && ext[i] != '/';
    AppendedExtension(base, ext);
  }

  class Camera {
    /** The decoder's last timestamp after its k-th decode call. */
    const lastTs: nat -> int
    /** The k-th reading of the system clock, in microseconds. */
    const clock: nat -> U64

    var isInit: bool
    /** `device_`. */
    var device: Option<Device>
    /** Whether `i_events_stream_`, `i_device_control_`, `i_decoder_`,
        `geometry_`, `ext_trigger_`, `biases_`, `roi_`, `afk_`,
        `noise_filter_` and `trigger_out_` are set. */
    var eventsStream: bool
    var deviceControl: bool
    var decoder: bool
    var geometry: bool
    var extTrigger: bool
    var biases: bool
    var roi: bool
    var antiFlicker: bool
    var noiseFilter: bool
    var triggerOut: bool
    var rawEventSize: nat
    var serialNumber: string
    var fromFile: bool
    var emulateRealTime: bool

    var isRunning: bool
    /** `run_thread_.joinable()`. */
    var threadJoinable: bool
    /** The run thread has left its loop (it may still await its join). */
    var threadEnded: bool
    /** An exception escaped the run thread: the process is terminated. */
    var terminated: bool
    var threadStatus: ThreadStatus
    /** The loop's `res`. */
    var lastRes: int
    var isRecording: bool

    /** The shared index generator and the two registries of this class. */
    var nextId: nat
    var statusCallbacks: map<nat, Handler>
    var errorCallbacks: map<nat, Handler>

    /** The pacer's state. */
    var decodes: nat
    var clockReads: nat
    var firstTs: int
    var firstTsClock: U64

    /** Everything done so far, in order. */
    var trace: seq<Action>

    ghost predicate Valid()
      reads this`statusCallbacks, this`errorCallbacks, this`nextId
      reads this`isRunning, this`threadJoinable, this`terminated, this`isInit, this`eventsStream,
        this`decoder, this`device, this`threadStatus, this`threadEnded
    {
      RegistriesValid() && ThreadValid()
    }

    /** Every registered id was handed out by the shared generator. */
    ghost predicate RegistriesValid()
      reads this`statusCallbacks, this`errorCallbacks, this`nextId
    {
      && (forall k :: k in statusCallbacks ==> k < nextId)
      && (forall k :: k in errorCallbacks ==> k < nextId)
    }

    /** A started thread runs on an initialised camera with its stream and
        decoder, and the running flag is up until the thread leaves its loop
        or is joined. */
    ghost predicate ThreadValid()
      reads this`isRunning, this`threadJoinable, this`terminated, this`isInit, this`eventsStream,
        this`decoder, this`device, this`threadStatus, this`threadEnded
    {
      && (isRunning ==> threadJoinable)
      && (threadJoinable && !terminated ==> isInit && eventsStream && decoder && device.Some?)
      && (threadJoinable && !terminated ==> threadStatus == ThreadRunning)
      && (threadJoinable && !threadEnded && !terminated ==> isRunning)
      && (!threadJoinable ==> !threadEnded)
    }

    function PacerState(): Pacer
      reads this`decodes, this`clockReads, this`firstTs, this`firstTsClock
    {
      Pacer(decodes, clockReads, firstTs, firstTsClock)
    }

    /** The status callbacks in the order `std::map` calls them. */
    function StatusOrder(): seq<nat>
      reads this`statusCallbacks, this`nextId
    {
      Ascending(statusCallbacks.Keys, nextId)
    }

    /** The runtime-error callbacks in the order `std::map` calls them. */
    function ErrorOrder(): seq<nat>
      reads this`errorCallbacks, this`nextId
    {
      Ascending(errorCallbacks.Keys, nextId)
    }

    /** Every registered status callback is notified, once, in id order. */
    lemma StatusOrderIsAllCallbacks()
      requires Valid()
      ensures forall k :: k in statusCallbacks <==> k in StatusOrder()
      ensures forall i, j :: 0 <= i < j < |StatusOrder()| ==> StatusOrder()[i] < StatusOrder()[j]
    {
      var ids := Ascending(statusCallbacks.Keys, nextId);
      AscendingFacts(statusCallbacks.Keys, nextId);
      assert forall i :: 0 <= i < |ids| ==> ids[i] in statusCallbacks.Keys;
      assert forall k :: k in statusCallbacks ==> k < nextId;
    }

    /** `Camera()`: an empty, uninitialised camera. */
    constructor (lastTs: nat -> int, clock: nat -> U64)
      ensures Valid()
      ensures this.lastTs == lastTs && this.clock == clock
      ensures !isInit && device.None? && !isRunning && !threadJoinable && !isRecording
      ensures statusCallbacks == map[] && errorCallbacks == map[] && trace == []
    {
      this.lastTs := lastTs;
      this.clock := clock;
      isInit := false;
      device := None;
      eventsStream, deviceControl, decoder, geometry, extTrigger := false, false, false, false, false;
      biases, roi, antiFlicker, noiseFilter, triggerOut := false, false, false, false, false;
      rawEventSize := 0;
      serialNumber := "";
      fromFile, emulateRealTime := false, false;
      isRunning, threadJoinable, threadEnded, terminated := false, false, false, false;
      threadStatus := ThreadStopped;
      lastRes := 0;
      isRecording := false;
      nextId := 0;
      statusCallbacks, errorCallbacks := map[], map[];
      decodes, clockReads, firstTs, firstTsClock := 0, 0, 0, 0;
      trace := [];
    }

    // -------------------------------------------------------------------------
    // Guards

    /** `check_initialization`. */
    function CheckInitialization(): (r: Outcome<CameraError>)
      reads this`isInit
      ensures r.Pass? <==> isInit
      ensures r.Fail? ==> r.error == CameraNotInitialized
    {
      if !isInit then Fail(CameraNotInitialized) else Pass
    }

    /** `check_camera_device_instance`. */
    function CheckCameraDevice(): (r: Outcome<CameraError>)
      reads this`isInit, this`device
      ensures r.Pass? <==> isInit && device.Some?
      ensures r.Fail? ==> r.error == if isInit then CameraNotFound else CameraNotInitialized
    {
      if !isInit then Fail(CameraNotInitialized)
      else if device.None? then Fail(CameraNotFound)
      else Pass
    }

    /** `check_events_stream_instance`. */
    function CheckEventsStream(): (r: Outcome<CameraError>)
      reads this`isInit, this`eventsStream
      ensures r.Pass? <==> isInit && eventsStream
      ensures r.Fail? ==> r.error == if isInit then IEventsStreamNotFound else CameraNotInitialized
    {
      if !isInit then Fail(CameraNotInitialized)
      else if !eventsStream then Fail(IEventsStreamNotFound)
      else Pass
    }

    /** `check_ccam_instance`. */
    function CheckDeviceControl(): (r: Outcome<CameraError>)
      reads this`isInit, this`deviceControl
      ensures r.Pass? <==> isInit && deviceControl
      ensures r.Fail? ==> r.error == if isInit then IDeviceControlNotFound else CameraNotInitialized
    {
      if !isInit then Fail(CameraNotInitialized)
      else if !deviceControl then Fail(IDeviceControlNotFound)
      else Pass
    }

    /** `check_decoder_device_instance`. */
    function CheckDecoder(): (r: Outcome<CameraError>)
      reads this`isInit, this`decoder
      ensures r.Pass? <==> isInit && decoder
      ensures r.Fail? ==> r.error == if isInit then IDecoderNotFound else CameraNotInitialized
    {
      if !isInit then Fail(CameraNotInitialized)
      else if !decoder then Fail(IDecoderNotFound)
      else Pass
    }

    /** `check_biases_instance`. */
    function CheckBiases(): (r: Outcome<CameraError>)
      reads this`isInit, this`biases
      ensures r.Pass? <==> isInit && biases
      ensures r.Fail? ==> r.error == if isInit then ILLBiasesNotFound else CameraNotInitialized
    {
      if !isInit then Fail(CameraNotInitialized)
      else if !biases then Fail(ILLBiasesNotFound)
      else Pass
    }

    /** The accessors `biases()`, `roi()`, `geometry()`, `generation()`,
        `raw_data()`, `cd()`, `ext_trigger()`, `antiflicker_module()`,
        `noise_filter_module()` and `trigger_out()`: whether each hands out its
        object or throws, and what. */
    function Access(f: Facility): (r: Outcome<CameraError>)
      reads this
      ensures r.Pass? <==> match f
        case Biases => !fromFile && isInit && biases
        case Roi => isInit && device.Some? && !fromFile && roi
        case Geometry => isInit && device.Some? && geometry
        case ExtTrigger => isInit && device.Some? && extTrigger
        case AntiFlicker => isInit && device.Some? && !fromFile && antiFlicker
        case NoiseFilter => isInit && device.Some? && !fromFile && noiseFilter
        case TriggerOut => isInit && device.Some? && !fromFile && triggerOut
        case _ => isInit && device.Some?
    {
      match f
      case Biases =>
        if fromFile then Fail(BiasesUnavailable) else CheckBiases()
      case Roi =>
        if CheckCameraDevice().Fail? then CheckCameraDevice()
        else if fromFile then Fail(RoiUnavailable)
        else if !roi then Fail(IRoiNotFound)
        else Pass
      case Geometry =>
        if CheckCameraDevice().Fail? then CheckCameraDevice()
        else if !geometry then Fail(IGeometryNotFound)
        else Pass
      case ExtTrigger =>
        if CheckCameraDevice().Fail? then CheckCameraDevice()
        else if !extTrigger then Fail(ExtTriggerUnavailable)
        else Pass
      case AntiFlicker =>
        if CheckCameraDevice().Fail? then CheckCameraDevice()
        else if fromFile || !antiFlicker then Fail(AntiFlickerModuleUnavailable)
        else Pass
      case NoiseFilter =>
        if CheckCameraDevice().Fail? then CheckCameraDevice()
        else if fromFile || !noiseFilter then Fail(NoiseFilterModuleUnavailable)
        else Pass
      case TriggerOut =>
        if CheckCameraDevice().Fail? then CheckCameraDevice()
        else if fromFile || !triggerOut then Fail(TriggerOutUnavailable)
        else Pass
      case _ =>
        CheckCameraDevice()
    }

    /** A camera reading a file hides its hardware-only objects with the
        "unavailable" errors, whatever the device offers; the objects of the
        stream stay available. */
    lemma FromFileHidesHardware()
      requires isInit && device.Some? && fromFile
      ensures Access(Biases) == Fail(BiasesUnavailable)
      ensures Access(Roi) == Fail(RoiUnavailable)
      ensures Access(AntiFlicker) == Fail(AntiFlickerModuleUnavailable)
      ensures Access(NoiseFilter) == Fail(NoiseFilterModuleUnavailable)
      ensures Access(TriggerOut) == Fail(TriggerOutUnavailable)
      ensures Access(Generation) == Pass && Access(RawData) == Pass && Access(Cd) == Pass
    {
    }

    // -------------------------------------------------------------------------
    // Callback registries

    /** `add_status_change_callback`. */
    method AddStatusChangeCallback(h: Handler) returns (r: Result<nat, CameraError>)
      requires Valid()
      modifies this`statusCallbacks, this`nextId
      ensures Valid()
      ensures CheckCameraDevice().Fail? ==>
        r == Err(CheckCameraDevice().error) && statusCallbacks == old(statusCallbacks) && nextId == old(nextId)
      ensures CheckCameraDevice().Pass? ==>
        && r == Ok(old(nextId))
        && old(nextId) !in old(statusCallbacks)
        && statusCallbacks == old(statusCallbacks)[old(nextId) := h] && nextId == old(nextId) + 1
    {
      var check := CheckCameraDevice();
      if check.Fail? {
        return Err(check.error);
      }
      var id := nextId;
      nextId := nextId + 1;
      statusCallbacks := statusCallbacks[id := h];
      r := Ok(id);
    }

    /** `remove_status_change_callback`. */
    method RemoveStatusChangeCallback(id: nat) returns (removed: bool)
      requires Valid()
      modifies this`statusCallbacks
      ensures Valid()
      ensures removed == (id in old(statusCallbacks))
      ensures statusCallbacks == old(statusCallbacks) - {id}
    {
      removed := id in statusCallbacks;
      statusCallbacks := statusCallbacks - {id};
    }

    /** `add_runtime_error_callback`. */
    method AddRuntimeErrorCallback(h: Handler) returns (r: Result<nat, CameraError>)
      requires Valid()
      modifies this`errorCallbacks, this`nextId
      ensures Valid()
      ensures CheckCameraDevice().Fail? ==>
        r == Err(CheckCameraDevice().error) && errorCallbacks == old(errorCallbacks) && nextId == old(nextId)
      ensures CheckCameraDevice().Pass? ==>
        && r == Ok(old(nextId))
        && old(nextId) !in old(errorCallbacks)
        && errorCallbacks == old(errorCallbacks)[old(nextId) := h] && nextId == old(nextId) + 1
    {
      var check := CheckCameraDevice();
      if check.Fail? {
        return Err(check.error);
      }
      var id := nextId;
      nextId := nextId + 1;
      errorCallbacks := errorCallbacks[id := h];
      r := Ok(id);
    }

    /** `remove_runtime_error_callback`. */
    method RemoveRuntimeErrorCallback(id: nat) returns (removed: bool)
      requires Valid()
      modifies this`errorCallbacks
      ensures Valid()
      ensures removed == (id in old(errorCallbacks))
      ensures errorCallbacks == old(errorCallbacks) - {id}
    {
      removed := id in errorCallbacks;
      errorCallbacks := errorCallbacks - {id};
    }

    // -------------------------------------------------------------------------
    // Running flag

    /** `set_is_running`: on a change of the flag, every status callback of a
        snapshot of the registry is called with the new status; a call that
        does not change the flag does nothing. */
    method SetIsRunning(running: bool)
      modifies this`isRunning, this`trace
      ensures isRunning == running
      ensures trace == old(trace) +
        if old(isRunning) != running then StatusCalls(StatusOrder(), if running then Started else Stopped) else []
    {
      if isRunning != running {
        isRunning := running;
        var callbacks := StatusOrder();
        trace := trace + StatusCalls(callbacks, if running then Started else Stopped);
      }
    }

    /** `end_run`: `DataTransferFailed` to every runtime-error callback when the
        run failed with -1, then the running flag goes down. */
    method EndRun(runOutput: int)
      modifies this`isRunning, this`trace
      ensures !isRunning
      ensures trace == old(trace)
        + (if runOutput == -1 then ErrorCalls(ErrorOrder()) else [])
        + (if old(isRunning) then StatusCalls(StatusOrder(), Stopped) else [])
    {
      if runOutput == -1 {
        var callbacks := ErrorOrder();
        trace := trace + ErrorCalls(callbacks);
      }
      SetIsRunning(false);
    }

    // -------------------------------------------------------------------------
    // Start and stop

    /** `start`, with the run thread's prologue it waits for: the thread marks
        itself running, checks its facilities, starts the stream (and a live
        camera's device control) and initialises the pacer's clocks. A check
        failing in the thread terminates the process. */
    method Start() returns (r: Result<bool, CameraError>)
      requires Valid() && !terminated
      modifies this`isRunning, this`trace, this`threadJoinable, this`threadEnded, this`terminated,
        this`threadStatus, this`lastRes, this`firstTs, this`firstTsClock
      ensures Valid()
      ensures !old(isInit) || old(threadJoinable) ==> RunStateUnchanged()
      ensures !old(isInit) ==> r == Err(CameraNotInitialized) && !threadJoinable
      ensures old(isInit) && old(threadJoinable) ==> r == Ok(false)
      ensures old(isInit) && !old(threadJoinable) && old(ThreadCheck()).Fail? ==>
        r == Err(old(ThreadCheck()).error) && terminated
      ensures old(isInit) && !old(threadJoinable) && old(ThreadCheck()).Pass? ==>
        && r == Ok(true) && !terminated
        && threadJoinable && !threadEnded && isRunning && threadStatus == ThreadRunning && lastRes == 0
        && trace == old(trace) + StatusCalls(StatusOrder(), Started) + Prologue(fromFile)
        && PacerState() == InitClocks(old(PacerState()), lastTs)
    {
      if !isInit {
        return Err(CameraNotInitialized);
      }
      if threadJoinable {
        return Ok(false);
      }
      r := Launch();
    }

    /** Nothing `start` may change has changed: the trace, the thread and
        its status, the running flag, the loop's result and the pacer. */
    twostate predicate RunStateUnchanged()
      reads this`trace, this`isRunning, this`threadJoinable, this`threadEnded, this`terminated,
        this`threadStatus, this`lastRes, this`decodes, this`clockReads, this`firstTs, this`firstTsClock
    {
      && trace == old(trace) && isRunning == old(isRunning) && threadJoinable == old(threadJoinable)
      && threadEnded == old(threadEnded) && terminated == old(terminated)
      && threadStatus == old(threadStatus) && lastRes == old(lastRes)
      && decodes == old(decodes) && clockReads == old(clockReads)
      && firstTs == old(firstTs) && firstTsClock == old(firstTsClock)
    }

    /** `start` once the camera is initialised and no run thread exists: the
        running flag goes up (notifying) and the run thread starts. */
    method Launch() returns (r: Result<bool, CameraError>)
      requires Valid() && !terminated && isInit && !threadJoinable
      modifies this`isRunning, this`trace, this`threadJoinable, this`threadEnded, this`terminated,
        this`threadStatus, this`lastRes, this`firstTs, this`firstTsClock
      ensures Valid()
      ensures old(ThreadCheck()).Fail? ==> r == Err(old(ThreadCheck()).error) && terminated
      ensures old(ThreadCheck()).Pass? ==>
        && r == Ok(true) && !terminated
        && threadJoinable && !threadEnded && isRunning && threadStatus == ThreadRunning && lastRes == 0
        && trace == old(trace) + StatusCalls(StatusOrder(), Started) + Prologue(fromFile)
        && PacerState() == InitClocks(old(PacerState()), lastTs)
    {
      SpawnThread();
      r := RunPrologue();
    }

    /** The part of `start` that holds the thread mutex: the thread exists,
        the running flag goes up (notifying) and the status is STARTED. */
    method SpawnThread()
      requires !isRunning
      modifies this`isRunning, this`trace, this`threadJoinable, this`threadStatus
      ensures threadJoinable && isRunning && threadStatus == ThreadStarted
      ensures trace == old(trace) + StatusCalls(StatusOrder(), Started)
    {
      threadJoinable := true;
      SetIsRunning(true);
      threadStatus := ThreadStarted;
    }

    /** The run thread up to its loop: it marks itself running and checks its
        facilities; a failing check terminates the process. */
    method RunPrologue() returns (r: Result<bool, CameraError>)
      requires threadJoinable && isRunning && !threadEnded && !terminated
      modifies this`trace, this`terminated, this`threadStatus, this`lastRes, this`firstTs, this`firstTsClock
      ensures ThreadValid()
      ensures old(ThreadCheck()).Fail? ==> r == Err(old(ThreadCheck()).error) && terminated
      ensures old(ThreadCheck()).Pass? ==>
        && r == Ok(true) && !terminated && threadStatus == ThreadRunning && lastRes == 0
        && trace == old(trace) + Prologue(fromFile)
        && PacerState() == InitClocks(old(PacerState()), lastTs)
    {
      // The status becomes RUNNING before the checks, which do not read it.
      var check := ThreadCheck();
      if check.Fail? {
        threadStatus, terminated := ThreadRunning, true;
        return Err(check.error);
      }
      threadStatus, trace, lastRes, firstTs, firstTsClock :=
        ThreadRunning, trace + Prologue(fromFile), 0, lastTs(decodes), 0;
      r := Ok(true);
    }

    /** The checks of the run thread before its loop: `run` checks the device,
        the events stream and the decoder, and `run_from_camera` the device
        control. */
    function ThreadCheck(): (r: Outcome<CameraError>)
      reads this`isInit, this`device, this`eventsStream, this`decoder, this`fromFile, this`deviceControl
      ensures r.Pass? <==> isInit && device.Some? && eventsStream && decoder && (fromFile || deviceControl)
    {
      if CheckCameraDevice().Fail? then CheckCameraDevice()
      else if CheckEventsStream().Fail? then CheckEventsStream()
      else if CheckDecoder().Fail? then CheckDecoder()
      else if !fromFile then CheckDeviceControl()
      else Pass
    }

    /** `stop`: in this order, the thread status becomes STOPPED, the running
        flag goes down (notifying), the events stream stops, the device
        control stops if there is one, the run thread is joined (its
        `end_run` finds the flag already down), and recording stops. */
    method Stop() returns (r: Result<bool, CameraError>)
      requires Valid() && !terminated
      modifies this`isRunning, this`trace, this`threadJoinable, this`threadEnded,
        this`threadStatus, this`isRecording
      ensures Valid()
      ensures !(old(isInit) && old(threadJoinable)) ==>
        && trace == old(trace) && isRunning == old(isRunning) && threadJoinable == old(threadJoinable)
        && threadEnded == old(threadEnded) && threadStatus == old(threadStatus) && isRecording == old(isRecording)
      ensures !old(isInit) ==> r == Err(CameraNotInitialized)
      ensures old(isInit) && !old(threadJoinable) ==> r == Ok(false)
      ensures old(isInit) && old(threadJoinable) ==>
        && r == Ok(true) && !threadJoinable && !isRunning && !isRecording && threadStatus == ThreadStopped
        && trace == old(trace) + old(StopActions(isRunning))
    {
      if !isInit {
        return Err(CameraNotInitialized);
      }
      if !threadJoinable {
        return Ok(false);
      }
      ghost var notify := if isRunning then StatusCalls(StatusOrder(), Stopped) else [];
      var control := if deviceControl then [DeviceControlStopped] else [];
      ghost var middle := notify + [EventsStreamStopped] + control;
      ghost var expected := StopActions(isRunning);
      assert expected == middle + [Joined, RawLogStopped];
      ghost var t0 := trace;
      threadStatus := ThreadStopped;
      SetIsRunning(false);
      assert trace == t0 + notify;
      trace := trace + [EventsStreamStopped] + control;
      assert trace == t0 + middle;
      ghost var t1 := trace;
      Join();
      var stopped := StopRecording();
      assert stopped.Pass?;
      assert trace == t1 + [Joined, RawLogStopped];
      AppendAssoc(t0, middle, [Joined, RawLogStopped]);
      r := Ok(true);
    }

    /** What `stop` does to a started camera, in order: STOPPED to every
        status callback (only if it was running), the events stream stops,
        the device control stops (only if there is one), the run thread is
        joined and the raw log stops. */
    function StopActions(wasRunning: bool): seq<Action>
      reads this`statusCallbacks, this`nextId, this`deviceControl
    {
      (if wasRunning then StatusCalls(StatusOrder(), Stopped) else [])
      + [EventsStreamStopped]
      + (if deviceControl then [DeviceControlStopped] else [])
      + [Joined, RawLogStopped]
    }

    /** `run_thread_.join()` once the running flag is down: a thread still in
        its loop leaves it, and its `end_run` finds nothing to notify. */
    method Join()
      requires threadJoinable && !isRunning
      modifies this`isRunning, this`trace, this`threadJoinable, this`threadEnded
      ensures !threadJoinable && !threadEnded && !isRunning
      ensures trace == old(trace) + [Joined]
    {
      if !threadEnded {
        EndRun(RunResult(lastRes));
        threadEnded := true;
      }
      trace := trace + [Joined];
      threadJoinable := false;
      threadEnded := false;
    }

    // -------------------------------------------------------------------------
    // Recording

    /** `stop_recording`. */
    method StopRecording() returns (r: Outcome<CameraError>)
      modifies this`trace, this`isRecording
      ensures r == CheckEventsStream()
      ensures r.Fail? ==> trace == old(trace) && isRecording == old(isRecording)
      ensures r.Pass? ==> trace == old(trace) + [RawLogStopped] && !isRecording
    {
      r := CheckEventsStream();
      if r.Fail? {
        return;
      }
      trace := trace + [RawLogStopped];
      isRecording := false;
    }

    /** `start_recording(path)`: stop any recording, save the biases next to
        the log if the camera has biases, and log the raw data to the path
        with its extension replaced by `.raw`; `logOk` says whether the log
        file opens. */
    method StartRecording(path: string, logOk: bool) returns (r: Outcome<CameraError>)
      modifies this`trace, this`isRecording
      ensures CheckCameraDevice().Fail? ==>
        r == CheckCameraDevice() && trace == old(trace) && isRecording == old(isRecording)
      ensures CheckCameraDevice().Pass? && CheckEventsStream().Fail? ==>
        r == CheckEventsStream() && trace == old(trace) && isRecording == old(isRecording)
      ensures CheckCameraDevice().Pass? && CheckEventsStream().Pass? ==>
        var base := RemoveExtension(path);
        && trace == old(trace) + [RawLogStopped]
             + (if biases then [BiasesSaved(base + ".bias")] else [])
             + [RawLogRequested(base + ".raw")]
        && (logOk ==> r == Pass && isRecording)
        && (!logOk ==> r == Fail(CouldNotOpenFile) && !isRecording)
    {
      r := CheckCameraDevice();
      if r.Fail? {
        return;
      }
      r := CheckEventsStream();
      if r.Fail? {
        return;
      }
      var _ := StopRecording();
      var base := RemoveExtension(path);
      if biases {
        trace := trace + [BiasesSaved(base + ".bias")];
      }
      trace := trace + [RawLogRequested(base + ".raw")];
      if !logOk {
        return Fail(CouldNotOpenFile);
      }
      isRecording := true;
      r := Pass;
    }

    // -------------------------------------------------------------------------
    // Opening a RAW file

    /** `open_raw_file`: stop a started camera, mark the camera initialised,
        check the path, and open the device it holds. */
    method OpenRawFile(path: string, reproduceCameraBehavior: bool, present: bool, regular: bool,
                       found: Option<Device>) returns (r: Outcome<CameraError>)
      requires Valid() && !terminated
      modifies this`isRunning, this`trace, this`threadJoinable, this`threadEnded, this`threadStatus, this`isRecording
      modifies this`isInit, this`device, this`fromFile, this`emulateRealTime
      modifies this`eventsStream, this`geometry, this`decoder, this`rawEventSize, this`serialNumber, this`extTrigger
      ensures Valid()
      ensures isInit && !threadJoinable && !isRunning
      // a started camera is stopped first
      ensures old(isInit) && old(threadJoinable) ==>
        trace == old(trace) + old(StopActions(isRunning)) && !isRecording
      ensures !(old(isInit) && old(threadJoinable)) ==>
        trace == old(trace) && isRecording == old(isRecording)
      ensures RawPathCheck(path, present, regular).Fail? ==>
        && r == RawPathCheck(path, present, regular)
        && device == old(device) && fromFile == old(fromFile) && emulateRealTime == old(emulateRealTime)
        && eventsStream == old(eventsStream) && geometry == old(geometry) && decoder == old(decoder)
      ensures RawPathCheck(path, present, regular).Pass? ==>
        && Opened(found, reproduceCameraBehavior)
        && (found.None? ==> r == Fail(InvalidRawfile))
        && (found.Some? && !found.value.boardId ==> r == Fail(IBoardIdentificationNotFound))
        && (found.Some? && found.value.boardId ==> r == CommonInterfacesCheck(found.value))
    {
      StopIfStarted();
      r := OpenPath(path, reproduceCameraBehavior, present, regular, found);
    }

    /** `open_raw_file` once no run thread is left: mark the camera
        initialised, check the path, and open the device it holds. */
    method OpenPath(path: string, reproduceCameraBehavior: bool, present: bool, regular: bool,
                    found: Option<Device>) returns (r: Outcome<CameraError>)
      requires Valid() && !terminated && !threadJoinable
      modifies this`isInit, this`device, this`fromFile, this`emulateRealTime
      modifies this`eventsStream, this`geometry, this`decoder, this`rawEventSize, this`serialNumber, this`extTrigger
      ensures Valid() && isInit
      ensures trace == old(trace) && isRecording == old(isRecording)
      ensures RawPathCheck(path, present, regular).Fail? ==>
        && r == RawPathCheck(path, present, regular)
        && device == old(device) && fromFile == old(fromFile) && emulateRealTime == old(emulateRealTime)
        && eventsStream == old(eventsStream) && geometry == old(geometry) && decoder == old(decoder)
      ensures RawPathCheck(path, present, regular).Pass? ==>
        && Opened(found, reproduceCameraBehavior)
        && (found.None? ==> r == Fail(InvalidRawfile))
        && (found.Some? && !found.value.boardId ==> r == Fail(IBoardIdentificationNotFound))
        && (found.Some? && found.value.boardId ==> r == CommonInterfacesCheck(found.value))
    {
      isInit := true;
      r := RawPathCheck(path, present, regular);
      if r.Pass? {
        r := OpenDevice(reproduceCameraBehavior, found);
      }
    }

    /** The first step of `open_raw_file`: a started camera is stopped. */
    method StopIfStarted()
      requires Valid() && !terminated
      modifies this`isRunning, this`trace, this`threadJoinable, this`threadEnded, this`threadStatus, this`isRecording
      ensures Valid() && !threadJoinable && !isRunning
      ensures device == old(device) && fromFile == old(fromFile) && emulateRealTime == old(emulateRealTime)
      ensures eventsStream == old(eventsStream) && geometry == old(geometry) && decoder == old(decoder)
      ensures old(isInit) && old(threadJoinable) ==>
        trace == old(trace) + old(StopActions(isRunning)) && !isRecording
      ensures !(old(isInit) && old(threadJoinable)) ==>
        trace == old(trace) && isRecording == old(isRecording)
    {
      if isInit && threadJoinable {
        var _ := Stop();
      }
    }

    /** The checks `open_raw_file` makes on its path, in order: it exists
        (`present`), is a regular file (`regular`), and has the extension
        `.raw`. */
    static function RawPathCheck(path: string, present: bool, regular: bool): (r: Outcome<CameraError>)
      ensures r.Pass? <==> present && regular && Extension(path) == ".raw"
      ensures !present ==> r == Fail(FileDoesNotExist)
      ensures present && !regular ==> r == Fail(NotARegularFile)
      ensures present && regular && Extension(path) != ".raw" ==> r == Fail(WrongExtension)
    {
      if !present then Fail(FileDoesNotExist)
      else if !regular then Fail(NotARegularFile)
      else if Extension(path) != ".raw" then Fail(WrongExtension)
      else Pass
    }

    /** The camera holds `found` and, when there is one, reads a file, in
        real time exactly when `reproduceCameraBehavior` asks for it. */
    predicate Opened(found: Option<Device>, reproduceCameraBehavior: bool)
      reads this`device, this`fromFile, this`emulateRealTime
    {
      device == found && (found.Some? ==> fromFile && emulateRealTime == reproduceCameraBehavior)
    }

    /** The device a checked RAW file opens as (`found`, if any): it becomes
        the camera's, which then reads a file and needs the board
        identification before its common interfaces. */
    method OpenDevice(reproduceCameraBehavior: bool, found: Option<Device>) returns (r: Outcome<CameraError>)
      requires Valid() && isInit && !threadJoinable
      modifies this`device, this`fromFile, this`emulateRealTime
      modifies this`eventsStream, this`geometry, this`decoder, this`rawEventSize, this`serialNumber, this`extTrigger
      ensures Valid()
      ensures device == found
      ensures found.None? ==> r == Fail(InvalidRawfile)
      ensures found.Some? ==> fromFile && emulateRealTime == reproduceCameraBehavior
      ensures found.Some? && !found.value.boardId ==> r == Fail(IBoardIdentificationNotFound)
      ensures found.Some? && found.value.boardId ==> r == CommonInterfacesCheck(found.value)
    {
      device := found;
      if found.None? {
        return Fail(InvalidRawfile);
      }
      fromFile := true;
      emulateRealTime := reproduceCameraBehavior;
      if !found.value.boardId {
        return Fail(IBoardIdentificationNotFound);
      }
      r := InitCommonInterfaces(found.value);
    }

    /** `init_common_interfaces` (with `init_callbacks`): take the events
        stream, geometry and decoder of the device, start a fresh raw-data
        registry, record the serial, and require a CD decoder. */
    method InitCommonInterfaces(d: Device) returns (r: Outcome<CameraError>)
      requires Valid() && isInit && !threadJoinable
      modifies this`eventsStream, this`geometry, this`decoder, this`rawEventSize, this`serialNumber, this`extTrigger
      ensures Valid()
      ensures r == CommonInterfacesCheck(d)
      ensures eventsStream == d.eventsStream
      ensures r.Pass? ==>
        geometry && decoder && rawEventSize == d.rawEventSize && serialNumber == d.serial
        && extTrigger == (old(extTrigger) || d.extTriggerDecoder)
    {
      eventsStream := d.eventsStream;
      if !eventsStream {
        return Fail(IEventsStreamNotFound);
      }
      if !d.geometry {
        return Fail(IGeometryNotFound);
      }
      geometry := true;
      decoder := d.decoder;
      if !decoder {
        return Fail(IDecoderNotFound);
      }
      rawEventSize := d.rawEventSize;
      serialNumber := d.serial;
      if !d.cdDecoder {
        return Fail(ICDDecoderNotFound);
      }
      if d.extTriggerDecoder {
        extTrigger := true;
      }
      r := Pass;
    }

    /** The first facility `init_common_interfaces` misses, in its order. */
    function CommonInterfacesCheck(d: Device): (r: Outcome<CameraError>)
      ensures r.Pass? <==> d.eventsStream && d.geometry && d.decoder && d.cdDecoder
      ensures !d.eventsStream ==> r == Fail(IEventsStreamNotFound)
      ensures d.eventsStream && !d.geometry ==> r == Fail(IGeometryNotFound)
      ensures d.eventsStream && d.geometry && !d.decoder ==> r == Fail(IDecoderNotFound)
      ensures d.eventsStream && d.geometry && d.decoder && !d.cdDecoder ==> r == Fail(ICDDecoderNotFound)
    {
      if !d.eventsStream then Fail(IEventsStreamNotFound)
      else if !d.geometry then Fail(IGeometryNotFound)
      else if !d.decoder then Fail(IDecoderNotFound)
      else if !d.cdDecoder then Fail(ICDDecoderNotFound)
      else Pass
    }

    // -------------------------------------------------------------------------
    // The run thread's loop

    /** What the run thread works with for this camera. */
    function CurrentSetup(raw: seq<nat>): Setup
      reads this`emulateRealTime, this`rawEventSize
    {
      Setup(emulateRealTime, raw, Step(rawEventSize), lastTs, clock)
    }

    /** `run_main_loop` while the thread runs, fed the poll results `polls`;
        `raw` are the raw-data callbacks in call order and `decodeTags` the
        count of decode callbacks (both kept outside this class). Polls are
        served up to the first negative one, which ends the loop, and the run
        then ends through `end_run` with the loop's collapsed result. When the
        list runs out first, the thread is still in its loop. */
    method RunLoop(polls: seq<Poll>, raw: seq<nat>, decodeTags: nat) returns (k: nat)
      requires Valid() && !terminated && threadJoinable && !threadEnded
      requires PollsFit(polls, emulateRealTime)
      modifies this`isRunning, this`trace, this`threadEnded, this`lastRes,
        this`decodes, this`clockReads, this`firstTs, this`firstTsClock
      ensures Valid()
      ensures k == Served(polls)
      ensures PacerState() == Serve(old(PacerState()), polls[..k], CurrentSetup(raw), decodeTags).1
      ensures k == |polls| ==>
        && trace == old(trace) + Serve(old(PacerState()), polls[..k], CurrentSetup(raw), decodeTags).0
        && isRunning && !threadEnded
      ensures k < |polls| ==>
        && trace == old(trace) + Serve(old(PacerState()), polls[..k], CurrentSetup(raw), decodeTags).0
             + StatusCalls(StatusOrder(), Stopped)
        && !isRunning && threadEnded && lastRes == polls[k].res
    {
      ghost var p0, t0 := PacerState(), trace;
      k := ServePolls(polls, raw, decodeTags);
      ghost var served := Serve(p0, polls[..k], CurrentSetup(raw), decodeTags);
      assert PacerState() == served.1 && trace == t0 + served.0;
      LeaveLoop(k < |polls|);
    }

    /** After the loop: when a poll failed, the thread leaves its loop and
        `end_run` lowers the running flag, notifying; otherwise the thread is
        still polling. */
    method LeaveLoop(failed: bool)
      requires Valid() && !terminated && threadJoinable && !threadEnded
      modifies this`isRunning, this`trace, this`threadEnded
      ensures Valid()
      ensures !failed ==> trace == old(trace) && isRunning && !threadEnded
      ensures failed ==> trace == old(trace) + StatusCalls(StatusOrder(), Stopped) && !isRunning && threadEnded
    {
      if failed {
        threadEnded := true;
        EndRun(RunResult(lastRes));
      }
    }

    /** The loop itself: it serves the polls up to the first negative one,
        whose result it keeps, and returns how many it served. */
    method ServePolls(polls: seq<Poll>, raw: seq<nat>, decodeTags: nat) returns (k: nat)
      requires isRunning
      requires PollsFit(polls, emulateRealTime)
      modifies this`trace, this`lastRes, this`decodes, this`clockReads, this`firstTs, this`firstTsClock
      ensures k == Served(polls)
      ensures PacerState() == Serve(old(PacerState()), polls[..k], CurrentSetup(raw), decodeTags).1
      ensures trace == old(trace) + Serve(old(PacerState()), polls[..k], CurrentSetup(raw), decodeTags).0
      ensures k < |polls| ==> lastRes == polls[k].res
    {
      ghost var s := CurrentSetup(raw);
      ghost var p0 := PacerState();
      ghost var t0 := trace;
      ghost var served: (seq<Action>, Pacer) := ([], p0);
      k := 0;
      while k < |polls|
        invariant k <= |polls| && forall i :: 0 <= i < k ==> polls[i].res >= 0
        invariant served == Serve(p0, polls[..k], s, decodeTags)
        invariant PacerState() == served.1 && trace == t0 + served.0
        invariant s == CurrentSetup(raw)
      {
        var res := polls[k].res;
        lastRes := res;
        if res < 0 {
          break;
        }
        ghost var h := Handle(served.1, polls[k], s, decodeTags);
        if res > 0 {
          HandleBuffer(polls[k], raw, decodeTags);
        }
        assert PacerState() == h.1 && trace == t0 + served.0 + h.0;
        assert polls[..k + 1][..k] == polls[..k];
        AppendAssoc(t0, served.0, h.0);
        served := (served.0 + h.0, h.1);
        k := k + 1;
      }
    }

    /** A positive poll result: the pacer when emulating real time, otherwise
        the whole buffer decoded (if anyone listens) and given to the raw
        callbacks. */
    method HandleBuffer(poll: Poll, raw: seq<nat>, decodeTags: nat)
      requires isRunning && poll.res > 0 && (emulateRealTime ==> poll.bytes < TwoTo32)
      modifies this`trace, this`decodes, this`clockReads, this`firstTs, this`firstTsClock
      ensures PacerState() == Handle(old(PacerState()), poll, CurrentSetup(raw), decodeTags).1
      ensures trace == old(trace) + Handle(old(PacerState()), poll, CurrentSetup(raw), decodeTags).0
    {
      if emulateRealTime {
        EmulateRealTime(poll.buffer, poll.bytes, raw);
      } else {
        if decodeTags != 0 {
          trace := trace + [Decoded(poll.buffer, 0, poll.bytes)];
          decodes := decodes + 1;
        }
        trace := trace + RawDeliveries(raw, poll.buffer, 0, poll.bytes);
      }
    }

    /** `emulate_real_time` over a buffer of `n` bytes. */
    method EmulateRealTime(buffer: nat, n: nat, raw: seq<nat>)
      requires isRunning && n < TwoTo32
      modifies this`trace, this`decodes, this`clockReads, this`firstTs, this`firstTsClock
      ensures PacerState() == PaceAll(old(PacerState()), buffer, Chunks(n, Step(rawEventSize), 0), CurrentSetup(raw)).1
      ensures trace == old(trace) + PaceAll(old(PacerState()), buffer, Chunks(n, Step(rawEventSize), 0), CurrentSetup(raw)).0
    {
      ghost var s := CurrentSetup(raw);
      ghost var whole := PaceAll(PacerState(), buffer, Chunks(n, s.step, 0), s);
      ghost var t0 := trace;
      var offset := 0;
      while offset < n && isRunning
        invariant offset <= n
        invariant t0 + whole.0 == trace + PaceAll(PacerState(), buffer, Chunks(n, s.step, offset), s).0
        invariant whole.1 == PaceAll(PacerState(), buffer, Chunks(n, s.step, offset), s).1
        decreases n - offset
      {
        offset := PaceNext(buffer, n, offset, raw, s);
      }
    }

    /** One turn of the pacer's loop: the sub-buffer at `offset` is paced, and
        what remains to do is the pacing of the sub-buffers after it. */
    method PaceNext(buffer: nat, n: nat, offset: nat, raw: seq<nat>, ghost s: Setup) returns (next: nat)
      requires offset < n < TwoTo32 && s == CurrentSetup(raw)
      modifies this`trace, this`decodes, this`clockReads, this`firstTs, this`firstTsClock
      ensures offset < next <= n
      ensures trace + PaceAll(PacerState(), buffer, Chunks(n, s.step, next), s).0
        == old(trace) + PaceAll(old(PacerState()), buffer, Chunks(n, s.step, offset), s).0
      ensures PaceAll(PacerState(), buffer, Chunks(n, s.step, next), s).1
        == PaceAll(old(PacerState()), buffer, Chunks(n, s.step, offset), s).1
    {
      var step := Step(rawEventSize);
      var remains := (n - offset) % TwoTo32;
      assert remains == n - offset;
      var length := Min(remains, step);
      assert s.step == step;
      ghost var p := PacerState();
      ghost var t := trace;
      ghost var a := PaceChunk(p, buffer, (offset, length), s);
      ghost var b := PaceAll(a.1, buffer, Chunks(n, step, offset + length), s);
      PaceAllStep(p, buffer, n, step, offset, length, s);
      PaceSubBuffer(buffer, offset, length, raw, s);
      assert PacerState() == a.1 && trace == t + a.0;
      AppendAssoc(t, a.0, b.0);
      next := offset + length;
      assert PaceAll(PacerState(), buffer, Chunks(n, s.step, next), s) == b;
    }

    /** One turn of the pacer's loop over bytes `[offset, offset + length)`. */
    method PaceSubBuffer(buffer: nat, offset: nat, length: nat, raw: seq<nat>, ghost s: Setup)
      requires s == CurrentSetup(raw)
      modifies this`trace, this`decodes, this`clockReads, this`firstTs, this`firstTsClock
      ensures PacerState() == PaceChunk(old(PacerState()), buffer, (offset, length), s).1
      ensures trace == old(trace) + PaceChunk(old(PacerState()), buffer, (offset, length), s).0
    {
      ghost var p := PacerState();
      var curTs := lastTs(decodes + 1);
      var now := clock(clockReads);
      var anchor := firstTsClock == 0 && curTs != firstTs;
      var ts := if anchor then curTs else firstTs;
      var tsClock := if anchor then now else firstTsClock;
      var expected := Expected(tsClock, ts, curTs);
      var sleep := if now < expected then [Slept(expected - now)] else [];
      assert Paced(p, s) == Pacer(decodes + 1, clockReads + 1, ts, tsClock) && PaceSleep(p, s) == sleep;
      trace := trace + [Decoded(buffer, offset, length)] + RawDeliveries(raw, buffer, offset, length) + sleep;
      decodes, clockReads, firstTs, firstTsClock := decodes + 1, clockReads + 1, ts, tsClock;
    }
  }

  /** Unfolding the pacing of the sub-buffers from `offset` by one. */
  lemma PaceAllStep(p: Pacer, buffer: nat, n: nat, step: nat, offset: nat, length: nat, s: Setup)
    requires 0 < step && offset < n && length == Min(n - offset, step)
    ensures PaceAll(p, buffer, Chunks(n, step, offset), s).0
      == PaceChunk(p, buffer, (offset, length), s).0
         + PaceAll(PaceChunk(p, buffer, (offset, length), s).1, buffer, Chunks(n, step, offset + length), s).0
    ensures PaceAll(p, buffer, Chunks(n, step, offset), s).1
      == PaceAll(PaceChunk(p, buffer, (offset, length), s).1, buffer, Chunks(n, step, offset + length), s).1
  {
    assert Chunks(n, step, offset) == [(offset, length)] + Chunks(n, step, offset + length);
    assert Chunks(n, step, offset)[1..] == Chunks(n, step, offset + length);
  }
}
