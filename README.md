# Metavision SDK runtime pieces, modelled in Dafny

This project models five sequential pieces of the OpenEB / Metavision SDK and proves properties of them:

1. **`Camera::Private`**, the driver runtime (`camera.dfy`, `camera_effects.dfy`, `camera_pacing.dfy`, `online_sources.dfy`). It is modelled as a class that changes its fields step by step:
   - the runtime-error and status-change callback registries, which share one id generator;
   - the running flag and its status notifications;
   - `start` and `stop`, with their guards and the fixed order of the stop steps;
   - the run thread's polling loop, with decode on demand and the raw-data callbacks;
   - the real-time pacer `emulate_real_time`;
   - recording;
   - opening a RAW file, and the `check_*` guards of the accessors;
   - `Camera::list_online_sources`.

   Everything the runtime does to the outside world is recorded, in order, in a `trace` field:
   - callback invocations;
   - stream and device-control calls;
   - decode calls over byte ranges;
   - sleeps.
2. **`StreamLoggerAlgorithm`** (`stream_logger.dfy`):
   - enabling and disabling, changing the destination;
   - the split-file naming rule and time-based splitting;
   - the stem and extension of the configured name, taken with Boost.Filesystem version 3's rules: a name ending in '/' has the stem "." (so "logs/" splits into "._0000", "._0001", …), and a name that is only a root keeps a '/' in its split names (`SplitNameHasNoDirectory`);
   - timestamp re-basing, and filtering of events older than the reset point.

   The output stream is modelled as the list of files opened so far. Each file has a name, a header flag and the events written to it.
3. **`EventBaseReader`**, the pure-Python DAT/NPY reader (`event_reader.dfy`). A cursor moves over a file of fixed-size events, with:
   - `load_n_events` and `load_delta_t`;
   - `seek_event` and `seek_time`;
   - `total_time`, `event_count` and `current_event_index`.
4. **`metavision_raw_info`** (`raw_info.dfy`):
   - `human_readable_time`, with its array of six components;
   - the per-type statistics arrays that the CD and external-trigger callbacks update;
   - the duration, and the choice of printed rows.
5. **`CameraGeneration`** (`camera_generation.dfy`): a (major, minor) pair of `short`s and its six comparison operators. `build` stores the pair and `version_major`/`version_minor` return it (`BuildThenVersions`); the deprecated `type()` always fails with `DeprecatedFeature` (`CameraGeneration.Type`).

Supporting modules:
- `wrappers.dfy`: `Option`, `Result` and `Outcome`.
- `events.dfy`: decoded events and time-sortedness.
- `decimal.dfy`: integer printing, and the zero padding of `std::setw`/`std::setfill`.
- `paths.dfy`: the `boost::filesystem::path` file name, extension and stem rules of Boost.Filesystem version 3 on POSIX, with '/' as the only separator. The file name keeps version 3's special cases: "." for a path ending in '/', "/" for a root directory, and the whole of "//" or of a "//name" root name.
- `arith.dfy`: `Min` and `Max`.

Inputs the code reads from the outside world become parameters of the operations:
- the poll results of `wait_next_buffer`;
- the decoder's last timestamp after each decode call, and the readings of the system clock (two oracle functions fixed at construction);
- whether a file opens;
- what device discovery returns;
- which callbacks are registered on the raw-data and CD facades.

## How the model treats a few code quirks

Three points of the runtime are modelled as the code is written, not as a design description of it would suggest:

- **`end_run(-1)` is never reached.** `run_from_file` and `run_from_camera` return `false` when `run_main_loop()` returns 0 and `true` otherwise, which collapses the loop's result to 0 or 1.
  - As a result, `end_run(-1)` never runs from `run`, and a failed poll never notifies the runtime-error callbacks with `DataTransferFailed`.
  - `RunResult` and `RunNeverReportsTransferFailure` state this.
  - `EndRun` still models the unreachable branch.
- **The sort in `list_online_sources` has no effect.** It sorts copies of the lists, so the map keeps discovery order. `SerialsOnKeepsOrder` states this.
- **The pacer's "minimum 128 events" is compared with a byte count.** As a result, every full sub-buffer holds 1024 events, whatever the event size (the last sub-buffer of a buffer holds what remains), and the minimum would apply only to an event size of 0 bytes, which the code never handles: it divides by the event size right after pacing. `StepIsOneKiloEvents` and `ChunksSizes` state this.

Two points of `EventBaseReader` are also modelled as written:

- **An exact hit leaves the cursor one event too far.** On an exact binary-search hit, `seek_time` leaves the cursor one event past the match, because of the read at the middle. `SeekTimeExactHitSkipsMatch` exhibits this.
- **`load_n_events` with nothing left reads an unset slot.** Its `current_time` is read from a slot of an uninitialised buffer, so the model leaves that time unconstrained.

## Model

| member | source | states |
|---|---|---|
| CameraRuntime.Prologue | sdk/modules/driver/cpp/src/camera.cpp:632-652 | The thread first starts the events stream. A file run does nothing else; a live run then starts and resets the device control. |
| CameraRuntime.RunResult | sdk/modules/driver/cpp/src/camera.cpp:640-658 | The run's result is 0 exactly when the loop's last poll result is 0, and 1 otherwise. |
| CameraRuntime.RunNeverReportsTransferFailure | sdk/modules/driver/cpp/src/camera.cpp:675-685 | No poll result makes `run` hand -1 to `end_run`. The served loop and the STOPPED notifications of the `end_run` after it call no runtime-error callback, so `DataTransferFailed` is never reported. |
| CameraRuntime.RecordingPaths | sdk/modules/driver/cpp/src/camera.cpp:296-303 | The bias file and the raw log share the base path, which has the extension removed. They carry the extensions `.bias` and `.raw`. A path already ending in `.raw` is logged to itself. |
| CameraRuntime.RecordingExtension | sdk/modules/driver/cpp/src/camera.cpp:296-303 | `.raw` or `.bias` appended to any base is that path's extension. |
| CameraRuntime.Camera.constructor | sdk/modules/driver/cpp/src/camera.cpp:62-65 | An empty camera: not initialised, no device, no thread, nothing recording, empty registries, nothing done yet. |
| CameraRuntime.Camera.StatusOrderIsAllCallbacks | sdk/modules/driver/cpp/src/camera.cpp:664-671 | The snapshot notifies exactly the registered status callbacks, each once, in strictly ascending id order. |
| CameraRuntime.Camera.CheckInitialization | sdk/modules/driver/cpp/src/camera.cpp:690-694 | Passes if and only if the camera is initialised, and fails otherwise with `CameraNotInitialized`. |
| CameraRuntime.Camera.CheckCameraDevice | sdk/modules/driver/cpp/src/camera.cpp:717-722 | Passes if and only if the camera is initialised and has a device. Otherwise it fails with `CameraNotInitialized`, or with `CameraNotFound` if initialised. |
| CameraRuntime.Camera.CheckEventsStream | sdk/modules/driver/cpp/src/camera.cpp:703-708 | Passes if and only if the camera is initialised and has an events stream. Otherwise it fails with the initialisation error, or with `IEventsStreamNotFound`. |
| CameraRuntime.Camera.CheckDeviceControl | sdk/modules/driver/cpp/src/camera.cpp:710-715 | Passes if and only if the camera is initialised and has a device control. Otherwise it fails with the initialisation error, or with `IDeviceControlNotFound`. |
| CameraRuntime.Camera.CheckDecoder | sdk/modules/driver/cpp/src/camera.cpp:724-729 | Passes if and only if the camera is initialised and has a decoder. Otherwise it fails with the initialisation error, or with `IDecoderNotFound`. |
| CameraRuntime.Camera.CheckBiases | sdk/modules/driver/cpp/src/camera.cpp:696-701 | Passes if and only if the camera is initialised and has biases. Otherwise it fails with the initialisation error, or with `ILLBiasesNotFound`. |
| CameraRuntime.Camera.Access | sdk/modules/driver/cpp/src/camera.cpp:319-409 | For each of the ten accessors, exactly when the object is handed out. Biases need a live camera; roi, anti-flicker, noise filter and trigger-out need a live device that has them; geometry and ext-trigger need their object; the rest need only a device. |
| CameraRuntime.Camera.FromFileHidesHardware | sdk/modules/driver/cpp/src/camera.cpp:319-409 | On a camera reading a file, biases, roi, anti-flicker, noise filter and trigger-out fail with their "unavailable" codes. Generation, raw data and CD stay available. |
| CameraRuntime.Camera.AddStatusChangeCallback | sdk/modules/driver/cpp/src/camera.cpp:202-210 | Without a device: the error of `check_camera_device_instance`, and nothing changes. Otherwise: the handler is stored under the generator's next id, which no callback had, and that id is returned. The generator advances by one. |
| CameraRuntime.Camera.RemoveStatusChangeCallback | sdk/modules/driver/cpp/src/camera.cpp:212-222 | Returns true if and only if the id was registered. The registry loses exactly that id, so an absent id changes nothing. |
| CameraRuntime.Camera.AddRuntimeErrorCallback | sdk/modules/driver/cpp/src/camera.cpp:181-189 | Same as the status registry: the device check, then the next shared id, which was fresh, with the handler stored under it. |
| CameraRuntime.Camera.RemoveRuntimeErrorCallback | sdk/modules/driver/cpp/src/camera.cpp:190-200 | Returns true if and only if the id was registered, and the registry loses exactly that id. |
| CameraRuntime.Camera.SetIsRunning | sdk/modules/driver/cpp/src/camera.cpp:661-673 | The flag takes the new value. Only on an actual change is every status callback called, in id order, with STARTED for true or STOPPED for false. |
| CameraRuntime.Camera.EndRun | sdk/modules/driver/cpp/src/camera.cpp:675-688 | For -1, `DataTransferFailed` goes to every runtime-error callback in id order. Then the flag goes down, notifying STOPPED only if it was up. |
| CameraRuntime.Camera.Start | sdk/modules/driver/cpp/src/camera.cpp:224-257 | Not initialised: `CameraNotInitialized`, and there is no thread. Thread already present: returns false. In both cases the trace, the flags, the thread state and the pacer are unchanged. Otherwise the outcome is as for `Launch`: a failing thread check terminates with its error; passing checks give true, a RUNNING thread with the flag up, STARTED notifications then the prologue in the trace, and initialised clocks. |
| CameraRuntime.Camera.Launch | sdk/modules/driver/cpp/src/camera.cpp:227-252 | Started notifications, then the thread's prologue. If a thread check fails, the process terminates with that error. Otherwise it returns true with the thread RUNNING and the flag up; the trace gains STARTED for every status callback, then the stream (and device-control) start. |
| CameraRuntime.Camera.SpawnThread | sdk/modules/driver/cpp/src/camera.cpp:228-249 | The thread exists, the flag is up with every status callback notified STARTED, and the thread status is STARTED. |
| CameraRuntime.Camera.RunPrologue | sdk/modules/driver/cpp/src/camera.cpp:501-532 | The thread becomes RUNNING and runs its checks; a failing check terminates the process. When the checks pass, the stream (and device-control) calls are made, and the pacer's clocks become those of `init_clocks`. |
| CameraRuntime.Camera.ThreadCheck | sdk/modules/driver/cpp/src/camera.cpp:512-520 | The run thread proceeds if and only if device, events stream and decoder are present, plus the device control for a live camera. |
| CameraRuntime.Camera.Stop | sdk/modules/driver/cpp/src/camera.cpp:259-289 | Not initialised: `CameraNotInitialized`. No thread: returns false. In both cases nothing changes. Otherwise it returns true, and the trace gains, in this order: STOPPED to every status callback (only if running), events-stream stop, device-control stop (only if present), join, raw-log stop. The thread is gone, the status is STOPPED, and the camera is neither running nor recording. |
| CameraRuntime.Camera.Join | sdk/modules/driver/cpp/src/camera.cpp:278-280 | Once the flag is down, joining adds no notification (the thread's `end_run` finds the flag already down), and the thread is gone. |
| CameraRuntime.Camera.StopRecording | sdk/modules/driver/cpp/src/camera.cpp:313-317 | Fails as `check_events_stream_instance` does and then changes nothing. Otherwise the raw log is stopped and recording is off. |
| CameraRuntime.Camera.StartRecording | sdk/modules/driver/cpp/src/camera.cpp:291-311 | Runs the device check, then the stream check. Then, in order: the log is stopped, `<base>.bias` is saved (only if biases exist), and `<base>.raw` is requested. If the open fails, the result is `CouldNotOpenFile` and recording is off; otherwise recording is on. |
| CameraRuntime.Camera.OpenRawFile | sdk/modules/driver/cpp/src/camera.cpp:134-178 | A started camera is stopped first: the trace gains the actions of `Stop` and recording is off. Otherwise the trace and recording are unchanged. Either way the camera ends initialised, with no thread and not running. Path failures are reported in order and leave the device, the file and pacing modes, the stream, geometry and decoder as they were. Past them the found device becomes the camera's, read from the file and emulating real time as asked. A missing device gives `InvalidRawfile`, a missing board id `IBoardIdentificationNotFound`, and otherwise the result is that of the common interfaces. |
| CameraRuntime.Camera.StopIfStarted | sdk/modules/driver/cpp/src/camera.cpp:136-138 | A camera that is initialised and has a thread is stopped with the actions of `Stop`, and recording is off. Any other camera is left as it was. Either way there is no thread afterwards, and the device, the modes, the stream, geometry and decoder are kept. |
| CameraRuntime.Camera.OpenPath | sdk/modules/driver/cpp/src/camera.cpp:140-177 | The camera becomes initialised, with the trace and recording unchanged. Path failures are reported in order and keep the device state. Otherwise the outcome is that of `OpenDevice` on the found device. |
| CameraRuntime.Camera.RawPathCheck | sdk/modules/driver/cpp/src/camera.cpp:143-155 | Passes if and only if the file exists, is regular and has the extension `.raw`. Otherwise it gives `FileDoesNotExist`, `NotARegularFile` or `WrongExtension`, in that order. |
| CameraRuntime.Camera.OpenDevice | sdk/modules/driver/cpp/src/camera.cpp:157-177 | The found device becomes the camera's; none gives `InvalidRawfile`. With a device, the camera reads a file and emulates real time as asked, then needs the board id before its common interfaces. |
| CameraRuntime.Camera.InitCommonInterfaces | sdk/modules/driver/cpp/src/camera.cpp:446-498 | The result is the first missing facility among stream, geometry, decoder and CD decoder, and success needs all four. On success the camera holds geometry and decoder, and the device's event size and serial. It gains an ext-trigger facade when the device decodes triggers, and never loses one it had. |
| CameraRuntime.Camera.CommonInterfacesCheck | sdk/modules/driver/cpp/src/camera.cpp:446-479 | Passes if and only if the device has an events stream, geometry, a decoder and a CD decoder. Otherwise it names the first one missing, in that order. |
| CameraRuntime.Camera.RunLoop | sdk/modules/driver/cpp/src/camera.cpp:525-565 | Serves the polls up to the first negative one, with trace and pacer state as their in-order handling gives. If a poll failed, the thread leaves its loop and `end_run` lowers the flag, notifying STOPPED. Byte counts must fit in 32 bits only when emulating real time. |
| CameraRuntime.Camera.LeaveLoop | sdk/modules/driver/cpp/src/camera.cpp:501-523 | After a failed poll the thread ends and only STOPPED notifications follow; otherwise it is still polling and nothing changes. |
| CameraRuntime.Camera.ServePolls | sdk/modules/driver/cpp/src/camera.cpp:534-562 | The loop serves exactly `Served(polls)` polls, each handled in order, and keeps the failing result when one ends the loop. Byte counts must fit in 32 bits only when emulating real time. |
| CameraRuntime.Camera.HandleBuffer | sdk/modules/driver/cpp/src/camera.cpp:542-561 | A positive poll result is handled as `Handle` specifies: the pacer when emulating, otherwise a decode on demand, then the whole buffer to every raw callback. Byte counts must fit in 32 bits only when emulating real time. |
| CameraRuntime.Camera.EmulateRealTime | sdk/modules/driver/cpp/src/camera.cpp:572-630 | The trace and pacer state are those of pacing the buffer's sub-buffers in order. |
| CameraRuntime.Camera.PaceNext | sdk/modules/driver/cpp/src/camera.cpp:601-603 | One turn paces the sub-buffer at the offset and moves past it; what remains to do is the pacing of the rest. |
| CameraRuntime.Camera.PaceSubBuffer | sdk/modules/driver/cpp/src/camera.cpp:605-628 | One sub-buffer is paced as `PaceChunk` specifies. |
| CameraEffects.AscendingFacts | sdk/modules/driver/cpp/src/camera.cpp:669-671 | Iterating a callback map lists exactly its keys below the generator's bound, each once, in strictly ascending order. |
| CameraEffects.Ascending | sdk/modules/driver/cpp/src/camera.cpp:669-671 | The iteration order of a callback map never lists more ids than the generator has handed out. |
| CameraEffects.RawDeliveriesFilters | sdk/modules/driver/cpp/src/camera.cpp:557-559 | A broadcast to distinct raw callbacks gives each listed callback the range exactly once, and any other callback nothing. |
| CameraEffects.RawDeliveriesQuiet | sdk/modules/driver/cpp/src/camera.cpp:557-559 | A broadcast to the raw callbacks holds no decode and no sleep. |
| CameraEffects.DecodedAppend | sdk/modules/driver/cpp/src/camera.cpp:549-559 | The decoded ranges of consecutive stretches of work are those of each stretch, in order. |
| CameraEffects.DeliveredAppend | sdk/modules/driver/cpp/src/camera.cpp:557-559 | What a raw callback receives over consecutive stretches of work is what it receives in each, in order. |
| CameraEffects.SleepsAppend | sdk/modules/driver/cpp/src/camera.cpp:626-628 | The sleeps over consecutive stretches of work are those of each stretch, in order. |
| CameraEffects.StatusCallsFilters | sdk/modules/driver/cpp/src/camera.cpp:669-671 | Status notifications hold no decode, raw delivery or sleep. |
| CameraPacing.Step | sdk/modules/driver/cpp/src/camera.cpp:593-596 | The sub-buffer step, computed in `uint32_t`, is never below the minimum of 128. |
| CameraPacing.StepIsOneKiloEvents | sdk/modules/driver/cpp/src/camera.cpp:593-596 | For event sizes below 2^22 bytes, the step is 1024 events' worth of bytes; the minimum would be used only for a size of 0, where the code then divides by zero. |
| CameraPacing.ChunksEnds | sdk/modules/driver/cpp/src/camera.cpp:601-603 | The sub-buffers start at the offset and the last ends at the buffer's end; there are none exactly when nothing is left. |
| CameraPacing.ChunksSizes | sdk/modules/driver/cpp/src/camera.cpp:602-603 | Every sub-buffer is non-empty and min(remaining, step) bytes long. |
| CameraPacing.ChunksConsecutive | sdk/modules/driver/cpp/src/camera.cpp:601 | Each sub-buffer starts where the previous one ends. |
| CameraPacing.PaceChunk | sdk/modules/driver/cpp/src/camera.cpp:605-628 | A sub-buffer makes one decode and one clock reading, and leaves an anchor that was already set unchanged. |
| CameraPacing.Paced | sdk/modules/driver/cpp/src/camera.cpp:614-621 | A sub-buffer adds one decode call and one clock reading, and an anchor already set stays. |
| CameraPacing.PaceSleep | sdk/modules/driver/cpp/src/camera.cpp:623-628 | At most one sleep follows a sub-buffer. |
| CameraPacing.ChunkWorkFilters | sdk/modules/driver/cpp/src/camera.cpp:605-628 | A sub-buffer's decode, its broadcast and at most one sleep: the decoder ran over exactly that sub-buffer, and the sleeps are the tail's. |
| CameraPacing.ChunkWorkDeliveries | sdk/modules/driver/cpp/src/camera.cpp:610-612 | In the same actions, each raw callback listed once received the sub-buffer exactly once, and any other callback nothing. |
| CameraPacing.PaceChunkWork | sdk/modules/driver/cpp/src/camera.cpp:605-628 | Pacing a sub-buffer only decodes, delivers or sleeps on that buffer. |
| CameraPacing.PaceAllWork | sdk/modules/driver/cpp/src/camera.cpp:601-629 | Pacing a buffer only decodes, delivers or sleeps on that buffer. |
| CameraPacing.PaceChunkTiming | sdk/modules/driver/cpp/src/camera.cpp:614-628 | No sleep while unanchored and the timestamp has not moved. Once anchored, the thread sleeps if and only if the clock is behind the expected time, and then exactly expected minus now. |
| CameraPacing.ExpectedWithoutWrap | sdk/modules/driver/cpp/src/camera.cpp:623-624 | In range, the expected time is the anchor clock plus the stream time elapsed since the anchor. |
| CameraPacing.PaceAll | sdk/modules/driver/cpp/src/camera.cpp:601-629 | Pacing n sub-buffers makes n decodes and n clock readings; once set, the anchor never changes. |
| CameraPacing.PaceAllRanges | sdk/modules/driver/cpp/src/camera.cpp:601-612 | The decoder, and every registered raw callback, see exactly the sub-buffers, in order; an unregistered callback sees nothing. |
| CameraPacing.PaceChunkRanges | sdk/modules/driver/cpp/src/camera.cpp:605-612 | One sub-buffer is decoded once, and each registered raw callback receives exactly it. |
| CameraPacing.AnchorSetOnce | sdk/modules/driver/cpp/src/camera.cpp:617-621 | An anchor already set survives any number of sub-buffers. |
| CameraPacing.DecodeAndDeliver | sdk/modules/driver/cpp/src/camera.cpp:549-559 | The plain dispatch never reads the clock or moves the anchor. |
| CameraPacing.DecodeAndDeliverRanges | sdk/modules/driver/cpp/src/camera.cpp:549-559 | Without emulation, the whole buffer is decoded if and only if some decode callback is registered. Every raw callback receives the whole buffer, and nothing sleeps. |
| CameraPacing.Served | sdk/modules/driver/cpp/src/camera.cpp:534-541 | The loop serves exactly the polls before the first negative result. |
| CameraPacing.ZeroPollIsIdle | sdk/modules/driver/cpp/src/camera.cpp:540-542 | A zero poll result does nothing. |
| CameraPacing.ServeWork | sdk/modules/driver/cpp/src/camera.cpp:534-562 | The loop body only works on polled buffers: it calls no status or runtime-error callback and touches no stream or device. |
| OnlineSources.Serials | sdk/modules/driver/cpp/src/camera.cpp:744-749 | The remote list holds every system's full serial, in discovery order. |
| OnlineSources.SerialsOn | sdk/modules/driver/cpp/src/camera.cpp:751-770 | The list for a link holds only serials of systems on that link, and is non-empty when some system is on it. |
| OnlineSources.SerialsOnKeepsOrder | sdk/modules/driver/cpp/src/camera.cpp:772-775 | A system discovered before another on the same link is listed before it, because the trailing sort works on copies. |
| OnlineSources.SerialsOnIndex | sdk/modules/driver/cpp/src/camera.cpp:751-770 | Every system on a link has its serial in that link's list. |
| OnlineSources.SerialsOnCount | sdk/modules/driver/cpp/src/camera.cpp:751-770 | A link's list has one serial per system discovered on that link, so with the order lemma each such system is listed exactly once. |
| OnlineSources.ListOnlineSources | sdk/modules/driver/cpp/src/camera.cpp:734-778 | REMOTE is present if and only if there are remote systems, and holds all of them. EMBEDDED and USB are present if and only if some MIPI or USB system exists, and hold those systems in discovery order. |
| Paths.FileNameIsLastComponent | sdk/modules/driver/cpp/src/camera.cpp:152 | For a path that neither ends in '/' nor names only a root, the file name is its last component: a non-empty suffix with no '/', preceded by a '/' unless it is the whole path. |
| Paths.FileNameOfDirectory | sdk/modules/core/cpp/include/metavision/sdk/core/algorithms/stream_logger_algorithm.h:192-197 | A path ending in '/' that does not name only a root has the file name ".". |
| Paths.FileNameOfRoot | sdk/modules/core/cpp/include/metavision/sdk/core/algorithms/stream_logger_algorithm.h:192-197 | A path naming only a root has as file name itself when it is "//" or a "//name" root name, and "/" when it ends in a root directory. |
| Paths.FileNameHasSlashIffRoot | sdk/modules/core/cpp/include/metavision/sdk/core/algorithms/stream_logger_algorithm.h:192-197 | The file name holds a '/' if and only if the path names only a root, and then starts with one. |
| Paths.LastIndexOfIsLast | sdk/modules/driver/cpp/src/camera.cpp:152 | The index found holds the character searched for, and no later index does. |
| Paths.ExtensionEndsFileName | sdk/modules/driver/cpp/src/camera.cpp:152 | The extension ends the file name and runs from its last '.'. It is empty only when the file name has no '.' or is "." or "..". |
| Paths.RemoveExtensionRoundTrip | sdk/modules/driver/cpp/src/camera.cpp:296 | Removing the extension and appending it back gives the path again. |
| Paths.StemThenExtensionIsFileName | sdk/modules/core/cpp/include/metavision/sdk/core/algorithms/stream_logger_algorithm.h:192-197 | Stem followed by extension is the file name. |
| Paths.AppendedExtension | sdk/modules/driver/cpp/src/camera.cpp:296-303 | A dot and one or more characters other than '.' and '/', appended to any base, form that path's extension. |
| Decimal.NatToStringRoundTrip | sdk/modules/core/cpp/include/metavision/sdk/core/algorithms/stream_logger_algorithm.h:202 | `std::to_string` of a counter reads back as the counter. |
| Decimal.NatToString | sdk/modules/core/cpp/include/metavision/sdk/core/algorithms/stream_logger_algorithm.h:202 | `std::to_string` of a counter is a non-empty string of digits, with no leading zero unless it is "0", and it is one character long exactly below 10. |
| Decimal.IntToString | sdk/modules/driver/cpp/apps/metavision_raw_info/metavision_raw_info.cpp:65 | A value printed with `<<` is non-empty, starts with '-' exactly when the value is negative, and is all digits otherwise. |
| Decimal.IntToStringRoundTrip | sdk/modules/driver/cpp/apps/metavision_raw_info/metavision_raw_info.cpp:65 | A signed value printed with `<<` reads back as the value. |
| Decimal.ZeroPad | sdk/modules/core/cpp/include/metavision/sdk/core/algorithms/stream_logger_algorithm.h:202 | Padding to a width gives max(width, length) characters: leading '0's, then the string, never truncated. |
| Decimal.PaddedNatRoundTrip | sdk/modules/core/cpp/include/metavision/sdk/core/algorithms/stream_logger_algorithm.h:202 | A zero-padded counter is all digits and reads back as the counter. |
| Decimal.PaddedNatInjective | sdk/modules/core/cpp/include/metavision/sdk/core/algorithms/stream_logger_algorithm.h:202 | Distinct counters give distinct padded strings. |
| CameraGenerationModel.ToShort | sdk/modules/driver/cpp/src/camera_generation.cpp:30-34 | The narrowing to `short` keeps values in range and is congruent modulo 2^16. |
| CameraGenerationModel.BuildFromSensor | sdk/modules/driver/cpp/src/camera_generation.cpp:30-34 | Sensor version numbers that fit in a `short` are stored unchanged. |
| CameraGenerationModel.LtIsKeyOrder | sdk/modules/driver/cpp/src/camera_generation.cpp:88-90 | `<` is exactly the order of the packed key major * 2^16 + minor, which is lexicographic on (major, minor). |
| CameraGenerationModel.EqIsEquality | sdk/modules/driver/cpp/src/camera_generation.cpp:80-86 | `==` holds if and only if both numbers are equal, and `!=` is its negation. |
| CameraGenerationModel.Trichotomy | sdk/modules/driver/cpp/src/camera_generation.cpp:88-102 | Exactly one of `<`, `==` and `>` holds. `>` is the converse of `<`, `>=` the converse of `<=`, and `>=` is the negation of `<`. |
| CameraGenerationModel.LeIsTotalOrder | sdk/modules/driver/cpp/src/camera_generation.cpp:92-94 | `<=` is reflexive, antisymmetric, transitive and total. |
| CameraGenerationModel.LtIsStrictOrder | sdk/modules/driver/cpp/src/camera_generation.cpp:88-90 | `<` is irreflexive and transitive. |
| CameraGenerationModel.BuildThenVersions | sdk/modules/driver/cpp/src/camera_generation.cpp:21-46 | What `build` stores, the public accessors return. |
| CameraGenerationModel.PublicOrderIsLexicographic | sdk/modules/driver/cpp/src/camera_generation.cpp:56-78 | The public operators are lexicographic on (major, minor). `==` compares both versions, `!=` negates it, `>` is the converse of `<`, and `<=`/`>=` are the negations of `>`/`<`. |
| RawInfo.Components | sdk/modules/driver/cpp/apps/metavision_raw_info/metavision_raw_info.cpp:50-60 | Six components, computed with C++'s truncating `/` and `%`. |
| RawInfo.FirstNonZero | sdk/modules/driver/cpp/apps/metavision_raw_info/metavision_raw_info.cpp:63 | The first loop stops at the first nonzero component, or at 6. |
| RawInfo.HumanReadableTime | sdk/modules/driver/cpp/apps/metavision_raw_info/metavision_raw_info.cpp:46-68 | The output is the rendering of the components, starting at the first nonzero one. |
| RawInfo.SplitDuration | sdk/modules/driver/cpp/apps/metavision_raw_info/metavision_raw_info.cpp:49-60 | The array holds the six components, days first. |
| RawInfo.ComponentsOfNegation | sdk/modules/driver/cpp/apps/metavision_raw_info/metavision_raw_info.cpp:50-60 | The components of -t are those of t, negated. |
| RawInfo.ComponentBounds | sdk/modules/driver/cpp/apps/metavision_raw_info/metavision_raw_info.cpp:50-60 | For t ≥ 0: us < 1000, ms < 1000, s < 60, m < 60, h < 24, days < 365. |
| RawInfo.Recompose | sdk/modules/driver/cpp/apps/metavision_raw_info/metavision_raw_info.cpp:50-60 | Below 365 days, the components recompose exactly to t. |
| RawInfo.AllZeroRendersEmpty | sdk/modules/driver/cpp/apps/metavision_raw_info/metavision_raw_info.cpp:62-66 | The rendering is empty if and only if all six components are zero. |
| RawInfo.RendersEmptyIffZero | sdk/modules/driver/cpp/apps/metavision_raw_info/metavision_raw_info.cpp:46-68 | Within a year either way, the rendering is empty if and only if t = 0. |
| RawInfo.RenderStartsAtLeadingComponent | sdk/modules/driver/cpp/apps/metavision_raw_info/metavision_raw_info.cpp:62-66 | The output starts with `<v><unit> ` of the most significant nonzero component, followed by every later component. |
| RawInfo.OneYearRendersEmpty | sdk/modules/driver/cpp/apps/metavision_raw_info/metavision_raw_info.cpp:58-60 | Days wrap at 365, so exactly one year renders as the empty string. |
| RawInfo.SubMillisecondComponents | sdk/modules/driver/cpp/apps/metavision_raw_info/metavision_raw_info.cpp:50-60 | Below one millisecond either way, only the microsecond component is nonzero. |
| RawInfo.SubMillisecondRendering | sdk/modules/driver/cpp/apps/metavision_raw_info/metavision_raw_info.cpp:118 | A nonzero duration under 1 ms renders as its microseconds alone. For example, the duration -1 of a file without events renders as "-1us ". |
| RawInfo.AccumulateSortedStream | sdk/modules/driver/cpp/apps/metavision_raw_info/metavision_raw_info.cpp:126-143 | Over a time-sorted stream of non-empty buffers, the folded statistics are the event count, the first timestamp and the last timestamp of the whole stream; no buffers leave the initial values. |
| RawInfo.EventStats.constructor | sdk/modules/driver/cpp/apps/metavision_raw_info/metavision_raw_info.cpp:119-124 | Every type starts with count 0, first INT64_MAX and last -1. |
| RawInfo.EventStats.OnEvents | sdk/modules/driver/cpp/apps/metavision_raw_info/metavision_raw_info.cpp:126-143 | The callback of one type adds the buffer length to its count, and takes the min of its first timestamp and the max of its last. The other type is unchanged. |
| RawInfo.EventStats.Duration | sdk/modules/driver/cpp/apps/metavision_raw_info/metavision_raw_info.cpp:161-164 | The duration is at least -1, at least every type's last timestamp, and either -1 or one of them. |
| RawInfo.EventStats.PrintedRows | sdk/modules/driver/cpp/apps/metavision_raw_info/metavision_raw_info.cpp:243-249 | Rows are printed exactly for the types with a nonzero count, in type order. |
| StreamLogger.ShiftedKeepsRecent | sdk/modules/core/cpp/include/metavision/sdk/core/algorithms/stream_logger_algorithm.h:242-248 | When no event is older than the reset point, every event is written, shifted by it, in input order. |
| StreamLogger.Shifted | sdk/modules/core/cpp/include/metavision/sdk/core/algorithms/stream_logger_algorithm.h:242-248 | The write loop never writes more events than it receives. |
| StreamLogger.ShiftedNonNegative | sdk/modules/core/cpp/include/metavision/sdk/core/algorithms/stream_logger_algorithm.h:242-248 | Written timestamps are never negative. |
| StreamLogger.ShiftedDropsOld | sdk/modules/core/cpp/include/metavision/sdk/core/algorithms/stream_logger_algorithm.h:243 | Events older than the reset point are never written. |
| StreamLogger.ShiftedAppend | sdk/modules/core/cpp/include/metavision/sdk/core/algorithms/stream_logger_algorithm.h:242-250 | Writing two buffers in turn writes what one buffer holding both would. |
| StreamLogger.ShiftedSorted | sdk/modules/core/cpp/include/metavision/sdk/core/algorithms/stream_logger_algorithm.h:242-248 | A time-sorted input stays sorted once re-based, and is bounded by its last event's shifted time. |
| StreamLogger.WriteToLast | sdk/modules/core/cpp/include/metavision/sdk/core/algorithms/stream_logger_algorithm.h:233-250 | Only the open (last) file changes: it gains the events and its header flag is set. |
| StreamLogger.StreamLoggerAlgorithm.constructor | sdk/modules/core/cpp/include/metavision/sdk/core/algorithms/stream_logger_algorithm.h:128-132 | The name, stem and extension are set. Nothing is open, logging and splitting are off, and both timestamps are 0. |
| StreamLogger.StreamLoggerAlgorithm.SetFilename | sdk/modules/core/cpp/include/metavision/sdk/core/algorithms/stream_logger_algorithm.h:192-197 | The name changes, with the stem and extension of Boost.Filesystem version 3 (so "logs/" has the stem "."), and nothing else does. |
| StreamLogger.StreamLoggerAlgorithm.Reopen | sdk/modules/core/cpp/include/metavision/sdk/core/algorithms/stream_logger_algorithm.h:152-156 | The stream is open exactly when the open succeeds, and then a new empty file named `get_filename()` is added. |
| StreamLogger.StreamLoggerAlgorithm.ApplySplitTime | sdk/modules/core/cpp/include/metavision/sdk/core/algorithms/stream_logger_algorithm.h:135-144 | A valid split time is stored, with the counter reset only when splitting was off; an invalid one changes nothing. |
| StreamLogger.StreamLoggerAlgorithm.Enable | sdk/modules/core/cpp/include/metavision/sdk/core/algorithms/stream_logger_algorithm.h:134-167 | The split settings always apply. The same state changes nothing else. Disabling closes the file and zeroes the initial timestamp. Enabling opens `get_filename()` or throws, and on success clears the header flag and sets the initial timestamp to the last one (if reset_ts) or 0. |
| StreamLogger.StreamLoggerAlgorithm.ChangeDestination | sdk/modules/core/cpp/include/metavision/sdk/core/algorithms/stream_logger_algorithm.h:177-186 | The enabled state, split threshold and last timestamp are kept; the name is the new one, its stem and extension are the split base, and the counter is 0. A disabled logger keeps its files, open state, header state and initial timestamp. An enabled logger opens a new file under the new name with its header still due, re-based on the last timestamp if asked and on 0 otherwise, or reports that the open failed, closed and with no new file. |
| StreamLogger.StreamLoggerAlgorithm.Close | sdk/modules/core/cpp/include/metavision/sdk/core/algorithms/stream_logger_algorithm.h:188-190 | The stream is closed. The files, the enabled state, the names, the split counter and threshold, both timestamps and the header state are all kept. |
| StreamLogger.StreamLoggerAlgorithm.SplitFile | sdk/modules/core/cpp/include/metavision/sdk/core/algorithms/stream_logger_algorithm.h:210-224 | Nothing happens unless splitting is on and ts minus the initial timestamp is at least the split length. Then the counter increments and the next numbered file is opened; the header flag is cleared and both timestamps become ts. |
| StreamLogger.StreamLoggerAlgorithm.ProcessEvents | sdk/modules/core/cpp/include/metavision/sdk/core/algorithms/stream_logger_algorithm.h:227-254 | The last timestamp ends as ts whatever happens. Only a non-empty range on an enabled, open logger writes: the header once, then the recent events re-based, to the open file, followed by a split if one is due. Otherwise only the last timestamp changes. The enabled state, the names and the split threshold are always kept. |
| StreamLogger.FillBuffer | sdk/modules/core/cpp/include/metavision/sdk/core/algorithms/stream_logger_algorithm.h:239-249 | The buffer holds exactly the events not older than the reset point, shifted, in order. The tracked timestamp is one of theirs, or unchanged. |
| StreamLogger.SplitNameHasNoDirectory | sdk/modules/core/cpp/include/metavision/sdk/core/algorithms/stream_logger_algorithm.h:192-203 | A split name holds no '/' if and only if the configured name does not name only a root; the stems of "/", "//host" and "//host/" keep a '/'. |
| StreamLogger.SplitNameOfDirectory | sdk/modules/core/cpp/include/metavision/sdk/core/algorithms/stream_logger_algorithm.h:192-203 | A configured name ending in '/' that is not only a root gives the split names "._" plus the four-digit counter. |
| StreamLogger.SplitNamesDistinct | sdk/modules/core/cpp/include/metavision/sdk/core/algorithms/stream_logger_algorithm.h:199-204 | For one base and extension, different counters give different split names, so within one destination no part overwrites an earlier one. |
| StreamLogger.SplitNameKeepsOutChar | sdk/modules/core/cpp/include/metavision/sdk/core/algorithms/stream_logger_algorithm.h:199-204 | A split name contains no character absent from the stem and extension, except '_' and digits. |
| StreamLogger.SplitCounterWidth | sdk/modules/core/cpp/include/metavision/sdk/core/algorithms/stream_logger_algorithm.h:202 | Counters up to 9999 take exactly four characters. |
| EventReader.SearchSorted | sdk/modules/core/python/pypkg/metavision_core/event_io/py_reader.py:173 | The `searchsorted` index lies within the array. |
| EventReader.SearchSortedIsLowerBound | sdk/modules/core/python/pypkg/metavision_core/event_io/py_reader.py:173 | On sorted input, everything before the index is below v, and everything from it on is at least v. |
| EventReader.SeekTimeTarget | sdk/modules/core/python/pypkg/metavision_core/event_io/py_reader.py:234-257 | The cursor `seek_time` chooses lies within the file. |
| EventReader.BisectHitMatches | sdk/modules/core/python/pypkg/metavision_core/event_io/py_reader.py:238-251 | A hit is an event stamped exactly x inside the searched window. |
| EventReader.BisectWindowBrackets | sdk/modules/core/python/pypkg/metavision_core/event_io/py_reader.py:238-247 | On sorted input, the final window brackets x: before it everything is below x, and after it everything is above. |
| EventReader.SeekTimeLowerBoundOrPastMatch | sdk/modules/core/python/pypkg/metavision_core/event_io/py_reader.py:234-259 | On a sorted file, the cursor is either the first index with t ≥ x, or just past an event stamped exactly x. |
| EventReader.WindowLowerBound | sdk/modules/core/python/pypkg/metavision_core/event_io/py_reader.py:253-257 | `searchsorted` inside the window completes the lower bound of x over the whole file. |
| EventReader.SeekTimeWithoutMatchIsLowerBound | sdk/modules/core/python/pypkg/metavision_core/event_io/py_reader.py:234-259 | Without an event stamped x, the cursor is the first index with t > x. |
| EventReader.SeekTimeExactHitSkipsMatch | sdk/modules/core/python/pypkg/metavision_core/event_io/py_reader.py:241-251 | In [10, 20, 30], seeking 20 with a window of 0 puts the cursor at index 2, past the event stamped 20. |
| EventReader.LastBatchStartFacts | sdk/modules/core/python/pypkg/metavision_core/event_io/py_reader.py:160-167 | Every batch before the last ended below the expected time, and the last one reaches it or the end of the file. |
| EventReader.BatchEnd | sdk/modules/core/python/pypkg/metavision_core/event_io/py_reader.py:160-163 | A batch read from inside the file holds at least one event and stops at the end of the file. |
| EventReader.LastBatchStart | sdk/modules/core/python/pypkg/metavision_core/event_io/py_reader.py:159-167 | The last batch the loop reads starts at or after the cursor, and inside the file. |
| EventReader.DeltaTEnd | sdk/modules/core/python/pypkg/metavision_core/event_io/py_reader.py:172-177 | The cursor after `load_delta_t` lies between its old value and the end of the file. |
| EventReader.LoadDeltaTBelow | sdk/modules/core/python/pypkg/metavision_core/event_io/py_reader.py:152-178 | On a sorted file, every event returned is stamped before current_time + delta_t. |
| EventReader.LoadDeltaTStops | sdk/modules/core/python/pypkg/metavision_core/event_io/py_reader.py:152-178 | On a sorted file, the first event not returned is stamped at or after current_time + delta_t, so no such event is missed. |
| EventReader.LoadDeltaTTime | sdk/modules/core/python/pypkg/metavision_core/event_io/py_reader.py:168-171 | The new time is the bound when events remain, and the last timestamp + 1 when the file ended first. |
| EventReader.EventBaseReader.AtEnd | sdk/modules/core/python/pypkg/metavision_core/event_io/py_reader.py:178 | The byte test `tell() >= _end` holds if and only if every event has been consumed. |
| EventReader.EventBaseReader.EventCount | sdk/modules/core/python/pypkg/metavision_core/event_io/py_reader.py:45 | `(_end - _start) // _ev_size` is the number of events. |
| EventReader.EventBaseReader.CurrentEventIndex | sdk/modules/core/python/pypkg/metavision_core/event_io/py_reader.py:70-72 | The index is the number of events already consumed. |
| EventReader.EventBaseReader.constructor | sdk/modules/core/python/pypkg/metavision_core/event_io/py_reader.py:37-50 | The cursor is at the first event, with done false and time 0. |
| EventReader.EventBaseReader.Reset | sdk/modules/core/python/pypkg/metavision_core/event_io/py_reader.py:56-60 | The cursor is at the first event, with done false and time 0. |
| EventReader.EventBaseReader.LoadNEvents | sdk/modules/core/python/pypkg/metavision_core/event_io/py_reader.py:105-130 | n ≤ -2 gives ValueError and n = -1 gives IndexError. n ≥ remaining returns the rest and sets done, with time = last t + 1. Otherwise it returns n events, advances by n, sets the time to the next event's t, and leaves done unchanged. |
| EventReader.EventBaseReader.SeekEvent | sdk/modules/core/python/pypkg/metavision_core/event_io/py_reader.py:182-206 | Clamps: n ≤ 0 gives the start with time 0; n ≥ count gives the end with time = last t + 1; otherwise cursor n with time t[n]. done is true exactly at the end. On an empty file it fails or reads the header. |
| EventReader.EventBaseReader.TotalTime | sdk/modules/core/python/pypkg/metavision_core/event_io/py_reader.py:261-281 | The result is 0 for an empty file, else the last timestamp. Cursor, time and done are restored. |
| EventReader.EventBaseReader.LoadDeltaT | sdk/modules/core/python/pypkg/metavision_core/event_io/py_reader.py:132-180 | delta_t < 1 gives ValueError with no change. When done or at the end: empty, and done. Otherwise it returns the events up to `DeltaTEnd`, with the time `DeltaTTime` and done exactly at the end. |
| EventReader.EventBaseReader.LoadUntil | sdk/modules/core/python/pypkg/metavision_core/event_io/py_reader.py:152-178 | The batches read, with the last one cut by `searchsorted`, are exactly the file slice up to `DeltaTEnd`, and the time is `DeltaTTime`. |
| EventReader.EventBaseReader.ReadBatches | sdk/modules/core/python/pypkg/metavision_core/event_io/py_reader.py:159-167 | Reads batches of at most `batch` events until one ends at or after the expected time or the file ends. Together they cover the file from the cursor, and the last starts at `LastBatchStart`. |
| EventReader.EventBaseReader.ReadRest | sdk/modules/core/python/pypkg/metavision_core/event_io/py_reader.py:159-167 | The loop keeps the batches read so far as a tiling of the file from the starting cursor. It stops once the last batch reaches the expected time or the file ends. |
| EventReader.EventBaseReader.ReadNextBatch | sdk/modules/core/python/pypkg/metavision_core/event_io/py_reader.py:160-167 | One turn of the loop appends the next batch to the tiling, and the cursor advances. |
| EventReader.EventBaseReader.ReadBatch | sdk/modules/core/python/pypkg/metavision_core/event_io/py_reader.py:160-163 | Reads min(batch, remaining) events at the cursor, and moves past them. |
| EventReader.EventBaseReader.ReadEvents | sdk/modules/core/python/pypkg/metavision_core/event_io/py_reader.py:122-127 | `stream_events` reads the next k events and moves the cursor past them. |
| EventReader.EventBaseReader.SeekTime | sdk/modules/core/python/pypkg/metavision_core/event_io/py_reader.py:208-259 | Past the total time: the end, done, with time total + 1. At or before 0: a reset. Otherwise the cursor is `SeekTimeTarget` and the time is x. |
| EventReader.EventBaseReader.Bisection | sdk/modules/core/python/pypkg/metavision_core/event_io/py_reader.py:234-251 | The loop ends as `Bisect` specifies; on a hit the cursor is just past the middle. |

## Left out

- Threads, mutexes, condition variables and busy-waits (`camera_is_started_`, the handshakes of `start`, `run` and `stop`) are not modelled. `start` and `stop` are atomic transitions: `Start` runs the thread's prologue, `RunLoop` its loop, and `Stop` joins it.
- CameraRuntime.Camera.Start: an exception escaping the run thread terminates the process in the code. Here it is a returned error plus a `terminated` flag that blocks further calls.
- CameraRuntime.Camera.RunLoop: a poll list that runs out models a loop still polling, to be ended by `Stop`. The raw-data callbacks and the decode-tag count are parameters, because they belong to the facades of other files.
- CameraRuntime.Camera.EmulateRealTime: requires buffers below 2^32 bytes. The `uint32_t` truncation of `remains` for larger buffers is not modelled.
- CameraRuntime.Camera.EmulateRealTime: a `stop` arriving between two sub-buffers is not modelled; in this model the flag cannot change during a buffer.
- CameraRuntime.Camera.HandleBuffer: the code divides the byte count by the raw event size (`setNumProcessedElements`, after pacing and after the decode of the plain path), which is undefined for an event size of 0. That division only feeds the timing profiler, which is not modelled, so the model accepts a size of 0 and serves the poll; a real device reports a positive size.
- CameraPacing.PaceChunk: `diff` is computed in `double` and converted to an integer. It is modelled as exact, which holds for stream time differences below 2^53 µs.
- Sleeping and `get_system_time_us` are not modelled: the clock is an oracle function of the reading count, and a sleep is a `Slept` entry in the trace.
- The live-camera constructors, `init_online_interfaces`, `DeviceDiscovery`, `get_facility` and the `boost::filesystem` existence checks are not modelled. They become parameters (`present`, `regular`, `found`, the `Device` record).
- The live-camera branches of the runtime (`run_from_camera`, the device-control start, stop and reset, and the `check_ccam_instance` failure) are modelled but not reachable here. The only modelled constructors open a file, so `fromFile` always holds.
- The decoder's bit-level decoding, timing profilers, `print_timings` and `raw_file_stream_config` are not modelled.
- The deprecated API stubs of `Camera` that only throw are not modelled.
- `human_readable_rate`, `duration_s` and the average rate of `metavision_raw_info` are not modelled: they are floating point. Its `boost::format` and `program_options` output are left out too.
- RawInfo.AccumulateSortedStream: assumes timestamps between 0 and INT64_MAX. It does not model overflow of the `size_t` count.
- StreamLogger: `write_DAT_header` and `write_event` are not modelled at the byte level. A file is a header flag plus the written events.
- StreamLogger: `int64` overflow of `ts - initial_timestamp_` is not modelled.
- EventReader.EventBaseReader.constructor: requires a file of whole events; a trailing partial event is not modelled.
- EventReader.EventBaseReader.SeekTime: `term_criterion` is a `nat`. A negative criterion, which can make the loop run forever, is not modelled.
- EventReader.EventBaseReader.LoadNEvents: when nothing remains, `current_time` is left unconstrained, because the code reads an uninitialised slot.
- EventReader.EventBaseReader.SeekEvent: on an empty file whose header is at least one event long, `current_time` is left unconstrained, because the code reads header bytes as an event.
- EventReader.SearchSortedIsLowerBound: `searchsorted` is characterised only on sorted input, which is what the reader feeds it for sorted files.
- EventReader.EventBaseReader.LoadDeltaT: the batch size of 100000 is a parameter of the helpers, and `LoadDeltaT` passes the constant. Timestamp sortedness is needed only by the lemmas about the result, not by the method.
- `npy_tools.py`, the Python bindings, the viewer sample and `hal_software_info.cpp` are not modelled, and neither is `__repr__` of the reader.
