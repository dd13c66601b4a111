# Infrared command learning and replay (FLipWare)

This project models the infrared module of the FLipWare firmware
(`FLipWare/infrared.cpp`). The module learns a remote-control command by
sampling an IR photosensor and storing the raw durations between level
changes. Later it replays such a command on an IR emitter.

- **Recording** (`record_IR_command`). Each attempt waits up to 10 s for the
  sensor to read LOW, which is the start condition. It then measures up to
  250 alternating intervals into the global `timings` buffer. Each interval
  ends when the sensor shows the expected level or when the per-edge timeout
  `edge_timeout` passes. Three attempts are made at most. The first attempt
  that leaves more than five edges is saved under the command's name and
  followed by a feedback tone.
- **Playback** (`play_IR_command`). The stored durations are loaded into the
  same buffer. Even entries become PWM bursts on the IR LED
  (`analogWrite(IR_LED_PIN, 128)`) and odd entries are pauses with the LED
  driven LOW. Each hold is a busy-wait on `micros()`. A non-empty command
  ends with a tone and the LED driven LOW. An empty one returns at once and
  touches no pin.
- **`set_IR_timeout`** sets the per-edge timeout from milliseconds.

## How the hardware is represented

- **Samples.** The hardware appears as a finite, scripted trace of samples
  `Sample(ms, us, high)`. Every `millis()`/`micros()` read in a polling loop
  consumes the next sample. The sensor level read in the same iteration is
  that sample's level.
- **Clock arithmetic.** Clock differences use 32-bit wrapping subtraction
  (`Hardware.Elapsed`). Stored durations go through the `(uint16_t)` cast
  (`Hardware.Truncate16`).
- **A finite trace.** Real firmware polls forever, but the trace is finite.
  If a loop runs out of samples, the model reports this explicitly: the
  `TraceEnded` outcome when recording, or `completed == false` when playing.
- **Effects.** What the outside world sees is appended to an event log:
  - emitter pin writes (`BurstOn`, `BurstOff`, `LedLow`);
  - each busy-wait hold (`Hold`);
  - the feedback tone (`Tone`);
  - the store write (`Save`).

## Model structure

- **Specification functions.**
  - The wait loops and the retry policy are recursive functions over the
    trace: `Recorder.AwaitStart`, `Recorder.AwaitEdge`,
    `Recorder.RecordEdges`, `Recorder.RecordFrom`, `Player.AwaitHold` and
    `Player.PlayFrom`.
  - `Player.Pattern` is the emitter pattern a command should produce,
    independent of any trace.
- **Imperative code.** The busy-wait loops (`Recorder.WaitForStart`,
  `Recorder.WaitForEdge`, `Player.WaitHold`), the retry and edge loops of
  recording (`Infrared.IrDevice.RecordCommand`,
  `Infrared.IrDevice.RecordAttempt`) and the playback loop
  (`Infrared.IrDevice.Emit`) are methods with `while` loops.
  `Infrared.IrDevice.PlayCommand` and `Infrared.IrDevice.EmitEntry` call
  them. Each of these seven methods is proved to compute exactly what its
  specification function says.
  `Infrared.IrDevice.SetTimeout` and `Infrared.IrDevice.Load` have no loop
  and no specification function: their contracts state the new values of
  the globals directly.
  - The globals live in the class `Infrared.IrDevice`: `timings` is an
    `array<uint16>` of 250 entries, alongside `edges`, `edgeTimeout` and
    the event log.
- **Properties** about the specification functions are lemmas.

Two points where the code and a plain reading of its intent differ are
modelled as the code has them:

- **Stale edge count.** An attempt that fills all 250 slots without an edge
  timeout never assigns `edges` (lines 92-127). With a full buffer the count
  keeps its stale value from before the attempt, rather than becoming 250.
  `Recorder.AttemptEnds` states this.
- **Hold length.** A hold lasts until strictly more than the stored duration
  has passed (the `<=` loop conditions at lines 232 and 247), not until the
  duration is reached.

## Model

| member | source | states |
|---|---|---|
| Hardware.Elapsed | FLipWare/infrared.cpp:102-103 | the unsigned `now - prev` of two 32-bit clock readings (also at lines 71, 231 and 246) is the time that, added to `prev` on the 32-bit counter, gives back `now`, even across a counter wrap |
| Hardware.ElapsedWraps | FLipWare/infrared.cpp:102-103 | the unsigned `now - prev` of two clock readings is their difference modulo 2^32 |
| Hardware.Truncate16 | FLipWare/infrared.cpp:124 | the `(uint16_t)` cast never increases a duration and leaves a duration below 65536 unchanged |
| Recorder.AwaitStart | FLipWare/infrared.cpp:68-87 | a start wait that does not stall ends strictly after where it began, within the trace |
| Recorder.AwaitStartEndsOnFirstNonIdle | FLipWare/infrared.cpp:68-87 | the start wait ends on the first poll that is not idle. It times out if 10 s have passed (checked before the level). It starts if the sensor reads LOW in time. It stalls only if every remaining poll was idle |
| Recorder.SilenceTimesOut | FLipWare/infrared.cpp:66-79 | a sensor that stays HIGH up to a poll at least 10 s after `prev` makes the start wait end with a user timeout |
| Recorder.WaitForStart | FLipWare/infrared.cpp:67-87 | the polling loop returns exactly the outcome and trace position of the start-wait specification |
| Recorder.AwaitEdge | FLipWare/infrared.cpp:99-121 | an edge wait that does not stall ends strictly after where it began, within the trace (the ending poll is pinned down by AwaitEdgeEndsOnFirstEdge) |
| Recorder.AwaitEdgeEndsOnFirstEdge | FLipWare/infrared.cpp:95-121 | an edge wait ends on the first poll that reaches the edge timeout (checked first) or shows the expected level. A seen edge reports the wrapping duration since `prev`, which is below the timeout |
| Recorder.WaitForEdge | FLipWare/infrared.cpp:99-121 | the inner polling loop returns exactly the outcome, duration and trace position of the edge-wait specification |
| Recorder.RecordEdges | FLipWare/infrared.cpp:92-127 | an attempt keeps the buffer at 250 entries and `edges` at most 250, and only moves forward in the trace |
| Recorder.AttemptEnds | FLipWare/infrared.cpp:92-127 | an attempt never records past slot 250. A timed-out slot's index becomes `edges`. A full buffer or a stalled attempt leaves `edges` as it was |
| Recorder.RecordEdgesFrame | FLipWare/infrared.cpp:106-124 | an attempt writes only the slots it measured: neither the slot that timed out nor any later index is written |
| Recorder.RecordedSlotsMatch | FLipWare/infrared.cpp:63-126 | every written slot is a trace interval ending on the level expected for its index (HIGH for even, LOW for odd) strictly within the edge timeout. The buffer holds that interval's 16-bit wrapping duration |
| Recorder.AttemptMatchesTrace | FLipWare/infrared.cpp:92-127 | after an attempt that did not stall, each of the first `edges` buffer entries is the measured duration of a matching trace interval |
| Recorder.RecordFrom | FLipWare/infrared.cpp:61-137 | across the retry loop the buffer keeps 250 entries and `edges` stays at most 250 |
| Recorder.Record | FLipWare/infrared.cpp:50-137 | a whole recording call makes one to three attempts, and giving up takes all three, the last leaving at most five edges |
| Recorder.AttemptsBounded | FLipWare/infrared.cpp:61-137 | a call makes at least one and at most three attempts. Running out of retries takes exactly three attempts, the last of which left at most five edges |
| Recorder.SavedMatchesTrace | FLipWare/infrared.cpp:129-141 | a save happens only with more than five edges. It saves exactly the first `edges` buffer entries, entry k being the duration of the k-th interval measured from `r.first` on, on the expected level within the edge timeout (SavedAfterStart places `r.first` right after the start condition; SlotsContiguous makes the intervals consecutive) |
| Recorder.SavedAfterStart | FLipWare/infrared.cpp:67-95 | a save comes from the attempt begun at `r.start` that saw the start condition: its edge recorder began at `r.first`, on the sample right after a LOW reading taken less than 10 s after the attempt's first `millis()` sample |
| Recorder.SlotsContiguous | FLipWare/infrared.cpp:92-127 | the intervals an attempt measures follow each other: the first begins at the attempt's first `micros()` sample, and each next one right after the edge that ended the one before. So saved entry 0 is the first interval after the start condition |
| Recorder.UserTimeoutOnlyFromStartWait | FLipWare/infrared.cpp:66-79 | a user timeout comes only from a start wait that saw 10 s pass without a LOW reading |
| Recorder.UserTimeoutEndsCall | FLipWare/infrared.cpp:75-79 | a start wait that times out ends the call at once with a user timeout, in any attempt, with retries left or not. The buffer and `edges` are not changed |
| Recorder.SilentSensorTimesOut | FLipWare/infrared.cpp:61-79 | a sensor that stays HIGH for 10 s ends the call in its first attempt with a user timeout and the buffer and `edges` untouched |
| Player.AwaitHold | FLipWare/infrared.cpp:228-232 | a completed hold ends strictly after where it began, and more than the stored duration has passed |
| Player.AwaitHoldEndsOnFirstOverrun | FLipWare/infrared.cpp:228-232 | a hold ends on the first poll at which strictly more than the duration has passed, never earlier. A stalled hold never saw an overrun |
| Player.WaitHold | FLipWare/infrared.cpp:243-247 | the `do { } while (now - prev <= state_time)` loop returns exactly what the hold specification says |
| Player.SlotEvents | FLipWare/infrared.cpp:224-250 | the actions for one entry hold exactly once, for that entry's duration, and switch a burst on and off once when the output state is HIGH, never when it is LOW |
| Player.Pattern | FLipWare/infrared.cpp:216-266 | the emitter pattern of any command ends with the feedback tone and then the LED driven LOW |
| Player.PlayFrom | FLipWare/infrared.cpp:216-266 | a playback run that reaches the end of the command ends with the feedback tone and then the LED driven LOW, whatever was performed before |
| Player.PlayAppends | FLipWare/infrared.cpp:216-252 | playback only appends: after earlier actions it performs exactly what it performs from nothing |
| Player.PlayFollowsPattern | FLipWare/infrared.cpp:216-266 | a playback that runs to its end emits exactly the pattern. One cut short by the trace has emitted a proper prefix of it |
| Player.Replay | FLipWare/infrared.cpp:195-266 | an empty command performs no action at all. A non-empty one emits the whole pattern, or a proper prefix if the trace runs out |
| Player.BurstsAreClosed | FLipWare/infrared.cpp:224-237 | every burst switched on is followed by its hold and switched off again |
| Player.PatternHoldsCommand | FLipWare/infrared.cpp:216-250 | the holds of the pattern replay the command's durations exactly, in order |
| Player.BurstCount | FLipWare/infrared.cpp:216-250 | only even entries burst: a command of n entries switches the burst on (n+1)/2 times and off as often |
| Player.CompletedReplayLeavesLedOff | FLipWare/infrared.cpp:216-266 | a completed non-empty replay ends with the LED driven LOW after the tone, whether the command has odd or even length. It holds every duration and closes every burst |
| Infrared.IrDevice.constructor | FLipWare/infrared.cpp:36-41 | the globals start as a zeroed 250-entry buffer, zero edges and a 10 ms edge timeout |
| Infrared.IrDevice.SetTimeout | FLipWare/infrared.cpp:270-273 | the edge timeout becomes the given milliseconds times 1000 (always within 32 bits), and nothing else changes |
| Infrared.IrDevice.RecordCommand | FLipWare/infrared.cpp:50-145 | the buffer, `edges` and the outcome are exactly those of the retry-loop specification from the first attempt (`Record`). The store write and then the tone happen once, and only on a save, with the saved timings |
| Infrared.IrDevice.RecordAttempt | FLipWare/infrared.cpp:91-127 | the edge loop leaves the buffer, `edges` and the trace position exactly as the attempt specification says |
| Infrared.IrDevice.Load | FLipWare/infrared.cpp:194-195 | the loaded command fills the front of the buffer, the rest of the buffer is unchanged, and `edges` is its length |
| Infrared.IrDevice.PlayCommand | FLipWare/infrared.cpp:185-267 | the buffer and `edges` hold the loaded command, and the actions performed are exactly those of the replay specification. An empty command therefore touches no pin |
| Infrared.IrDevice.Emit | FLipWare/infrared.cpp:215-266 | the playback loop with its final tone and LED-off performs exactly what the playback specification says |
| Infrared.IrDevice.EmitEntry | FLipWare/infrared.cpp:217-250 | one entry: the burst or LED-low, then a hold for the entry's duration as specified, then burst-off after a burst. A stalled hold stops after the first action |

## Left out

- Serial debug output (all the `DebugOutput` and `Serial.print` lines) has no effect on the globals or the pins and is not modelled.
- `list_IR_commands` and `delete_IR_command` only forward to the command store. The store (`readIRFromEEPROM`, `saveIRToEEPROM` and the rest of the EEPROM code) is not part of this model.
- Loading a command by name is a parameter: `Infrared.IrDevice.PlayCommand` receives the command the store returned (at most 250 entries). Saving is the `Save` event in the log.
- `makeTone` is the `Tone` event. The tone's sound and its duration are not modelled.
- Real time, the PWM signal itself (its frequency and duty cycle) and the pin electrics are not modelled. Time is what the scripted clock samples say, and a burst is the `BurstOn`/`BurstOff` pair around a hold.
- The model's trace is finite, so its outcomes can end early (`TraceEnded`, or `completed == false`). The firmware has no such outcome; on hardware the polling loops simply keep polling.
- `Recorder.RecordFrom`: the source counts `retry` down on a `uint8` with the always-true condition `retry >= 0`. The loop is left only by a return (the user timeout at line 78, or giving up at `retry == 1`) or by the break on enough edges, so the wrap-around is never reached. The model counts 3, 2, 1.
- `Infrared.IrDevice.EmitEntry`: the HIGH and LOW branches of the playback loop each have their own `do { } while` hold. Both are modelled by the single method `Player.WaitHold`, because they poll identically.
- `Infrared.IrDevice.Load`: assumes the store writes only the first |loaded| entries of `timings` and leaves the rest as they were, which is what the "rest of the buffer unchanged" clause relies on. `readIRFromEEPROM` is not part of this model; line 195 shows only that it receives `timings` and the capacity 250.
- `Infrared.IrDevice.RecordAttempt`, `Infrared.IrDevice.Emit` and `Infrared.IrDevice.EmitEntry` are parts of the single source functions, split into methods. The split adds no behaviour.
