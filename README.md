# Raspberry Pi dashboard: button-driven TFT modes and the system-stats log

This project models, in Dafny, the control logic of two scripts of a small
Raspberry Pi display project, and proves properties of that model.

- `raspi_tft.dfy`, module `RaspiTft`, models `raspiTFT.py`. A `tft_disp`
  object (class `TftDisp`) holds a mode, the time its next update is due,
  and a backlight flag. Each turn of the main loop steps the mode with the
  two buttons and reduces it into the ring `[0, 3)`. It then dispatches a
  handler: mode 0 fills the screen, mode 2 clears it, and mode 1 draws
  nothing, because the Mandelbrot call is commented out. Every handler is
  wrapped by `memfunc_decorator`. The decorator always runs the body. It
  then sets `time_to_update` to the time the body returned plus 30 s, and
  pads the call with a sleep so that it lasts at least 0.5 s.
- `rpi_dashboard.dfy`, module `RpiDashboard`, models `RPi_Dashboard.py`.
  `updateSysStats` adds a sample to a dict keyed by sample time, then keeps
  only the entries younger than 60 s. `extractSysStats` turns the dict into
  plot series: offsets from the latest time, one field per entry, or the
  transposed per-CPU table. The animation callback `updateAxes.__call__`
  redraws the globe when the latest sample is past a deadline. It then
  moves the deadline on by 21 s. Class `UpdateAxes` models that callback.

Modelling choices:

- All times are whole microseconds. This is the resolution of `datetime`,
  and it makes 0.5 s exact.
- The clock (`time.time()`, `datetime.now()`) is external. `TftDisp` keeps
  the clock in a field `clock`. A loop iteration is given the clock reading
  it starts at, and each handler body is given the time it takes. The
  decorator's two readings after the body (lines 26 and 28) see the same
  value.
- The handlers' drawing is external. Each body run is recorded in the field
  `shown`, and `Tick` returns the handlers it called.
- A Python dict is a sequence of `(key, sample)` pairs in insertion order,
  with distinct keys. Assigning to an existing key keeps its position and
  replaces the value. A new key goes at the end.
- A sample is passed in, in place of the psutil readings. It is a record
  with exactly the stored fields `cpuPercent`, `memPercent` and
  `cpuTempCel`.
- The button inputs `a` and `b` are the pin levels `.value` as read at
  lines 92-96. The source does not say which level counts as a press.
  "Pressing A" in this text means that A reads `True`, and "both
  pressed" means both read `True`.
- Python's `% 3` is a floor modulo. For a positive modulus it agrees with
  Dafny's `%`, so `NextMode` uses `%` directly. `OnlyBRetreats` shows that
  0 goes to 2.
- Two failures of `extractSysStats` are modelled as errors:
  - `max` of an empty dict raises, which is `Err(EmptyLog)`;
  - `np.transpose` of CPU rows of unequal length is `Err(RaggedCpuRows)`.
    This is the behaviour of numpy 1.24 and later, which refuses to build
    an array from ragged lists. Older numpy built an object array and did
    not raise; that behaviour is not modelled.

Behaviour of the scripts worth knowing when reading the model:

- Pressing both buttons calls `clear()` and leaves the mode where it is.
- The decorator writes `time_to_update` but never reads it, so every
  handler body runs. Nothing skips a call on a mode change or on a
  deadline.
- Button levels are used as read: there is no debounce interval.
- The globe deadline advances by 21 s from the old deadline, not from the
  firing time. Every frame first logs a new sample, so the latest key
  moves on from frame to frame (`UpdatedLatestIsNow`: it is the frame's
  sample time). After an idle gap, the gate fires on every frame whose
  latest key is past the deadline as it stands then. Missed periods are
  therefore redrawn one per frame until the deadline has caught up.
  `GlobeCatchesUp` states this.
- `updateAxes.__call__` raises at line 85 on ragged CPU rows, and at line
  88 when there are fewer than four CPU rows. The log is already updated
  by then, and the globe deadline is left alone. `UpdateAxes.Call`
  returns that error instead of a frame.

## Model

| member | source | states |
|---|---|---|
| `RaspiTft.NextMode` | raspiTFT.py:92-99 | the mode after an iteration is always in `[0, 3)`, whatever it was before; from a mode in the ring, A alone steps up with 2 wrapping to 0, B alone steps down with 0 wrapping to 2, and both or neither leave it unchanged |
| `RaspiTft.Dispatch` | raspiTFT.py:102-107 | the dispatch calls `fill` iff the mode is 0 and `clear` iff it is 2, calls nothing otherwise, and never calls `disp_mandelbrot` |
| `RaspiTft.TickHandlers` | raspiTFT.py:91-107 | the handlers one iteration calls, in order; its contract is `TickHandlersCalls` |
| `RaspiTft.TickHandlersCalls` | raspiTFT.py:91-107 | with both buttons pressed the first handler is `clear`; an iteration calls one handler per press of both buttons plus one unless the new mode is 1; `fill` is called iff the new mode is 0; `disp_mandelbrot` never |
| `RaspiTft.BacklightAfter` | raspiTFT.py:68-85 | the value each handler body writes to `backlight`; the backlight after a call is stated by the `TftDisp` methods |
| `RaspiTft.BacklightAfterAll` | raspiTFT.py:68-85 | the backlight after a run of handlers is the one the last body wrote, or the old one when none ran; stated through `TftDisp.Tick` and `TftDisp.Run` |
| `RaspiTft.PaddedDuration` | raspiTFT.py:28-30 | a decorated call lasts at least 0.5 s and at least as long as its body, and is padded exactly to 0.5 s or not at all |
| `RaspiTft.ModeAfter` | raspiTFT.py:91-99 | after one or more loop iterations the mode is in `[0, 3)`; after none it is untouched |
| `RaspiTft.RunHandlers` | raspiTFT.py:91-107 | the handlers a run of iterations calls, in order; `TftDisp.Run` is proved to call exactly these |
| `RaspiTft.AfterPress` | raspiTFT.py:92-93 | the clock after the press branch, a padded `clear` when both buttons are pressed; its properties are `TickDeadlineFollowsLastCall` |
| `RaspiTft.TickClock` | raspiTFT.py:22-107 | the clock when an iteration ends; its properties are `TickDeadlineFollowsLastCall` |
| `RaspiTft.TickDeadline` | raspiTFT.py:22-107 | `time_to_update` after an iteration, set by its last decorated call; its properties are `TickDeadlineFollowsLastCall` |
| `RaspiTft.TickDeadlineFollowsLastCall` | raspiTFT.py:22-107 | an iteration never ends before it starts; one that calls no handler leaves `time_to_update` unchanged and takes no time; after one that does, the next update is due 30 s after the last body returned, which is no earlier than the iteration's start and at most 0.5 s before its end |
| `RaspiTft.RunDeadline` | raspiTFT.py:22-107 | `time_to_update` after a run of iterations; its properties are `RunDeadlineUntouched` and `TftDisp.Run` |
| `RaspiTft.RunDeadlineUntouched` | raspiTFT.py:22-107 | a run of iterations that calls no handler leaves `time_to_update` where it was, since the decorator is its only writer |
| `RaspiTft.RunClock` | raspiTFT.py:22-107 | the clock after a run of iterations is the end of the last iteration; stated through `TftDisp.Run` |
| `RaspiTft.RunStep` | raspiTFT.py:91-107 | one more loop iteration steps the mode reached so far by `NextMode` of its buttons, appends that iteration's handlers to those already called, and moves the deadline and the clock on as that iteration does |
| `RaspiTft.OnlyAAdvances` | raspiTFT.py:94-99 | n A-only iterations move a ring mode to `(mode + n) mod 3` |
| `RaspiTft.OnlyBRetreats` | raspiTFT.py:96-99 | n B-only iterations move a ring mode to `(mode - n) mod 3` under floor modulo, never negative |
| `RaspiTft.ThreeAReturn` | raspiTFT.py:94-99 | three A-only iterations return to the starting mode |
| `RaspiTft.AThenBReturn` | raspiTFT.py:94-99 | an A-only iteration followed by a B-only one returns to the starting mode, and so does B then A |
| `RaspiTft.NoStepKeepsMode` | raspiTFT.py:92-99 | any run of iterations in which both or neither button is pressed leaves a ring mode unchanged |
| `RaspiTft.TftDisp.constructor` | raspiTFT.py:44-61 | a new display starts in mode 0 with its next update due now and the backlight on |
| `RaspiTft.TftDisp.RunBody` | raspiTFT.py:69-85 | a handler body writes the backlight (`False` for clear, `True` otherwise), draws once and changes neither the mode nor `time_to_update` |
| `RaspiTft.TftDisp.FinishDecorated` | raspiTFT.py:22-30 | after the body, `time_to_update` is the current clock plus the interval, and the call has lasted at least the minimum duration; it sleeps only when the body was faster |
| `RaspiTft.TftDisp.Clear` | raspiTFT.py:68-74 | decorated `clear`: the body always runs, the backlight is off, `time_to_update` is the body's return time plus 30 s, the call lasts `PaddedDuration` of the body, the mode is unchanged |
| `RaspiTft.TftDisp.Fill` | raspiTFT.py:76-79 | decorated `fill`: as `Clear`, with the backlight on |
| `RaspiTft.TftDisp.DispMandelbrot` | raspiTFT.py:81-85 | decorated `disp_mandelbrot`: as `Clear`, with the backlight on |
| `RaspiTft.TftDisp.Tick` | raspiTFT.py:91-107 | one loop iteration: the new mode is `NextMode` and in the ring, the returned handlers are `TickHandlers` and are appended to the display record, the backlight is the last handler's value or unchanged, the clock is `TickClock` and `time_to_update` is `TickDeadline` |
| `RaspiTft.TftDisp.TickAfter` | raspiTFT.py:91-107 | a loop iteration after earlier ones: as `Tick`, with its handlers appended to those the earlier iterations called, and the backlight the last of them wrote |
| `RaspiTft.TftDisp.Step` | raspiTFT.py:91-107 | a loop iteration run after i of them leaves the mode, the called handlers, `time_to_update`, the clock, the display record and the backlight those of i + 1 iterations, with the mode in the ring |
| `RaspiTft.TftDisp.Run` | raspiTFT.py:91-107 | a run of loop iterations ends in the mode `ModeAfter` of the button readings, in the ring once at least one iteration ran, having called exactly `RunHandlers` of them, in order; the backlight is the one the last handler wrote, `time_to_update` is `RunDeadline` and the clock `RunClock` |
| `RpiDashboard.IndexOf` | RPi_Dashboard.py:22 | the position of a present key is the first entry with that key |
| `RpiDashboard.Insert` | RPi_Dashboard.py:22-26 | the dict assignment stores the new sample under its key, keeps every entry with another key, adds nothing else, keeps keys distinct, and grows the dict by one only for a new key |
| `RpiDashboard.Prune` | RPi_Dashboard.py:27 | the window comprehension; its contract is `PruneKeeps`, `PruneKeepsDistinct`, `PruneIsSublist` and `PruneAppend` |
| `RpiDashboard.PruneKeeps` | RPi_Dashboard.py:27 | an entry survives the window comprehension iff it is younger than 60 s; the result is no longer than its input |
| `RpiDashboard.PruneKeepsDistinct` | RPi_Dashboard.py:27 | the window comprehension never makes two entries share a key |
| `RpiDashboard.PruneIsSublist` | RPi_Dashboard.py:27 | the window keeps its entries in their original relative order |
| `RpiDashboard.PruneAppend` | RPi_Dashboard.py:27 | filtering a concatenation filters each part |
| `RpiDashboard.UpdateSysStats` | RPi_Dashboard.py:17-28 | the result holds the new sample under its time, every key in it is under 60 s old, an older entry is kept iff it is under 60 s old, nothing else appears, keys stay distinct, and the size grows by at most one |
| `RpiDashboard.UpdateAppendsNewest` | RPi_Dashboard.py:22-27 | a sample at a new time comes after all kept entries, which stay in order |
| `RpiDashboard.UpdateReplacesInPlace` | RPi_Dashboard.py:22-27 | a sample at a time already present replaces that entry in its position, and the entries around it are pruned in order |
| `RpiDashboard.Keys` | RPi_Dashboard.py:33 | `list(sysStats.keys())`, the keys in entry order; `MaxKey`, `TimeOffsets` and `UpdatedLatestIsNow` state what is drawn from them |
| `RpiDashboard.MaxKey` | RPi_Dashboard.py:34 | `max` of the keys is one of them and no key exceeds it |
| `RpiDashboard.TimeOffsets` | RPi_Dashboard.py:32-35 | the 'time' series fails exactly on an empty dict; otherwise it has one offset per entry in key order, each the key minus the latest key and so at most 0, an offset is 0 iff its key is the greatest, and some offset is 0 |
| `RpiDashboard.Column` | RPi_Dashboard.py:37 | a scalar field's series has one value per entry, in entry order, each that entry's field |
| `RpiDashboard.CpuRows` | RPi_Dashboard.py:37 | the per-entry CPU lists, in entry order; `NewestPlottedLast` and `Transpose` state what is drawn from them |
| `RpiDashboard.Transpose` | RPi_Dashboard.py:38-39 | the CPU transpose succeeds iff all rows have the same length, and then `result[c][j] == rows[j][c]`, with one row per CPU of one value per entry |
| `RpiDashboard.TransposeTwice` | RPi_Dashboard.py:38-39 | transposing a non-empty table twice gives it back |
| `RpiDashboard.ExtractSysStats` | RPi_Dashboard.py:31-41 | the extraction fails only for 'time' on an empty dict (raising in `max`) or for 'cpuPercent' on ragged rows; 'time' gives the `TimeOffsets`, 'memPercent' and 'cpuTempCel' give their `Column`, and 'cpuPercent' gives the `Transpose` of the CPU rows |
| `RpiDashboard.UpdatedLatestIsNow` | RPi_Dashboard.py:22-34 | after an update with no sample from the future, the dict is non-empty and its latest key is the time just stored |
| `RpiDashboard.UpdatedOffsetsInWindow` | RPi_Dashboard.py:27-35 | after an update with no sample from the future, every time offset lies in `(-60 s, 0]`, the plotted x range |
| `RpiDashboard.NewestPlottedLast` | RPi_Dashboard.py:22-37 | a sample at a new time is the last point of the CPU, memory and temperature series |
| `RpiDashboard.GlobeGate` | RPi_Dashboard.py:96-100 | the globe redraws iff the latest key is later than the deadline; on a redraw the deadline grows by exactly 21 s from its old value, otherwise it is unchanged |
| `RpiDashboard.GlobeFrames` | RPi_Dashboard.py:79-100 | the gate applied on consecutive frames, each with its own latest key; its properties are `GlobeDeadlineCounts`, `GlobeCatchesUp`, `GlobeStaysShut` and `GlobeFiresBounded` |
| `RpiDashboard.GlobeDeadlineCounts` | RPi_Dashboard.py:96-100 | over any run of frames the deadline moves by exactly 21 s per redraw and by nothing else |
| `RpiDashboard.GlobeCatchesUp` | RPi_Dashboard.py:96-100 | when the latest key of frame i is past the deadline plus i periods, every frame redraws and the deadline ends one period per frame later |
| `RpiDashboard.GlobeStaysShut` | RPi_Dashboard.py:96-100 | while no frame's latest key passes the deadline, no frame redraws and the deadline stays where it was |
| `RpiDashboard.GlobeFiresBounded` | RPi_Dashboard.py:96-100 | with every frame's latest key at most `last`, the frames redraw at most once per period: all redraws but the final one moved the deadline to below `last` |
| `RpiDashboard.PlotFrame` | RPi_Dashboard.py:81-94 | one frame's series are the four extractions of the log; it succeeds iff the CPU rows all have the same length and there are at least four CPUs; the frame fails with the transpose's error on ragged CPU rows and with a missing row when there are fewer than four CPU rows, and succeeds otherwise |
| `RpiDashboard.UpdateAxes.constructor` | RPi_Dashboard.py:60-62 | the globe deadline starts at the creation time and the log holds just the first sample |
| `RpiDashboard.UpdateAxes.Call` | RPi_Dashboard.py:79-100 | a frame updates the log by `UpdateSysStats` and extracts `PlotFrame` from the new log (the 'time' series never fails there); when the frame raises, the globe is not redrawn and its deadline is unchanged; otherwise `GlobeGate` is applied to the new latest key and the old deadline |

## Left out

- Display hardware: `board`, `digitalio`, SPI, the `st7789.ST7789` driver, PIL images and `disp.image`/`disp.fill` are foreign calls. A handler body is an entry of `shown`.
- The `width`, `height` and `rotation` fields of `tft_disp` only feed the drawing calls, so they are not modelled.
- Button levels are not read from pins. They are parameters of each loop iteration, read once per iteration; the source reads each pin again in the `elif` tests of lines 94 and 96, and a level changing between those reads is not modelled.
- The backlight pin: `__init__` stores a `DigitalInOut` in `backlight` and drives it high. The handlers then rebind the attribute to a plain bool. The model keeps only that attribute, as a bool that starts `True`. It does not model whether the pin level changes.
- `print` logging in the main loop (raspiTFT.py:100) is I/O.
- What `FuncAnimation` does once `__call__` raises (it stops the animation) is UI and not modelled. `UpdateAxes.Call` returns the error with the new state.
- The infinite `while True` loop runs for a finite sequence of polls in `TftDisp.Run`.
- `time.sleep` shows up only as the clock advancing. Real wall-clock reading is replaced by clock parameters.
- psutil sampling (RPi_Dashboard.py:11-12, 19-21) is I/O. The sample is a parameter, and its percentages and temperature are integers rather than floats.
- Time offsets are integer microseconds, not the float seconds of `total_seconds()`.
- An unknown `cpnt` string in `extractSysStats` would raise `KeyError` on a non-empty dict, and give `[]` on an empty one, since the comprehension at line 37 then looks up nothing. The component is an enumeration of the four names used, so that case cannot arise.
- matplotlib, mplot3d, cartopy, `FuncAnimation` and `plt.show` (RPi_Dashboard.py:44-59, 63-105) are UI. `UpdateAxes.Call` returns the extracted series instead of plotting them, and reports whether the globe was redrawn.
- The time the first sample is taken after the `updateAxes` constructor reads the clock is a parameter of the constructor.
