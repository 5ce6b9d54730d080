# 3D car viewer: render-loop gate, recording and capture

A model of the logic in `main.js` of the Three.js car viewer, in Dafny. Four parts of that file are modelled:

- **The render loop `animate`.** A tick runs only when at least one frame interval has passed since the reference time `previousTime`. An accepted tick moves the reference time to the current time minus the remainder of the elapsed time modulo the interval. It then renders; while recording it removes the background for that render and puts it back afterwards. Also while recording, it adds one frame with delay 100 to the GIF session.
- **The record button.** Each click flips `isRecording`. A start creates a new, empty session, stores the start time and sets `scene.background` to null. A stop resets the timer text to `00:00` and hands the session to the encoder (`gif.render()`). When that session's 'finished' callback runs, the GIF is offered for download and the background is set to black.
- **The timer readout.** It shows the elapsed milliseconds as `mm:ss`: floor-divided minutes, then the seconds past them, each padded with `0` to two characters.
- **The screenshot button.** It renders with a null background, downloads the canvas as a PNG, restores the background and renders again.

Layout:

- `viewer_state.dfy` (module `ViewerState`) holds the viewer's shared state as one datatype. Each handler is a function on that state, and `Step`/`Run` apply a sequence of events.
- `viewer.dfy` (module `ViewerContext`) is the same state as a class, `Viewer`. Its methods update the fields statement by statement, as the handlers do, and each is proved to produce the state its `ViewerState` function describes.
- `frame_rate.dfy` (module `FrameRate`) proves what the gate guarantees, for one tick and for a run of ticks.
- `recording.dfy` (module `Recording`) proves the record state machine, the capture properties and the invariants that hold over any event sequence.
- `readout.dfy` (module `Readout`) holds the pure `mm:ss` formatting and its round trip.
- `wrappers.dfy` holds `Option`.

Modelling choices:

- Time is integer milliseconds, and `frameInterval > 0`.
- `renderer.render` is modelled as "the canvas now shows the current background": field `canvas`, with `Null` meaning the transparent clear colour. A render also increments a render counter.
- A GIF frame is a copy of the canvas plus its delay.
- A download is a PNG or a GIF, together with its file name.
- Sessions that have been handed to the encoder but have not run their 'finished' callback are a list, `rendering`. Any one of them may finish next, because the encoder's workers may finish in any order.
- The initial `previousTime` and background are set in code that is not shown, so they are parameters. The other initial values in `Initial` are assumed, because their declarations are elided too: not recording, `recordStartTime = 0`, timer text `00:00`, an undrawn (transparent) canvas, no sessions and no downloads. `animate()` called with no argument is the event `AnimationFrame(0)`, through its default `currentTime = 0`.

Where the specification of the viewer and `main.js` disagree, the model follows the code:

- **Frame-rate bound.** The specification says at most `T / interval + 1` ticks are accepted over any span `T`. The code keeps the remainder, so a late first tick can be followed at once by a catch-up tick. An example: interval 10, reference 0, ticks at 19, 20 and 30 are all accepted, which is 3 ticks over a span of 11 (`FrameRate.CatchUpBurst`). The model proves three bounds instead:
  - `interval * accepted <= last - reference`: no drift over the long run.
  - `T / interval + 2` over any span.
  - `T / interval + 1` when the span's first tick comes less than one interval after the reference time.
- **After a recording, the background is set to black.** The handler saves the background at start (main.js:68) but never reads it back.
- **Stop does not wait for the encoder.** It clears `isRecording` at once, so a new recording can start while the previous session is still being encoded. Each start/stop pair still yields exactly one session (`Recording.RunOutputs`).
- **The screenshot has no failure path.** The specification asks for the background to be restored even if capture fails. The code has no such path, and the model has no failures.

## Model

| member | source | states |
|---|---|---|
| `ViewerState.Initial` | main.js:19-21 | no contract: the assumed state before the first event, with the transparent clear colour of line 19 on the canvas; `Recording.InitialCapturesTransparent` is about it |
| `ViewerState.Render` | main.js:126-129 | no contract: one `renderer.render(scene, camera)`, also at lines 36, 49 and 103; the canvas shows the current background and the render count goes up by one; `ViewerContext.Viewer.RenderScene` is proved equal to it |
| `ViewerState.Tick` | main.js:111-139 | no contract: one `animate(currentTime)` call; its properties are in `FrameRate.RejectedTick`, `FrameRate.AcceptedTick` and `FrameRate.TickRunEffect` |
| `ViewerState.ClickRecord` | main.js:53-108 | no contract: one click of the record button; its properties are in `Recording.StartRecording`, `Recording.StopRecording` and `Recording.TwoClicks` |
| `ViewerState.TimerInterval` | main.js:78-85 | no contract: one run of the timer callback; its property is in `Recording.TimerReadout` |
| `ViewerState.Screenshot` | main.js:24-50 | no contract: one click of the screenshot button; its properties are in `Recording.ScreenshotRestoresBackground` |
| `ViewerState.Finished` | main.js:95-104 | no contract: one run of a session's 'finished' callback; its properties are in `Recording.FinishedSession` |
| `ViewerState.Step` | main.js:24-139 | no contract: dispatches one event to its handler; `Recording.StepKeepsCapturesTransparent` and `Recording.StepOutputs` are about it |
| `ViewerState.Run` | main.js:24-139 | no contract: the events in order; `Recording.RunKeepsCapturesTransparent`, `Recording.RunRecording` and `Recording.RunOutputs` are about it |
| `Readout.ResetText` | main.js:93 | the constant `00:00` the stop handler writes; `Readout.FormatAtStart` shows it is also the readout of the first second |
| `Readout.IntToString` | main.js:84 | no contract: `toString` of an integer; its properties are in `Readout.IntToStringValue` |
| `Readout.Fields` | main.js:80-82 | no contract: `Math.floor(elapsed / 1000)`, then floor-divided minutes and the JavaScript remainder of the seconds; its properties are in `Readout.FieldsOfElapsed` |
| `Readout.Field` | main.js:84 | no contract: `toString().padStart(2, '0')` of one field; its properties are in `Readout.NatField` |
| `Readout.Format` | main.js:79-84 | no contract: the text the timer callback writes; its properties are in `Readout.FormatShape`, `Readout.ParseFormat`, `Readout.FormatDistinguishesSeconds` and `Readout.FormatAtStart` |
| `ViewerState.Gate` | main.js:115-118 | rejects exactly when `currentTime - previousTime < frameInterval`; otherwise the new reference time is at most one interval behind the current time and advances by `frameInterval * (delta / frameInterval)`, a whole multiple of at least one interval |
| `FrameRate.RejectedTick` | main.js:115-116 | a tick less than one interval after the reference time changes nothing: no render, no frame, same `previousTime` |
| `FrameRate.AcceptedTick` | main.js:115-138 | an accepted tick sets `previousTime = currentTime - delta % frameInterval` and leaves `0 <= currentTime - previousTime < frameInterval`; renders once, drawing no background while recording; keeps `scene.background`; adds `Frame(100, transparent)` exactly when recording; changes nothing else |
| `FrameRate.AcceptedByReference` | main.js:115-118 | whether ticks are accepted depends only on the reference time |
| `FrameRate.TickRunEffect` | main.js:111-139 | a run of ticks renders once per accepted tick; while recording the session gains exactly one transparent 100 ms frame per accepted tick, otherwise it is untouched; nothing else changes |
| `FrameRate.ReferenceAdvance` | main.js:115-118 | over a run of ticks the reference time advances by at least `frameInterval` per accepted tick, and does not move when none is accepted |
| `FrameRate.ReferenceBehindLastFrame` | main.js:115-118 | with non-decreasing timestamps, once a tick has been accepted the reference time never passes the last timestamp |
| `FrameRate.AcceptedWithinReferenceSpan` | main.js:115-118 | with non-decreasing timestamps, `frameInterval * accepted <= last - initial reference time` |
| `FrameRate.AcceptedFromAligned` | main.js:115-118 | if the reference time is less than one interval before a lower bound `base` of the timestamps, at most `(last - base) / frameInterval + 1` ticks are accepted |
| `FrameRate.AcceptedInAlignedSpan` | main.js:115-118 | the `T / frameInterval + 1` bound over a span whose first tick is less than one interval after the reference time |
| `FrameRate.AcceptedInSpan` | main.js:115-118 | over any span `T` of non-decreasing timestamps, at most `T / frameInterval + 2` ticks are accepted |
| `FrameRate.CatchUpBurst` | main.js:115-118 | with interval 10 and reference 0, ticks at 19, 20 and 30 are all accepted: one more than `11 / 10 + 1` |
| `Recording.StartRecording` | main.js:57-72 | a click from idle starts recording with a new empty session, the start time `now` and a null background; nothing else changes |
| `Recording.StopRecording` | main.js:86-106 | a click while recording stops it, resets the readout to `00:00` and hands exactly the current session to the encoder; nothing else changes |
| `Recording.TwoClicks` | main.js:57-106 | two clicks from idle return to idle with exactly one new (empty) session being encoded |
| `Recording.RecordedSession` | main.js:53-139 | start, ticks, stop: the one session handed to the encoder holds one transparent 100 ms frame per accepted tick |
| `Recording.TimerReadout` | main.js:78-85 | while recording, the timer shows the readout of `now - recordStartTime`; after the interval is cleared, nothing changes |
| `Recording.ScreenshotRestoresBackground` | main.js:24-50 | after the screenshot `scene.background` equals its value before the click; the downloaded PNG was drawn with no background; the canvas is redrawn with the restored background |
| `Recording.FinishedSession` | main.js:95-104 | the 'finished' callback downloads exactly its session, removes it from the sessions being encoded and sets the background to black |
| `Recording.InitialCapturesTransparent` | main.js:53-139 | the initial state has no captures, so the transparency invariant holds |
| `Recording.StepKeepsCapturesTransparent` | main.js:24-139 | every event keeps every frame, session and download transparent, with a 100 ms delay for every frame |
| `Recording.RunKeepsCapturesTransparent` | main.js:24-139 | the same over any sequence of events |
| `Recording.StepOutputs` | main.js:53-108 | only a record click flips `isRecording`, and only a click that stops a recording adds one session to those encoding or downloaded |
| `Recording.RunRecording` | main.js:57-88 | over any sequence of events, `isRecording` is its initial value flipped once per record click |
| `Recording.RunOutputs` | main.js:57-106 | over any sequence of events, exactly one session is finalised per start/stop pair of clicks |
| `Readout.NatToDecimal` | main.js:84 | `toString` of a non-negative integer is a non-empty string of decimal digits |
| `Readout.DecimalLength` | main.js:84 | that text has one digit iff the number is below 10, at most two iff below 100, and no leading zero |
| `Readout.DecimalRoundTrip` | main.js:84 | the digits of `n` read back as `n` |
| `Readout.IntToStringValue` | main.js:84 | `toString` of an integer starts with '-' exactly when it is negative, and the digits after the sign read back as its magnitude |
| `Readout.PadStart` | main.js:84 | `padStart`: the string with filler characters in front, up to the width; a string already that long is unchanged |
| `Readout.PaddedValue` | main.js:84 | padding digits with '0' keeps them digits with the same value |
| `Readout.NatField` | main.js:84 | a field of a non-negative number is at least two digits, exactly two iff below 100, and reads back as the number |
| `Readout.JsRem` | main.js:82 | JavaScript's `%` with a positive divisor: strictly between `-b` and `b`, with the sign of the dividend |
| `Readout.JsRemTruncates` | main.js:82 | that remainder is what is left after the quotient truncated toward zero, and equals Euclidean `%` for a non-negative dividend |
| `Readout.FieldsOfElapsed` | main.js:79-82 | for elapsed `e >= 0`, minutes are `e / 60000`, seconds are `(e / 1000) % 60 < 60`, and together they make `e / 1000` seconds |
| `Readout.FormatShape` | main.js:79-84 | for `e >= 0` the readout is `mm:ss` with at least two minute digits reading `e / 60000` and two second digits reading `(e / 1000) % 60`; it is exactly 5 characters iff minutes < 100 |
| `Readout.FormatText` | main.js:79-84 | the step towards `Readout.FormatShape`: for `e >= 0` the readout is the minutes field, ':', then the two-digit seconds field, and is 5 characters iff minutes < 100 |
| `Readout.ParseJoin` | main.js:84 | two digit fields joined by ':', the second of two digits below 60, read back as `minutes * 60 + seconds` |
| `Readout.ParseFormat` | main.js:79-84 | reading the readout back gives the whole seconds elapsed |
| `Readout.FormatDistinguishesSeconds` | main.js:79-84 | elapsed times in different seconds show different texts |
| `Readout.FormatAtStart` | main.js:79-84 | during the first second the readout is `00:00`, the text a stop resets it to |
| `ViewerContext.Viewer.RenderScene` | main.js:126-129 | a render draws the current background on the canvas |
| `ViewerContext.Viewer.Animate` | main.js:111-139 | returns whether the tick was accepted (`currentTime - previousTime >= frameInterval`); the fields end up as `Tick` of the old fields |
| `ViewerContext.Viewer.ClickRecordButton` | main.js:53-108 | the fields end up as `ClickRecord` of the old fields |
| `ViewerContext.Viewer.TimerTick` | main.js:78-85 | the fields end up as `TimerInterval` of the old fields |
| `ViewerContext.Viewer.ClickScreenshot` | main.js:24-50 | the fields end up as `Screenshot` of the old fields, with `scene.background` unchanged |
| `ViewerContext.Viewer.FinishGif` | main.js:95-104 | the fields end up as `Finished` of the old fields, with a black background |

## Left out

- Renderer construction and settings (main.js:3-19): library configuration with no logic.
- `controls.update()`, the pixels `renderer.render` draws, `drawImage`, `toDataURL`, `URL.createObjectURL` and link clicks: foreign rendering and browser calls, modelled as opaque steps. A render only records which background it drew; a download only records its name and content.
- GIF encoding internals (`new GIF` options, workers, quality, the encoded bytes): third-party code. Only "this session was finalised and downloaded" is modelled.
- `requestAnimationFrame`, `setInterval`/`clearInterval` and `Date.now()`: scheduling and clocks. Their timestamps are parameters, and the timer interval is taken to exist exactly while recording.
- Button text, button colour and showing or hiding the timer element (main.js:73-75, 90-92): presentation only.
- Floating-point timestamps and a fractional `frameInterval` (such as 1000/60) are not modelled. Times are integer milliseconds, and `frameInterval` and the initial `previousTime` are defined in code that is not part of this model.
- Readout.IntToString: does not model the exponent notation `toString` uses from 10^21 on, far beyond any elapsed time in milliseconds.
- The camera transitions, asset loading and resize debouncing described for the viewer are not in `main.js` as given, and so are not part of this model.
