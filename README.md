# Auto-selfie capture state machine, in Dafny

The script `authoselfi/auto_selfie.py` watches a webcam and takes a selfie when
a smiling face is seen, after a short countdown with sound cues. Its own
logic is the function `detect_and_draw`. On each frame it does one of these:

- it restarts the countdown when no face is seen;
- it plays a "ready" sound once per countdown when at most 3 seconds remain
  and a smile is seen;
- it saves the frame as `selfie_{n}.png` and plays a shutter sound when a
  smile is seen after the 7-second interval has passed;
- it restarts the countdown when the "ready" sound has played, more than a
  full interval has passed since the countdown started, and no face smiles
  in the current frame (earlier smiles do not prevent this).

The state is three module-level globals: the photo counter, the start of the
current countdown, and whether the "ready" sound has played.

The model:

- `selfie_names.dfy` (module `SelfieNames`): the decimal text of the counter
  and the file name `selfie_{n}.png`. It proves that the decimal text reads
  back as the counter and that two counters never share a file name.
- `capture_spec.dfy` (module `CaptureSpec`): the state as a value, the
  detector output as a list of faces with their smile counts, the emitted
  actions (`ReadyCue`, `Capture(filename)`), and `Step`. `Step` gives the
  effect of one call in closed form. The lemmas `StepCapture`, `StepCue` and
  `StepRestart` say when a photo is taken and how it is named, when the cue
  plays, and when the countdown restarts.
- `capture_machine.dfy` (module `AutoSelfie`): class `CaptureMachine` holds the
  three globals as fields. `Process` follows `detect_and_draw` statement by
  statement: the nested loops over faces and smiles, the early return after a
  capture, and the final "no smile after the cue" check. It is proved to
  produce exactly the state and actions of `Step`.
- `capture_runs.dfy` (module `CaptureRuns`): a run of successive calls. It
  proves the properties that span several frames: photo names follow the
  counter with no gap or reuse, the cue plays at most once per countdown, a
  run without faces or without smiles emits nothing and takes no photo, and
  a sustained smile cues exactly once. It also proves the outcome of two
  concrete frame sequences.

Time is a `real` number of seconds passed in by the caller. The code only
subtracts and compares times, so only float rounding is lost (see "Left
out").

Two points where the code decides:

- The comment on auto_selfie.py line 65 speaks of 5 seconds. The code at
  line 66 compares against 3, and the model uses 3.
- After the face is lost and found again, the new countdown starts at the
  time of the last frame without a face (line 40). It does not start at the
  first frame with a face. `FaceLostScenario` is stated that way.

## Model

| member | source | states |
|---|---|---|
| `SelfieNames.Decimal` | authoselfi/auto_selfie.py:72 | The counter's text is one or more decimal digits with no leading zero. |
| `SelfieNames.DecimalRoundTrip` | authoselfi/auto_selfie.py:72 | The counter's text reads back, digit by digit, as the counter. |
| `SelfieNames.SelfieName` | authoselfi/auto_selfie.py:72 | The file name is `selfie_`, then the counter in decimal, then `.png`. |
| `SelfieNames.DecimalInjective` | authoselfi/auto_selfie.py:72 | Different counters have different decimal texts. |
| `SelfieNames.SelfieNameInjective` | authoselfi/auto_selfie.py:72 | Different counters give different file names, so no file is overwritten. |
| `CaptureSpec.StepCapture` | authoselfi/auto_selfie.py:56-77 | One call takes a photo iff some face smiles and at least 7 s have passed since the countdown started. The photo is named after the old counter, and the counter grows by exactly the number of photos taken. |
| `CaptureSpec.StepCue` | authoselfi/auto_selfie.py:63-68 | The cue plays iff it has not played yet and a smile is seen with at most 3 s left. It plays at most once per call and before the shutter. A call emits nothing besides the cue and the photo. |
| `CaptureSpec.StepRestart` | authoselfi/auto_selfie.py:38-84 | The countdown restarts (start := now, flag down) iff there is no face, a photo is taken, or the flag is up, nobody smiles and more than 7 s have passed. Otherwise the start is kept and the flag is raised only by the cue. |
| `CaptureSpec.NoFaceResets` | authoselfi/auto_selfie.py:38-41 | With no face the countdown restarts at now, the flag goes down, the counter is kept, and nothing is emitted. |
| `CaptureSpec.ZeroSmileFacesIgnored` | authoselfi/auto_selfie.py:43-79 | Faces without a smile, inserted anywhere in a non-empty face list, do not change the outcome. |
| `CaptureSpec.LaterFacesIgnored` | authoselfi/auto_selfie.py:71-79 | Once a smiling face has been seen, faces after it do not change the outcome. (The bound of at most one photo per call is `StepCapture`'s.) |
| `CaptureSpec.CueAndCaptureTogether` | authoselfi/auto_selfie.py:66-77 | When time is up and the cue has not played, one call plays the cue, then takes the photo, and ends with the flag down. |
| `AutoSelfie.CaptureMachine.constructor` | authoselfi/auto_selfie.py:105 | The fields start as the initial state, with the countdown starting at the given time. |
| `AutoSelfie.CaptureMachine.Process` | authoselfi/auto_selfie.py:25-85 | The loop over faces and smiles, with its early return, leaves the fields equal to `CaptureSpec.Step`'s new state. It returns `Step`'s actions, so the `Step*` lemmas hold of every call. |
| `CaptureRuns.RunNamesFollowCounter` | authoselfi/auto_selfie.py:72-76 | Over any run, the photo names are `selfie_{c}.png`, `selfie_{c+1}.png`, ... in order, from the starting counter `c`. The counter ends at `c` plus the number of photos. |
| `CaptureRuns.InitialRunNames` | authoselfi/auto_selfie.py:72-75 | From the starting state (counter 0, lines 18 and 105), the photos of any run are named `selfie_0.png`, `selfie_1.png`, ... in order with no gap, and the counter ends at the number of photos. |
| `CaptureRuns.NameRangeAt` | authoselfi/auto_selfie.py:72 | The k-th name of a run of names starting at counter `c` is `selfie_{c+k}.png`. |
| `CaptureRuns.CounterNeverDecreases` | authoselfi/auto_selfie.py:75 | The counter never decreases over a run. |
| `CaptureRuns.RunNamesDistinct` | authoselfi/auto_selfie.py:72-75 | No two photos of a run share a file name. |
| `CaptureRuns.CuesPerCountdown` | authoselfi/auto_selfie.py:66-84 | Over a run, the number of cues is at most the number of countdown restarts, plus one if the cue was still to come at the start. So the cue plays at most once per countdown. |
| `CaptureRuns.AnnouncedOnlyAfterCue` | authoselfi/auto_selfie.py:66-68 | The flag is up after a run only if it was up before or the run played the cue. |
| `CaptureRuns.NoFaceRun` | authoselfi/auto_selfie.py:38-41 | A run of frames without faces emits nothing and keeps the counter. After at least one frame, the flag is down and the countdown starts at the last frame's time. |
| `CaptureRuns.NoSmileRun` | authoselfi/auto_selfie.py:82-84 | A face that never smiles, before any cue, changes nothing and emits nothing. |
| `CaptureRuns.NoSmileEmitsNothing` | authoselfi/auto_selfie.py:38-84 | From any state, a run in which nobody smiles emits nothing and keeps the counter. |
| `CaptureRuns.SmilingAfterCueIsQuiet` | authoselfi/auto_selfie.py:66-71 | After the cue, smiles before the deadline change nothing and emit nothing. |
| `CaptureRuns.SustainedSmileCuesOnce` | authoselfi/auto_selfie.py:60-71 | While the cue has not played yet, a smile held before the deadline plays the cue exactly once iff some frame has at most 3 s left. It takes no photo and keeps the countdown start. |
| `CaptureRuns.SustainedSmileCueFrame` | authoselfi/auto_selfie.py:63-68 | While the cue has not played yet, under a smile held before the deadline, the cue plays at the first frame with at most 3 s left: the frames before it emit nothing, and that frame emits the cue. |
| `CaptureRuns.RunAppend` | authoselfi/auto_selfie.py:107-118 | Processing frames `a` and then `b` gives the same state and actions as processing `a + b`. The second part starts from the state the first part ends in. |
| `CaptureRuns.SustainedSmileCaptures` | authoselfi/auto_selfie.py:60-79 | A smile held from a fresh countdown up to the first frame at or past the 7 s deadline emits exactly one cue and then the photo `selfie_{c}.png` at that frame. The counter becomes c + 1, and the countdown restarts at that frame's time with the flag down. |
| `CaptureRuns.SustainedSmileScenario` | authoselfi/auto_selfie.py:25-85 | From a fresh countdown started at `t0`, smiling at `t0` + 4.0, 4.5, 6.9 and 7.0 gives the cue, then `selfie_0.png` at `t0` + 7.0. The next countdown starts then. |
| `CaptureRuns.FaceLostScenario` | authoselfi/auto_selfie.py:38-77 | After the face is lost at `t0` + 2.5, smiling gives the cue at `t0` + 6.5 and the photo at `t0` + 9.5. |

## Left out

- Face, eye and smile detection (Haar cascades) and the grayscale conversion. The detector's output is an input: one `Face` per face, holding its number of smiles.
- Eye detection and all rectangle drawing. They only annotate the displayed frame and do not affect the state.
- Writing the image file and playing the sounds. They become the emitted actions `ReadyCue` and `Capture(filename)`. `Capture` stands for both the file write and the shutter sound.
- The console messages (auto_selfie.py lines 78 and 85) are dropped. No action stands for them.
- Loading the sounds and cascades, the webcam, the display window, the quit key and the one-second start delay. The main loop appears only as the sequence of calls in `CaptureRuns.Run`.
- The float wall clock. The time of each call is a `real` parameter, so float rounding is not modelled. Near the 7 s and 3 s thresholds, a float difference of two `time.time()` values can fall on the other side of a comparison from the exact result.
