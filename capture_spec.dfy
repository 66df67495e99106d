/** The countdown / announce / capture decision of one call of
    `detect_and_draw`, stated as a function of the state before the call,
    the detector's output for the frame and the time of the call.

    Times are seconds as `real`; the code only subtracts and compares them.
    Detection is abstracted to one `Face` per detected face, carrying the
    number of smiles found inside it. Playing the "ready" sound becomes the
    action `ReadyCue`; writing the photo and playing the shutter sound
    become the action `Capture(filename)`. */
module CaptureSpec {
  import opened SelfieNames

  /** Seconds from the start of a countdown to the capture (`capture_interval`). */
  const CaptureInterval: real := 7.0
  /** The "ready" cue plays once at most this many seconds remain. */
  const ReadyThreshold: real := 3.0

  /** One detected face; only its number of detected smiles matters. */
  datatype Face = Face(smiles: nat)

  /** What a call does to the outside world, in order. */
  datatype Action =
    | ReadyCue                   // ready_sound.play()
    | Capture(filename: string)  // imwrite(filename, original_frame); capture_sound.play()

  /** The three module-level globals `img_counter`, `last_capture_time`
      and `ready_announced`. */
  datatype CaptureState = CaptureState(imgCounter: nat, lastCaptureTime: real, readyAnnounced: bool)

  /** The state after a call and the actions it emitted. */
  datatype Outcome = Outcome(state: CaptureState, actions: seq<Action>)

  /** The state when the main loop starts: counter 0, no cue, countdown
      starting at `start` (auto_selfie.py lines 18-22 and 105). */
  function Initial(start: real): CaptureState {
    CaptureState(0, start, false)
  }

  /** Some detected face holds at least one smile. */
  predicate Smiling(faces: seq<Face>) {
    exists i :: 0 <= i < |faces| && faces[i].smiles > 0
  }

  /** The call takes a photo: a smile is seen once the interval has elapsed. */
  predicate Shoots(s: CaptureState, faces: seq<Face>, now: real) {
    Smiling(faces) && now - s.lastCaptureTime >= CaptureInterval
  }

  /** The call restarts the countdown: no face is seen, a photo is taken, or
      the cue has played, nobody smiles, and more than a full interval has
      gone by since the countdown started. */
  predicate Restarts(s: CaptureState, faces: seq<Face>, now: real) {
    || |faces| == 0
    || Shoots(s, faces, now)
    || (!Smiling(faces) && s.readyAnnounced && now - s.lastCaptureTime > CaptureInterval)
  }

  /** The file names of the photos taken by a sequence of actions, in order. */
  function CapturedNames(actions: seq<Action>): (names: seq<string>)
    ensures |names| <= |actions|
  {
    if actions == [] then []
    else (if actions[0].Capture? then [actions[0].filename] else []) + CapturedNames(actions[1..])
  }

  /** How many "ready" cues a sequence of actions plays. */
  function CueCount(actions: seq<Action>): (n: nat)
    ensures n <= |actions|
    ensures n == 0 <==> ReadyCue !in actions
  {
    if actions == [] then 0
    else (if actions[0] == ReadyCue then 1 else 0) + CueCount(actions[1..])
  }

  lemma {:induction false} CapturedNamesAppend(a: seq<Action>, b: seq<Action>)
    ensures CapturedNames(a + b) == CapturedNames(a) + CapturedNames(b)
  {
    if a == [] {
      assert a + b == b;
    } else {
      var ab := a + b;
      assert ab[0] == a[0] && ab[1..] == a[1..] + b;
      CapturedNamesAppend(a[1..], b);
      var head := if a[0].Capture? then [a[0].filename] else [];
      assert CapturedNames(ab) == head + (CapturedNames(a[1..]) + CapturedNames(b));
      assert CapturedNames(a) == head + CapturedNames(a[1..]);
    }
  }

  lemma {:induction false} CueCountAppend(a: seq<Action>, b: seq<Action>)
    ensures CueCount(a + b) == CueCount(a) + CueCount(b)
  {
    if a == [] {
      assert a + b == b;
    } else {
      assert (a + b)[1..] == a[1..] + b;
      CueCountAppend(a[1..], b);
    }
  }

  /** One call of `detect_and_draw` (auto_selfie.py lines 25-85), in closed
      form. Since the time does not change during a call, the first smile
      seen decides everything: it plays the cue if at most 3 seconds remain
      and the cue has not played yet, and takes the photo if no time
      remains, which ends the call. Later smiles can neither cue again nor
      capture. Without any smile, the countdown is restarted only by the
      "no smile after the cue" rule. The lemmas below state what this
      means for the caller. */
  function Step(s: CaptureState, faces: seq<Face>, now: real): Outcome {
    var remaining := CaptureInterval - (now - s.lastCaptureTime);
    if |faces| == 0 then
      Outcome(s.(lastCaptureTime := now, readyAnnounced := false), [])
    else if !Smiling(faces) then
      if s.readyAnnounced && now - s.lastCaptureTime > CaptureInterval then
        Outcome(s.(lastCaptureTime := now, readyAnnounced := false), [])
      else
        Outcome(s, [])
    else
      var cue := if remaining <= ReadyThreshold && !s.readyAnnounced then [ReadyCue] else [];
      if remaining <= 0.0 then
        Outcome(CaptureState(s.imgCounter + 1, now, false), cue + [Capture(SelfieName(s.imgCounter))])
      else
        Outcome(s.(readyAnnounced := s.readyAnnounced || remaining <= ReadyThreshold), cue)
  }

  /** A photo is taken exactly when a smile is seen with no time remaining;
      it is named after the counter, and the counter counts it. */
  lemma StepCapture(s: CaptureState, faces: seq<Face>, now: real)
    ensures var r := Step(s, faces, now);
            && CapturedNames(r.actions) == (if Shoots(s, faces, now) then [SelfieName(s.imgCounter)] else [])
            && r.state.imgCounter == s.imgCounter + |CapturedNames(r.actions)|
  {
  }

  /** The cue plays exactly when it has not played yet and a smile is seen
      with at most 3 seconds remaining. It plays once, before the shutter,
      and nothing but the cue and the photo is ever emitted. */
  lemma StepCue(s: CaptureState, faces: seq<Face>, now: real)
    ensures var r := Step(s, faces, now);
            && (ReadyCue in r.actions <==>
                  !s.readyAnnounced && Smiling(faces) && CaptureInterval - (now - s.lastCaptureTime) <= ReadyThreshold)
            && CueCount(r.actions) <= 1
            && (ReadyCue in r.actions ==> r.actions[0] == ReadyCue)
            && |r.actions| == CueCount(r.actions) + |CapturedNames(r.actions)|
  {
  }

  /** A restart moves the countdown start to now and clears the flag;
      otherwise the start stays and the flag is only ever raised by the cue. */
  lemma StepRestart(s: CaptureState, faces: seq<Face>, now: real)
    ensures var r := Step(s, faces, now);
            && r.state.lastCaptureTime == (if Restarts(s, faces, now) then now else s.lastCaptureTime)
            && r.state.readyAnnounced == (!Restarts(s, faces, now) && (s.readyAnnounced || ReadyCue in r.actions))
  {
  }

  /** Faces without a smile change nothing, wherever they stand in the
      list, as long as the list stays non-empty. */
  lemma ZeroSmileFacesIgnored(s: CaptureState, before: seq<Face>, idle: seq<Face>, after: seq<Face>, now: real)
    requires before + after != []
    requires forall i :: 0 <= i < |idle| ==> idle[i].smiles == 0
    ensures Step(s, before + idle + after, now) == Step(s, before + after, now)
  {
    var all, kept := before + idle + after, before + after;
    if Smiling(all) {
      var i :| 0 <= i < |all| && all[i].smiles > 0;
      var j := if i < |before| then i else i - |idle|;
      assert kept[j] == all[i];
    }
    if Smiling(kept) {
      var j :| 0 <= j < |kept| && kept[j].smiles > 0;
      var i := if j < |before| then j else j + |idle|;
      assert all[i] == kept[j];
    }
  }

  /** Once a face with a smile has been seen, the faces after it are not
      looked at: at most one photo per call, decided by the first smile. */
  lemma LaterFacesIgnored(s: CaptureState, faces: seq<Face>, later: seq<Face>, now: real)
    requires Smiling(faces)
    ensures Step(s, faces + later, now) == Step(s, faces, now)
  {
    var i :| 0 <= i < |faces| && faces[i].smiles > 0;
    assert (faces + later)[i] == faces[i];
  }

  /** With no face in view the countdown restarts silently and the counter
      keeps its value (auto_selfie.py lines 38-41). */
  lemma NoFaceResets(s: CaptureState, now: real)
    ensures Step(s, [], now) == Outcome(CaptureState(s.imgCounter, now, false), [])
  {
  }

  /** When the time is up and the cue has not played, one call plays the
      cue, then takes the photo, and leaves the flag down. */
  lemma CueAndCaptureTogether(s: CaptureState, faces: seq<Face>, now: real)
    requires !s.readyAnnounced && Shoots(s, faces, now)
    ensures Step(s, faces, now).actions == [ReadyCue, Capture(SelfieName(s.imgCounter))]
    ensures !Step(s, faces, now).state.readyAnnounced
  {
  }
}
