/** The capture state machine as the script runs it: the three globals of
    auto_selfie.py (lines 17-22) become the fields of one object, and
    `detect_and_draw` (lines 25-85) becomes `Process`, which walks the faces
    and the smiles inside each face and returns at the first capture. */
module AutoSelfie {
  import opened SelfieNames
  import opened CaptureSpec

  /** Adding one face to a prefix adds a smile exactly when that face smiles. */
  lemma SmilingExtend(faces: seq<Face>, i: nat)
    requires i < |faces|
    ensures Smiling(faces[..i + 1]) <==> Smiling(faces[..i]) || faces[i].smiles > 0
  {
  }

  class CaptureMachine {
    var imgCounter: nat          // img_counter: photos saved so far
    var lastCaptureTime: real    // last_capture_time: start of the current countdown
    var readyAnnounced: bool     // ready_announced: the cue has played in this countdown

    /** The fields as a value. */
    function Current(): CaptureState
      reads this
    {
      CaptureState(imgCounter, lastCaptureTime, readyAnnounced)
    }

    /** The state once the webcam is up: counter 0, no cue, and the
        countdown starting at `start` (lines 18-22 and 105). */
    constructor (start: real)
      ensures Current() == Initial(start)
    {
      imgCounter := 0;
      lastCaptureTime := start;
      readyAnnounced := false;
    }

    /** One call of `detect_and_draw` at time `now` on a frame whose
        detected faces are `faces`. */
    method Process(faces: seq<Face>, now: real) returns (actions: seq<Action>)
      modifies this
      ensures Current() == Step(old(Current()), faces, now).state
      ensures actions == Step(old(Current()), faces, now).actions
    {
      ghost var before := Current();
      ghost var start, announced := lastCaptureTime, readyAnnounced;
      ghost var remaining := CaptureInterval - (now - start);
      actions := [];
      var timeSinceLastCapture := now - lastCaptureTime;

      if |faces| == 0 {
        // no face: restart the countdown
        lastCaptureTime := now;
        readyAnnounced := false;
      }

      var i := 0;
      while i < |faces|
        invariant 0 <= i <= |faces|
        invariant imgCounter == old(imgCounter)
        invariant lastCaptureTime == if |faces| == 0 then now else start
        invariant timeSinceLastCapture == now - start
        invariant Smiling(faces[..i]) ==> remaining > 0.0
        invariant readyAnnounced == ((|faces| > 0 && announced) || (Smiling(faces[..i]) && remaining <= ReadyThreshold))
        invariant actions == if !announced && Smiling(faces[..i]) && remaining <= ReadyThreshold then [ReadyCue] else []
      {
        var j := 0;
        while j < faces[i].smiles
          invariant 0 <= j <= faces[i].smiles
          invariant imgCounter == old(imgCounter) && lastCaptureTime == start
          invariant timeSinceLastCapture == now - start
          invariant (Smiling(faces[..i]) || j > 0) ==> remaining > 0.0
          invariant readyAnnounced == (announced || ((Smiling(faces[..i]) || j > 0) && remaining <= ReadyThreshold))
          invariant actions == if !announced && (Smiling(faces[..i]) || j > 0) && remaining <= ReadyThreshold then [ReadyCue] else []
        {
          timeSinceLastCapture := now - lastCaptureTime;
          var timeRemaining := CaptureInterval - timeSinceLastCapture;

          if timeRemaining <= ReadyThreshold && !readyAnnounced {
            actions := actions + [ReadyCue];
            readyAnnounced := true;
          }

          if timeRemaining <= 0.0 {
            assert faces[i].smiles > 0;
            assert Shoots(before, faces, now);
            var imgName := SelfieName(imgCounter);
            actions := actions + [Capture(imgName)];
            imgCounter := imgCounter + 1;
            lastCaptureTime := now;
            readyAnnounced := false;
            return;
          }
          j := j + 1;
        }
        SmilingExtend(faces, i);
        i := i + 1;
      }
      assert faces[..i] == faces;
      assert Smiling(faces) ==> !Restarts(before, faces, now);

      // the cue played but nobody smiled through a whole interval
      if readyAnnounced && timeSinceLastCapture > CaptureInterval {
        lastCaptureTime := now;
        readyAnnounced := false;
      }
    }
  }
}
