/** Successive calls of `detect_and_draw`, one per camera frame, as the main
    loop of auto_selfie.py (lines 107-125) makes them, and what holds of
    every such run. */
module CaptureRuns {
  import opened SelfieNames
  import opened CaptureSpec

  /** What one call sees: the detector's faces and the time of the call. */
  datatype Frame = Frame(faces: seq<Face>, now: real)

  /** The state after processing `frames` in order from `s`, and every
      action emitted along the way. */
  function Run(s: CaptureState, frames: seq<Frame>): Outcome
    decreases |frames|
  {
    if frames == [] then Outcome(s, [])
    else
      var first := Step(s, frames[0].faces, frames[0].now);
      var rest := Run(first.state, frames[1..]);
      Outcome(rest.state, first.actions + rest.actions)
  }

  /** How many calls of the run restart the countdown. */
  function Restarted(s: CaptureState, frames: seq<Frame>): nat
    decreases |frames|
  {
    if frames == [] then 0
    else
      (if Restarts(s, frames[0].faces, frames[0].now) then 1 else 0)
      + Restarted(Step(s, frames[0].faces, frames[0].now).state, frames[1..])
  }

  /** 1 while the cue is still to come in the current countdown, else 0. */
  function Pending(s: CaptureState): nat {
    if s.readyAnnounced then 0 else 1
  }

  /** The names `selfie_{c}.png`, `selfie_{c+1}.png`, ... of `n` photos
      taken one after the other from counter value `c`. */
  function NameRange(c: nat, n: nat): (names: seq<string>)
    ensures |names| == n
    decreases n
  {
    if n == 0 then [] else [SelfieName(c)] + NameRange(c + 1, n - 1)
  }

  /** The `k`-th of those names is `selfie_{c+k}.png`. */
  lemma {:induction false} NameRangeAt(c: nat, n: nat, k: nat)
    requires k < n
    ensures NameRange(c, n)[k] == SelfieName(c + k)
    decreases n
  {
    if k > 0 {
      NameRangeAt(c + 1, n - 1, k - 1);
    }
  }

  /** Photos are named `selfie_{c}.png`, `selfie_{c+1}.png`, ... in the
      order they are taken, starting from the counter's value `c`, and
      the counter ends up counting exactly the photos taken. */
  lemma {:induction false} RunNamesFollowCounter(s: CaptureState, frames: seq<Frame>)
    ensures var names := CapturedNames(Run(s, frames).actions);
            && Run(s, frames).state.imgCounter == s.imgCounter + |names|
            && names == NameRange(s.imgCounter, |names|)
    decreases |frames|
  {
    if frames != [] {
      var first := Step(s, frames[0].faces, frames[0].now);
      var rest := Run(first.state, frames[1..]);
      StepCapture(s, frames[0].faces, frames[0].now);
      RunNamesFollowCounter(first.state, frames[1..]);
      CapturedNamesAppend(first.actions, rest.actions);
      var here, later := CapturedNames(first.actions), CapturedNames(rest.actions);
      assert CapturedNames(Run(s, frames).actions) == here + later;
      if here == [] {
        assert here + later == later;
      } else {
        assert here == [SelfieName(s.imgCounter)];
        assert NameRange(s.imgCounter, 1 + |later|) == here + NameRange(s.imgCounter + 1, |later|);
      }
    }
  }

  /** From the state the script starts in, photos are named `selfie_0.png`,
      `selfie_1.png`, ... with no gap, and the counter ends at the number
      of photos taken. */
  lemma InitialRunNames(start: real, frames: seq<Frame>)
    ensures var names := CapturedNames(Run(Initial(start), frames).actions);
            && names == NameRange(0, |names|)
            && Run(Initial(start), frames).state.imgCounter == |names|
  {
    RunNamesFollowCounter(Initial(start), frames);
  }

  /** The counter never decreases over a run. */
  lemma CounterNeverDecreases(s: CaptureState, frames: seq<Frame>)
    ensures Run(s, frames).state.imgCounter >= s.imgCounter
  {
    RunNamesFollowCounter(s, frames);
  }

  /** No file is written twice in a run: photo names are pairwise distinct. */
  lemma RunNamesDistinct(s: CaptureState, frames: seq<Frame>, j: nat, k: nat)
    requires j < k < |CapturedNames(Run(s, frames).actions)|
    ensures CapturedNames(Run(s, frames).actions)[j] != CapturedNames(Run(s, frames).actions)[k]
  {
    RunNamesFollowCounter(s, frames);
    var names := CapturedNames(Run(s, frames).actions);
    NameRangeAt(s.imgCounter, |names|, j);
    NameRangeAt(s.imgCounter, |names|, k);
    if names[j] == names[k] {
      SelfieNameInjective(s.imgCounter + j, s.imgCounter + k);
    }
  }

  /** The cue plays at most once per countdown: the cues of a run are
      bounded by the countdown restarts it contains, plus one if the
      cue was still to come at the start. */
  lemma {:induction false} CuesPerCountdown(s: CaptureState, frames: seq<Frame>)
    ensures CueCount(Run(s, frames).actions) + Pending(Run(s, frames).state)
              <= Pending(s) + Restarted(s, frames)
    decreases |frames|
  {
    if frames != [] {
      var first := Step(s, frames[0].faces, frames[0].now);
      var rest := Run(first.state, frames[1..]);
      StepCue(s, frames[0].faces, frames[0].now);
      StepRestart(s, frames[0].faces, frames[0].now);
      CuesPerCountdown(first.state, frames[1..]);
      CueCountAppend(first.actions, rest.actions);
    }
  }

  /** The flag is up at the end of a run only if it was up at the start or
      the run played the cue. */
  lemma {:induction false} AnnouncedOnlyAfterCue(s: CaptureState, frames: seq<Frame>)
    ensures Run(s, frames).state.readyAnnounced ==> s.readyAnnounced || ReadyCue in Run(s, frames).actions
    decreases |frames|
  {
    if frames != [] {
      var first := Step(s, frames[0].faces, frames[0].now);
      var rest := Run(first.state, frames[1..]);
      StepRestart(s, frames[0].faces, frames[0].now);
      AnnouncedOnlyAfterCue(first.state, frames[1..]);
      CueCountAppend(first.actions, rest.actions);
      assert Run(s, frames).actions == first.actions + rest.actions;
    }
  }

  /** With no face in any frame, nothing is emitted, the counter keeps its
      value, and after at least one frame the flag is down and the
      countdown starts at the last frame's time. */
  lemma {:induction false} NoFaceRun(s: CaptureState, frames: seq<Frame>)
    requires forall k :: 0 <= k < |frames| ==> frames[k].faces == []
    ensures Run(s, frames).actions == []
    ensures Run(s, frames).state.imgCounter == s.imgCounter
    ensures frames != [] ==>
              !Run(s, frames).state.readyAnnounced
              && Run(s, frames).state.lastCaptureTime == frames[|frames| - 1].now
    decreases |frames|
  {
    if frames != [] {
      var first := Step(s, frames[0].faces, frames[0].now);
      var more := frames[1..];
      assert first == Outcome(CaptureState(s.imgCounter, frames[0].now, false), []);
      assert forall k :: 0 <= k < |more| ==> more[k] == frames[k + 1];
      NoFaceRun(first.state, more);
      if more != [] {
        assert more[|more| - 1] == frames[|frames| - 1];
      }
    }
  }

  /** A face that is seen but never smiles changes nothing while the cue
      has not played. */
  lemma {:induction false} NoSmileRun(s: CaptureState, frames: seq<Frame>)
    requires !s.readyAnnounced
    requires forall k :: 0 <= k < |frames| ==> frames[k].faces != [] && !Smiling(frames[k].faces)
    ensures Run(s, frames) == Outcome(s, [])
    decreases |frames|
  {
    if frames != [] {
      NoSmileRun(s, frames[1..]);
    }
  }

  /** Whatever the state, frames in which nobody smiles emit nothing and
      keep the counter; they may only restart the countdown. */
  lemma {:induction false} NoSmileEmitsNothing(s: CaptureState, frames: seq<Frame>)
    requires forall k :: 0 <= k < |frames| ==> !Smiling(frames[k].faces)
    ensures Run(s, frames).actions == []
    ensures Run(s, frames).state.imgCounter == s.imgCounter
    decreases |frames|
  {
    if frames != [] {
      var first := Step(s, frames[0].faces, frames[0].now);
      assert first.actions == [] && first.state.imgCounter == s.imgCounter;
      assert forall k :: 0 <= k < |frames[1..]| ==> frames[1..][k] == frames[k + 1];
      NoSmileEmitsNothing(first.state, frames[1..]);
    }
  }

  /** Every frame of the run shows a smile, and all come before the
      interval is up. */
  predicate SmilingBeforeDeadline(s: CaptureState, frames: seq<Frame>) {
    forall k :: 0 <= k < |frames| ==>
      Smiling(frames[k].faces) && frames[k].now - s.lastCaptureTime < CaptureInterval
  }

  lemma {:induction false} SmilingAfterCueIsQuiet(s: CaptureState, frames: seq<Frame>)
    requires s.readyAnnounced && SmilingBeforeDeadline(s, frames)
    ensures Run(s, frames) == Outcome(s, [])
    decreases |frames|
  {
    if frames != [] {
      SmilingAfterCueIsQuiet(s, frames[1..]);
    }
  }

  /** A sustained smile before the deadline plays the cue exactly once iff
      some frame has at most 3 seconds remaining (`SustainedSmileCueFrame`
      says which frame), and takes no photo; the countdown keeps its start. */
  lemma {:induction false} SustainedSmileCuesOnce(s: CaptureState, frames: seq<Frame>)
    requires !s.readyAnnounced && SmilingBeforeDeadline(s, frames)
    ensures var due := exists k :: 0 <= k < |frames| && frames[k].now - s.lastCaptureTime >= CaptureInterval - ReadyThreshold;
            Run(s, frames) == Outcome(s.(readyAnnounced := due), if due then [ReadyCue] else [])
    decreases |frames|
  {
    if frames != [] {
      var first := Step(s, frames[0].faces, frames[0].now);
      if frames[0].now - s.lastCaptureTime >= CaptureInterval - ReadyThreshold {
        SmilingAfterCueIsQuiet(first.state, frames[1..]);
      } else {
        SustainedSmileCuesOnce(s, frames[1..]);
        var due := exists k :: 0 <= k < |frames| && frames[k].now - s.lastCaptureTime >= CaptureInterval - ReadyThreshold;
        if due {
          var k :| 0 <= k < |frames| && frames[k].now - s.lastCaptureTime >= CaptureInterval - ReadyThreshold;
          assert frames[1..][k - 1] == frames[k];
        }
      }
    }
  }

  /** Under a smile held before the deadline, the cue plays at the first
      frame with at most 3 seconds remaining: the frames before it emit
      nothing, and that frame emits the cue. */
  lemma SustainedSmileCueFrame(s: CaptureState, frames: seq<Frame>, k: nat)
    requires !s.readyAnnounced && SmilingBeforeDeadline(s, frames)
    requires k < |frames| && frames[k].now - s.lastCaptureTime >= CaptureInterval - ReadyThreshold
    requires forall j :: 0 <= j < k ==> frames[j].now - s.lastCaptureTime < CaptureInterval - ReadyThreshold
    ensures Run(s, frames[..k]).actions == []
    ensures Run(s, frames[..k + 1]).actions == [ReadyCue]
  {
    var before, upto := frames[..k], frames[..k + 1];
    assert forall j :: 0 <= j < |before| ==> before[j] == frames[j];
    assert forall j :: 0 <= j < |upto| ==> upto[j] == frames[j];
    SustainedSmileCuesOnce(s, before);
    SustainedSmileCuesOnce(s, upto);
    assert upto[k].now - s.lastCaptureTime >= CaptureInterval - ReadyThreshold;
  }

  /** Processing `a` then `b` is processing `a + b`: the second run starts
      from the state the first one ends in, and the actions follow on. */
  lemma {:induction false} RunAppend(s: CaptureState, a: seq<Frame>, b: seq<Frame>)
    ensures var ra := Run(s, a);
            var rb := Run(ra.state, b);
            Run(s, a + b) == Outcome(rb.state, ra.actions + rb.actions)
    decreases |a|
  {
    if a == [] {
      assert a + b == b;
    } else {
      var first := Step(s, a[0].faces, a[0].now);
      assert (a + b)[0] == a[0] && (a + b)[1..] == a[1..] + b;
      RunAppend(first.state, a[1..], b);
      var ra1 := Run(first.state, a[1..]);
      var rb := Run(ra1.state, b);
      assert first.actions + (ra1.actions + rb.actions) == (first.actions + ra1.actions) + rb.actions;
    }
  }

  /** A smile held from a fresh countdown until the first frame at or past
      the deadline: the cue has played exactly once by then, that frame
      takes the photo named after the counter, and the countdown restarts
      at that frame's time with the flag down. */
  lemma SustainedSmileCaptures(s: CaptureState, frames: seq<Frame>, f: Frame)
    requires !s.readyAnnounced && SmilingBeforeDeadline(s, frames)
    requires Smiling(f.faces) && f.now - s.lastCaptureTime >= CaptureInterval
    ensures Run(s, frames + [f])
            == Outcome(CaptureState(s.imgCounter + 1, f.now, false), [ReadyCue, Capture(SelfieName(s.imgCounter))])
  {
    RunAppend(s, frames, [f]);
    SustainedSmileCuesOnce(s, frames);
    var mid := Run(s, frames).state;
    var last := Step(mid, f.faces, f.now);
    assert Run(mid, [f]) == Outcome(last.state, last.actions + []) by {
      assert Run(last.state, []) == Outcome(last.state, []);
    }
    assert last.actions + [] == last.actions;
    if mid.readyAnnounced {
      assert last.actions == [Capture(SelfieName(s.imgCounter))];
    } else {
      assert last.actions == [ReadyCue, Capture(SelfieName(s.imgCounter))];
    }
  }

  /** A face that smiles throughout, from a countdown started at `t0`:
      the cue 4 s in, nothing at 4.5 s and 6.9 s, the photo `selfie_0.png`
      at 7 s, and the next countdown starts then. */
  lemma SustainedSmileScenario(t0: real)
    ensures Run(Initial(t0), [Frame([Face(1)], t0 + 4.0), Frame([Face(1)], t0 + 4.5), Frame([Face(1)], t0 + 6.9), Frame([Face(1)], t0 + 7.0)])
            == Outcome(CaptureState(1, t0 + 7.0, false), [ReadyCue, Capture("selfie_0.png")])
  {
    var smile := [Face(1)];
    assert Smiling(smile) by { assert smile[0].smiles > 0; }
    assert SelfieName(0) == "selfie_0.png" by { assert Decimal(0) == "0"; }
    var cued, done := CaptureState(0, t0, true), CaptureState(1, t0 + 7.0, false);
    var f1, f2, f3, f4 := Frame(smile, t0 + 4.0), Frame(smile, t0 + 4.5), Frame(smile, t0 + 6.9), Frame(smile, t0 + 7.0);
    assert Run(cued, [f4]) == Outcome(done, [Capture("selfie_0.png")]) by {
      assert Step(cued, smile, t0 + 7.0) == Outcome(done, [Capture("selfie_0.png")]);
      assert Run(done, []) == Outcome(done, []);
    }
    assert Run(cued, [f3, f4]) == Outcome(done, [Capture("selfie_0.png")]) by {
      assert Step(cued, smile, t0 + 6.9) == Outcome(cued, []);
      assert [f3, f4][1..] == [f4];
    }
    assert Run(cued, [f2, f3, f4]) == Outcome(done, [Capture("selfie_0.png")]) by {
      assert Step(cued, smile, t0 + 4.5) == Outcome(cued, []);
      assert [f2, f3, f4][1..] == [f3, f4];
    }
    assert Step(Initial(t0), smile, t0 + 4.0) == Outcome(cued, [ReadyCue]);
    assert [f1, f2, f3, f4][1..] == [f2, f3, f4];
  }

  /** The face is lost 2.5 s after the start (the last frame without a
      face), then smiles throughout: the countdown restarts there, so the
      cue plays at 6.5 s and the photo is taken at 9.5 s. */
  lemma FaceLostScenario(t0: real)
    ensures Run(Initial(t0), [Frame([], t0 + 2.5), Frame([Face(0), Face(2)], t0 + 6.4), Frame([Face(1)], t0 + 6.5), Frame([Face(1)], t0 + 9.4), Frame([Face(1)], t0 + 9.5)])
            == Outcome(CaptureState(1, t0 + 9.5, false), [ReadyCue, Capture("selfie_0.png")])
  {
    var smile, late := [Face(1)], [Face(0), Face(2)];
    assert Smiling(smile) by { assert smile[0].smiles > 0; }
    assert Smiling(late) by { assert late[1].smiles > 0; }
    assert SelfieName(0) == "selfie_0.png" by { assert Decimal(0) == "0"; }
    var restarted, cued, done := CaptureState(0, t0 + 2.5, false), CaptureState(0, t0 + 2.5, true), CaptureState(1, t0 + 9.5, false);
    var f1, f2, f3, f4, f5 := Frame([], t0 + 2.5), Frame(late, t0 + 6.4), Frame(smile, t0 + 6.5), Frame(smile, t0 + 9.4), Frame(smile, t0 + 9.5);
    assert Run(cued, [f5]) == Outcome(done, [Capture("selfie_0.png")]) by {
      assert Step(cued, smile, t0 + 9.5) == Outcome(done, [Capture("selfie_0.png")]);
      assert Run(done, []) == Outcome(done, []);
    }
    assert Run(cued, [f4, f5]) == Outcome(done, [Capture("selfie_0.png")]) by {
      assert Step(cued, smile, t0 + 9.4) == Outcome(cued, []);
      assert [f4, f5][1..] == [f5];
    }
    assert Run(restarted, [f3, f4, f5]) == Outcome(done, [ReadyCue, Capture("selfie_0.png")]) by {
      assert Step(restarted, smile, t0 + 6.5) == Outcome(cued, [ReadyCue]);
      assert [f3, f4, f5][1..] == [f4, f5];
    }
    assert Step(restarted, late, t0 + 6.4) == Outcome(restarted, []);
    assert Run(restarted, [f2, f3, f4, f5]) == Outcome(done, [ReadyCue, Capture("selfie_0.png")]) by {
      assert [f2, f3, f4, f5][1..] == [f3, f4, f5];
      assert [] + [ReadyCue, Capture("selfie_0.png")] == [ReadyCue, Capture("selfie_0.png")];
    }
    assert Step(Initial(t0), [], t0 + 2.5) == Outcome(restarted, []);
    assert [f1, f2, f3, f4, f5][1..] == [f2, f3, f4, f5];
  }
}
