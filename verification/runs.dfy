/**
 The detector over a stream of frames. ARKit calls `session(_:didUpdate:)` once
 per frame, one call finishing before the next begins; `Run` folds
 `SessionDidUpdate` over the frames in order and collects what each frame
 reported. The lemmas here are the debounce guarantees that only show across
 several frames.
 */
module BlinkRuns {
  import opened Wrappers
  import opened EyeBlinkDetector

  /** One delivered frame: its face anchor, if any, and when it was handled. */
  datatype Frame = Frame(face: Option<FaceAnchor>, now: real)

  /** What a run of frames did: the blink each frame reported, in order, and the
      state the detector ends in. */
  datatype Trace = Trace(blinks: seq<Option<EyeBlink>>, final: State)

  /** Frames arrive in non-decreasing time order, none earlier than the last
      blink already recorded. The source reads the wall clock, which promises
      no such thing; the run lemmas assume this only when the cooldown is
      negative, and hold for any clock order otherwise. */
  ghost predicate Chronological(s: State, frames: seq<Frame>) {
    && (forall i, j :: 0 <= i < j < |frames| ==> frames[i].now <= frames[j].now)
    && (s.lastBlinkTime.Some? ==>
          forall i :: 0 <= i < |frames| ==> s.lastBlinkTime.value <= frames[i].now)
  }

  /** Feeds `frames` to a detector in state `s`, one callback per frame. */
  function Run(cfg: Config, s: State, frames: seq<Frame>): (t: Trace)
    ensures |t.blinks| == |frames|
    ensures forall k :: 0 <= k < |frames| && t.blinks[k].Some? ==> frames[k].face.Some?
    ensures t.final != s ==> exists k :: 0 <= k < |frames| && t.blinks[k].Some?
    decreases |frames|
  {
    if |frames| == 0 then Trace([], s)
    else
      var step := SessionDidUpdate(cfg, s, frames[0].face, frames[0].now);
      var rest := Run(cfg, step.next, frames[1..]);
      var t := Trace([step.blink] + rest.blinks, rest.final);
      assert forall k :: 1 <= k < |frames| ==> t.blinks[k] == rest.blinks[k - 1] && frames[k] == frames[1..][k - 1];
      assert forall j :: 0 <= j < |rest.blinks| ==> rest.blinks[j] == t.blinks[j + 1];
      assert t.blinks[0] == step.blink;
      assert step.blink.None? ==> step.next == s;
      t
  }

  /** The first frame reports what one callback reports; every later frame
      reports what it would report in a run started from the first frame's
      resulting state. */
  lemma RunUnfold(cfg: Config, s: State, frames: seq<Frame>, k: nat)
    requires k < |frames|
    ensures var step := SessionDidUpdate(cfg, s, frames[0].face, frames[0].now);
      && Run(cfg, s, frames).final == Run(cfg, step.next, frames[1..]).final
      && (k == 0 ==> Run(cfg, s, frames).blinks[k] == step.blink)
      && (k > 0 ==> Run(cfg, s, frames).blinks[k] == Run(cfg, step.next, frames[1..]).blinks[k - 1])
  {
  }

  /** After the first frame the run is still chronological from the new state. */
  lemma ChronologicalTail(cfg: Config, s: State, frames: seq<Frame>)
    requires |frames| > 0
    requires Chronological(s, frames)
    ensures Chronological(SessionDidUpdate(cfg, s, frames[0].face, frames[0].now).next, frames[1..])
  {
  }

  /** Starting from a recorded blink at time `t0`, every blink a run reports
      comes at least `blinkCoolDown` after `t0`, whatever order the clock
      readings come in, as long as the cooldown is not negative. */
  lemma {:induction false} BlinksWaitOutCoolDown(cfg: Config, s: State, frames: seq<Frame>)
    requires cfg.blinkCoolDown >= 0.0 || Chronological(s, frames)
    requires s.lastBlinkTime.Some?
    ensures forall k :: 0 <= k < |frames| && Run(cfg, s, frames).blinks[k].Some? ==>
      frames[k].now - s.lastBlinkTime.value >= cfg.blinkCoolDown
    decreases |frames|
  {
    if |frames| > 0 {
      var step := SessionDidUpdate(cfg, s, frames[0].face, frames[0].now);
      if Chronological(s, frames) {
        ChronologicalTail(cfg, s, frames);
      }
      BlinksWaitOutCoolDown(cfg, step.next, frames[1..]);
      forall k | 0 <= k < |frames| && Run(cfg, s, frames).blinks[k].Some?
        ensures frames[k].now - s.lastBlinkTime.value >= cfg.blinkCoolDown
      {
        RunUnfold(cfg, s, frames, k);
        if k > 0 {
          assert frames[1..][k - 1] == frames[k];
          if step.blink.Some? {
            assert s.lastBlinkTime.value <= frames[0].now;
          }
        }
      }
    }
  }

  /** Debounce across a run: any two blinks a run reports are at least
      `blinkCoolDown` apart, again for any clock order when the cooldown is not
      negative. */
  lemma {:induction false} BlinksAreSpaced(cfg: Config, s: State, frames: seq<Frame>)
    requires cfg.blinkCoolDown >= 0.0 || Chronological(s, frames)
    ensures forall i, j ::
      0 <= i < j < |frames| && Run(cfg, s, frames).blinks[i].Some? && Run(cfg, s, frames).blinks[j].Some? ==>
        frames[j].now - frames[i].now >= cfg.blinkCoolDown
    decreases |frames|
  {
    if |frames| > 0 {
      var step := SessionDidUpdate(cfg, s, frames[0].face, frames[0].now);
      if Chronological(s, frames) {
        ChronologicalTail(cfg, s, frames);
      }
      BlinksAreSpaced(cfg, step.next, frames[1..]);
      if step.blink.Some? {
        BlinksWaitOutCoolDown(cfg, step.next, frames[1..]);
      }
      forall i, j | 0 <= i < j < |frames| && Run(cfg, s, frames).blinks[i].Some? && Run(cfg, s, frames).blinks[j].Some?
        ensures frames[j].now - frames[i].now >= cfg.blinkCoolDown
      {
        RunUnfold(cfg, s, frames, i);
        RunUnfold(cfg, s, frames, j);
        assert frames[1..][j - 1] == frames[j];
        if i > 0 {
          assert frames[1..][i - 1] == frames[i];
        }
      }
    }
  }

  /** No blink is reported from index `k` on. */
  predicate QuietFrom(blinks: seq<Option<EyeBlink>>, k: nat) {
    forall m :: k <= m < |blinks| ==> blinks[m].None?
  }

  /** The final state remembers the last reported blink: if frame `k` reports
      a blink and no later frame does, the run ends holding frame `k`'s time. */
  lemma {:induction false} RunRecordsLastBlink(cfg: Config, s: State, frames: seq<Frame>, k: nat)
    requires k < |frames|
    requires Run(cfg, s, frames).blinks[k].Some?
    requires QuietFrom(Run(cfg, s, frames).blinks, k + 1)
    ensures Run(cfg, s, frames).final == State(Some(frames[k].now))
    decreases |frames|
  {
    var step := SessionDidUpdate(cfg, s, frames[0].face, frames[0].now);
    var rest := Run(cfg, step.next, frames[1..]);
    var blinks := Run(cfg, s, frames).blinks;
    assert blinks == [step.blink] + rest.blinks;
    if k == 0 {
      assert QuietFrom(rest.blinks, 0) by {
        forall m | 0 <= m < |rest.blinks| ensures rest.blinks[m].None? {
          assert rest.blinks[m] == blinks[m + 1];
        }
      }
    } else {
      assert rest.blinks[k - 1] == blinks[k];
      assert QuietFrom(rest.blinks, k) by {
        forall m | k <= m < |rest.blinks| ensures rest.blinks[m].None? {
          assert rest.blinks[m] == blinks[m + 1];
        }
      }
      assert frames[1..][k - 1] == frames[k];
      RunRecordsLastBlink(cfg, step.next, frames[1..], k - 1);
    }
  }

  /** The recorded blink time never moves backwards: once set it stays set, and
      the final time is no earlier than the first. A blink is only recorded
      once the gate is open, that is at least `blinkCoolDown` after the
      previous one, so this holds for any clock order when the cooldown is
      not negative. */
  lemma {:induction false} LastBlinkTimeNonDecreasing(cfg: Config, s: State, frames: seq<Frame>)
    requires cfg.blinkCoolDown >= 0.0 || Chronological(s, frames)
    ensures s.lastBlinkTime.Some? ==>
      && Run(cfg, s, frames).final.lastBlinkTime.Some?
      && s.lastBlinkTime.value <= Run(cfg, s, frames).final.lastBlinkTime.value
    decreases |frames|
  {
    if |frames| > 0 {
      var step := SessionDidUpdate(cfg, s, frames[0].face, frames[0].now);
      if Chronological(s, frames) {
        ChronologicalTail(cfg, s, frames);
      }
      LastBlinkTimeNonDecreasing(cfg, step.next, frames[1..]);
      RunUnfold(cfg, s, frames, 0);
    }
  }
}
