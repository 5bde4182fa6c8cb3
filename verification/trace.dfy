/** The component's frame loop as repeated application of `ProcessFrame`
    over a sequence of timestamped detections, with the safety properties
    that hold over every such run. */
module Traces {
  import opened Landmarks
  import opened JumpDetector

  /** One processed video frame: the pose model's output and the time, in
      seconds, at which the detector looked at it. */
  datatype Frame = Frame(detection: Detection, now: real)

  /** The detector state after processing `frames` in order from `s`. */
  function Final(cfg: Config, s: State, frames: seq<Frame>): (r: State)
    // the state moves only on a frame with usable landmarks
    ensures r != s ==> exists f :: f in frames && Features(f.detection).Some?
    // the time reference is the starting one or the time of some processed frame
    ensures r.lastJumpTime == s.lastJumpTime || exists f :: f in frames && f.now == r.lastJumpTime
    decreases |frames|
  {
    if |frames| == 0 then s
    else Final(cfg, ProcessFrame(cfg, s, frames[0].detection, frames[0].now).state, frames[1..])
  }

  /** The times of the jumps emitted while processing `frames` from `s`, in order. */
  function JumpTimes(cfg: Config, s: State, frames: seq<Frame>): (ts: seq<real>)
    ensures |ts| <= |frames|
    decreases |frames|
  {
    if |frames| == 0 then []
    else
      var st := ProcessFrame(cfg, s, frames[0].detection, frames[0].now);
      (if st.jumped then [frames[0].now] else []) + JumpTimes(cfg, st.state, frames[1..])
  }

  /** The first of `ts` comes more than `gap` after `start`, and each later
      one more than `gap` after the one before it. */
  predicate Spaced(start: real, gap: real, ts: seq<real>) {
    && (|ts| > 0 ==> ts[0] - start > gap)
    && forall k :: 0 < k < |ts| ==> ts[k] - ts[k - 1] > gap
  }

  /** Every emitted jump comes more than the cooldown after the previous one,
      and the first more than the cooldown after the starting state's last
      jump time. Timestamps need not be ordered for this to hold. */
  lemma {:induction false} JumpsSpaced(cfg: Config, s: State, frames: seq<Frame>)
    ensures Spaced(s.lastJumpTime, cfg.cooldown, JumpTimes(cfg, s, frames))
    decreases |frames|
  {
    if |frames| > 0 {
      var st := ProcessFrame(cfg, s, frames[0].detection, frames[0].now);
      var rest := JumpTimes(cfg, st.state, frames[1..]);
      JumpsSpaced(cfg, st.state, frames[1..]);
      if st.jumped {
        var ts := [frames[0].now] + rest;
        assert ts == JumpTimes(cfg, s, frames);
        forall k | 0 < k < |ts|
          ensures ts[k] - ts[k - 1] > cfg.cooldown
        {
          assert ts[k] == rest[k - 1];
          if k == 1 {
            assert st.state.lastJumpTime == frames[0].now == ts[0];
          } else {
            assert ts[k - 1] == rest[k - 2];
          }
        }
      } else {
        assert JumpTimes(cfg, s, frames) == rest;
      }
    }
  }

  /** The time reference only ever moves to the time of an emitted jump: after
      a run it is the last jump's time, or the starting value when none fired. */
  lemma {:induction false} FinalRecordsLastJump(cfg: Config, s: State, frames: seq<Frame>)
    ensures var ts := JumpTimes(cfg, s, frames);
            Final(cfg, s, frames).lastJumpTime == if |ts| == 0 then s.lastJumpTime else ts[|ts| - 1]
    decreases |frames|
  {
    if |frames| > 0 {
      var st := ProcessFrame(cfg, s, frames[0].detection, frames[0].now);
      FinalRecordsLastJump(cfg, st.state, frames[1..]);
    }
  }

  /** Every jump time is the timestamp of one of the processed frames. */
  lemma {:induction false} JumpTimesAreFrameTimes(cfg: Config, s: State, frames: seq<Frame>)
    ensures forall t :: t in JumpTimes(cfg, s, frames) ==> exists f :: f in frames && f.now == t
    decreases |frames|
  {
    if |frames| > 0 {
      var st := ProcessFrame(cfg, s, frames[0].detection, frames[0].now);
      JumpTimesAreFrameTimes(cfg, st.state, frames[1..]);
      forall t | t in JumpTimes(cfg, s, frames)
        ensures exists f :: f in frames && f.now == t
      {
        if t != frames[0].now {
          assert t in JumpTimes(cfg, st.state, frames[1..]);
          var f :| f in frames[1..] && f.now == t;
          assert f in frames;
        } else {
          assert frames[0] in frames;
        }
      }
    }
  }

  /** With a non-negative gap, spaced times are strictly increasing, every one
      lies more than `gap` after `start`, and any two lie more than `gap` apart. */
  lemma {:induction false} SpacedPairwise(start: real, gap: real, ts: seq<real>)
    requires gap >= 0.0 && Spaced(start, gap, ts)
    ensures forall i :: 0 <= i < |ts| ==> ts[i] - start > gap
    ensures forall i, j :: 0 <= i < j < |ts| ==> ts[j] - ts[i] > gap
    decreases |ts|
  {
    if |ts| > 0 {
      var init := ts[..|ts| - 1];
      assert Spaced(start, gap, init) by {
        forall k | 0 < k < |init|
          ensures init[k] - init[k - 1] > gap
        {
          assert init[k] == ts[k] && init[k - 1] == ts[k - 1];
        }
      }
      SpacedPairwise(start, gap, init);
      var n := |ts| - 1;
      assert forall i :: 0 <= i < n ==> ts[i] == init[i];
      if n > 0 {
        assert ts[n] - ts[n - 1] > gap;
        assert forall i :: 0 <= i < n ==> ts[n - 1] >= ts[i];
      } else {
        assert ts[0] - start > gap;
      }
    }
  }

  /** From the component's initial state with its own constants, every jump
      fires strictly after 1.5 s and any two jumps are more than 1.5 s apart,
      whatever the frames and their timestamps. */
  lemma InitialRunSpacing(frames: seq<Frame>)
    ensures var ts := JumpTimes(Default, Initial, frames);
            && (forall i :: 0 <= i < |ts| ==> ts[i] > 1.5)
            && (forall i, j :: 0 <= i < j < |ts| ==> ts[j] - ts[i] > 1.5)
  {
    JumpsSpaced(Default, Initial, frames);
    SpacedPairwise(Initial.lastJumpTime, Default.cooldown, JumpTimes(Default, Initial, frames));
  }

  /** A run of skipped frames (no pose, or a missing hip or knee) emits
      nothing and leaves the state as it was. */
  lemma {:induction false} SkippedRunIsInert(cfg: Config, s: State, frames: seq<Frame>)
    requires forall i :: 0 <= i < |frames| ==> Features(frames[i].detection).None?
    ensures Final(cfg, s, frames) == s
    ensures JumpTimes(cfg, s, frames) == []
    decreases |frames|
  {
    if |frames| > 0 {
      assert Features(frames[0].detection).None?;
      SkippedRunIsInert(cfg, s, frames[1..]);
    }
  }

  /** Once armed, a knee held raised on every frame emits nothing and leaves
      the state as it was, however many frames pass. */
  lemma {:induction false} SustainedRunIsInert(cfg: Config, s: State, frames: seq<Frame>)
    requires s.isJumping
    requires forall i :: 0 <= i < |frames| ==>
               Features(frames[i].detection).Some? && KneeRaised(Features(frames[i].detection).value, cfg.threshold)
    ensures Final(cfg, s, frames) == s
    ensures JumpTimes(cfg, s, frames) == []
    decreases |frames|
  {
    if |frames| > 0 {
      assert Features(frames[0].detection).Some?;
      SustainedRunIsInert(cfg, s, frames[1..]);
    }
  }
}
