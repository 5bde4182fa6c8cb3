/** The debounced knee-raise detector: a cooldown gate in front of a
    two-state (at rest / armed) machine that emits one jump per rising edge
    of the "knee raised" signal. */
module JumpDetector {
  import opened Wrappers
  import opened Landmarks

  /** The detector's two tunables: the knee-height threshold, in normalised
      image units, and the minimum spacing between jumps, in seconds. */
  datatype Config = Config(threshold: real, cooldown: real)

  /** The component's values: a 0.018 threshold and a 1.5 s cooldown. */
  const Default := Config(0.018, 1.5)

  /** `lastJumpTime` is the time of the last emitted jump (0 before any);
      `isJumping` is the armed flag: the current raise already fired. */
  datatype State = State(lastJumpTime: real, isJumping: bool)

  /** The state the component starts in: no jump yet, time reference 0, at rest. */
  const Initial := State(0.0, false)

  /** The result of one update: the next state and whether a jump was emitted. */
  datatype Step = Step(state: State, jumped: bool)

  /** The cooldown has elapsed at `now`: strictly more than `cooldown`
      seconds since the last jump. */
  predicate Free(cfg: Config, s: State, now: real) {
    now - s.lastJumpTime > cfg.cooldown
  }

  /** One update of the detector with the frame's knee signal at time `now`.
      Inside the cooldown nothing changes; outside it a rising edge arms the
      detector and fires, a lowered knee disarms it, and a held raise is ignored. */
  function Update(cfg: Config, s: State, raised: bool, now: real): (r: Step)
    // a jump happens only once the cooldown has elapsed, and it records its time and arms
    ensures r.jumped ==> Free(cfg, s, now) && r.state == State(now, true)
    // only a jump moves the time reference
    ensures !r.jumped ==> r.state.lastJumpTime == s.lastJumpTime
    // the armed flag follows the knee whenever it changes at all
    ensures r.state.isJumping != s.isJumping ==> Free(cfg, s, now) && r.state.isJumping == raised
    // an armed detector never fires
    ensures s.isJumping ==> !r.jumped
  {
    if Free(cfg, s, now) then
      if raised && !s.isJumping then
        Step(State(now, true), true)
      else if !raised then
        Step(State(s.lastJumpTime, false), false)
      else
        Step(s, false)
    else
      Step(s, false)
  }

  /** The detector's transitions as a table of (armed, cooldown, knee) rows,
      each naming the next state and whether a jump is emitted. */
  predicate Transition(cfg: Config, s: State, raised: bool, now: real, next: State, jumped: bool) {
    var free := Free(cfg, s, now);
    // at rest, free, raised: arm and fire, starting a new cooldown
    || (!s.isJumping && free && raised && next == State(now, true) && jumped)
    // armed and raised, in any cooldown mode: stay, no jump
    || (s.isJumping && raised && next == s && !jumped)
    // free and lowered, in either state: back to rest, no jump
    || (free && !raised && next == State(s.lastJumpTime, false) && !jumped)
    // cooling: nothing moves, whatever the knee does
    || (!free && next == s && !jumped)
  }

  /** `Update` is exactly the transition table: it takes a listed transition,
      and every listed transition from a state is the one `Update` takes. */
  lemma UpdateIsTransition(cfg: Config, s: State, raised: bool, now: real, next: State, jumped: bool)
    ensures Update(cfg, s, raised, now) == Step(next, jumped) <==> Transition(cfg, s, raised, now, next, jumped)
  {
  }

  /** One frame of the component's processing loop: the knee heights are
      extracted from the frame's detection and, when present, fed to `Update`;
      a skipped frame leaves the state alone and emits nothing. */
  function ProcessFrame(cfg: Config, s: State, d: Detection, now: real): (r: Step)
    ensures Features(d).None? ==> r == Step(s, false)
    // inside the cooldown nothing moves, even when the knee is lowered
    ensures !Free(cfg, s, now) ==> r == Step(s, false)
    // a jump is exactly a usable frame with a raised knee, at rest, after the cooldown
    ensures r.jumped <==> && Features(d).Some? && KneeRaised(Features(d).value, cfg.threshold)
                          && !s.isJumping && Free(cfg, s, now)
    ensures r.state.lastJumpTime == if r.jumped then now else s.lastJumpTime
    // once the cooldown is over, the armed flag records the knee signal of a usable frame
    ensures Features(d).Some? && Free(cfg, s, now) ==>
              r.state.isJumping == KneeRaised(Features(d).value, cfg.threshold)
  {
    match Features(d)
    case None => Step(s, false)
    case Some(h) => Update(cfg, s, KneeRaised(h, cfg.threshold), now)
  }

  /** No pose, or a pose missing a hip or knee: no jump and no state change. */
  lemma SkippedFrameIsInert(cfg: Config, s: State, d: Detection, now: real)
    requires FirstPose(d).None? || !HasLowerBody(FirstPose(d).value)
    ensures ProcessFrame(cfg, s, d, now) == Step(s, false)
  {
  }

  /** Within the cooldown window no jump is emitted and both state fields keep
      their values, even when the knee is lowered. */
  lemma CooldownFreezes(cfg: Config, s: State, raised: bool, now: real)
    requires now - s.lastJumpTime <= cfg.cooldown
    ensures Update(cfg, s, raised, now) == Step(s, false)
  {
  }

  /** Outside the cooldown, a raise while at rest emits one jump, arms the
      detector and records `now`. */
  lemma RisingEdgeFires(cfg: Config, s: State, now: real)
    requires Free(cfg, s, now) && !s.isJumping
    ensures Update(cfg, s, true, now) == Step(State(now, true), true)
  {
  }

  /** A raise held while armed emits nothing and changes nothing, inside or
      outside the cooldown. */
  lemma SustainedRaiseIsInert(cfg: Config, s: State, now: real)
    requires s.isJumping
    ensures Update(cfg, s, true, now) == Step(s, false)
  {
  }

  /** Outside the cooldown a lowered knee disarms the detector, keeps the
      last jump time and emits nothing. */
  lemma LoweredKneeResets(cfg: Config, s: State, now: real)
    requires Free(cfg, s, now)
    ensures Update(cfg, s, false, now) == Step(State(s.lastJumpTime, false), false)
  {
  }

  /** After a jump, lowering the knee once the cooldown is over and raising it
      again (still outside the cooldown) emits exactly one more jump. */
  lemma LowerThenRaiseFiresAgain(cfg: Config, s: State, t1: real, t2: real)
    requires s.isJumping && Free(cfg, s, t1) && Free(cfg, s, t2)
    ensures var st1 := Update(cfg, s, false, t1);
            && st1 == Step(State(s.lastJumpTime, false), false)
            && Update(cfg, st1.state, true, t2) == Step(State(t2, true), true)
  {
  }

  /** Which leg is raised makes no difference: a frame and its left/right
      mirror image drive the detector identically. */
  lemma MirroredFrameSameStep(cfg: Config, s: State, pose: Pose, now: real)
    requires |pose| > RightKnee
    ensures ProcessFrame(cfg, s, Detection(Some([Mirrored(pose)])), now)
         == ProcessFrame(cfg, s, Detection(Some([pose])), now)
  {
    MirroredHeights(pose);
    if Heights(pose).Some? {
      KneeRaisedSymmetric(Heights(pose).value, cfg.threshold);
    }
  }

  /** The six-frame knee-raise scenario with the component's constants,
      (left, right, t) = (0.005, 0.005, 0.0), (0.02, 0, 0.1), (0.02, 0, 0.5),
      (0.02, 0, 1.6), (0, 0, 1.7), (0.02, 0, 1.8). Because the time reference
      starts at 0, the raises at 0.1 s and 0.5 s are still inside the first
      cooldown; the first jump fires at 1.6 s, and the lowered knee at 1.7 s
      falls inside the new cooldown, so the detector stays armed and the
      raise at 1.8 s does not fire. */
  lemma InitialCooldownScenario()
    ensures var up := KneeHeights(0.02, 0.0);
            var down := KneeHeights(0.0, 0.0);
            var u1 := Update(Default, Initial, KneeRaised(KneeHeights(0.005, 0.005), Default.threshold), 0.0);
            var u2 := Update(Default, u1.state, KneeRaised(up, Default.threshold), 0.1);
            var u3 := Update(Default, u2.state, KneeRaised(up, Default.threshold), 0.5);
            var u4 := Update(Default, u3.state, KneeRaised(up, Default.threshold), 1.6);
            var u5 := Update(Default, u4.state, KneeRaised(down, Default.threshold), 1.7);
            var u6 := Update(Default, u5.state, KneeRaised(up, Default.threshold), 1.8);
            && u1 == u2 == u3 == Step(Initial, false)
            && u4 == Step(State(1.6, true), true)
            && u5 == u6 == Step(State(1.6, true), false)
  {
  }
}
