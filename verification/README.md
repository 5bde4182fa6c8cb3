# Knee-raise jump detector

A model of the gesture logic of the `PoseDetector` React component. For each
video frame the component takes the first pose the pose-estimation model
returned, reads landmarks 23–26 (left hip, right hip, left knee, right knee),
measures each knee's height above the hip midpoint (`y` grows downward, so a
raised knee gives a positive height), and calls the knee raised when either
height is strictly above `jumpThreshold = 0.018`. A debounced state machine
with state `(lastJumpTime, isJumpingState)`, initially `(0, false)`, then
emits a jump on a rising edge of that signal, but only once strictly more
than `jumpCooldown = 1.5` seconds have passed since the last jump; inside the
cooldown nothing changes at all, not even the armed flag.

Files:

- `wrappers.dfy` — `Option`.
- `features.dfy` — module `Landmarks`: landmarks, poses, detections, knee-height extraction, the raised test, left/right mirroring.
- `detector.dfy` — module `JumpDetector`: configuration, state, the update step, a transition table it is proved equal to, one frame of processing, single-step properties.
- `trace.dfy` — module `Traces`: the frame loop as a fold over timestamped frames, and spacing and inertness properties of every run.

Points where the code's behaviour is easy to misread:

- The time reference starts at `0`, not at minus infinity (PoseDetector.jsx:13). So no jump can fire until more than 1.5 s have passed. `JumpDetector.InitialCooldownScenario` states the outcome of six frames with raises at 0.1 s, 0.5 s, 1.6 s and 1.8 s and a lowered knee at 1.7 s. The raises at 0.1 s and 0.5 s do not fire. The first jump comes at 1.6 s. The reset at 1.7 s falls inside the new cooldown, so the raise at 1.8 s does not fire either.
- The cooldown test is strict (PoseDetector.jsx:78): a frame exactly `jumpCooldown` after the last jump is still inside the cooldown.
- The spacing properties in `Traces` do not assume increasing timestamps. Each jump already needs strictly more than the cooldown since the previous jump, so no ordering of the frames' times is required.

## Model

| member | source | states |
|---|---|---|
| Landmarks.Heights | PoseDetector.jsx:64-72 | heights exist exactly when all four hip and knee landmarks are present; each is that knee's distance above the hip midpoint, so it is positive exactly when the knee is above the midpoint; their difference depends only on the knees; a knee above both hips has positive height |
| Landmarks.KneeRaised | PoseDetector.jsx:74 | the knee counts as raised exactly when the higher of the two heights is strictly above the threshold |
| Landmarks.FeaturesAreLocal | PoseDetector.jsx:60-69 | a frame's features (knee heights, or none when the frame is skipped) depend only on whether the landmark list has a first pose and on that pose's landmarks 23 to 26; later poses and other landmarks never matter |
| Landmarks.KneeRaisedSymmetric | PoseDetector.jsx:74 | exchanging the left and right heights never changes whether the knee counts as raised |
| Landmarks.KneeRaisedGeometry | PoseDetector.jsx:70-74 | a usable pose counts as raised exactly when one knee lies strictly more than the threshold above the hip midpoint; a knee exactly the threshold above it, with the other no higher, does not count |
| Landmarks.MirroredHeights | PoseDetector.jsx:64-72 | exchanging the left and right hip and knee landmarks skips the same frames and otherwise exchanges the two heights |
| JumpDetector.Update | PoseDetector.jsx:78-86 | a jump happens only outside the cooldown and sets the state to (now, armed); without a jump the time reference is unchanged; the armed flag changes only outside the cooldown and then to the knee signal; an armed detector never fires |
| JumpDetector.UpdateIsTransition | PoseDetector.jsx:78-86 | the update equals the at-rest/armed × cooling/free transition table, in both directions |
| JumpDetector.ProcessFrame | PoseDetector.jsx:60-86 | a frame without usable landmarks, and any frame inside the cooldown, leaves the state alone and emits nothing; a jump is emitted exactly when the frame is usable, the knee is raised, the detector is at rest and the cooldown is over; `lastJumpTime` becomes `now` on a jump and is otherwise kept; after the cooldown a usable frame sets the armed flag to its knee signal |
| JumpDetector.SkippedFrameIsInert | PoseDetector.jsx:60-69 | no pose, or a missing hip or knee: no jump and an unchanged state |
| JumpDetector.CooldownFreezes | PoseDetector.jsx:78-86 | when `now - lastJumpTime <= cooldown`, no jump and both fields unchanged, whatever the knee does |
| JumpDetector.RisingEdgeFires | PoseDetector.jsx:79-82 | outside the cooldown, a raise while at rest emits a jump, arms and records `now` |
| JumpDetector.SustainedRaiseIsInert | PoseDetector.jsx:79-85 | a raise while armed emits nothing and changes nothing, inside or outside the cooldown |
| JumpDetector.LoweredKneeResets | PoseDetector.jsx:83-84 | outside the cooldown, a lowered knee disarms, keeps `lastJumpTime` and emits nothing |
| JumpDetector.LowerThenRaiseFiresAgain | PoseDetector.jsx:78-84 | after a jump, a lower then a raise, both outside the cooldown, reset the detector and then emit exactly one more jump |
| JumpDetector.MirroredFrameSameStep | PoseDetector.jsx:64-74 | a frame and its left/right mirror image give the same detector step |
| JumpDetector.InitialCooldownScenario | PoseDetector.jsx:11-86 | from the initial state with the component's constants, the six-frame example fires only at 1.6 s and stays armed afterwards |
| Traces.Final | PoseDetector.jsx:77-91 | after a run the state differs from the start only if some frame had usable landmarks, and `lastJumpTime` is the starting value or the time of a processed frame |
| Traces.JumpTimes | PoseDetector.jsx:77-91 | a run emits at most one jump per frame |
| Traces.JumpsSpaced | PoseDetector.jsx:78-81 | in any run, the first jump is more than the cooldown after the starting time reference, and each jump is more than the cooldown after the previous one |
| Traces.SpacedPairwise | PoseDetector.jsx:78-81 | with a non-negative cooldown, such jump times all lie more than the cooldown after the start, and any two lie more than the cooldown apart |
| Traces.InitialRunSpacing | PoseDetector.jsx:12-81 | from the initial state with the component's constants, every jump is strictly after 1.5 s and any two jumps are more than 1.5 s apart |
| Traces.FinalRecordsLastJump | PoseDetector.jsx:78-84 | after any run, `lastJumpTime` is the time of the last emitted jump, or its starting value when none fired |
| Traces.JumpTimesAreFrameTimes | PoseDetector.jsx:77-81 | every jump time is the timestamp of a processed frame |
| Traces.SkippedRunIsInert | PoseDetector.jsx:60-69 | a run of frames without usable landmarks emits nothing and leaves the state unchanged |
| Traces.SustainedRunIsInert | PoseDetector.jsx:79-85 | once armed, a run of frames with the knee held raised emits nothing and leaves the state unchanged |

## Left out

- Loading the pose model and the `onReady` notification (PoseDetector.jsx:17-34): asynchronous calls into a foreign library and network fetches.
- Starting and stopping the webcam (PoseDetector.jsx:37-51): media-device I/O and event listeners.
- `poseLandmarker.detectForVideo` (PoseDetector.jsx:58): a foreign inference call. Its output is the `Detection` input of each frame.
- `performance.now()` (PoseDetector.jsx:57, 77): the clock is the `now` field of each frame. The code reads the clock only after the landmark check; the model just gives every frame its time.
- The `requestAnimationFrame` loop (PoseDetector.jsx:91): scheduling only. The loop is modelled as a fold over a sequence of frames (`Traces.Final`, `Traces.JumpTimes`).
- The `webcamRunning` guard (PoseDetector.jsx:55): as written, `toggleWebcam` registers `predictWebcam` from the render in which `webcamRunning` is still `false` (lines 40, 44-48). The guard therefore returns on the first call, `requestAnimationFrame` is never reached, and no frame gets to lines 57-86. The model assumes the guard passes on every frame and describes the detection logic that would then run.
- React re-declaring `lastJumpTime` and `isJumpingState` on each render, and the stale `webcamRunning` closure (PoseDetector.jsx:13-14, 55): component-lifecycle effects. The state is an explicit value passed from step to step.
- The `onJump` callback (PoseDetector.jsx:82): the model reports a jump as the `jumped` flag of a step.
- The JSX view and button label (PoseDetector.jsx:94-101): UI only.
- IEEE-754 rounding of coordinates and times: all numbers are Dafny `real`.
- Landmark fields other than `y` (`x`, `z`, visibility), and poses after the first one: the code never reads them (`Landmarks.FeaturesAreLocal` states the second).
