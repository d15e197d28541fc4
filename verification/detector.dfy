/**
 A model of `EyeBlinkDetector` (Sources/SwiftEBD/SwiftEBD.swift): the per-frame
 classify-and-debounce state machine that turns two eye-closure coefficients
 into at most one `EyeBlink` event.

 The detector's single piece of mutable state, `lastBlinkTime`, is carried in an
 immutable `State`; every callback becomes a pure function from the old state
 (and the frame) to the reported blink and the new state. The wall clock
 `Date()` is the explicit parameter `now`, and times, durations and blend-shape
 coefficients are `real`s.
 */
module EyeBlinkDetector {
  import opened Wrappers

  /** The blink a frame may report, from the user's point of view. */
  datatype EyeBlink = Left | Right | Both

  /** The user's two eyes; used to say which eyes an `EyeBlink` stands for. */
  datatype Eye = LeftEye | RightEye

  /** The keys of a face anchor's blend-shape dictionary. Only the two eye-blink
      keys are ever read; every other location is lumped into `OtherShape`. */
  datatype BlendShapeLocation = EyeBlinkLeft | EyeBlinkRight | OtherShape(name: string)

  /** A face anchor as far as the detector sees it: one coefficient per tracked
      blend shape, any of which may be absent. `EyeBlinkLeft` and `EyeBlinkRight`
      are named from the camera's side, which mirrors the user. */
  datatype FaceAnchor = FaceAnchor(blendShapes: map<BlendShapeLocation, real>)

  /** The detector's settings, fixed when it is created. */
  datatype Config = Config(blinkCoolDown: real, sensitivity: real, detectBothEyeClosed: bool)

  const DefaultBlinkCoolDown: real := 1.0
  const DefaultSensitivity: real := 0.6

  /** The configuration built by the initializer when only the required
      `detectBothEyeClosed` argument is given. */
  function DefaultConfig(detectBothEyeClosed: bool): (cfg: Config) {
    Config(DefaultBlinkCoolDown, DefaultSensitivity, detectBothEyeClosed)
  }

  /** The detector's only mutable field: when the last blink was reported. */
  datatype State = State(lastBlinkTime: Option<real>)

  /** A freshly created detector has reported nothing yet. */
  const Initial: State := State(None)

  /** What one callback does: the blink the detector chose to report, which a
      delegate (if one is set) would receive, and the state the detector is
      left in. */
  datatype StepResult = StepResult(blink: Option<EyeBlink>, next: State)

  /** The set of eyes an event reports as closed. */
  function EyesOf(b: EyeBlink): (eyes: set<Eye>) {
    match b
    case Left => {LeftEye}
    case Right => {RightEye}
    case Both => {LeftEye, RightEye}
  }

  /** The set of eyes a closure pair reports as closed. */
  function ClosedEyes(leftClosed: bool, rightClosed: bool): (eyes: set<Eye>) {
    (if leftClosed then {LeftEye} else {}) + (if rightClosed then {RightEye} else {})
  }

  /** Swaps the sides of an event; the identity on `Both`. */
  function Flip(b: EyeBlink): (flipped: EyeBlink) {
    match b
    case Left => Right
    case Right => Left
    case Both => Both
  }

  /** Swaps the sides of a reported blink; no report stays no report. */
  function FlipBlink(o: Option<EyeBlink>): (flipped: Option<EyeBlink>) {
    match o
    case None => None
    case Some(b) => Some(Flip(b))
  }

  /** The threshold step: is the eye behind blend shape `shape` closed? A
      coefficient the anchor does not report is read as 0.0, and only a
      coefficient strictly above the sensitivity counts as closed. */
  function IsEyeClosed(cfg: Config, shape: BlendShapeLocation, anchor: FaceAnchor): (closed: bool)
    ensures shape in anchor.blendShapes ==> (closed <==> anchor.blendShapes[shape] > cfg.sensitivity)
    ensures shape !in anchor.blendShapes ==> (closed <==> cfg.sensitivity < 0.0)
  {
    Coefficient(anchor, shape) > cfg.sensitivity
  }

  /** The coefficient the anchor reports for `shape`, or 0.0 when it reports none. */
  function Coefficient(anchor: FaceAnchor, shape: BlendShapeLocation): (value: real) {
    if shape in anchor.blendShapes then anchor.blendShapes[shape] else 0.0
  }

  /** The threshold step is monotone: a closed eye stays closed when its
      coefficient rises or the sensitivity drops, and an open eye stays open
      when its coefficient falls or the sensitivity rises. */
  lemma ClosureIsMonotone(cfg: Config, cfg': Config, shape: BlendShapeLocation, anchor: FaceAnchor, anchor': FaceAnchor)
    requires cfg'.sensitivity <= cfg.sensitivity
    requires Coefficient(anchor, shape) <= Coefficient(anchor', shape)
    ensures IsEyeClosed(cfg, shape, anchor) ==> IsEyeClosed(cfg', shape, anchor')
    ensures !IsEyeClosed(cfg', shape, anchor') ==> !IsEyeClosed(cfg, shape, anchor)
  {
  }

  /** The cooldown gate is shut: a blink was reported less than `blinkCoolDown`
      before `now`. */
  predicate CoolingDown(cfg: Config, s: State, now: real) {
    s.lastBlinkTime.Some? && now - s.lastBlinkTime.value < cfg.blinkCoolDown
  }

  /** The behaviour the classify-and-debounce step promises, stated per outcome
      rather than per branch: a blink is reported exactly when the gate is
      open, some eye is closed, and it is not a both-eyes closure the
      configuration suppresses; the reported blink names exactly the closed
      eyes; and the state records `now` exactly when a blink is reported. */
  ghost predicate Reacts(cfg: Config, s: State, leftClosed: bool, rightClosed: bool, now: real, r: StepResult) {
    var closed := ClosedEyes(leftClosed, rightClosed);
    && (r.blink.Some? <==>
          && !CoolingDown(cfg, s, now)
          && closed != {}
          && (closed == {LeftEye, RightEye} ==> cfg.detectBothEyeClosed))
    && (r.blink.Some? ==> EyesOf(r.blink.value) == closed)
    && r.next == (if r.blink.Some? then State(Some(now)) else s)
  }

  /** The classify-and-debounce step, `handleBlink`, with the clock reading as
      the parameter `now`. */
  function HandleBlink(cfg: Config, s: State, leftClosed: bool, rightClosed: bool, now: real): (r: StepResult)
    ensures CoolingDown(cfg, s, now) ==> r == StepResult(None, s)
    ensures Reacts(cfg, s, leftClosed, rightClosed, now, r)
  {
    if CoolingDown(cfg, s, now) then
      StepResult(None, s)
    else if leftClosed && rightClosed then
      if !cfg.detectBothEyeClosed then StepResult(None, s)
      else StepResult(Some(Both), State(Some(now)))
    else if leftClosed && !rightClosed then
      StepResult(Some(Left), State(Some(now)))
    else if rightClosed && !leftClosed then
      StepResult(Some(Right), State(Some(now)))
    else
      StepResult(None, s)
  }

  /** `Reacts` pins the step down completely: any outcome meeting it is the one
      `HandleBlink` computes. */
  lemma ReactsDeterminesStep(cfg: Config, s: State, leftClosed: bool, rightClosed: bool, now: real, r: StepResult)
    requires Reacts(cfg, s, leftClosed, rightClosed, now, r)
    ensures r == HandleBlink(cfg, s, leftClosed, rightClosed, now)
  {
  }

  /** The frame callback, `session(_:didUpdate:)`: `face` is the first face
      anchor among the frame's anchors, if there is one. The camera faces the
      user, so the user's left eye is read from `EyeBlinkRight` and the right
      eye from `EyeBlinkLeft`. */
  function SessionDidUpdate(cfg: Config, s: State, face: Option<FaceAnchor>, now: real): (r: StepResult)
    ensures face.None? ==> r == StepResult(None, s)
    ensures face.Some? && !CoolingDown(cfg, s, now) ==>
      (r.blink == Some(Left) <==>
         IsEyeClosed(cfg, EyeBlinkRight, face.value) && !IsEyeClosed(cfg, EyeBlinkLeft, face.value))
    ensures face.Some? && !CoolingDown(cfg, s, now) ==>
      (r.blink == Some(Right) <==>
         IsEyeClosed(cfg, EyeBlinkLeft, face.value) && !IsEyeClosed(cfg, EyeBlinkRight, face.value))
    ensures face.Some? && !CoolingDown(cfg, s, now) ==>
      (r.blink == Some(Both) <==>
         cfg.detectBothEyeClosed && IsEyeClosed(cfg, EyeBlinkLeft, face.value) && IsEyeClosed(cfg, EyeBlinkRight, face.value))
    ensures r.blink.Some? ==> face.Some? && !CoolingDown(cfg, s, now)
    ensures r.next == (if r.blink.Some? then State(Some(now)) else s)
  {
    match face
    case None => StepResult(None, s)
    case Some(anchor) =>
      var leftClosed := IsEyeClosed(cfg, EyeBlinkRight, anchor);
      var rightClosed := IsEyeClosed(cfg, EyeBlinkLeft, anchor);
      HandleBlink(cfg, s, leftClosed, rightClosed, now)
  }

  /** The threshold is strict: a coefficient equal to the sensitivity reads as
      open, and every coefficient above it reads as closed. */
  lemma ThresholdIsStrict(cfg: Config, shape: BlendShapeLocation, anchor: FaceAnchor)
    requires shape in anchor.blendShapes
    ensures anchor.blendShapes[shape] == cfg.sensitivity ==> !IsEyeClosed(cfg, shape, anchor)
    ensures anchor.blendShapes[shape] > cfg.sensitivity ==> IsEyeClosed(cfg, shape, anchor)
  {
  }

  /** A blend shape the anchor does not report reads as an open eye whenever the
      sensitivity is not negative. */
  lemma MissingShapeIsOpen(cfg: Config, shape: BlendShapeLocation, anchor: FaceAnchor)
    requires shape !in anchor.blendShapes
    requires cfg.sensitivity >= 0.0
    ensures !IsEyeClosed(cfg, shape, anchor)
  {
  }

  /** With no blink reported yet the cooldown gate is open at every instant. */
  lemma FreshDetectorIsArmed(cfg: Config, now: real)
    ensures !CoolingDown(cfg, Initial, now)
  {
  }

  /** Debounce: once a blink is reported at `t0`, every step at an instant
      before `t0 + blinkCoolDown` reports nothing and keeps the state, whatever
      the eyes do; from `t0 + blinkCoolDown` on the gate no longer blocks.
      The clock is not assumed to move forwards: an instant before `t0` is
      blocked too. */
  lemma DebounceWindow(cfg: Config, s: State, leftClosed: bool, rightClosed: bool, t0: real,
                       leftClosed': bool, rightClosed': bool, t: real)
    requires HandleBlink(cfg, s, leftClosed, rightClosed, t0).blink.Some?
    ensures var s' := HandleBlink(cfg, s, leftClosed, rightClosed, t0).next;
      && (t < t0 + cfg.blinkCoolDown ==>
            HandleBlink(cfg, s', leftClosed', rightClosed', t) == StepResult(None, s'))
      && (t >= t0 + cfg.blinkCoolDown ==> !CoolingDown(cfg, s', t))
  {
  }

  /** A both-eyes closure the configuration suppresses reports nothing and does
      not arm the cooldown, so a left-only closure at the very same instant
      is still reported. */
  lemma SuppressedBothDoesNotArm(cfg: Config, s: State, now: real)
    requires !cfg.detectBothEyeClosed
    requires !CoolingDown(cfg, s, now)
    ensures HandleBlink(cfg, s, true, true, now) == StepResult(None, s)
    ensures HandleBlink(cfg, HandleBlink(cfg, s, true, true, now).next, true, false, now)
         == StepResult(Some(Left), State(Some(now)))
  {
  }

  /** The policy treats the two eyes alike: swapping the closure pair swaps the
      side of the reported blink and leaves the new state as it was. */
  lemma HandleBlinkSymmetric(cfg: Config, s: State, leftClosed: bool, rightClosed: bool, now: real)
    ensures HandleBlink(cfg, s, rightClosed, leftClosed, now).blink
         == FlipBlink(HandleBlink(cfg, s, leftClosed, rightClosed, now).blink)
    ensures HandleBlink(cfg, s, rightClosed, leftClosed, now).next
         == HandleBlink(cfg, s, leftClosed, rightClosed, now).next
  {
  }

  /** With both-eyes blinks enabled and the default one-second cooldown, a
      closure at 0.0 reports `Both`, the same closure at 0.5 is debounced, and
      at 1.0 it is reported again. */
  lemma BothBlinkRearmsAfterCoolDown()
    ensures var cfg := DefaultConfig(true);
      var r0 := HandleBlink(cfg, Initial, true, true, 0.0);
      var r1 := HandleBlink(cfg, r0.next, true, true, 0.5);
      var r2 := HandleBlink(cfg, r1.next, true, true, 1.0);
      r0.blink == Some(Both) && r1.blink == None && r2.blink == Some(Both)
  {
  }

  /** A left blink arms the cooldown at once: a right-only closure at the same
      instant is debounced. */
  lemma LeftBlinkBlocksSameInstant(detectBothEyeClosed: bool, now: real)
    ensures var cfg := DefaultConfig(detectBothEyeClosed);
      var r0 := HandleBlink(cfg, Initial, true, false, now);
      var r1 := HandleBlink(cfg, r0.next, false, true, now);
      r0 == StepResult(Some(Left), State(Some(now))) && r1 == StepResult(None, r0.next)
  {
  }

  /** Two open eyes never report anything and never touch the state. */
  lemma OpenEyesAreQuiet(cfg: Config, s: State, now: real)
    ensures HandleBlink(cfg, s, false, false, now) == StepResult(None, s)
  {
  }
}
