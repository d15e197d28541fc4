# SwiftEBD eye-blink detector, modelled in Dafny

`EyeBlinkDetector` watches the two eye-blink blend-shape coefficients that ARKit
face tracking reports once per frame. It reports each blink to its delegate as
`.left`, `.right` or `.both`. After each report it ignores the eyes for a
cooldown period (`blinkCoolDown`, one second by default). The decision logic has
three parts:

- the threshold step `isEyeClosed`: a coefficient strictly above `sensitivity`
  means the eye is closed, and a missing coefficient reads as 0.0;
- the classify-and-debounce step `handleBlink`: a cooldown gate on the single
  mutable field `lastBlinkTime`, then at most one report chosen from the
  closure pair, with `lastBlinkTime` set only when something is reported;
- the frame callback `session(_:didUpdate:)`: the camera faces the user, so the
  user's left eye is read from `.eyeBlinkRight` and the right eye from
  `.eyeBlinkLeft`.

The model is purely functional. `State` holds `lastBlinkTime` as an
`Option<real>`. Each callback is a function from the old state to a
`StepResult`, which holds the blink chosen for the delegate (if any) and the new
state. The clock reading `Date()` becomes the parameter `now`. Times, durations
and coefficients are `real`s.

Files:

- `wrappers.dfy`: the `Option` type.
- `detector.dfy` (module `EyeBlinkDetector`): the entities (`EyeBlink`,
  `Config`, `State`, `FaceAnchor`), `IsEyeClosed`, the cooldown gate
  `CoolingDown`, `HandleBlink`, `SessionDidUpdate`, and the single-step lemmas.
- `runs.dfy` (module `BlinkRuns`): `Run`, which feeds a sequence of frames
  through `SessionDidUpdate`, and the debounce lemmas over whole runs.

`HandleBlink` is specified by the predicate `Reacts`, which describes the
outcome rather than the branches:

- a blink is reported exactly when the gate is open, some eye is closed, and it
  is not a both-eyes closure that the configuration suppresses;
- the reported blink names exactly the set of closed eyes;
- the state records `now` exactly when a blink is reported.

`ReactsDeterminesStep` proves that `Reacts` has only one solution, so the
specification and the code say the same thing in both directions.

The source handles a blend shape missing from the anchor by reading 0.0
(line 110). This model does the same. An eye with no coefficient is therefore
closed only under a negative sensitivity. Confidences outside [0, 1] are not
clamped, because the code does not clamp them.

## Model

| member | source | states |
|---|---|---|
| `EyeBlinkDetector.IsEyeClosed` | Sources/SwiftEBD/SwiftEBD.swift:109-112 | A reported coefficient means closed iff it is strictly greater than the sensitivity; a missing coefficient reads as 0.0, so the eye is closed iff the sensitivity is negative |
| `EyeBlinkDetector.ThresholdIsStrict` | Sources/SwiftEBD/SwiftEBD.swift:111 | A coefficient equal to the sensitivity is open; any coefficient above it is closed |
| `EyeBlinkDetector.ClosureIsMonotone` | Sources/SwiftEBD/SwiftEBD.swift:110-111 | A closed eye stays closed when its coefficient rises or the sensitivity drops; an open eye stays open when its coefficient falls or the sensitivity rises |
| `EyeBlinkDetector.MissingShapeIsOpen` | Sources/SwiftEBD/SwiftEBD.swift:110-111 | A blend shape the anchor does not report is open whenever the sensitivity is not negative |
| `EyeBlinkDetector.HandleBlink` | Sources/SwiftEBD/SwiftEBD.swift:65-97 | Inside the cooldown window nothing is reported and the state is unchanged; otherwise a blink is reported iff some eye is closed and it is not a suppressed both-eyes closure; the blink names exactly the closed eyes; `lastBlinkTime` becomes `now` iff a blink is reported |
| `EyeBlinkDetector.ReactsDeterminesStep` | Sources/SwiftEBD/SwiftEBD.swift:65-97 | Any outcome meeting the per-outcome description `Reacts` is the one `handleBlink` produces, so exactly one outcome (at most one event) is possible per call |
| `EyeBlinkDetector.FreshDetectorIsArmed` | Sources/SwiftEBD/SwiftEBD.swift:23 | With `lastBlinkTime` unset the cooldown gate is open at every instant |
| `EyeBlinkDetector.DebounceWindow` | Sources/SwiftEBD/SwiftEBD.swift:69-94 | After a blink reported at t0, every call at t < t0 + blinkCoolDown reports nothing and keeps the state, whatever the eyes do (an earlier clock reading is blocked too); from t0 + blinkCoolDown on the gate does not block |
| `EyeBlinkDetector.SuppressedBothDoesNotArm` | Sources/SwiftEBD/SwiftEBD.swift:74-89 | With both-eyes detection off, two closed eyes report nothing and leave the state alone, so a left-only closure at the same instant is still reported as `.left` |
| `EyeBlinkDetector.HandleBlinkSymmetric` | Sources/SwiftEBD/SwiftEBD.swift:84-96 | Swapping the closure pair swaps `.left` and `.right` in the report and changes nothing else |
| `EyeBlinkDetector.BothBlinkRearmsAfterCoolDown` | Sources/SwiftEBD/SwiftEBD.swift:44-81 | With defaults and both-eyes detection on, closures at 0.0, 0.5 and 1.0 report `.both`, nothing, `.both` |
| `EyeBlinkDetector.LeftBlinkBlocksSameInstant` | Sources/SwiftEBD/SwiftEBD.swift:69-89 | A `.left` report arms the cooldown at once, so a right-only closure at the same instant is not reported |
| `EyeBlinkDetector.OpenEyesAreQuiet` | Sources/SwiftEBD/SwiftEBD.swift:65-97 | Two open eyes report nothing and do not change `lastBlinkTime` |
| `EyeBlinkDetector.SessionDidUpdate` | Sources/SwiftEBD/SwiftEBD.swift:99-107 | With no face anchor nothing happens; otherwise, when the gate is open, `.left` is reported iff `.eyeBlinkRight` is closed and `.eyeBlinkLeft` open, `.right` iff the reverse, and `.both` iff both are closed and both-eyes detection is on |
| `BlinkRuns.Run` | Sources/SwiftEBD/SwiftEBD.swift:65-107 | Handling a sequence of frames one callback at a time yields one outcome per frame; a frame without a face anchor reports nothing; a run that reports no blink leaves `lastBlinkTime` as it was |
| `BlinkRuns.BlinksWaitOutCoolDown` | Sources/SwiftEBD/SwiftEBD.swift:69-71 | Starting from a recorded blink at t0, every blink a run reports comes at least blinkCoolDown after t0, for any clock order when blinkCoolDown >= 0 (and for a time-ordered run otherwise) |
| `BlinkRuns.BlinksAreSpaced` | Sources/SwiftEBD/SwiftEBD.swift:65-97 | Any two blinks a run reports are at least blinkCoolDown apart, for any clock order when blinkCoolDown >= 0 (and for a time-ordered run otherwise) |
| `BlinkRuns.RunRecordsLastBlink` | Sources/SwiftEBD/SwiftEBD.swift:78-95 | If frame k reports a blink and no later frame does, the run ends with `lastBlinkTime` equal to frame k's time |
| `BlinkRuns.LastBlinkTimeNonDecreasing` | Sources/SwiftEBD/SwiftEBD.swift:79-94 | `lastBlinkTime`, once set, stays set and never moves backwards over a run, for any clock order when blinkCoolDown >= 0 (and for a time-ordered run otherwise) |

## Left out

- ARKit session plumbing (`ARSession`, `start`, `stop`, `isSupported`): these are framework calls with no decision logic.
- Anchor selection (`compactMap { $0 as? ARFaceAnchor }.first`): the model takes the selected face anchor, or its absence, as an `Option<FaceAnchor>`.
- Delegate delivery and its `weak` reference: the `blink` field of the returned `StepResult` is what a delegate, if one is set, would receive. A missing delegate is not modelled; the model keeps only the fact that a chosen blink arms the cooldown whether or not anyone receives it.
- The wall clock `Date()`: the current time is the parameter `now`, and nothing assumes it moves forwards. The run lemmas need time order (`BlinkRuns.Chronological`) only for a negative `blinkCoolDown`; with a non-negative cooldown they hold for any sequence of clock readings.
- `Float`/`Double` arithmetic (rounding, NaN, infinities): coefficients, the sensitivity, times and the cooldown are exact `real`s. The strict `>` and `<` comparisons are kept.
- `NSObject` inheritance and the `ARSessionDelegate` conformance: they carry no behaviour.
- The initializer's defaults appear only as `DefaultConfig`, which has no contract.
