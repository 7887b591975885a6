# MatrixGestureDetector in Dafny

A model of `MatrixGestureDetector`, the Android class that turns one- and
two-finger touch input into an accumulated 2D affine matrix, and of what its
`onTouchEvent` dispatch does to its state. The detector keeps:

- two four-float pointer buffers, `source` (reference positions) and
  `distance` (positions at the latest move), with pointer id `k` at
  `2 * k` and `2 * k + 1`;
- `pointerIndex`, the offset at which `setPolyToPoly` starts reading them;
- the scratch matrix `tempMatrix` the solver writes into;
- the accumulated `matrix`;
- the readouts `translate`, `scale` and `angle` derived from it;
- an optional `OnMatrixChangeListener`.

The model is functional. A `Detector` is an immutable record and
`GestureDetector.Step` is one `onTouchEvent` call. `Gestures.Run` feeds a
stream of events through `Step`. The listener is a flag plus a log that
holds, for each call, a `Notice(matrix, readout, source)`: the matrix
handed over and the readouts and reference buffer the callback can see.

Files:

- `outcome.dfy`: `Option` and `Result`.
- `affine.dfy`: the six-coefficient matrix in the Android layout (MSCALE_X,
  MSKEW_X, MTRANS_X, MSKEW_Y, MSCALE_Y, MTRANS_Y), point mapping, `Concat`
  and `postConcat`.
- `touch.dfy`: the parts of a `MotionEvent` the detector reads (masked
  action, pointers with id and position, action index), and the events the
  model accepts.
- `detector.dfy`: the detector state, the constructor, `setTransformations`,
  the three `when` branches, `Step`, and the invariant every reachable
  detector satisfies.
- `gestures.dfy`: event streams; notification counting; the drag, two-finger
  and lift-primary gestures.

Foreign calls are parameters. A `Platform` value holds three functions:
`polyToPoly` (Android's `Matrix.setPolyToPoly`, which may report failure),
`sqrt` (`Math.sqrt`) and `atan2Degrees` (`Math.atan2` converted to degrees).
The model assumes nothing about them except in lemmas and `ensures`
clauses that name the assumption:

- `ExactSqrt`: `sqrt` returns the exact non-negative root.
- `ZeroAngleOnPositiveAxis`: `atan2Degrees(0, x)` is 0 for `x > 0`.
- `Gestures.OnePointIsTranslation`: the one-point solve is the translation
  by destination minus source. This is stated as an assumption about the
  platform. It is not derived.

Behaviour modelled from the code:

- **Rejection.** An event with more than two pointers returns the detector
  unchanged. The readouts are not recomputed and the listener does not fire.
- **Solver bounds.** `setPolyToPoly` raises an out-of-bounds error when
  `offset + 2 * count` exceeds the four-float buffers. This is modelled as
  `Failure(PolyToPolyOutOfBounds)`. On a valid detector it happens exactly
  for a two-pointer move while the offset is at slot 1
  (`StepFailsExactly`).
- **Failed solve.** The code ignores `setPolyToPoly`'s boolean result. When
  the solver reports failure, the stale `tempMatrix` is post-concatenated
  again. The model keeps `temp` in the state for this reason.
- **Pointer-up.** When pointer 0 lifts, the code does not re-anchor
  reference slot 0 on the surviving pointer; it only moves `pointerIndex`
  to 2 (lines 102-106).
- **Notification.** The listener fires on every accepted move, even when
  the solved transform is the identity (lines 95-97). It fires before the
  copy into `source` (line 99) and before `setTransformations` (line 110),
  so inside the callback `translate`, `scale` and `angle` still describe
  the matrix before the move and `source` still holds the old reference
  positions. The log records, for each call, the matrix handed over
  together with those readouts and that buffer.

## Model

| member | source | states |
|---|---|---|
| Affine.PostConcatMaps | matrixgesturedetector/src/main/java/com/slaviboy/matrixgesturedetector/MatrixGestureDetector.kt:93 | after `postConcat(temp)` a point is mapped by the old matrix first and by `temp` second |
| Affine.PostConcatIdentity | matrixgesturedetector/src/main/java/com/slaviboy/matrixgesturedetector/MatrixGestureDetector.kt:93 | post-concatenating the identity leaves the matrix unchanged |
| Affine.PostConcatTranslation | matrixgesturedetector/src/main/java/com/slaviboy/matrixgesturedetector/MatrixGestureDetector.kt:93 | post-concatenating a translation shifts only the two translation coefficients |
| Affine.PostConcatTwice | matrixgesturedetector/src/main/java/com/slaviboy/matrixgesturedetector/MatrixGestureDetector.kt:93 | two successive moves accumulate as one post-concatenation of their product, in order |
| GestureDetector.Init | matrixgesturedetector/src/main/java/com/slaviboy/matrixgesturedetector/MatrixGestureDetector.kt:43-57 | construction keeps the seed matrix, zeroes both buffers, sets offset 0, starts the scratch matrix as the identity, fires nothing (empty log), takes translate from the seed, and yields a valid detector |
| GestureDetector.IdentityStart | matrixgesturedetector/src/main/java/com/slaviboy/matrixgesturedetector/MatrixGestureDetector.kt:43-57 | a detector built on the identity reads translate (0, 0), scale 1, angle 0, given an exact `sqrt` and `atan2(0, x>0) = 0` |
| GestureDetector.IdentityReadout | matrixgesturedetector/src/main/java/com/slaviboy/matrixgesturedetector/MatrixGestureDetector.kt:117-136 | the identity matrix decomposes to translate (0, 0), scale 1 and angle 0 under the same assumptions |
| GestureDetector.Decompose | matrixgesturedetector/src/main/java/com/slaviboy/matrixgesturedetector/MatrixGestureDetector.kt:117-136 | the translate readout is the image of the origin under the matrix |
| GestureDetector.DecomposeTranslated | matrixgesturedetector/src/main/java/com/slaviboy/matrixgesturedetector/MatrixGestureDetector.kt:121-135 | shifting the translation coefficients shifts the translate readout and leaves scale and angle unchanged |
| GestureDetector.SetTransformations | matrixgesturedetector/src/main/java/com/slaviboy/matrixgesturedetector/MatrixGestureDetector.kt:117-136 | changes only the readouts: translate is the image of the origin; with an exact `sqrt`, scale is non-negative and its square is the squared length of the image of the unit x vector; a matrix with MSKEW_X = 0 and MSCALE_X > 0 (vertical lines stay vertical) reads angle 0 |
| GestureDetector.SetTransformationsIdempotent | matrixgesturedetector/src/main/java/com/slaviboy/matrixgesturedetector/MatrixGestureDetector.kt:117-136 | recomputing the readouts twice gives the same result as recomputing once |
| GestureDetector.SetListener | matrixgesturedetector/src/main/java/com/slaviboy/matrixgesturedetector/MatrixGestureDetector.kt:37 | registering a listener fires nothing, changes no other field (matrix, buffers, offset, scratch matrix, readouts, log) and keeps the detector valid |
| GestureDetector.Record | matrixgesturedetector/src/main/java/com/slaviboy/matrixgesturedetector/MatrixGestureDetector.kt:75-79 | each reported pointer's (x, y) lands at `2*id` and `2*id+1`, and the slots of unreported ids keep their values |
| GestureDetector.Solve | matrixgesturedetector/src/main/java/com/slaviboy/matrixgesturedetector/MatrixGestureDetector.kt:92 | the scratch matrix becomes the solver's result, or keeps its previous value when the solver reports failure |
| GestureDetector.OnDown | matrixgesturedetector/src/main/java/com/slaviboy/matrixgesturedetector/MatrixGestureDetector.kt:73-82 | down and pointer-down write each pointer into `source`, keep unreported slots, set the offset to 0, and change nothing else |
| GestureDetector.OnMove | matrixgesturedetector/src/main/java/com/slaviboy/matrixgesturedetector/MatrixGestureDetector.kt:84-100 | move records positions into `distance` and fails iff the solver's reads leave the buffers; otherwise it post-concatenates the solved transform, logs one call iff a listener is registered (new matrix, readouts and `source` from before the move), and copies `distance` into `source` |
| GestureDetector.OnPointerUp | matrixgesturedetector/src/main/java/com/slaviboy/matrixgesturedetector/MatrixGestureDetector.kt:102-106 | the offset becomes 2 exactly when the lifting pointer has id 0; otherwise nothing changes |
| GestureDetector.Step | matrixgesturedetector/src/main/java/com/slaviboy/matrixgesturedetector/MatrixGestureDetector.kt:64-111 | over two pointers: no change. Otherwise: readouts follow the matrix. Only a move changes matrix, scratch matrix, `distance` or log. Only down/pointer-down change `source` besides a move. Only down/pointer-down/pointer-up change the offset. Failure only on an out-of-bounds move |
| GestureDetector.StepPreservesValid | matrixgesturedetector/src/main/java/com/slaviboy/matrixgesturedetector/MatrixGestureDetector.kt:64-111 | every accepted event keeps the invariant: offset 0 or 2, readouts consistent, no notification without a listener, and the last notified matrix is the current one |
| GestureDetector.StepFailsExactly | matrixgesturedetector/src/main/java/com/slaviboy/matrixgesturedetector/MatrixGestureDetector.kt:92 | on a valid detector the solver's bounds check fails iff a two-pointer move arrives while the offset is 2 |
| GestureDetector.MoveNotifiesOnce | matrixgesturedetector/src/main/java/com/slaviboy/matrixgesturedetector/MatrixGestureDetector.kt:95-97 | an accepted move adds exactly one notification, carrying the updated matrix, iff a listener is registered |
| GestureDetector.ListenerSeesStaleReadouts | matrixgesturedetector/src/main/java/com/slaviboy/matrixgesturedetector/MatrixGestureDetector.kt:95-110 | during the callback the listener gets the updated matrix while `translate`, `scale`, `angle` decompose the matrix before the move and `source` holds the old reference; after the call the readouts follow the new matrix |
| Gestures.RunPreservesValid | matrixgesturedetector/src/main/java/com/slaviboy/matrixgesturedetector/MatrixGestureDetector.kt:64-111 | the invariant holds after any stream of events that is not aborted |
| Gestures.RunNotifications | matrixgesturedetector/src/main/java/com/slaviboy/matrixgesturedetector/MatrixGestureDetector.kt:95-97 | over a stream, the listener log grows by exactly the number of accepted moves, or by none without a listener, and earlier entries are kept |
| Gestures.NoMoveNoChange | matrixgesturedetector/src/main/java/com/slaviboy/matrixgesturedetector/MatrixGestureDetector.kt:71-107 | a stream without accepted moves never fails and leaves the matrix and the log unchanged |
| Gestures.OnePointSolve | matrixgesturedetector/src/main/java/com/slaviboy/matrixgesturedetector/MatrixGestureDetector.kt:92 | under the one-point assumption, solving one pair from slot 0 gives the translation by that slot's displacement |
| Gestures.DragSteps | matrixgesturedetector/src/main/java/com/slaviboy/matrixgesturedetector/MatrixGestureDetector.kt:73-110 | down/move/up of pointer 0 solves from (x0, y0) in slot 0 to (x1, y1), post-concatenates the result, leaves the readouts consistent, and logs one call seeing the pre-move readouts and reference (x0, y0) |
| Gestures.DragNotifiesOnce | matrixgesturedetector/src/main/java/com/slaviboy/matrixgesturedetector/MatrixGestureDetector.kt:95-97 | from any detector, a down/move/up gesture never fails and notifies exactly once when a listener is registered; the call carries the final matrix while the readouts it sees decompose the starting matrix |
| Gestures.ConstructedDragNotifiesOnce | matrixgesturedetector/src/test/java/com/slaviboy/matrixgesturedetector/MatrixGestureDetectorUnitTest.kt:29-49 | a freshly constructed detector with a listener, fed down (10,10), move (100,100), up, notifies exactly once, with its final matrix, while its readouts still show the seed |
| Gestures.DragTranslates | matrixgesturedetector/src/main/java/com/slaviboy/matrixgesturedetector/MatrixGestureDetector.kt:84-93 | under the one-point assumption, a drag adds (x1-x0, y1-y0) to the translation coefficients and keeps the four linear coefficients |
| Gestures.DragKeepsScaleAndAngle | matrixgesturedetector/src/main/java/com/slaviboy/matrixgesturedetector/MatrixGestureDetector.kt:124-135 | from a valid detector, a drag adds (x1-x0, y1-y0) to the translate readout and leaves scale and angle unchanged |
| Gestures.DragByHundredFifty | matrixgesturedetector/src/androidTest/java/com/slaviboy/matrixgesturedetector/MatrixGestureDetectorInstrumentedTest.kt:78-87 | down (0,0), move (100,50), up adds (100, 50) to translate and keeps scale and angle |
| Gestures.TwoFingerMove | matrixgesturedetector/src/main/java/com/slaviboy/matrixgesturedetector/MatrixGestureDetector.kt:73-99 | two pointers down at a, b then moved to c, d ask the solver for the two-point map (a, b) to (c, d) from offset 0, post-concatenate it, and leave both buffers holding (c, d) |
| Gestures.PrimaryLiftThenMove | matrixgesturedetector/src/main/java/com/slaviboy/matrixgesturedetector/MatrixGestureDetector.kt:102-106 | after pointer 0 lifts, the offset is 2, so the next one-pointer move of pointer 1 solves from slot 1 without a fault |

## Left out

- Floating point. Coordinates and matrix coefficients are `real`. `Float`
  rounding, NaN propagation and the bit-exact values the instrumented test
  asserts are not modelled.
- Decompose: scale and angle go through the platform's `sqrt` and
  `atan2Degrees`, which are parameters. The model states only what follows
  from the matrix coefficients and from the named assumptions. It does not
  state the numeric values 2.4 and 45 of the seeded test, because those
  values need real square roots and arctangents.
- How `Matrix.setPolyToPoly` solves the two-point case. It is a foreign
  library call, so it is a parameter. The rotate and pinch results of the
  instrumented test depend on it. `TwoFingerMove` states only which points
  are handed to the solver and how its result is composed.
- DragTranslates: holds only under `OnePointIsTranslation`, an assumption
  about the platform solver. The assumption is stated, not derived.
- DragKeepsScaleAndAngle: holds only under the same assumption.
- The state left behind by the out-of-bounds error. The source has already
  written `distance` when `setPolyToPoly` throws. The model returns the
  fault without that partial state.
- Sharing of the `Matrix` object. The constructor keeps the caller's seed
  `Matrix` without copying it (line 31), and `matrix.postConcat` updates it
  in place (line 93), so the caller's reference sees every move. The model
  treats the matrix as a value. Changes made through the caller's
  reference, such as a view calling `matrix.postRotate(...)`, and
  assignments to the public `matrix`, `scale`, `angle` and `translate`
  properties bypass `onTouchEvent`. They would break the readout
  invariant, and they are not modelled.
- What the listener does when it fires, reentrant calls and threading. The
  listener is a flag and a log of what each call could observe. The real
  listener receives the mutable `matrix` object itself; the model logs it
  as a value.
- `MotionEvent` construction and delivery, and the tests' helpers.
- Events of at most two pointers with an id outside {0, 1} or a repeated
  id. `Touch.WellFormed` excludes them as a precondition of the model. The
  first kind does occur: ids persist while a finger touches, so after three fingers go
  down and the first two lift, a move reports one pointer with id 2. The
  code then writes `distance[4]` (line 87), or `source[4]` on a later down
  (line 77), and throws an index-out-of-bounds exception. That crash is not
  modelled.
