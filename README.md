# ScrollRectExtra in Dafny

This project models the two pieces of logic in the `ScrollRectExtra` scroll widget
(`Runtime/ScrollRectExtra/ScrollRectExtra.cs`) and proves their properties.

- **Selection tracker.** Once per frame, `UpdateSelected` scans the children of the
  content container in order. It keeps the child whose x-position is nearest the
  centre; because the test is a strict `<`, the earliest child wins a tie. It then
  shifts `currentSelected` into `prevSelected` and stores the new choice. When the
  choice changed, it raises these notifications in order: the select hook of the new
  item, the deselect hook of the old item, focus on the new item, and the
  selection-changed event.
- **Snap controller.** A drag end calls `MagnetScroll`. It stops any running snap
  session and starts a new one. The session waits until `|velocity.x| <= minSpeedToSnap`,
  then stops the scroll's own motion. It fixes `start = content.x` and
  `target = start + difference`, where `difference` is the distance from the selected
  item to the viewport centre. Then, while `timer < duration`, each frame writes
  `Lerp(start, target, timer / duration)` and adds the frame's `dt` to `timer`.

Files and modules:

- `numeric.dfy` (`Numeric`): absolute value on reals.
- `wrappers.dfy` (`Wrappers`): `Option`, which stands for a nullable reference.
- `selection.dfy` (`Selection`): the pure part of the tracker.
  - `IsNearestChild` specifies the nearest child: the lowest-index minimiser of the distance.
  - `Nearest` is the scan's result as a function.
  - `Reselect` gives the new selection.
  - `Notifications` gives the notices, in order.
  - `Track` runs the tracker over a sequence of frames.
- `snapping.dfy` (`Snapping`): the snap controller as a tick-driven state machine.
  - `Session` has three states: `Idle`, `Waiting` and `Animating(start, target, timer, duration)`.
  - `Animate` is one pass of the animation loop.
  - `SnapTick` is one frame of a session.
  - `Run` is many frames with the same `dt`.
- `scroll_rect_extra.dfy` (`ScrollRectWidget`): the class `ScrollRectExtra`.
  - Its fields are `minSpeedToSnap`, `snapSpeed`, `currentSelected`, `prevSelected` and `snapRoutine`.
  - `UpdateSelected` runs the scan loop and is proved against `Nearest`, `Reselect` and `Notifications`.
  - `MagnetScroll` does the cancel-then-start.
  - `Tick` does one frame of the session and is proved against `SnapTick`.

Host inputs become parameters:

- the children of this frame, each an `ItemId` and a world x-position;
- the centre value used by the scan;
- the sets of items that carry a select hook or a deselect hook;
- for a snap frame: `dt`, the horizontal scroll speed, the content's x-position, the
  viewport centre and each item's x-position.

What the host is asked to do comes back as values:

- `UpdateSelected` returns a list of `Notice` values.
- `Tick` returns a list of `HostEffect` values: `StopMovement`, `MoveContent(x)`, or
  `NullReference` when no item is selected as the animation starts.

Two consequences of the code's timing:

- With threshold 100 and speeds 200, 150, 90, the animation starts on the third frame,
  because the test is `<=` and 90 is already below 100. See `Snapping.WaitScenario`.
- With duration 0.1 and frames of 0.05, the frame that enters the animation already
  runs the loop once and writes the start position (parameter 0). The next frame writes
  the halfway point, and the frame after that ends the session without a write. See
  `Snapping.WaitScenario` and `Snapping.AnimateScenario`.

## Model

| member | source | states |
|---|---|---|
| Selection.Nearest | Runtime/ScrollRectExtra/ScrollRectExtra.cs:91-103 | the scan finds nothing exactly when there are no children; otherwise the chosen index is a child at minimal distance from the centre, and every earlier child is strictly farther (ties go to scan order) |
| Selection.NearestChildUnique | Runtime/ScrollRectExtra/ScrollRectExtra.cs:94-102 | the lowest-index nearest child is unique, so the strict comparison fixes the choice |
| Selection.NearestExample | Runtime/ScrollRectExtra/ScrollRectExtra.cs:91-103 | children at x = 0, 50, 120 with centre 60 select the child at 50 |
| Selection.NearestTieExample | Runtime/ScrollRectExtra/ScrollRectExtra.cs:99 | two children equally far from the centre: the earlier one is kept |
| Selection.Reselect | Runtime/ScrollRectExtra/ScrollRectExtra.cs:105-107 | with no children the selection is unchanged; otherwise it is the id of a nearest child; a set selection is never cleared |
| Selection.Notifications | Runtime/ScrollRectExtra/ScrollRectExtra.cs:110-116 | no notice at all exactly when the selection is unchanged; on a change the list has exactly 2 notices plus one per hook that fires: select on the new item only if it exists and has the hook, deselect on the old item only if it exists and has the hook, select before deselect, then focus on the new item second to last, then selection-changed(prev, current) last, each of the last two exactly once |
| Selection.Track | Runtime/ScrollRectExtra/ScrollRectExtra.cs:81-83 | the tracker runs once per frame; frames that all have no children leave the selection as it was, and otherwise the selection is the initial one or the id of a child seen in some frame |
| Selection.SelectionNeverCleared | Runtime/ScrollRectExtra/ScrollRectExtra.cs:105-107 | over any sequence of frames, once something is selected the selection stays non-null |
| Selection.TrackFollowsLastFrame | Runtime/ScrollRectExtra/ScrollRectExtra.cs:81-107 | after frames ending in a frame with children, the selection is a nearest child of that last frame |
| ScrollRectWidget.ScrollRectExtra.constructor | Runtime/ScrollRectExtra/ScrollRectExtra.cs:23-28 | threshold 100, duration 0.1, nothing selected, no snap session |
| ScrollRectWidget.ScrollRectExtra.UpdateSelected | Runtime/ScrollRectExtra/ScrollRectExtra.cs:85-118 | prevSelected becomes the entry value of currentSelected; currentSelected becomes a nearest child (unchanged with no children, never back to null); the returned notices are exactly the ordered notifications of that transition, and focus is never set to null |
| ScrollRectWidget.ScrollRectExtra.MagnetScroll | Runtime/ScrollRectExtra/ScrollRectExtra.cs:51-58 | whatever session was running is replaced by one fresh waiting session, so at most one session exists |
| ScrollRectWidget.ScrollRectExtra.AnimationStep | Runtime/ScrollRectExtra/ScrollRectExtra.cs:74-78 | one pass of the animation loop: the new session and the written positions equal those of `Animate` |
| ScrollRectWidget.ScrollRectExtra.Tick | Runtime/ScrollRectExtra/ScrollRectExtra.cs:60-79 | one frame of the session: the new session and the host effects equal those of `SnapTick`, with the difference taken from the current selection, and the session invariant is kept |
| Snapping.Clamp01 | Runtime/ScrollRectExtra/ScrollRectExtra.cs:75 | the engine's Lerp parameter is clamped to [0, 1]: left unchanged inside it, 0 below it and 1 above it |
| Snapping.LerpEndpoints | Runtime/ScrollRectExtra/ScrollRectExtra.cs:75 | the clamped interpolation gives the start position for parameters up to 0 and the target from 1 on |
| Snapping.Animate | Runtime/ScrollRectExtra/ScrollRectExtra.cs:74-78 | the loop ends, with no write, exactly when timer >= duration; otherwise it writes exactly one position, the interpolation at timer / duration, which lies in [0, 1), and advances the timer by dt, keeping start, target and duration |
| Snapping.SnapTick | Runtime/ScrollRectExtra/ScrollRectExtra.cs:60-79 | no session does nothing; a waiting session stays waiting with no effect while the speed is above the threshold, and equality is enough to proceed; on proceeding it first stops the scroll; with no selection it reports the null reference and ends; with duration <= 0 it writes nothing and ends; otherwise it fixes start = content x and target = start + difference and writes start; a running session keeps its start, target and duration; every written position is an interpolation of the session's start and target at a parameter in [0, 1) |
| Snapping.LerpBeforeTarget | Runtime/ScrollRectExtra/ScrollRectExtra.cs:74-75 | a parameter below 1 stops strictly short of the target whenever start and target differ, so the target itself is never written |
| Snapping.LerpMonotone | Runtime/ScrollRectExtra/ScrollRectExtra.cs:75 | a larger parameter moves the written position further from start and towards target, never past it |
| Snapping.Run | Runtime/ScrollRectExtra/ScrollRectExtra.cs:74-78 | n frames write at most n positions |
| Snapping.RunInterpolates | Runtime/ScrollRectExtra/ScrollRectExtra.cs:72-78 | the k-th written position is the interpolation at the timer after k frames, and that timer lies in [0, duration), so writes follow time order with parameters in [0, 1) |
| Snapping.RunMonotone | Runtime/ScrollRectExtra/ScrollRectExtra.cs:74-77 | the positions written frame after frame move steadily from start towards target: a later write is never behind an earlier one and none passes the target |
| Snapping.AnimationTerminates | Runtime/ScrollRectExtra/ScrollRectExtra.cs:72-78 | with a fixed dt > 0 and n frames covering the remaining time, the session has ended after n + 1 frames, having written at most n positions |
| Snapping.AnimationEnds | Runtime/ScrollRectExtra/ScrollRectExtra.cs:74 | with a fixed dt > 0 every running session ends after finitely many frames |
| Snapping.WaitScenario | Runtime/ScrollRectExtra/ScrollRectExtra.cs:62-75 | speeds 200 and 150 against threshold 100 keep the session waiting; speed 90 enters the animation, stops the scroll and writes the start position |
| Snapping.AnimateScenario | Runtime/ScrollRectExtra/ScrollRectExtra.cs:72-78 | duration 0.1 and frames of 0.05: the frame after entry writes the halfway point, and the next ends the session without a write |

## Left out

- Unity lifecycle and gating: `OnEnable` is not modelled. It focuses child 0 without touching `currentSelected`. The `Update` guard on `activeInHierarchy` and `Application.isPlaying` is not modelled either: calling `UpdateSelected` stands for a frame in which the guard passed.
- `OnBeginDrag` and `OnEndDrag` only forward to the base class and invoke the drag events. A drag end is the call to `MagnetScroll`.
- `GetComponent`, `EventSystem.current.SetSelectedGameObject` and the `UnityEvent` invocations are host calls. They appear only as `Notice` values. Which items carry a select or deselect hook is given as two sets of ids.
- Coroutine scheduling is replaced by explicit calls. This covers `StartCoroutine`, `StopCoroutine`, `WaitUntil`, `yield return null` and `Time.deltaTime`. `MagnetScroll` leaves a waiting session, and each later frame is one call to `Tick` with that frame's `dt` (never negative). When exactly in a frame the engine first evaluates the wait condition is not modelled. Neither is the order in which `Update` and the coroutine run within one frame.
- The finished coroutine's handle stays non-null in the source. The model uses `Idle` for it. This is harmless, because stopping a finished coroutine has no effect.
- Floating point is not modelled. `float`, `Mathf.Abs`, `Vector3.Lerp` and the accumulating `timer` use exact `real` arithmetic. The clamping of the Lerp parameter is kept.
- Geometry is not modelled. The centre compared in the scan and the `difference` computed at animation entry are inputs, and transforms are not modelled. Only the x component is modelled, because the y and z parts of the offset are 0. `Vector3.Lerp` also writes y and z each frame, pinning them to their values at animation entry. The model does not capture this, so a change to y or z by another writer during the animation is not modelled.
- The null dereference of `currentSelected` when the animation starts is modelled as a `NullReference` effect that ends the session. It is neither a precondition nor a no-op.
- Content position: another writer, namely the scroll's own motion or a new drag, can move the content between frames. So `Tick` reads the content's x-position as an input, and its writes come back as `MoveContent` effects rather than as a stored field.
- Item identity: children are compared by their `ItemId`, which stands for the game object's reference identity.
- Snapping.AnimationTerminates: termination is proved for a fixed positive `dt`. When `dt` varies from frame to frame, its values can shrink fast enough that the timer never reaches the duration, so no bound holds in general.
- `Runtime/EzRoutine.cs` is a stop-then-start wrapper over the coroutine API with no logic of its own. The same stop-then-start shape is modelled in `MagnetScroll`.
