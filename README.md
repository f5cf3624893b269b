# Interactive Verlet rope: a Dafny model

This project models the physics core of a small canvas demo. The demo draws a
rope of 21 point masses (indices 0 to 20) joined by distance constraints. Each
animation frame does two passes over the points. The first is a damped Verlet
step under gravity for every interior point. The second is one left-to-right
Gauss-Seidel sweep that pulls each adjacent pair toward the rest length of 40.
A pointer can grab the nearest point and drag it. A button toggles whether the
last point is pinned.

The model has two modules:

- `RopePhysics` (`rope_physics.dfy`) holds the point record and the
  constants of `app.js`. It gives each pass as a function over the sequence of
  points. `Updated` is the integration pass. `RelaxPair` corrects one pair,
  `Relaxed` is the left fold of `RelaxPair` over the first `k` pairs, and
  `Constrained` is the whole sweep. The lemmas prove the frame conditions, the
  pin invariance and the geometry of one pair correction.
- `RopeApp` (`rope_app.dfy`) holds the mutable state of `app.js` as class
  `Rope`. Its fields are the array of points, the square root `sqrt`,
  `bothEndsFixed`, `isMouseDown` and `selectedPointIndex`.
  - `UpdatePoints` and `ConstrainPoints` run the source's loops in place. Each
    is proved equal to the matching function of `RopePhysics`.
  - `ToggleRopeFix` is proved equal to `WithEndFixed`.
  - `MouseDown`, `MouseMove` and `MouseRelease` have no loop. Their contracts
    give the new state directly.
  - `ClosestPointIndex` is the linear arg-min scan.

The points are an `array<Point>` of value records. `Point` has the fields
`x`, `y`, `oldX`, `oldY` and `isFixed`. In `app.js` only the array refers to
the point objects, so writing a whole record back is the same as writing its
fields. The `isFixed` property is undefined on interior points, so the model
sets it to `false`. Coordinates are `real`.

`Math.sqrt` is code outside the model. Each function and class that uses it
takes a `sqrt: real -> real` parameter. The predicate `IsSqrt` requires that
result to be non-negative and to square back to its argument on non-negative
inputs. `ClosestPointIndex` compares roots exactly as `app.js` does. Its
contract, `IsFirstClosest`, is stated with squared distances. The lemma
`SqrtMonotone` links the two, and it follows from `IsSqrt`.

**Coincident points.** When two adjacent points coincide, `constrainPoints`
divides by a distance of zero. In IEEE arithmetic that turns both
coordinates into NaN. The model skips the pair instead. `RelaxPair` returns
the rope unchanged, and `Rope.CorrectPair` writes nothing.

**Integration and pins.** `updatePoints` never reads `isFixed`
(app.js:22-35). It moves every interior point, pinned or not, and never
index 0 or the last index (app.js:23). The end pin is flipped by
`toggleRopeFix` (app.js:160-163).

## Model

| member | source | states |
|---|---|---|
| `RopePhysics.InitialPoints` | app.js:13-20 | The start-up rope: 21 points along a horizontal line, spaced exactly `PointDistance` apart, at rest (`oldX == x`, `oldY == y`), with only the two ends fixed (`PinnedEnds(r, true)`) |
| `RopeApp.Rope.constructor` | app.js:96-97 | Builds the points in a loop, then fixes indices 0 and `NumPoints`. The result equals `InitialPoints()`, the class invariant holds, `bothEndsFixed` is true and nothing is selected |
| `RopePhysics.Integrated` | app.js:27-33 | One point's Verlet step: the old position becomes the current one, the flag is kept, and the new implied velocity (`x - oldX`, `y - oldY`) is the previous one times `Friction`, plus `Gravity` on y |
| `RopePhysics.Updated` | app.js:22-35 | Integration keeps the length. It leaves index 0 and the last index completely unchanged whatever their flags. Each interior point gets `oldX, oldY := x, y`, `x += (x - oldX) * Friction` and `y += (y - oldY) * Friction + Gravity`. No flag changes |
| `RopePhysics.UpdatedKeepsPins` | app.js:22-35 | Integration keeps the rope's pin layout (first point fixed, last fixed exactly when `bothEndsFixed`, interior free) |
| `RopeApp.Rope.UpdatePoints` | app.js:22-35 | The in-place loop leaves the array equal to `Updated` of the old array, and the class invariant holds |
| `RopePhysics.Separation` | app.js:42-44 | The distance of a pair. With a true square root it is non-negative and its square is `dx * dx + dy * dy` |
| `RopePhysics.Percent` | app.js:45-46 | `percent` is defined only when the distance is non-zero. Twice `percent` times the distance is the length error `pointDistance - distance`, so `percent` is zero exactly when the pair is at rest length |
| `RopePhysics.Nudged` | app.js:50-57 | A fixed point is returned unchanged. A free point moves by the given offset in x and y, and its `oldX`, `oldY` and flag are kept |
| `RopePhysics.RelaxPair` | app.js:40-57 | One pair correction touches only indices `i` and `i + 1`. It changes no flag, `oldX` or `oldY`. It never moves a fixed point, even one that belongs to two pairs |
| `RopeApp.Rope.CorrectPair` | app.js:40-57 | The loop body for pair `i`, run in place, leaves the array equal to `RelaxPair` of the old array |
| `RopePhysics.Relaxed` | app.js:39-58 | The sweep after its first `k` pairs is a left fold of `RelaxPair` in ascending order. It has not touched any index above `k`, keeps every flag, `oldX` and `oldY`, and leaves fixed points in place |
| `RopePhysics.Constrained` | app.js:38-59 | The whole constraint pass keeps the length, every flag, `oldX` and `oldY`, and leaves every fixed point exactly as it was |
| `RopeApp.Rope.ConstrainPoints` | app.js:38-59 | The in-place sweep leaves the array equal to `Constrained` of the old array, and the class invariant holds |
| `RopePhysics.ConstrainedKeepsPins` | app.js:50-57 | The constraint pass keeps the rope's pin layout |
| `RopePhysics.FreePairCorrection` | app.js:45-57 | When both ends of a pair are free and distinct, the correction subtracts the offset from one end and adds it to the other. The pair's midpoint stays put, and its displacement becomes `d * (1 + 2 * percent)` |
| `RopePhysics.FreePairReachesRestLength` | app.js:42-57 | When both ends of a pair are free and distinct, the pair is exactly `PointDistance` apart after its correction |
| `RopePhysics.HalfFixedPairHalvesGap` | app.js:42-57 | When exactly one end of a pair is fixed, the correction halves the pair's gap to `PointDistance` |
| `RopePhysics.RestPairUnchanged` | app.js:42-57 | A pair exactly `PointDistance` apart, in any direction, is left unchanged by its correction |
| `RopePhysics.LevelPairAtRestLength` | app.js:42-44 | A level pair `PointDistance` apart horizontally has distance `PointDistance`, as on the start-up rope |
| `RopePhysics.InitialPrefixStable` | app.js:39-58 | On the start-up rope, every prefix of the sweep leaves the rope unchanged (induction over the pairs) |
| `RopePhysics.InitialRopeIsStable` | app.js:38-59 | A constraint sweep on the start-up rope leaves it exactly as it is |
| `RopePhysics.FrameKeepsFixedPoints` | app.js:88-91 | On a rope whose interior points are all free, one frame (integrate, then relax) leaves every fixed point exactly where it was |
| `RopeApp.Rope.Animate` | app.js:88-91 | One frame leaves the array equal to `Constrained(Updated(old))`, and the class invariant holds |
| `RopePhysics.SqrtMonotone` | app.js:111-113 | For non-negative arguments, comparing square roots is the same as comparing the arguments, so the scan's comparison of distances is a comparison of squared distances |
| `RopeApp.ClosestPointIndex` | app.js:104-120 | Returns -1 exactly when there are no points. Otherwise it returns an in-range index whose squared distance to the pointer is at most every point's and strictly below every earlier index's, so the first minimum wins ties |
| `RopeApp.Rope.MouseDown` | app.js:122-131 | Selects the first nearest point and starts a drag. Points and the pin flag are unchanged |
| `RopeApp.Rope.MouseMove` | app.js:133-146 | During a drag with a selection, overwrites only the selected point's `x` and `y`, even when that point is fixed. Otherwise nothing changes |
| `RopeApp.Rope.MouseRelease` | app.js:148-156 | Ends the drag and clears the selection. Points and the pin flag are unchanged |
| `RopeApp.Rope.ToggleRopeFix` | app.js:160-163 | Negates `bothEndsFixed` and writes the new value into the last point's flag only. No coordinate changes, and index 0 stays fixed |
| `RopePhysics.WithEndFixed` | app.js:161-162 | Only the flag of the last point (index `NumPoints`) changes, to the given value. Every other point and every other field stay as they were |
| `RopePhysics.ToggleTwiceRestores` | app.js:158-163 | Toggling gives a consistent pin layout and moves no point. Toggling twice restores the original rope |

## Left out

- Canvas set-up, `drawRope`, gradients, shadows and `clearRect` (app.js:1-5, 61-86) are left out. They are drawing calls into the browser.
- `requestAnimationFrame` and the registration of event listeners (app.js:93, 99, 122, 133, 148, 153, 167) are left out. They are host scheduling. The handler bodies are modelled as methods, and `Animate` is one frame's physics.
- The conversion from client to canvas coordinates with `getBoundingClientRect` (app.js:123-127, 136-140) is left out. It is browser geometry. The handlers take canvas coordinates directly.
- `classList.toggle` on the button (app.js:164) is left out. It is DOM styling.
- `Math.sqrt` is a parameter constrained by `IsSqrt`. The model has no square-root implementation.
- IEEE-754 rounding, NaN and Infinity are left out. Arithmetic is exact over `real`.
- RopePhysics.RelaxPair: skips a pair whose points coincide. `app.js` divides by zero there and writes NaN into the pair's free coordinates. `real` cannot represent NaN. The NaN then spreads. In the same sweep, every later pair reads its NaN neighbour (app.js:42-48), so NaN moves rightwards to the end of the rope. In each later frame it moves one more index to the left. After one coincidence, the model and the program differ on every free point of the rope, not only on that pair.
- RopeApp.Rope.ConstrainPoints: inherits the skip of coincident pairs from `RelaxPair`.
- RopeApp.ClosestPointIndex: keeps `closestDist = Infinity` as the state where no index is selected yet (`closestIndex == -1`), not as a number.
- RopeApp.Rope.MouseDown: `Valid` fixes the rope at 21 points, so the -1 result of `ClosestPointIndex` cannot reach this method. `ClosestPointIndex` itself is stated for arrays of any length, the empty one included.
- Convergence over many frames and energy decay are left out. They are numerical behaviour, and the code promises neither.
