# Custom cursor trail: a Dafny model

This project models the custom cursor of a festival website. The page hides the system pointer (src/App.tsx:7). The cursor is a React component that draws a thread that fades behind the pointer, and a small needle glyph at the pointer.

The component keeps its state in refs, which are updated in place:

- the last pointer position reported by a move event (`mousePos`);
- the position sampled by the last frame (`prevPos`);
- the trail, a list of `{x, y, age}` points, oldest first;
- a visibility flag.

A draw callback runs once per animation frame and does the following:

1. It fits the canvas to the viewport.
2. It samples the pointer.
3. It appends a point of age 0 when the pointer is visible and has moved more than 2 pixels since the previous sample.
4. It adds 1 to every point's age and drops the points whose age has reached 40.
5. It moves the needle to the sample, with opacity 1 when visible and 0 otherwise.
6. It remembers the sample and schedules itself again.

Three document event handlers update the pointer state. `mousemove` records the position and shows the cursor, `mouseleave` hides it, and `mouseenter` shows it.

The model has two modules:

- `Trail` (`trail.dfy`) holds the pure part:
  - the distance gate, computed on squared distances;
  - the map-then-filter pass `AgeAndCull`;
  - the whole per-frame trail update `StepTrail`;
  - the trail invariant `WellFormed`: ages lie in 1..39 and strictly decrease from the front (oldest) to the back (newest).

  Its lemmas prove that every frame keeps this invariant and that the trail therefore never holds more than 39 points. They also prove that a frame adds exactly one point when the pointer is visible and moved, and none otherwise. On a well-formed trail, the pass drops at most the oldest point and leaves the coordinates and order of the others untouched.
- `Cursor` (`cursor.dfy`) holds the component's state as the class `CustomCursor`. Its methods are `Frame`, `Move`, `Leave` and `Enter`. `Frame` ties the new trail to `StepTrail` of the old state and keeps `Valid()`, the trail invariant. The method `Scenario` is a client. It follows a mount, a first frame, a move from (100, 100) to (103, 100), a leave and a frame without a canvas, and it checks what the specifications promise at each step.

The browser is reduced to parameters. `Frame` takes the viewport size and three flags: whether the canvas element, the needle element and the canvas's 2D context are present.

Three facts about the code shape the model:

- `draw` returns at line 15 or 18, before `requestAnimationFrame` at line 68 (src/components/CustomCursor.tsx). So a missing canvas, needle or 2D context stops the loop. `Frame` then returns `rescheduled == false` and changes nothing.
- A new point is aged in the frame that records it, so it leaves that frame with age 1 (`StepTrailSplits`).
- The oldest point is at the front of the trail, and ages strictly decrease towards the back (`WellFormed`).

## Model

| member | source | states |
|---|---|---|
| `Cursor.CustomCursor.constructor` | src/components/CustomCursor.tsx:6-9 | On mount, the pointer and its previous sample are at (-100, -100), the trail is empty, the cursor is hidden and the trail invariant holds. The needle starts transparent, from the `opacity: 0` style at line 109. |
| `Cursor.CustomCursor.Frame` | src/components/CustomCursor.tsx:12-69 | A missing canvas, needle or 2D context stops the loop (`rescheduled` is false) and leaves every field unchanged. Otherwise the canvas takes the viewport size, and `resized` holds exactly when the old size differed. The trail becomes `StepTrail` of the old trail, sample, previous sample and visibility. `prevPos` and the needle position become the sampled position. The needle opacity follows the visibility flag. The trail invariant is preserved. |
| `Cursor.CustomCursor.Move` | src/components/CustomCursor.tsx:72-75 | A move event records the position and leaves the cursor visible. The previous sample, the trail, the canvas and the needle are unchanged. |
| `Cursor.CustomCursor.Leave` | src/components/CustomCursor.tsx:77-79 | A leave event hides the cursor. The position, the previous sample, the trail, the canvas and the needle are unchanged. |
| `Cursor.CustomCursor.Enter` | src/components/CustomCursor.tsx:81-83 | An enter event shows the cursor. The position, the previous sample, the trail, the canvas and the needle are unchanged. |
| `Cursor.Opacity` | src/components/CustomCursor.tsx:65 | The needle's opacity is 0 or 1, and it is 1 exactly when the cursor is visible. |
| `Trail.SquaredDistance` | src/components/CustomCursor.tsx:30-32 | The squared displacement is never negative, and it is zero exactly when the two positions coincide. |
| `Trail.MovedIffFartherThanMinDistance` | src/components/CustomCursor.tsx:30-34 | The integer gate `dx*dx + dy*dy > 4` holds exactly when the non-negative square root of the squared displacement exceeds 2, as the source's `Math.sqrt` test requires. |
| `Trail.Aged` | src/components/CustomCursor.tsx:40 | The map step keeps the length and the order. Each point keeps its coordinates and gains one frame of age. |
| `Trail.Cull` | src/components/CustomCursor.tsx:41 | The filter step never lengthens the trail. |
| `Trail.CullMembers` | src/components/CustomCursor.tsx:41 | The filter keeps exactly the points younger than 40. |
| `Trail.CullAppend` | src/components/CustomCursor.tsx:41 | Filtering a concatenation is the concatenation of the filtered parts, so survivors keep their relative order. |
| `Trail.AgeAndCull` | src/components/CustomCursor.tsx:39-41 | The age-and-cull pass never lengthens the trail. |
| `Trail.AgeAndCullMembers` | src/components/CustomCursor.tsx:39-41 | Every survivor is an aged copy of a trail point, with the same coordinates and an age below 40. Every point whose aged copy is younger than 40 survives. |
| `Trail.AgeAndCullDropsOldest` | src/components/CustomCursor.tsx:39-41 | On a well-formed trail, the pass removes only the front point, and only when its age is 39. Every other point is aged in place, with its coordinates and order unchanged. |
| `Trail.StepTrailSplits` | src/components/CustomCursor.tsx:29-41 | A frame's trail is the age-and-cull pass over the old trail, followed by one point at the sampled position with age 1 exactly when the cursor is visible and the pointer moved. So a frame adds at most one point, and a hidden cursor or a still pointer adds none. |
| `Trail.StepAppendsIffVisibleAndMoved` | src/components/CustomCursor.tsx:34-36 | On a well-formed trail, after a frame some point has age 1 exactly when the cursor was visible and the pointer moved more than 2 pixels. That point is then the newest one, at the sampled position. |
| `Trail.StepPreservesWellFormed` | src/components/CustomCursor.tsx:34-41 | Every completed frame keeps ages within 1..39 and strictly decreasing from the oldest point to the newest. |
| `Trail.OldestFirstLength` | src/components/CustomCursor.tsx:39-41 | A trail whose ages strictly decrease within lo..hi holds at most hi - lo + 1 points. |
| `Trail.WellFormedLength` | src/components/CustomCursor.tsx:34-41 | A well-formed trail holds at most 39 points. |

## Left out

- Stroke rendering (src/components/CustomCursor.tsx:26, 43-58): clearing the canvas and stroking each segment are calls into the Canvas 2D API. They use floating-point alpha and line-width formulas and change no state that the model keeps.
- Needle rotation (src/components/CustomCursor.tsx:61, 64): `Math.atan2` and the `rotate(...)` transform string are floating-point trigonometry. The model keeps the needle's position and opacity only.
- Frame scheduling and listener lifecycle (src/components/CustomCursor.tsx:68, 85-97): `requestAnimationFrame`, `cancelAnimationFrame` and the registration and removal of the three document listeners belong to the browser. A frame's decision to schedule the next one is the `rescheduled` result of `Frame`. Mounting and unmounting are not modelled beyond the constructor. The model does not stop later frames after one that returned `rescheduled == false`: the class still lets `Frame` run again, although nothing in the source calls `draw` after such a return.
- Coordinates: the source's pointer coordinates are JavaScript numbers. The model takes them as integers, so the squared distance is exact and the `Math.sqrt` comparison becomes an integer comparison (`MovedIffFartherThanMinDistance` shows that the two agree).
- Cursor.Opacity: the source writes the CSS strings `'1'` and `'0'`. The model keeps the number 1 or 0 instead.
- Cursor.CustomCursor.constructor: the initial canvas size of 300 by 150 is the default size of an HTML canvas element whose size was never assigned. The source does not set it.
- The needle's `left`/`top` styles are modelled as the sampled `Point` instead of `"<n>px"` strings. They are `None` until the first completed frame.
- `ScrollSections` (src/components/ScrollSections.tsx:15-55) only passes pinning and cross-fade configuration to the GSAP ScrollTrigger library and computes nothing itself, so it is not part of this model.
- The remaining components and `src/App.tsx` contain fixed content, layout and animation settings, and they are not part of this model.
