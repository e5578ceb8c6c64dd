# Portfolio page: digital rain, section tracker and typewriter

This project models the three pieces of stateful logic in the `Portfolio`
component of a single-page portfolio site (`app/page.tsx`), and proves
properties of the model in Dafny.

- **Digital rain** (`matrix_rain.dfy`, module `MatrixRain`). The canvas is
  covered by columns of 14-pixel glyph cells. `drops` holds one row offset per
  column. It is seeded at mount, advanced on each timer tick, and reseeded on
  window resize. Class `Rain` holds the canvas size, the column count fixed at
  mount, and `drops` as an `array<int>` that the methods update in place.
  Each call of `Math.random()` is an input to the model:
  - The seeding loops take one sample `u = floor(Math.random() * height)` per
    column, so `u < height`, or `u == 0` when the height is 0. Dividing by the
    whole number 14 before or after taking the floor gives the same value, so
    the row is `u / 14`.
  - A tick takes one `Dice` per column: the glyph index, the glow draw, the
    bottom-reset draw and the random-reset draw.

  Instead of painting, `Tick` returns the list of glyph cells it would draw:
  glyph index, x, y and glow.
- **Section tracker** (`section_tracker.dfy`, module `SectionTracker`).
  - Class `Tracker` holds the `activeSection` state and the set of section ids
    that carry the `section-visible` class.
  - The state starts at `"home"` with no section marked.
  - `Observe` handles one batch of visibility entries, in order.
- **Typewriter** (`typewriter.dfy`, module `Typewriter`).
  - Class `TitleTyper` holds the counter `i`, the text typed so far and the
    `typingComplete` flag.
  - `Step` is one call of the `typeWriter` callback. It returns whether the
    callback rescheduled itself.
  - The lemmas follow the whole chain of calls, from mount to completion.

`columns` is computed once, at mount (`app/page.tsx:79`). Resize never
recomputes it and reseeds exactly those columns (`app/page.tsx:136`). So
`Rain.columns` is a `const`, and `Resize` keeps the length of `drops`.

As written, the rain never starts. Its effect has no dependencies
(`app/page.tsx:147`), so it runs once, after the first render. At that point
`isLoading` is still `true` (`app/page.tsx:19`), and the component renders the
loading screen (`app/page.tsx:240-253`). The loading screen has no
`<canvas ref={matrixCanvasRef}>`. So `matrixCanvasRef.current` is null, and
the effect returns at line 66 on its only run: lines 71-146 never execute.
`Rain` models the effect body as it runs when a canvas is present. The
typewriter effect (dependencies `[isLoading]`) and the observer effect
(dependencies `[sections]`, a fresh array on every render) run again after
loading, so they are not affected.

## Model

| member | source | states |
|---|---|---|
| `MatrixRain.SampleRow` | app/page.tsx:83 | the seeded row is the floor of the sample over 14, at most height / 14, and strictly above the bottom edge when the canvas has height |
| `MatrixRain.InitialDrops` | app/page.tsx:78-84 | one drop per sample, each in [-(height / 14), 0], and its distance above the top is less than the height |
| `MatrixRain.ReseededDrops` | app/page.tsx:133-139 | one drop per sample, each in [0, height / 14], and above the bottom edge when the canvas has height |
| `MatrixRain.Resets` | app/page.tsx:118-125 | a reset needs one of the two reset draws; at or above the bottom only the random reset counts; the random reset always counts |
| `MatrixRain.TickCell` | app/page.tsx:117-127 | a column becomes old + 1 or exactly 1; it becomes 1 when a reset fires, and old + 1 otherwise; a column at or above the bottom whose random reset does not fire becomes old + 1 |
| `MatrixRain.Ticked` | app/page.tsx:99-128 | a tick keeps the number of columns, and each column becomes old + 1 or 1, according to whether its reset fires |
| `MatrixRain.CellAt` | app/page.tsx:109-113 | the cell of column k lies at x = k * 14 inside the columns' width, from which k is recovered; it lies below the top edge exactly when drops[k] > 0; it carries the column's glyph and glow draws |
| `MatrixRain.Painted` | app/page.tsx:99-115 | at most one glyph per column, each below the top edge and inside the columns' width, painted left to right |
| `MatrixRain.PaintedExactly` | app/page.tsx:100-115 | a cell is painted if and only if it is the cell (i * 14, drops[i] * 14, pre-advance) of a column i whose drops[i] * 14 is positive |
| `MatrixRain.PaintedCovers` | app/page.tsx:103-114 | every column whose drops[i] * 14 is positive paints its cell |
| `MatrixRain.PaintedGlyphs` | app/page.tsx:100 | every painted glyph index lies in [0, Matrix.length) |
| `MatrixRain.TickRounds` | app/page.tsx:131 | repeated ticks with no resize keep the number of columns |
| `MatrixRain.TickRoundsBounds` | app/page.tsx:117-127 | after N ticks a column has advanced by exactly N, or else it was reset and now lies in [1, N] |
| `MatrixRain.TickRoundsWithoutReset` | app/page.tsx:117-127 | a column that no tick resets advances by exactly N over N ticks; a tick resets it when its random reset fires, or when its bottom reset fires while the drop, as it stands before that tick, is past the bottom |
| `MatrixRain.Rain.constructor` | app/page.tsx:71-84 | mount sets the canvas size, fixes columns to floor(width / 14), and seeds drops to InitialDrops, each in [-(height / 14), 0] |
| `MatrixRain.Rain.Tick` | app/page.tsx:90-129 | one tick returns the glyphs Painted from the old drops, all of them of the alphabet, and sets drops to Ticked of the old drops at the current height |
| `MatrixRain.Rain.Resize` | app/page.tsx:133-139 | resize stores the new size, keeps the mount-time column count, and reseeds every drop into [0, newHeight / 14] |
| `SectionTracker.Apply` | app/page.tsx:153-158 | after a batch, the active section is the one before it, or the id of one of its intersecting entries |
| `SectionTracker.Marked` | app/page.tsx:156 | a batch marks at most as many sections as it has entries |
| `SectionTracker.MarkedExactly` | app/page.tsx:154-156 | an id is marked by a batch if and only if some intersecting entry of the batch carries it |
| `SectionTracker.ApplyNoneIntersecting` | app/page.tsx:152-158 | a batch with no intersecting entry leaves the active section unchanged |
| `SectionTracker.ApplyLastWins` | app/page.tsx:152-158 | after a batch, the active section is the id of its last intersecting entry |
| `SectionTracker.ApplyConcat` | app/page.tsx:151-159 | handling two batches one after the other gives the same active section as handling their concatenation |
| `SectionTracker.MarkedConcat` | app/page.tsx:156 | two batches mark the same sections visible as their concatenation |
| `SectionTracker.ApplyStaysAmongSections` | app/page.tsx:18 | when the active section and every reported id are among the five observed sections, the active section stays among them |
| `SectionTracker.Tracker.constructor` | app/page.tsx:16 | the active section starts as "home", the first section, and no section is marked visible |
| `SectionTracker.Tracker.Observe` | app/page.tsx:151-159 | the active section becomes the last intersecting entry's id, or stays unchanged if there is none; the visible set grows by exactly the intersecting ids and never shrinks |
| `Typewriter.Next` | app/page.tsx:207-215 | a call types the next character and advances i when i < length; otherwise it sets completion; completion holds afterwards exactly when it held before or i had reached the length; the typed-prefix invariant is kept |
| `Typewriter.Reschedules` | app/page.tsx:208-213 | a call schedules the next call exactly when it types a character; a call that does not reschedule sets completion |
| `Typewriter.Steps` | app/page.tsx:211-217 | a chain of k calls keeps the typed-prefix invariant, advances i by at most k and never clears completion |
| `Typewriter.StepsFrom` | app/page.tsx:207-215 | from the prefix text[..j], k more calls reach the prefix of length min(j + k, length), and typing is complete exactly when j + k exceeds the length |
| `Typewriter.CompleteIsFinal` | app/page.tsx:212-214 | once the whole text is typed and completion is set, further calls change nothing |
| `Typewriter.TypedAfter` | app/page.tsx:204-217 | after k calls from the start, i == min(k, length) never exceeds the length, the output is text[..i] (text[..k] when k <= length), and typing is complete exactly when k > length |
| `Typewriter.ChainRunsOnce` | app/page.tsx:207-217 | each of the first length calls reschedules the callback; the call after them does not, and it leaves the whole text typed with completion set |
| `Typewriter.TitleTyper.constructor` | app/page.tsx:204-205 | the effect starts with i = 0, empty output and typing not complete |
| `Typewriter.TitleTyper.Step` | app/page.tsx:207-215 | one callback call moves the state by Next, keeps the typed-prefix invariant, reports whether it rescheduled (i < length), and sets completion exactly when it runs with i == length |

## Left out

- Canvas drawing is not modelled: the fading `fillRect`, fill colours, the font and the shadow settings (`app/page.tsx:92-97`, `106-111`). These are calls to the browser's rendering API. `Tick` returns the glyph cells it would draw instead.
- Probability is not modelled. Each `Math.random()` call is an input. The 0.98, 0.975 and 0.995 thresholds only decide whether a `Dice` flag is set.
- The model does not count how many random numbers a tick draws. The glow draw and the bottom-reset draw are only taken when their guards hold (the `&&` on line 118 short-circuits). In the model every column receives all four draws, and the unused ones are ignored.
- The drops are JavaScript numbers (doubles). The model uses unbounded integers, so it does not capture the precision lost once a drop passes 2^53, which would take 2^53 ticks.
- Timers and lifecycle are not modelled: `setInterval`, `setTimeout`, the 1500 ms loading timer, the `isLoading` gate on the typewriter, and `clearInterval` and listener removal in the effect cleanups. This is scheduling plumbing with no data of its own. The order of calls is what the model's methods and `Steps` and `TickRounds` stand for.
- The early returns are not modelled. The missing-canvas return (`app/page.tsx:65-66`) is the branch always taken as the page is written (see above); the model follows the effect as it would run with a canvas present. The missing-context return (`app/page.tsx:68-69`) and the missing `job-title` element (`app/page.tsx:201-202`) are DOM lookups that end the effect before any state exists.
- The viewport geometry of the visibility observers is not modelled (threshold 0.3, root margin), nor are `getElementById` and `querySelectorAll`. Entry batches are inputs. The second observer, which adds `animate-in` (`app/page.tsx:169-183`), is left out for the same reason.
- React batches state updates asynchronously. The model keeps the value of `activeSection` after the batch, which is the last value set.
- The scroll and mousemove listeners, the parallax offsets, `handleTilt`, the SVG dash offsets and the viewport meta tag are not modelled. They are DOM I/O and floating-point visual computations.
- All JSX markup, the static content arrays, and `app/layout.tsx` are not part of this model. They are static layout with no behaviour.
