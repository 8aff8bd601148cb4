# Tile puzzle: a verified model

A picture is cut into an N x N grid of tiles. Every tile carries the id of the
cell it was cut from: `"row-col"`, 1-based. The tiles are shuffled. The player
exchanges tiles by drag-and-drop until every tile is back in its own cell. A
set of "correct tiles" records the cells whose tile is at home. When that set
holds N * N ids, a fireworks animation is launched.

The model covers three parts.

- Puzzle logic in `src/utils.ts`:
  - the cell-id codec, `transformRowAndCol` and `getActualRowAndCol`;
  - the slicing loop of `preparePuzzle`;
  - the Fisher-Yates pass `shuffleGridArr`, with the ids it reports to
    `updateCorrectTiles`;
  - the aspect-ratio fit, `getCanvasHeightAndWidth`.
- The `App` component in `src/App.tsx`, as a class. Its fields are the React
  state, the refs and the drag gesture. Its methods are the handlers: picture
  upload, size change, template choice and the drag-and-drop handlers. It
  also holds the correct-tiles tracker `updateCorrectTiles`.
- The `useFireworks` hook in `src/customHooks/useFireworks.tsx`, as a class
  `Engine`. It holds the particle list and the animation-frame and timer
  handles. Its methods are `createFirework`, `animate`, `randomFirework`,
  `launchFireworks` and `stopFireworks`.

Modules:

| module | file | contents |
|---|---|---|
| `Wrappers` | `wrappers.dfy` | `Option` |
| `Position` | `position.dfy` | decimal numerals, the `"row-col"` codec and its inverse, `Math.ceil`, slot-to-cell decoding |
| `Dom` | `dom.dfy` | `nextSibling`, `removeChild` and `insertBefore` on the child list of one parent; handleDrop's two insertions are an exchange |
| `Puzzle` | `puzzle.dfy` | tiles, the solved grid, the slicing loop, the shuffle and its reports, the set of cells at home |
| `CanvasFit` | `canvas.dfy` | the canvas size for a picture |
| `Tracker` | `tracker.dfy` | the set update of `updateCorrectTiles`, seeding, solve detection, and a drop keeping the set exact |
| `App` | `app.dfy` | the cell under the pointer, and the `App` class |
| `Fireworks` | `fireworks.dfy` | particles, one animation pass as a function, and the `Engine` class |

The main results:

- The id codec is injective and has an inverse.
- The slicing loop produces the solved grid.
- The shuffle is a permutation.
- The shuffle's reports are exactly the cells whose tile is at home, each
  reported once.
- A new puzzle therefore starts with an exact tracker. It launches the
  fireworks exactly when the shuffle left it solved.
- handleDrop's two `insertBefore` calls exchange the dragged and the
  dropped-on tile.
- A well-formed drop keeps the tracker exact. Here draggedFrom is the dragged
  tile's cell. A drop after a drag that ended without a drop can break it.
- The tracker is full exactly when the grid is solved.
- An animation pass keeps exactly the particles that are still visible, each
  moved once, in their old order.
- A burst lives 49 frames and is gone after 50.

Random draws, the pointer position and the field's bounding rectangle are
parameters. The host's scheduler is modelled as the sets of pending frame and
timer handles.

## Model

| member | source | states |
|---|---|---|
| Position.ParseNatToString | src/utils.ts:8 | a non-negative number printed in decimal reads back as the same number |
| Position.ParseTransformRoundTrip | src/utils.ts:7-9 | TransformRowAndCol, the model of transformRowAndCol, has an inverse: parsing the id `"row-col"` of non-negative row and col gives back exactly (row, col) |
| Position.TransformInjective | src/utils.ts:7-9 | two cells with the same id have the same row and the same col |
| Position.CeilDiv | src/utils.ts:12 | Math.ceil(a / b) for b > 0: the result r satisfies (r - 1) * b < a <= r * b |
| Position.CeilDivUnique | src/utils.ts:12 | the ceiling is the only r with (r - 1) * b < a <= r * b |
| Position.ActualRowAndColIsRowMajor | src/utils.ts:11-15 | for indx >= 1, getActualRowAndCol (GetActualRowAndCol, the id of ActualRowAndCol) decodes row-major: row = (indx - 1) div N + 1 and col = (indx - 1) mod N + 1, so col is in [1, N] and row is in [1, N] when indx <= N * N |
| Position.SlotIdOfCell | src/utils.ts:11-15 | slot row * N + col, the slot the slicing loop fills for (row, col), has the id transformRowAndCol(row + 1, col + 1) |
| Position.SlotIdInjective | src/utils.ts:11-15 | different slots have different canonical ids |
| Position.SlotIdInGrid | src/utils.ts:11-15 | the id of a slot k < N * N names a cell whose row and col are both in [1, N] |
| Puzzle.SliceTiles | src/utils.ts:136-166 | the nested slicing loop yields the solved grid: slot row * N + col holds the piece cut at (row, col) with id "row+1-col+1"; the result is empty when N <= 0 |
| Puzzle.SolvedGrid | src/utils.ts:136-166 | the grid the slicer emits has N * N tiles; SliceTiles and SolvedGridIdSet say which |
| Puzzle.PushSlice | src/utils.ts:161-164 | the push of iteration (row, col) appends the solved tile of the next slot, keeping the prefix solved |
| Puzzle.AllSlicesSolved | src/utils.ts:136-137 | after N * N pushes of solved tiles the list is the solved grid |
| Puzzle.SolvedGridDistinct | src/utils.ts:161-164 | the sliced tiles have pairwise distinct ids |
| Puzzle.SolvedGridIdSet | src/utils.ts:136-166 | the ids of the sliced tiles are exactly the N * N canonical cell ids |
| Puzzle.AllCellsSize | src/utils.ts:11-15 | there are exactly N * N canonical cell ids |
| Puzzle.CellInAllCells | src/App.tsx:150-153 | any row and col in [1, N] form a canonical cell id |
| Puzzle.AllCellsInGrid | src/utils.ts:11-15 | every canonical cell id is transformRowAndCol(r, c) for some r and c in [1, N] |
| Puzzle.ArrangementIds | src/utils.ts:25-41 | any permutation of the sliced tiles has N * N tiles with distinct ids, and its ids are all the cells |
| Puzzle.PermutationKeepsDistinct | src/utils.ts:29-31 | rearranging tiles keeps their ids distinct |
| Puzzle.SolvedGridAllCorrect | src/utils.ts:33-38 | in the unshuffled grid every cell holds its own tile |
| Puzzle.CorrectCellsMember | src/utils.ts:33-36 | with distinct ids, a tile's id is among the cells at home exactly when the tile's slot is its own cell |
| Puzzle.Draw | src/utils.ts:28 | Math.floor(Math.random() * (i + 1)) is an index in [0, i] |
| Puzzle.ScaledIsProduct | src/utils.ts:28 | the repeated addition used in Draw equals the product r * (i + 1) |
| Puzzle.ShufflePassPermutes | src/utils.ts:27-39 | ShufflePass, the backward pass over iterations i down to 0, returns a permutation of its input: same length, same multiset |
| Puzzle.ShufflePassKeepsAbove | src/utils.ts:27-39 | iterations i, ..., 0 leave the slots above i untouched, so slot i keeps the tile checked at iteration i |
| Puzzle.Matches | src/utils.ts:33-38 | the iterations from lo up make at most one report each |
| Puzzle.Reports | src/utils.ts:33-38 | the reports of the iterations from lo up number at most one per iteration; ReportsAreCorrectCells says which ids they are |
| Puzzle.MatchesFrom | src/utils.ts:33-38 | the reports from slot lo up depend only on the tiles from lo up |
| Puzzle.HomeSlotReported | src/utils.ts:33-38 | every slot from lo up whose tile is at home is reported with its canonical id |
| Puzzle.ReportIsHomeSlot | src/utils.ts:33-38 | every report is the canonical id of a slot from lo up whose tile is at home |
| Puzzle.ReportsDistinct | src/utils.ts:33-38 | no id is reported twice |
| Puzzle.ReportsAreCorrectCells | src/utils.ts:33-38 | the ids reported by the whole pass are exactly the cells at home in the returned grid |
| Puzzle.ReportsStep | src/utils.ts:33-38 | iteration i appends slot i's report, using the loop's own comparison with getActualRowAndCol(i + 1, N), to those of the slots above |
| Puzzle.ShuffleToRest | src/utils.ts:27-39 | running the rest of the pass from the state before iteration i gives the whole pass |
| Puzzle.ShuffleIteration | src/utils.ts:27-39 | one iteration, the swap and then the comparison, takes the loop state before i to the loop state before i - 1 |
| Puzzle.ShuffleDone | src/utils.ts:39-41 | after the last iteration the array is the whole pass, a permutation of the input, and the reports are those of the whole returned grid |
| Puzzle.ShuffleIterationStep | src/utils.ts:28-38 | the swap through `temp` exchanges slots i and j in place; slot i's id is reported when it equals getActualRowAndCol(i + 1, N) |
| Puzzle.ShuffleGridArr | src/utils.ts:17-42 | shuffleGridArr returns the backward Fisher-Yates pass of a copy of the input, a permutation of it; the ids it reports, in call order, are exactly the cells at home in the result |
| CanvasFit.GetCanvasHeightAndWidth | src/utils.ts:44-68 | a landscape canvas has width = ratio * height; any other has height = ratio * width; the height never exceeds maxAlfaHeight * dpr |
| CanvasFit.AspectRatio | src/utils.ts:98-101 | the ratio is at least 1 and is the longer side over the shorter side |
| CanvasFit.LandscapeFits | src/utils.ts:51-65 | a landscape canvas is non-empty, not taller than wide, inside the box, and spans its full width or full height |
| CanvasFit.PortraitFits | src/utils.ts:61-65 | any other canvas is non-empty, not wider than tall, and spans the full height of the box |
| CanvasFit.CanvasFitsBox | src/utils.ts:44-68 | for a ratio >= 1 the canvas lies inside maxAlfaWidth * dpr x maxAlfaHeight * dpr, its longer side is ratio times its shorter side, and it touches the box |
| CanvasFit.PreparedCanvasKeepsProportions | src/utils.ts:96-121 | the computed canvas size has the picture's proportions and fits in the 700 x 500 box scaled by dpr |
| Tracker.Updated | src/App.tsx:53-62 | `update` puts the id in the set and `delete` takes it out; no other id changes |
| Tracker.UpdatedIdempotent | src/App.tsx:56-62 | repeating the same update or delete changes nothing more |
| Tracker.DeleteAbsentIsNoOp | src/App.tsx:59-61 | deleting an absent id leaves the set as it was |
| Tracker.Seeded | src/utils.ts:36-38 | after a run of updates the set holds exactly its old ids and the reported ones |
| Tracker.SeededStep | src/App.tsx:52-70 | each further updateCorrectTiles call extends the seeded set and the launch count by that call's effect |
| Tracker.SeededSize | src/App.tsx:53-57 | from the empty set, distinct updates grow the set by one id each |
| Tracker.Launches | src/App.tsx:64-66 | each updateCorrectTiles call launches the fireworks at most once |
| Tracker.LaunchesFromEmpty | src/App.tsx:64-66 | from the empty set, distinct updates launch the fireworks once when their number reaches a positive N * N, and never otherwise |
| Tracker.CorrectCellsInGrid | src/App.tsx:64 | the cells at home are canonical cell ids |
| Tracker.AllHomeIffSolved | src/App.tsx:64-66 | on an arrangement, every cell is at home exactly when the grid is the solved one |
| Tracker.FullIffSolved | src/App.tsx:64-66 | on an arrangement, the set of cells at home reaches N * N ids, the launch condition, exactly when the grid is solved |
| Tracker.SeedingLaunchesIffSolved | src/utils.ts:33-38 | a shuffled arrangement has at least N * N cells at home exactly when it is solved |
| Tracker.SwapKeepsDistinct | src/App.tsx:114-122 | exchanging two tiles keeps the ids distinct |
| Tracker.DropKeepsExact | src/App.tsx:107-186 | a drop from slot p onto slot q marks the target against draggedFrom and then the dragged tile against the pointer's cell; a set that was exactly the cells at home becomes exactly the cells at home after the exchange |
| Tracker.StaleStartCellLosesTarget | src/App.tsx:124-135 | when draggedFrom is not the dragged tile's cell and the dropped-on tile belongs there, the exchange brings that tile home but the two markings leave its id out of the set |
| Tracker.OtherCellUnchanged | src/App.tsx:114-122 | an id carried by neither exchanged tile is at home after the exchange exactly when it was before |
| Tracker.HomeKept | src/App.tsx:114-122 | changing only two slots that do not hold x keeps x at home |
| Dom.NextSiblingAt | src/App.tsx:117-118 | among children without repeats, nextSibling of the child at position i is the child at i + 1, and there is none for the last child |
| Dom.RemoveChild | src/App.tsx:120-121 | taking a child out leaves one child fewer |
| Dom.RemoveChildMultiset | src/App.tsx:120-121 | taking a child out removes exactly one copy of it and keeps every other child: adding that one copy back gives the old children |
| Dom.InsertBeforePermutes | src/App.tsx:120-121 | insertBefore of a node that is already a child only moves it: the parent keeps the same children |
| Dom.MoveForward | src/App.tsx:120 | insertBefore of a child before a later reference moves it to just before that reference; the other children keep their order |
| Dom.MoveBackward | src/App.tsx:121 | insertBefore of a child before an earlier reference moves it to just before that reference |
| Dom.MoveBeforeItself | src/App.tsx:120-121 | inserting a child before itself leaves the order as it is |
| Dom.InsertBeforeNextSibling | src/App.tsx:120 | inserting a child before its own next sibling, or at the end when it is last, leaves the order as it is |
| Dom.DropOnNext | src/App.tsx:114-122 | a drop on the next sibling exchanges the two children |
| Dom.DropOnLater | src/App.tsx:114-122 | a drop on a later, non-adjacent child exchanges the two children |
| Dom.DropOnPrevious | src/App.tsx:114-122 | a drop on the previous sibling exchanges the two children |
| Dom.DropOnEarlier | src/App.tsx:114-122 | a drop on an earlier, non-adjacent child exchanges the two children |
| Dom.DropOnItself | src/App.tsx:114-122 | a drop of a tile on itself leaves the order as it is |
| Dom.DropReorderSwaps | src/App.tsx:114-122 | for any two positions p and q of distinct children, the two insertBefore calls of handleDrop exchange the children at p and q |
| App.CellUnderPointer | src/App.tsx:144-153 | the id of the cell under the pointer is never empty, so a gesture with a dragged tile over the field always latches a cell |
| App.FloorOfQuotient | src/App.tsx:150-151 | Math.floor(x / w) is c exactly when x lies in [c * w, (c + 1) * w) |
| App.FloorInField | src/App.tsx:147-151 | inside the field, the column or row index is in [0, N) |
| App.PointerInFieldCell | src/App.tsx:144-153 | a pointer inside the field names a cell whose row and col are in [1, N] |
| App.PointerOverSlotCell | src/App.tsx:138-157 | over the rectangle of slot k, getRowAndCol returns slot k's canonical id |
| App.DropOrder | src/App.tsx:114-122 | the children after a drop are a permutation of the previous ones, with distinct tiles |
| App.DropReordersToSwap | src/App.tsx:114-122 | on the field's children, handleDrop's insertions leave DropOrder: the two tiles exchanged |
| App.DropKeepsTrackerExact | src/App.tsx:107-186 | a well-formed drop on an exact tracker leaves an arrangement and an exact tracker, and the tracker is full exactly when the new grid is solved |
| App.App.constructor | src/App.tsx:14-26 | the initial state: an empty grid and set, a size of 3, no picture and no gesture |
| App.App.UpdateCorrectTiles | src/App.tsx:52-70 | the set becomes Updated(previous, action, item), and the fireworks are launched, when available, exactly when the new set has N * N ids |
| App.App.StopFireworksIfAvailable | src/App.tsx:77-79 | stopFireworks is called when the hook returned handles; nothing else changes |
| App.App.PreparePuzzle | src/utils.ts:133-168 | preparePuzzle's result is the shuffle of the solved grid, an arrangement, and every report is applied to the set as an update, in order |
| App.App.ApplyReports | src/utils.ts:36-38 | the reports applied in order leave Seeded(old set, reports) and add one launch per call that sees a full set |
| App.App.SeedNewPuzzle | src/App.tsx:87-95 | from an empty set, the new puzzle is an arrangement with distinct ids and the set is exactly its cells at home; the fireworks launch once exactly when the shuffle left the puzzle solved |
| App.App.HandleImageUpload | src/App.tsx:72-96 | with no file nothing changes; otherwise stopFireworks is called when the hook returned handles, the template choice is cleared, the picture becomes the file, and the new shuffled puzzle has an exact tracker; at size 0 the grid is empty |
| App.App.HandleChangePuzzleSize | src/App.tsx:200-220 | stopFireworks is called when the hook returned handles, and the size changes; with a picture the puzzle is cut anew at the new size with an exact tracker, and is empty at size 0; without one the grid and set are empty; the seeding's launch uses the old size |
| App.App.HandleChangeTemplateSelect | src/App.tsx:222-249 | the empty choice changes nothing; otherwise stopFireworks is called when the hook returned handles, the template becomes the picture, and the new shuffled puzzle has an exact tracker; at size 0 the grid is empty |
| App.App.HandleDragStart | src/App.tsx:98-100 | the dragged tile is recorded and nothing else changes |
| App.App.HandleDragOver | src/App.tsx:102-105 | the hovered tile is recorded as the target and nothing else changes |
| App.App.GetRowAndCol | src/App.tsx:138-157 | the result is "" exactly when no tile is dragged or the field is not mounted; otherwise it is the id of the cell under the pointer |
| App.App.HandleDragOverGetStartPosition | src/App.tsx:159-168 | a dragover latches the cell under the pointer into draggedFrom when draggedFrom is empty, and otherwise leaves it |
| App.App.HandleDrop | src/App.tsx:107-136 | without both a dragged and a target tile nothing changes; otherwise the tiles are exchanged among the children, the target is marked against draggedFrom when set, draggedFrom is cleared and the target is forgotten |
| App.App.MarkDropTarget | src/App.tsx:124-135 | when draggedFrom is set, the target's id is updated when it equals draggedFrom and deleted otherwise, and draggedFrom is cleared; the target is forgotten |
| App.App.ExchangeTiles | src/App.tsx:114-122 | the children become DropOrder(children, dragged, target), still distinct tiles of the grid |
| App.App.HandleDropGetFinishPosition | src/App.tsx:170-186 | without a dragged tile or a field nothing changes; otherwise the dragged tile's id is updated when it is the cell under the pointer and deleted otherwise, and the dragged tile is forgotten |
| App.App.DragOverTile | src/App.tsx:311-325 | a dragover on a tile records the target and, at the start of a gesture over slot k, latches slot k's id into draggedFrom |
| App.App.DropOnTile | src/App.tsx:311-325 | from a well-formed gesture, the tile's and the field's drop handlers exchange the two tiles, keep the tracker exact and end the gesture; the target's marking launches when its set is full, and the dragged tile's marking launches exactly when the grid is now solved |
| App.App.DropAfterCancelledDrag | src/App.tsx:107-186 | a drop whose draggedFrom was latched by an earlier drag that ended without a drop, and is not the dragged tile's cell, exchanges the tiles but leaves the tracker inexact when the dropped-on tile belongs in the dragged tile's cell |
| Fireworks.ColorIndex | src/customHooks/useFireworks.tsx:42 | Math.floor(r * 6) is an index into the palette |
| Fireworks.Spawn | src/customHooks/useFireworks.tsx:39-47 | a new particle sits at (x, y) with full alpha, a palette colour and a size in [0, 2) |
| Fireworks.Burst | src/customHooks/useFireworks.tsx:36-48 | a burst has one particle per spark, in order |
| Fireworks.Advance | src/customHooks/useFireworks.tsx:62-64 | a frame's move lowers a particle's alpha and keeps its colour and size |
| Fireworks.Survivor | src/customHooks/useFireworks.tsx:61-72 | a particle leaves at most one survivor, and leaves one exactly when its alpha after the move is positive |
| Fireworks.StepAppend | src/customHooks/useFireworks.tsx:60-73 | an animation pass treats each particle on its own: it distributes over concatenation |
| Fireworks.StepMembers | src/customHooks/useFireworks.tsx:60-73 | every particle left by a pass is visible and is a particle of the list moved once |
| Fireworks.StepIndices | src/customHooks/useFireworks.tsx:60-73 | Step, one pass of animate's loop, keeps exactly the particles whose alpha stays positive after the move, each moved once, in their old order |
| Fireworks.AllFade | src/customHooks/useFireworks.tsx:64-72 | when every particle fades in this frame, the pass leaves nothing |
| Fireworks.AllSurvive | src/customHooks/useFireworks.tsx:64-72 | when every particle stays visible, the pass removes none |
| Fireworks.FadedAfter | src/customHooks/useFireworks.tsx:64-72 | StepN, k passes: particles with alpha at most 0.02 * k are all gone after k frames |
| Fireworks.LiveAfter | src/customHooks/useFireworks.tsx:64-72 | particles with alpha above 0.02 * k are all still there after k frames |
| Fireworks.BurstLifetime | src/customHooks/useFireworks.tsx:46-72 | a burst is fully visible for 49 frames and gone after 50 |
| Fireworks.AnimateIteration | src/customHooks/useFireworks.tsx:61-72 | moving the particle at one index, and splicing it out when it has faded, replaces it by its survivor |
| Fireworks.AnimateAt | src/customHooks/useFireworks.tsx:60-73 | one iteration of the backward loop extends the processed suffix by one particle |
| Fireworks.Engine.constructor | src/customHooks/useFireworks.tsx:7-8 | no particles, no handles, nothing pending |
| Fireworks.Engine.UseFireworks | src/customHooks/useFireworks.tsx:10-18 | handles are returned exactly when there is a canvas with a 2D context |
| Fireworks.Engine.CreateFirework | src/customHooks/useFireworks.tsx:32-49 | the 50 particles of a burst at (x, y) are pushed after the existing ones; handles are untouched |
| Fireworks.Engine.RequestAnimationFrame | src/customHooks/useFireworks.tsx:75 | the host gives a fresh positive handle, which is now pending |
| Fireworks.Engine.SetTimeout | src/customHooks/useFireworks.tsx:87 | the host gives a fresh positive handle, which is now pending |
| Fireworks.Engine.Animate | src/customHooks/useFireworks.tsx:51-76 | the particle list becomes Step of the old one, and a new frame is requested and recorded |
| Fireworks.Engine.RandomFirework | src/customHooks/useFireworks.tsx:78-88 | the recorded timer is cleared, a burst is appended, and the new timer is the only pending one |
| Fireworks.Engine.LaunchFireworks | src/customHooks/useFireworks.tsx:90-95 | one animation pass, then a burst; a new frame and a new timer are recorded |
| Fireworks.Engine.StopFireworks | src/customHooks/useFireworks.tsx:97-113 | without a recorded frame nothing changes; otherwise that frame is cancelled and forgotten; the timer and particles are left |
| Fireworks.Engine.RunFrame | src/customHooks/useFireworks.tsx:75 | the host runs a pending frame: it stops being pending and animate runs |
| Fireworks.Engine.RunTimer | src/customHooks/useFireworks.tsx:87 | the host runs a pending timer, which is the recorded one, and randomFirework runs again |
| Fireworks.Engine.LaunchTwiceThenStop | src/customHooks/useFireworks.tsx:90-113 | after two launches and a stop, the first chain's frame is still pending and the burst timer still runs |
| Fireworks.Engine.StopTwice | src/customHooks/useFireworks.tsx:97-103 | stopping twice has the effect of stopping once |

## Left out

- Canvas drawing, image decoding, `toDataURL`, CSS styling of the field and the fireworks canvas, and `ctx` painting are not modelled. A tile's image is only the (row, col) rectangle it was cut from.
- The image's `onload` callback and the promise of `preparePuzzle` run synchronously. A missing sample canvas, which rejects the promise, is not modelled. A stale preparation that resolves after a newer one is not modelled either.
- React's batching and re-rendering are not modelled. Every `setState` takes effect at once. The drag variables `draggedTile`, `targetTile` and `draggedFrom` are `let` locals of the component body. They live as fields, as if no re-render happened during a gesture.
- Floating point is modelled as exact reals. Alpha is counted in hundredths (1 = 100, 0.02 = 2), so the frame in which a particle fades is exact. In IEEE doubles, 1 - 50 * 0.02 can land just above or below zero.
- `Math.random`, `Math.cos` and `Math.sin` are parameters: the draws in `rands` and the `Spark`s. The delay of `randomFirework`'s `setTimeout` is not modelled, because only the handle matters.
- Puzzle.Draw: the product `Math.random() * (i + 1)` is written as repeated addition (`Scaled`). Puzzle.ScaledIsProduct proves it is the product.
- CanvasFit.PreparedCanvasKeepsProportions: states the computed size, in exact reals. Assigning it to the canvas's `width` and `height` (`src/utils.ts:120-121`) drops the fractional part, which can change the proportions slightly; that truncation is not modelled.
- Puzzle.ShuffleGridArr: requires a positive size. The source also calls it at size 0, on the empty slice list, where it returns that list with no report. App.App.PreparePuzzle returns the empty list itself instead.
- App.CellUnderPointer: a field of width or height 0 (division giving NaN) is excluded by `HasArea`. A gameSize of 0 gives "1-1", as Infinity cell sizes do.
- App.App.ExchangeTiles: when either tile is not a child of the field, the children are left as they are, and nothing is said about what the DOM would do. handleDrop always sees two children of the same field.
- App.App.HandleChangePuzzleSize: the seeding's launch check uses the size the handler closed over (the old size), as written. Its stopFireworks call has the same lack of effect as App.App.HandleImageUpload's.
- App.App.HandleImageUpload: states that stopFireworks is called, not that a show stops. `useFireworks` keeps its handles in locals of the render (`src/customHooks/useFireworks.tsx:7-8`), so every render of App gets a fresh engine whose `animationFrame` is null. A launch changes state and re-renders, so a later `stopFireworks` from these handlers finds no frame and returns at once (`src/customHooks/useFireworks.tsx:97-100`). A running show is not cancelled by it; the model only counts the calls.
- App.App.HandleChangeTemplateSelect: calls stopFireworks the same way, with the same lack of effect on a running show.
- App.App.UpdateCorrectTiles: launchFireworks and stopFireworks are counted as calls; the engine itself is the separate `Fireworks.Engine` class. App and Engine are not wired together, so that App's handlers do not have to take the burst draws.
- The `visibilitychange` listener and `handleChangeIsTemplateVisible` only call `stopFireworks` or set a style, and are not modelled. The size and template select options, `getPuzzleSizeSelectOptions` and `selectTemplateOptions`, are constants of the UI and are not modelled.
- The host's `requestAnimationFrame` and `setTimeout` are modelled as handle counters with sets of pending handles.
- Where the code and the documented intent differ, the model follows the code:
  - `launchFireworks` has no guard against a second launch, so two frame chains can run.
  - `stopFireworks` cancels only the last recorded frame and never clears the burst timer. Fireworks.Engine.LaunchTwiceThenStop states the consequence.
  - Only `handleDrop` clears `draggedFrom`, and there is no `dragend` handler. A drag that ends without a drop leaves its latched cell for the next gesture, whose dragovers keep it. App.App.DropAfterCancelledDrag shows a drop that then leaves the tracker inexact. The exactness results assume draggedFrom is the dragged tile's cell.
