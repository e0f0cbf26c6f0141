# csit-cells in Dafny

This project models the cellular-automaton engine of csit-cells. The program loads a logo, turns it into a 30 x 30 grid of cells, and dissolves and regrows it frame by frame. The model covers:

- `mod`, the wrap-around modulo;
- `neighbours`, the 8-neighbour count on the torus;
- `gameOfLife`, the stochastic life-rule with its death and birth switches;
- the per-frame effect pass of `draw`, chosen by the frame counter `t`: slow, fast and filling life, flood to white, a centre seed, background regrowth and logo regrowth;
- the image sampler of `img.onload` and its snapshot copy.

The model has five modules.

- `Toroid` (toroid.dfy) defines JavaScript's truncating `%` and `mod`. It proves that `mod` is the Euclidean remainder.
- `Board` (board.dfy) defines the grid as a value (`seq<seq<int>>`, indexed `[x][y]` like the source), single-cell updates, and the reference neighbour count. That count runs over the eight offsets in the order the source scans them.
- `Rules` (rules.dfy) gives the effect pass as functions. A `State` pairs the grid with the number of `Math.random()` values consumed so far. `CellEffect` is the body of the cell loop. `Pass(s, …, n)` is the state after the first `n` cells of the in-place, column-by-column scan, so each cell sees what earlier cells wrote. The frame-window properties are lemmas about `Pass`.
- `Sampler` (sampler.dfy) covers centre pixels, byte offsets, colour classification and the sampled grid.
- `Animation` (engine.dfy) holds the class `Engine`. It owns `grid` and `gridBuff` as `array2<int>`, the stream `random` of `Math.random()` results, and the cursor `drawn`. Its methods follow the source's loops and in-place writes. Each one is proved to produce exactly the state given by the corresponding `Rules`/`Sampler` function. `Valid()` keeps every cell of both arrays in {0, 1, 2}.

`Math.random()` is modelled as a stream `random: nat -> Draw`, with `Draw` a real in [0, 1). Each call reads the next value and compares it with the probability. Draws the source makes only conditionally are consumed only when reached: the flood draws only for non-white cells (index.js:115-116), and logo regrowth draws only where the snapshot is non-background, because of the short-circuit `&&` at index.js:134. The frame counter `t` is a parameter of `Step`. The RGBA pixel data is a parameter of `LoadImage`.

Details of index.js that the model follows:

- At index.js:110 the filling window calls the life-rule with death and birth both enabled, since `doBirth` keeps its default. At index.js:111 it calls it birth-only.
- The flood to white uses a constant probability of 0.3. It does not scale with the neighbour count.
- The centre seed of frame 111 is re-applied at every cell of that frame's scan, because it sits inside the cell loop.
- The snapshot is a cell-by-cell copy of the sampled grid, not a second sampling pass.
- Frames 20, 40, 90, 110 and 135 fall between the windows and change nothing.

## Model

| member | source | states |
|---|---|---|
| Toroid.JsRem | index.js:27 | JavaScript's `%` for a positive divisor: the remainder lies strictly between `-n` and `n`, has the sign of the dividend and differs from it by a multiple of `n`, which fixes it as the truncating remainder |
| Toroid.Mod | index.js:26-27 | for `n > 0`, `mod(a, n)` lies in `[0, n)` and equals `a` modulo `n` (the Euclidean remainder), negative `a` included |
| Toroid.ModIsEuclidean | index.js:26-27 | `((a % n) + n) % n` with truncating `%` equals the Euclidean remainder for every integer `a` |
| Toroid.ModNear | index.js:46-47 | from a coordinate in `[0, n)`, one step either way wraps only at the two ends |
| Toroid.ModEdges | index.js:26-27 | `mod(-1, n) == n - 1`, `mod(n, n) == 0`, `mod(0, n) == 0` |
| Board.Set | index.js:62 | writing `grid[x][y] = v` changes that cell to `v` and no other |
| Board.Wrapped | index.js:46-47 | the wrapped neighbour position is inside the grid and congruent to `(x + dx, y + dy)` on both axes, so every read is in bounds |
| Board.CountOver | index.js:42-52 | counting over a list of offsets never exceeds the number of offsets |
| Board.CountNeighbours | index.js:40-53 | the neighbour count is at most 8 |
| Board.CountOverNext | index.js:48 | the unfolding of `CountOver` that the scan's loop step uses: scanning one more offset adds one exactly when that neighbour's value satisfies `f` |
| Board.CountOverLocal | index.js:40-53 | the count depends only on the values at the scanned neighbour positions |
| Board.CountOverExtremes | index.js:40-53 | the count equals the number of positions iff every neighbour satisfies `f`, and is 0 iff none does |
| Board.NeighbourPositionsDistinct | index.js:43-51 | on the 30 x 30 torus the eight scanned positions are pairwise distinct and never the cell itself |
| Board.CornersWrap | index.js:46-47 | the scan wraps at all four corners |
| Rules.IsAlive | index.js:39 | the default counting predicate `v > 0`: on non-negative cell values it holds exactly when the cell is not background |
| Rules.IsBackground | index.js:126 | the predicate `v == 0` of background regrowth: a background cell is never alive |
| Rules.LifeRule | index.js:60-69 | a living cell with fewer than 2 or more than 3 living neighbours dies when death is on. A dead cell with exactly 3 is born when birth is on. Any other change is impossible, so death off never kills and birth off never births |
| Rules.GameOfLife | index.js:56-71 | consumes one draw. If the draw is not below `chance`, nothing changes. Otherwise cell `(x, y)` takes the life-rule value for its living-neighbour count. No other cell changes |
| Rules.FloodWhite | index.js:113-119 | only cell `(x, y)` changes, and only to 1. A cell that is not white becomes white exactly when its draw is below the fixed 0.3, whatever its neighbours. A draw is consumed exactly when the cell is not already 1 |
| Rules.SeedCentre | index.js:120-123 | cell `(15, 15)` becomes 0, no other cell changes, no draw is consumed |
| Rules.RegrowBackground | index.js:124-130 | consumes one draw. Only cell `(x, y)` changes, and only to 0. A non-background cell becomes 0 exactly when the draw is below 0.15 times its number of background neighbours; otherwise nothing changes. So with no background neighbour nothing changes, and with 7 or more the cell certainly becomes 0 |
| Rules.RegrowLogo | index.js:131-136 | only cell `(x, y)` changes, and only to its snapshot value where that is non-background. Where the snapshot is non-background and the draw is below 0.1 times one more than the living neighbours, the snapshot value is restored; otherwise nothing changes. A draw is consumed exactly when the snapshot cell is non-background |
| Rules.CellEffect | index.js:101-137 | one turn of the cell loop consumes at most two draws |
| Rules.CellAt | index.js:94-95 | the `n`-th turn of the scan is the cell `(i, j)` with `n == i * 30 + j` |
| Rules.Pass | index.js:94-138 | the in-place scan of the first `n` cells yields a 30 x 30 grid and consumes at most `2n` draws |
| Rules.Step | index.js:94-138 | one frame is the scan of all 30 x 30 cells: a 30 x 30 grid, at most two draws per cell |
| Rules.PassKeepsValues | index.js:94-138 | a frame keeps every cell in {0, 1, 2} when the snapshot's cells are in {0, 1, 2} |
| Rules.CellEffectKeepsValues | index.js:102-136 | one turn of the cell loop keeps every cell in {0, 1, 2} |
| Rules.IdleFrame | index.js:102-136 | for `t <= 5` and for `t` in {20, 40, 90, 110, 135}, a frame changes no cell and consumes no draw |
| Rules.LifeFrame | index.js:102-112 | for `5 < t < 90`, a cell changes only by being born (to 1) or by dying (a living cell to 0) |
| Rules.LifeCell | index.js:102-112 | in a life window one turn of the scan changes a cell only by a birth or a death, even with the two life-rules of the filling window applied in turn |
| Rules.LifeChangesCompose | index.js:110-111 | two life-rules in a row still only give births and deaths |
| Rules.FloodFrame | index.js:113-119 | for `90 < t < 110`, cells change only to 1 |
| Rules.RegrowBackgroundFrame | index.js:120-130 | for `110 < t < 135`, including the seed frame 111, cells change only to 0 |
| Rules.SeedFrame | index.js:120-123 | at `t == 111`, once the scan has started, cell `(15, 15)` is 0 |
| Rules.RegrowLogoFrame | index.js:131-136 | for `t > 135`, a cell changes only to its snapshot value, and only where that value is non-background. Snapshot-background cells are untouched, and a cell equal to its snapshot stays equal |
| Rules.CertainBirth | index.js:66-68 | a dead cell with exactly 3 living neighbours and chance 1 is born when birth is on and stays dead when birth is off |
| Sampler.CentreX | index.js:160 | the centre column is `floor((i + 0.5) * 512 / 30)` and lies inside the canvas |
| Sampler.CentreY | index.js:161 | the centre row is `floor((j + 0.5) * 512 / 30)` and lies inside the canvas |
| Sampler.PixelOffset | index.js:162-168 | the pixel's four bytes, alpha included, lie within the 512 x 512 x 4 buffer, starting at a multiple of 4 |
| Sampler.PixelOffsetDecodes | index.js:162-168 | the offset decodes back to column `cx` of row `cy` in the row-by-row layout, so the sampler reads pixel `(cx, cy)` and not its transpose |
| Sampler.Classify | index.js:170-179 | the value is in {0, 1, 2}. It is 0 exactly for RGB `(0xb2, 0x22, 0x22)` and 2 exactly for `(0xd8, 0x90, 0x90)`. Any other colour gives 1 |
| Sampler.SampleCell | index.js:159-179 | a sampled cell value is in {0, 1, 2} |
| Sampler.Sample | index.js:158-181 | the sampled grid is 30 x 30, every cell is in {0, 1, 2}, and each cell is the class of its centre pixel |
| Sampler.UniformImage | index.js:170-179 | a one-colour image gives a one-value grid: all 0 for `#b22222`, all 2 for `#d89090`, all 1 otherwise |
| Sampler.AlphaIgnored | index.js:163-179 | images that differ only in alpha bytes sample to the same grid |
| Animation.Engine.constructor | index.js:29-37 | both arrays are 30 x 30. Each cell, taken column by column, consumes one draw and is 0 below 0.5, else 1 |
| Animation.Engine.Random | index.js:59 | `Math.random()` returns the next value of the stream and advances the cursor by one |
| Animation.Engine.Neighbours | index.js:40-53 | the nested `xx`/`yy` loop's count equals the reference count over the eight wrapped neighbours, and is at most 8 |
| Animation.Engine.GameOfLife | index.js:56-71 | the in-place `gameOfLife` leaves exactly the state `Rules.GameOfLife` gives and keeps every cell in {0, 1, 2} |
| Animation.Engine.FloodWhite | index.js:113-119 | the in-place flood leaves exactly the state `Rules.FloodWhite` gives |
| Animation.Engine.SeedCentre | index.js:120-123 | the in-place seed leaves exactly the state `Rules.SeedCentre` gives |
| Animation.Engine.RegrowBackground | index.js:124-130 | the in-place background regrowth leaves exactly the state `Rules.RegrowBackground` gives |
| Animation.Engine.RegrowLogo | index.js:131-136 | the in-place logo regrowth leaves exactly the state `Rules.RegrowLogo` gives |
| Animation.Engine.EffectAt | index.js:101-137 | one turn of the cell loop leaves exactly the state `Rules.CellEffect` gives |
| Animation.Engine.StepColumn | index.js:95-137 | the inner `j` loop over column `i` carries the scan from turn `30 i` to turn `30 (i + 1)` |
| Animation.Engine.Step | index.js:94-138 | the whole in-place pass of frame `t` leaves exactly the state `Rules.Step` gives. All the frame-window lemmas above therefore apply to it, and every cell stays in {0, 1, 2} |
| Animation.Engine.LoadImage | index.js:158-189 | afterwards the grid equals the sampled grid of the pixel data, and the snapshot equals the grid cell for cell |

## Left out

- Canvas setup, the colour table and the drawing of the grid (index.js:1-7, 15-20, 84-91) are rendering only.
- `saveFrame` and the `setTimeout` rescheduling (index.js:73-80, 140-142) are download and timer plumbing. The frame counter is a parameter of `Step`.
- Creating and loading the image and reading its pixel data (index.js:145-156) are browser I/O. `LoadImage` takes the RGBA bytes of the 512 x 512 canvas as its argument. An image that never loads simply means `LoadImage` is never called.
- `Math.random()` itself is an arbitrary stream of values in [0, 1). Nothing about its distribution is modelled, so the stochastic convergence of logo regrowth towards the snapshot is not stated. Only the per-frame facts that hold for every stream are stated.
- The decay block guarded by `if (false)` (index.js:96-100) can never run.
- Floating point: the products `0.15 * nc` and `0.1 * (1 + nc)` and the comparisons with the draw are exact reals. `cellWidth` and `cellHeight` are replaced by the exact `((2i + 1) * 512) / 60`. At `i = 7` and `i = 22` the exact centre is an integer (128 and 384), and the model assumes the double product rounds to it there.
- Animation.Engine.constructor: `gridBuff` starts as an empty array in the source and only gets rows in `img.onload`. The model allocates it as a 30 x 30 array of zeros. It is never read before `LoadImage` fills it.
- Animation.Engine.StepColumn: the source writes the cell loop as two nested loops in one place. The model puts the inner loop in its own method, and each loop turn calls `EffectAt`, whose effect windows are the methods `FloodWhite`, `SeedCentre`, `RegrowBackground` and `RegrowLogo`. The order of reads, writes and draws is unchanged.
- The implicit globals `nx` and `ny` of `neighbours` (index.js:46-47) are local variables in the model. Nothing else reads them.
