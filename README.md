# Hexagons: a verified model of the grid and path logic

The hexagons background (`javascripts/app.js`) fills the browser window with a
grid of hexagons and animates "trees" of coloured cells across it. Beneath
the canvas drawing sits a small layer of grid and path logic. This project
models that layer in Dafny and proves what it promises:

- **hex_coords.dfy** (`HexCoords`): odd-q offset ↔ cube coordinates,
  rounding an interpolated cube point back onto the grid, and the eight
  direction steps.
- **grid.dfy** (`Grid`): the cell objects, `buildGrid`'s row and column
  counts and row-major layout, `configureGrid`'s clean flag and number, and
  `drawGrid`'s clean-flag logic against a stroke-counting canvas.
- **schedule.dfy** (`Schedule`): the pending activation list and
  `processTreePath`, which applies due entries and splices them out in place.
- **tree_path.dfy** (`TreePath`): `getPos`, the zone table `posMatrix`, the
  child-direction arithmetic, and the recursive `tree` generator with
  `buildTreePath` around it.
- **random_path.dfy** (`RandomPath`): the legacy random walk
  `buildRandomPath` and its `getNeighbour` search.
- **lookup.dfy** (`Lookup`): lodash's `_.findIndex` as a specified function.
- **random.dfy** (`Random`): lodash's `_.random` on integer bounds, as an
  oracle object that counts its calls.
- **wrappers.dfy** (`Wrappers`): the `Option` type.

Mutable records of the source are classes. `Grid.Cell` has the colour, the
clean flag, the number and the activation time as fields. `Schedule.HexPath`
holds the pending list. `TreePath.TreeBuilder` holds the list that `tree`
appends to, and `Random.Rng` is the random source. The operations that change
them are methods with loop invariants. The pure arithmetic is functions with
lemmas.

Modelling choices:

- `col & 1` is the Euclidean remainder `col % 2`. This is the low bit of a
  two's-complement integer, negative ones included.
- `Math.round(v)` is `⌊v + 0.5⌋` and `Math.ceil` is `-⌊-v⌋`, both over exact
  reals.
- `Math.floor(distance / 2)` is the integer division `distance / 2`. The
  distances involved are never negative.
- The source's `%` truncates toward zero; `TreePath.JsRem` writes that out.
- `_.random(lo, hi)` is the oracle `draw(lo, hi, n)` for the n-th call. It is
  only assumed to stay within its bounds, so every property holds for every
  random outcome.
- Colours (`nextColor`) are opaque strings passed in as parameters.
- `Date.now()` is passed in as a parameter.

## Model

| member | source | states |
|---|---|---|
| Lookup.FindIndex | javascripts/app.js:310 | `_.findIndex`: -1 exactly when no element matches; otherwise the index of a matching element with no match before it |
| HexCoords.LowBit | javascripts/app.js:214 | `col & 1` is 0 or 1 and has the parity of col |
| HexCoords.ToCube | javascripts/app.js:211-216 | toCubeCoordinates lands on the plane x + z + y = 0, and toOffsetCoordinates gives back (col, row) |
| HexCoords.ToOffset | javascripts/app.js:224-226 | toOffsetCoordinates keeps x as the column |
| HexCoords.CubeRoundTrip | javascripts/app.js:211-226 | every point of the cube plane is the cube of its own offset address |
| HexCoords.ToCubeInjective | javascripts/app.js:211-216 | distinct (col, row) addresses have distinct cube coordinates |
| HexCoords.Round | javascripts/app.js:232-234 | Math.round returns the integer within half a unit, halves rounded up |
| HexCoords.RoundCube | javascripts/app.js:231-249 | roundCubeCoordinates always returns a point on the plane; the two axes with the smaller rounding errors keep their rounded values and only the axis with the largest error is recomputed |
| HexCoords.RoundCubeNear | javascripts/app.js:231-249 | rounding a point of the plane moves each axis by at most one cell |
| HexCoords.RoundCubeOfCell | javascripts/app.js:231-249 | a point that already is a cell rounds to itself |
| HexCoords.Step | javascripts/app.js:280-289 | a direction step keeps the plane exactly when the distance is even or the direction is vertical (3 or 7), and then lands `distance` cells away |
| TreePath.GetPos | javascripts/app.js:251-259 | getPos returns 0, 1 or 2 |
| TreePath.GetPosMonotone | javascripts/app.js:251-259 | getPos never decreases as its argument grows |
| TreePath.Ceil | javascripts/app.js:269-270 | Math.ceil is the least integer not below its argument |
| TreePath.ZonePos | javascripts/app.js:269-270 | the zone of the root's column or row is 0, 1 or 2 |
| TreePath.PosMatrixDirections | javascripts/app.js:272-278 | every zone of posMatrix permits at least one direction, and every permitted direction indexes `directions` |
| TreePath.StepMoves | javascripts/app.js:280-289 | an even step of each direction moves the offset row down (2, 3, 4) or up (0, 6, 7) and the column right (0, 1, 2) or left (4, 5, 6) |
| TreePath.ZoneDirectionsPointInward | javascripts/app.js:269-289 | from a top, bottom, left or right zone, every permitted direction leads away from that edge |
| TreePath.JsRem | javascripts/app.js:359-361 | the source's `%` has the sign of the dividend and a magnitude below the divisor, and differs from the dividend by a multiple of the divisor |
| TreePath.ChildDelta | javascripts/app.js:354-357 | a child turns by at least one step |
| TreePath.ChildDirectionAsWritten | javascripts/app.js:353-363 | the child direction as computed is a valid index 0..7 |
| TreePath.ChildDirection | javascripts/app.js:353-363 | the intended child direction is in 0..7 and turns counter-clockwise by the delta for even children and clockwise for odd ones, modulo 8 |
| TreePath.ChildDirectionAgrees | javascripts/app.js:353-363 | for the first four children the code as written equals the intended rotation; with two children they are (direction - 1) mod 8 and (direction + 1) mod 8 |
| TreePath.ChildDirectionAsWrittenMirrors | javascripts/app.js:359-363 | child 4 of direction 1 is given direction 5, where the rotation intends 7 |
| TreePath.TargetDistance | javascripts/app.js:299-303 | the target distance is even, equals the distance when that is even, and otherwise is one more |
| TreePath.Lerp | javascripts/app.js:323-325 | the interpolation of one axis is the root's coordinate at t = 0 and the target's at t = 1 |
| TreePath.LerpOnPlane | javascripts/app.js:322-325 | a point interpolated between two cells of the plane lies on the plane |
| TreePath.BranchPoint | javascripts/app.js:322-327 | the cell step i of a branch is drawn on, the rounded interpolation point at fraction i / td, always lies on the cube plane |
| TreePath.EvenBranchEndsOnTarget | javascripts/app.js:322-327 | the interpolation point at the last step of a branch of the target's length rounds exactly to the target |
| TreePath.FindCube | javascripts/app.js:310 | the cube lookup returns -1 exactly when no cell has those cube coordinates, otherwise the first cell that has them |
| TreePath.BranchCells | javascripts/app.js:319-334 | the cells a branch of n steps draws are at most n grid cells, the lookups of its rounded points in step order with the off-grid ones skipped |
| TreePath.BranchCellsStep | javascripts/app.js:319-334 | scheduling what step n finds after the entries of steps 1..n-1 gives the entries of steps 1..n |
| TreePath.CastDist | javascripts/app.js:295-313 | the distance tree finally casts is between 0 and the distance asked for, 0 only when the distance runs out, and otherwise one whose target is on the grid; a target off the grid retries one cell shorter |
| TreePath.EvenBranchRepeatsTarget | javascripts/app.js:319-345 | an even branch whose target is on the grid schedules that target twice: at its last step, which rounds onto the target, and again after the loop |
| TreePath.TreeBuilder.CastStep | javascripts/app.js:319-334 | one pass of the branch loop advances the time by 25 to 45 ms and appends the grid's cell at the rounded point of step i, or nothing when that point is off the grid; entries that were the first i - 1 steps, due one after the other, become the first i steps |
| TreePath.TreeBuilder.CastBranch | javascripts/app.js:317-340 | the branch loop appends exactly the branch's cells in step order (BranchCells), each with the tree's colour, due strictly one after another, after `time` and not after the returned time; the returned last index is the lookup at step `distance` (-1 when that point is off the grid); the earlier list is kept |
| TreePath.TreeBuilder.OwnBranch | javascripts/app.js:316-346 | the branch with its target: exactly the branch's cells in step order, followed by the target cell when the distance is even, each with the tree's colour, due strictly one after another and after `time`; an even branch ends on the target cell, an odd one on the cell drawn at its last step (none when that point is off the grid); the earlier list is kept |
| TreePath.TreeBuilder.Tree | javascripts/app.js:293-375 | tree terminates by decreasing distance; it changes nothing when the distance is not positive, there is no root, or every retry misses the grid; otherwise its own branch (up to `ownEnd`) is exactly the cells of the branch cast at CastDist, followed by the target when that distance is even, due strictly one after another; every entry it appends, children included, names a grid cell, has the tree's colour and is due after `time` |
| TreePath.TreeBuilder.Grow | javascripts/app.js:316-373 | once the target is on the grid: the branch's own entries are exactly OwnCells, at most distance + 1 of them, due one after another; the children then append only entries naming grid cells in the tree's colour, after `time` |
| TreePath.TreeBuilder.Children | javascripts/app.js:352-373 | the children loop keeps the list before it, and every entry the children append names a grid cell, has the tree's colour and is due after the parent branch's end time |
| TreePath.BuildTreePath | javascripts/app.js:261-386 | the root entry names a grid cell and is due 10 to 20 ms after `timeDelta`; the direction is one the root's `posMatrix` zone permits; the entries after the root, up to `ownEnd`, are exactly the root's own branch (OwnCells at CastDist from the root along that direction), and there are none when CastDist is 0; every entry names a grid cell, has the tree's colour and is due after the root |
| Grid.CeilDiv | javascripts/app.js:73 | Math.ceil(a / b) is the least q with q·b ≥ a |
| Grid.Rows | javascripts/app.js:70 | the row count is the least count of 2·radius-high rows that covers beyond the height |
| Grid.Cols | javascripts/app.js:72-73 | the column count is c + ⌈c / 2⌉, where c = ⌊width / 2·radius⌋ + 1 |
| Grid.CeilDivHalf | javascripts/app.js:73 | ⌈c·radius / 2·radius⌉ = ⌈c / 2⌉ |
| Grid.DivUnique | javascripts/app.js:70-73 | integer division is determined by its bounds |
| Grid.BuildGrid | javascripts/app.js:67-103 | buildGrid returns rows·cols fresh, distinct cells in row-major order, each with the cube coordinates of its address, the grid's dimensions, its colour, and no number or time yet |
| Grid.RowMajorAddress | javascripts/app.js:77-98 | cell k has row k div cols and column k mod cols |
| Grid.RowMajorUnique | javascripts/app.js:77-98 | no two cells share an address or cube coordinates |
| Grid.SmallViewportSize | javascripts/app.js:67-73 | a 100 × 100 viewport with radius 10 has 6 rows of 9 columns |
| Grid.ConfigureGrid | javascripts/app.js:105-126 | configureGrid marks every cell dirty and gives cell i the number i; colours and times are unchanged |
| Grid.Canvas.DrawHex | javascripts/app.js:15-52 | drawHex, standing for one hexagon outline, adds one to the stroke count |
| Grid.DrawGrid | javascripts/app.js:128-158 | drawGrid leaves every cell clean, changes nothing else, and strokes two hexagons per cell that was dirty |
| Schedule.PendingMembers | javascripts/app.js:388-399 | exactly the entries not yet due stay pending, and the list never grows |
| Schedule.PendingAppend | javascripts/app.js:388-399 | the pending filter keeps the original order |
| Schedule.DueColor | javascripts/app.js:388-399 | a cell's new colour is absent exactly when no due entry names it; otherwise it is the colour of the earliest due entry naming it |
| Schedule.DueColorCons | javascripts/app.js:388-399 | a due entry naming the cell at the front decides its colour; otherwise the rest of the list does |
| Schedule.ProcessIdempotent | javascripts/app.js:388-399 | a second pass at the same time finds nothing due and keeps the pending list |
| Schedule.PendingAllPending | javascripts/app.js:388-399 | a list with nothing due is left as it is |
| Schedule.ShownStep | javascripts/app.js:389-397 | applying the due entries from position i backwards: entry i wins for its cell when it is due |
| Schedule.SpliceStep | javascripts/app.js:389-396 | splicing out a due entry i, or keeping one not yet due, extends the processed suffix by one entry |
| Schedule.ApplyAt | javascripts/app.js:390-397 | one step recolours and dirties the cell of a due entry, splices it out, and changes nothing else |
| Schedule.ProcessTreePath | javascripts/app.js:388-399 | afterwards the list holds exactly the entries not yet due, in order; each cell shows the colour of the earliest due entry naming it and is dirty, or is unchanged when no due entry names it; numbers and times are unchanged |
| Random.Rng.Random | javascripts/app.js:161 | `_.random(lo, hi)` returns the oracle's next value, within the bounds, with the bounds swapped when given in the wrong order, and counts the call |
| RandomPath.Neighbour | javascripts/app.js:170-177 | each of the six searches leads away from the current address |
| RandomPath.NeighbourAdjacentFromEvenColumn | javascripts/app.js:170-177 | from an even column every `nsearches` offset is a neighbouring cell, one cube step away |
| RandomPath.NeighbourNotAdjacentFromOddColumn | javascripts/app.js:170-177 | from an odd column, offsets 1 and 5 lie two cube steps away and the neighbour (col + 1, row + 1) is never tried, because the table ignores the odd-q shift of odd columns |
| RandomPath.FindOffset | javascripts/app.js:185 | the address lookup returns -1 exactly when no cell has that address, otherwise a cell with it |
| RandomPath.GetNeighbour | javascripts/app.js:178-196 | at most six tries, one random draw each; a hit is the unvisited grid cell at the `nsearches` offset picked by the last draw (hex-adjacent only from even columns), every earlier draw missed, and the hit is appended to the visited list; a miss comes only after all six tries, leaves the list as it is, and each of those six draws picked an offset that is off the grid or already visited |
| RandomPath.Visit | javascripts/app.js:205-206 | stamping an unvisited cell with the walk's colour and a later time extends the stamped walk and changes no other cell |
| RandomPath.PlantRoot | javascripts/app.js:161-167 | the root gets the walk's colour and time and is marked dirty; no other cell changes |
| RandomPath.Advance | javascripts/app.js:199-206 | one step of the walk advances the time by 15 to 25 ms; the cell it finds, if any, is an unvisited grid cell, is appended to the walk and gets the walk's colour and the new time; no other cell's colour or time changes and no clean flag or index changes; when no cell is found, the jitter draw was followed by six draws that all missed; the cell found is at the `nsearches` offset `pick` of the current cell |
| RandomPath.SteppedAppend | javascripts/app.js:198-207 | appending a cell at an `nsearches` offset of the last visited cell keeps every step of the walk an `nsearches` step |
| RandomPath.Walk | javascripts/app.js:198-207 | the walk takes at most `length` steps, never visits a cell twice, moves each step to an `nsearches` offset of the cell before, and stamps every visited cell with the walk's colour and rising times; other cells keep their colour and time; it stops before `length` steps only when the last six draws all missed from the last visited cell |
| RandomPath.BuildRandomPath | javascripts/app.js:160-209 | buildRandomPath returns 1 to max(length, 0) + 1 distinct grid indices, root first, each at an `nsearches` offset of the one before; the root is dirty and due 10 to 20 ms after `now`; every visited cell has the walk's colour and the times rise along the walk; all other cells, and every number, are unchanged; the path is shorter than max(length, 0) + 1 only when the last six draws all missed from its last cell |

## Left out

- Canvas drawing is not modelled: `drawHex`'s vertex trigonometry, stroke styles and rotation, `resetCanvas`, `window.onresize`, and the fade compositing in `init`. `drawHex` is a stroke counter (`Grid.Canvas.DrawHex`).
- `nextColor` and the HSL strings of `createjs.Graphics.getHSL` are outside the model. Colours are opaque strings given as parameters (`pickColor` in `Grid.BuildGrid`, `hexColor` and `color` in the path generators).
- Pixel geometry is not modelled: the x, y, cx and cy fields set by `buildGrid` and moved by `configureGrid` use floating-point `Math.cos`. The per-cell radius and random border width are left out too.
- `init`, the `createjs.Ticker` frame loop and `Date.now()` are not modelled. The current time is a parameter.
- Random draws made only for drawing or colours are not counted by the oracle: borders and nested radii in `buildGrid`/`drawGrid`, and the draws inside `nextColor`. `Rng.calls` counts only the draws of the path generators.
- The interpolation `t = 1.0 / targetDistance * i` and the cube arithmetic are over exact reals, not IEEE doubles.
- Lodash's internals are not modelled. `_.random` is an oracle and `_.findIndex`/`_.find` are `Lookup.FindIndex`.
- TreePath.TreeBuilder.Tree: does not state that the cells of a branch lie within `distance` of the root, nor what the child branches add; its own branch is tied to `CastDist` and `OwnCells`, the children only to validity, colour and times after `time`.
- TreePath.TreeBuilder.Grow: like `Tree` and `Children`, does not state how many child branches it grows, at what distance or in which directions; what the children append is given only validity, colour and times after `time`.
- TreePath.TreeBuilder.Children: does not state how many child branches it grows (`children`), at what distance or in which directions; a body that appends nothing meets its contract, which gives only validity, colour and times after `time` for what it appends.
- TreePath.TreeBuilder.Children: uses the corrected `ChildDirection`. This agrees with the code as written for every call the source makes, because `tree` is always given two children (see Findings and `TreePath.ChildDirectionAgrees`).
- TreePath.BuildTreePath: does not state what the child branches add beyond validity, colour and times after the root, nor the time order across branches. Child branches restart from their parent's end time, so the list as a whole is not sorted by time.
- RandomPath.Neighbour: models the `nsearches` table as written, which holds the neighbours of an even column for every column. The odd-q neighbours of an odd column are not modelled, so from an odd column the walk can jump two cells and never tries (col + 1, row + 1) (`RandomPath.NeighbourNotAdjacentFromOddColumn`).
- Schedule.ProcessTreePath: the source reads `grid[hexInfo.index]` before testing whether the entry is due. The model reads it only for due entries, and asks only due entries to name grid cells. The observable effect is the same.

## Findings

| source | as written | input that shows it | evidently intended | confidence | as-written member | corrected member |
|---|---|---|---|---|---|---|
| javascripts/app.js:359-363 | an even child whose counter-clockwise turn wraps below 0 gets `Math.abs((delta - (8 - direction)) % 8)`, which mirrors the direction instead of rotating it | direction 1, child i = 4 (delta 2): gives 5 | (direction - delta) mod 8 = 7 | not executed; unreachable in the program as shipped, since `tree` always passes `children: 2` | TreePath.ChildDirectionAsWrittenMirrors | TreePath.ChildDirection |
