# raycast.js: tile map, collision oracle, player motion and key intents

This project models the early iteration of the p5.js ray-casting demo in
`source/raycast.js`. At this stage the renderer draws a top-down view only. It has
a fixed 11 x 15 tile map with 64-unit tiles, a collision oracle `hasWallAt`, a
player that turns and walks once per frame and slides along walls, and two
keyboard handlers that set the player's walk and turn intents.

- `grid.dfy`, module `Grid`: the constants on lines 1-6, the map (`Map`), and
  `hasWallAt` with JavaScript's read semantics. A row index outside the grid
  makes `grid[row][col]` throw a TypeError. A column index outside a row reads
  `undefined`, and `undefined == 1` is false. Only the value 1 is a wall. Only
  the tiles under the top-left and bottom-right corners of the square are read,
  and `||` stops after the first one when that tile is a wall.
- `kinematics.dfy`, module `Kinematics`: the `Player` class and its per-frame
  `Update`. `Slide` is the function that specifies the axis-decoupled commit.
- `input.dfy`, module `Input`: `keyPressed` and `keyReleased`.

The map is never written after it is built, so it is a datatype value. The player
is changed in place, so it is a class. `Math.cos` and `Math.sin` are parameters
of `Update`: any total functions on reals. JavaScript numbers are modelled as
exact reals. `Math.PI` is 3.141592653589793, the decimal JavaScript prints for it.

`hasWallAt` tests only the top-left and bottom-right corners of the square, and
only tiles equal to 1 are walls (`Grid.CornersDecide`, `Grid.OnlyOneIsWall`).

## Model

| member | source | states |
|---|---|---|
| `Grid.CellIndex` | source/raycast.js:29-33 | `Math.floor(p / TILE_SIZE)` is the index k of the one tile whose half-open span [64k, 64(k+1)) contains p |
| `Grid.Map.HasWallAt` | source/raycast.js:25-36 | fail-closed: a square of half-width r that leaves the 960 x 704 window is reported as a wall; the oracle throws only when one of the corner rows is not a row of the grid |
| `Grid.NewMap` | source/raycast.js:9-23 | the constructed map has 11 rows of 15 tiles, and every tile of row 0, row 10, column 0 and column 14 is 1 |
| `Grid.SpanningCellIsIndexed` | source/raycast.js:29-33 | a tile covers a point exactly when its row and column are the floored coordinates of that point |
| `Grid.ReadFindsCoveringWall` | source/raycast.js:35 | when reading a corner's tile does not throw, it finds the value 1 exactly when some wall tile of the map covers that corner, including when the column is past the end of the row |
| `Grid.CornersDecide` | source/raycast.js:29-35 | inside the window, a non-throwing `hasWallAt` is true exactly when a wall tile covers the top-left corner (x-r, y-r) or the bottom-right corner (x+r, y+r); no other tile matters |
| `Grid.OnlyOneIsWall` | source/raycast.js:35 | clearing every tile value other than 1 to 0 changes no result and no throw of `hasWallAt`: only the value 1 is a wall |
| `Grid.NeverThrows` | source/raycast.js:26-35 | on an 11 x 15 map with a solid border, a radius 0 < r <= 32 never makes `hasWallAt` throw: at the bottom edge the top-left corner is already in the bottom wall row, which `||` reads first |
| `Grid.RadiusAboveHalfTileThrows` | source/raycast.js:26-35 | half a tile is the largest safe radius: with r = 33 on the constructed map, the top-left corner lands on an empty tile of row 9 and the bottom-right corner reads the missing row 11, so `hasWallAt` throws |
| `Grid.ZeroRadiusEdges` | source/raycast.js:26-35 | the `>` bound test lets a zero-radius probe reach column 15 and row 11: at x = 960 it reads `undefined` and reports no wall, at y = 704 it throws |
| `Kinematics.Advance` | source/raycast.js:67-69 | the tentative coordinate `p + cos-or-sin * (walkDirection * moveSpeed)` equals p when the walk intent is 0 |
| `Kinematics.Slide` | source/raycast.js:71-77 | each axis either keeps its old value or takes the tentative one, and a position whose square is clear stays clear after the commit |
| `Kinematics.Frames` | source/raycast.js:125-134 | over any number of frames, each committing its own step through the two guarded commits, a player that starts clear is clear at the end |
| `Kinematics.FramesStandingStill` | source/raycast.js:125-134 | frames whose steps are all zero leave the position unchanged |
| `Kinematics.SlideAlongWall` | source/raycast.js:71-77 | with the X component blocked and the Y component clear, the player keeps its X and takes the new Y: it slides along the wall |
| `Kinematics.SlideEndsFree` | source/raycast.js:71-77 | from a clear position, the committed position lies inside the window and no wall tile covers either sampled corner of its square |
| `Kinematics.StartIsFree` | source/raycast.js:54-56 | the starting pose (480, 352) with radius 4 is clear on the constructed map |
| `Kinematics.SlidesAlongBlockOnNewMap` | source/raycast.js:71-77 | on the constructed map, a step of (+10, +20) from (500, 360) is stopped in X by the wall block of row 5 and still moves down to (500, 380) |
| `Kinematics.Player.constructor` | source/raycast.js:53-62 | the initial pose is the window centre, radius 4, heading pi/2, both intents 0, move speed 2 and rotation speed 2 degrees in radians |
| `Kinematics.Player.Update` | source/raycast.js:64-78 | the heading advances by turnDirection * rotationSpeed. X takes the tentative newX iff the square at (newX, old y) is clear. Y then takes newY iff the square at (new x, newY) is clear. The result equals `Slide`. A clear player stays clear, a zero walk intent leaves the position unchanged, and the radius, speeds and intents do not change |
| `Input.KeyPressed` | source/raycast.js:97-107 | up sets the walk intent to 1, down to -1, right sets the turn intent to 1, left to -1; any other key changes nothing; intents stay in {-1, 0, 1} |
| `Input.KeyReleased` | source/raycast.js:109-119 | up or down sets the walk intent to 0, right or left sets the turn intent to 0, whichever of the pair was pressed last; any other key changes nothing |

## Left out

- `Map.render`, `Player.render`, `setup` and the drawing in `draw` (source/raycast.js:38-49, 80-91, 121-134): p5.js drawing calls with no decisions in them. The frame driver's repeated `update` appears only as `Kinematics.Frames`, where each frame's step is given as a displacement.
- The global singletons `grid` and `player` (source/raycast.js:94-95): the map and the player are passed to `Update`, `KeyPressed` and `KeyReleased` as parameters.
- The values of `Math.cos` and `Math.sin`, and IEEE-754 rounding: numbers are exact reals, and cosine and sine are arbitrary functions given to `Update`.
- Kinematics.Player.Update: requires a map that is 11 x 15 with a solid border, and a radius in (0, 32] (part of `Player.Valid`). The source's only map and its radius of 4 meet both. Under them `hasWallAt` never throws, so the model does not cover a TypeError escaping half-way through `update`.
- The p5.js key codes (37-40 for the arrow keys) are p5.js constants. They are not defined in this file.
