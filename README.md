# Falling-sand grid engine, modelled and verified in Dafny

This project models the simulation core of a falling-sand toy: a rectangular grid of tiles (`Blank`, `Wall`, `Sand`) that advances one tick per frame. Each tick the engine does five things:

1. It clears a scratch buffer.
2. If snow is on, it drops nine grains of snow into row 0.
3. If the mouse button is down, it paints one cell with the current brush.
4. It sweeps the current grid into the scratch buffer. Walls are copied in place. Each grain moves one row in the gravity direction: straight on if that cell is still free, otherwise diagonally, with a coin choosing which side is tried first. A grain that cannot move stays where it is.
5. It swaps the two buffers.

Keyboard commands reset the board to its fixture (one horizontal wall), flip gravity, choose the brush and toggle snow.

The files:

- `grid.dfy` (module `Grid`) holds tile types and their integer constants and names, grids as values (`seq<seq<TileType>>`) and as arrays (`array2<TileType>`), cell counts, and the in-place `Reset`.
- `physics.dfy` (module `Physics`) holds the sweep as a function on grid values (`SandTarget`, `StepCell`, `ScanRow`, `SweepRows`, `Sweep`), the sweep invariant, and the guarantees proved from it: walls stay, sand is conserved, no cell is claimed twice, and a grain moves at most one row.
- `game.dfy` (module `Game`) holds the engine class `Game`, with the two buffers and the scalar state. The imperative tick (`UpdateGrid` and its loops) is proved equal to `Physics.Sweep` applied to the snowed and painted grid. The file also has the key commands, the board fixture, snow and paint as value functions, and multi-tick scenarios.

The two random sources are inputs. `coins[r][c]` is the coin the grain at row `r`, column `c` tosses when it is blocked straight ahead (`true` tries left first). `snowCols` holds the nine columns the snow lands in. Over several ticks (`Game.Settle`) each tick has its own table of coins.

Two behaviours of the code are modelled as written, although a different behaviour is meant:

- A full board reset is meant to clear the scratch grid too. Key R rebuilds only the current grid. The scratch grid is left alone, but it is cleared at the start of every tick anyway.
- Walls are meant to survive every tick. Snow writes `Sand` into row 0 whatever was there, so a wall in row 0 is replaced (`Game.SnowErasesWall`). Wall invariance therefore holds for the sweep (`Physics.SweepKeepsWalls`) but not across snow.

The fixture wall covers row `h / 2`, columns `w / 4` up to but not including `3 * (w / 4)`, as the code draws it.

## Model

| member | source | states |
|---|---|---|
| Grid.Code | game/grid.go:11-15 | each tile type has a constant in 0..2, and the zero constant is exactly `Blank` |
| Grid.FromCode | game/grid.go:11-15 | an integer names a tile type exactly when it is 0, 1 or 2, and then it is that type's constant |
| Grid.CodeRoundTrip | game/grid.go:11-15 | every tile type survives the trip through its constant, so the three constants are distinct |
| Grid.Name | game/grid.go:19-28 | each tile type has its own printed name: "blank" exactly for `Blank`, "wall" exactly for `Wall`, "sand" exactly for `Sand` |
| Grid.NameOfCode | game/grid.go:19-31 | 0, 1 and 2 print as "blank", "wall" and "sand"; any other integer takes the fatal path (None) |
| Grid.NamesDistinct | game/grid.go:19-28 | distinct tile types print differently |
| Grid.BlankGrid | game/game.go:86-99 | a freshly made grid has the requested size and every cell is the zero tile, `Blank` |
| Grid.Reset | game/grid.go:33-39 | after `Reset` every cell of the grid is `Blank`, whatever it held before |
| Physics.StepCell | game/game.go:333-386 | one visit keeps the grid's size; what it writes is fixed by `Physics.NoDoubleClaim` (into a still-Blank cell) and `Physics.SandTarget` (where a grain lands) |
| Physics.ScanRow | game/game.go:322-387 | the visits of one row, in its parity's column order, keep the grid's size; the sweep invariant it keeps is proved by `Physics.ScanRowInv` |
| Physics.SweepRows | game/game.go:313-388 | the first `k` rows in gravity's row order, swept into a blank grid, give a grid of the same size; `Physics.SweepRowsInv` proves the sweep invariant after each row |
| Physics.Sweep | game/game.go:313-388 | a whole sweep gives a grid of the same size; its meaning is given by `Physics.SweepConservesSand`, `Physics.SweepKeepsWalls`, `Physics.NoDoubleClaim` and `Physics.SweepMovesOneStep` |
| Physics.ScanOrderIsBijection | game/game.go:313-332 | the row order (bottom-up when gravity is positive, else top-down) and the column order (right-to-left on even rows, else left-to-right) are bijections, so every cell is visited exactly once |
| Physics.SandTarget | game/game.go:344-383 | a grain stays put exactly when the next row is off the grid or all three cells ahead are taken in the new grid; otherwise it lands on a still-Blank cell one row on, at most one column aside; straight ahead wins when free, and the coin's side wins when straight is blocked and that side is free |
| Physics.NoDoubleClaim | game/game.go:333-386 | whenever a visit writes a wall or a grain, the cell it writes is still Blank in the new grid, so nothing written earlier in the sweep is overwritten |
| Physics.SweepConservesSand | game/game.go:322-388 | a sweep produces exactly as many grains as the grid it reads holds |
| Physics.SweepKeepsWalls | game/game.go:335-338 | the new grid has a wall exactly where the grid read has one |
| Physics.SweepMovesOneStep | game/game.go:344-386 | every grain of the new grid was already there, or came from one of the three cells one row back against gravity |
| Physics.LoneGrain | game/game.go:344-357 | a lone grain falls one row in the gravity direction, or stays when that row is off the grid |
| Physics.StackedGrains | game/game.go:359-383 | a grain resting on a grain on the edge row slides left on a true coin and right on a false one |
| Game.Fixture | game/game.go:121-124 | the board after start-up or key R (also game/game.go:148-151) has the grid's size; `Game.FixtureCounts` and `Game.Game.DrawWall` give its contents |
| Game.FixtureCounts | game/game.go:121-124 | the fixture holds no sand and a wall of `2 * (w / 4)` cells |
| Game.Snowed | game/game.go:293-297 | snow keeps the grid's size; `Game.SnowedAt` gives every cell |
| Game.SnowedAt | game/game.go:293-297 | snow turns exactly the chosen cells of row 0 into sand, whatever they held, and leaves every other cell alone |
| Game.Painted | game/game.go:307-311 | a paint stroke sets the cell under the brush to the brush type and leaves every other cell as it was |
| Game.Prepared | game/game.go:289-311 | the grid the sweep reads has the old grid's size; `Game.PreparedAt` gives every cell |
| Game.PreparedAt | game/game.go:293-311 | the grid the sweep reads is the old grid, with paint overriding snow and snow only in row 0 |
| Game.SnowErasesWall | game/game.go:293-297 | a grain of snow landing on a wall in row 0 replaces it, so the wall count drops by one |
| Game.Settle | game/game.go:289-390 | `n` quiet ticks, each with its own coin table, keep the grid's size; `Game.SettleConserves` and `Game.LoneGrainFalls` give what they do |
| Game.SettleConserves | game/game.go:289-390 | over any number of quiet ticks, whatever coins they toss, sand is conserved and the walls are exactly those of the starting grid |
| Game.LoneGrainFalls | game/game.go:313-390 | over `n` quiet ticks, whatever coins they toss, a lone grain falls `n` rows in the gravity direction and then rests on the edge row |
| Game.FallScenario | game/game.go:313-390 | on a 5 by 5 board under gravity 1, a grain in row 0, column 2 is in row 1 after one tick, row 2 after two, on the bottom row after four, and still there after five |
| Game.BrushAfter | game/game.go:272-282 | with no number key pressed the brush is unchanged; otherwise it becomes the type of a pressed key, with 3 (`Blank`) beating 2 (`Wall`) beating 1 (`Sand`) |
| Game.MakeGrid | game/game.go:86-99 | a new, unshared grid of the requested size whose cells are all `Blank` |
| Game.Game.constructor | game/game.go:77-124 | gravity starts at 1, the brush at `Sand`, snow off, both buffers freshly allocated with the scratch grid blank and the current grid holding the fixture |
| Game.Game.DrawWall | game/game.go:121-124 | the fixture wall cells become `Wall` and every other cell keeps its tile |
| Game.Game.ResetGrid | game/game.go:139-152 | after key R the current grid is the fixture, whatever it held before |
| Game.Game.HandleKeys | game/game.go:264-286 | R resets the current grid; G negates gravity; of 1, 2 and 3 the last handled wins; S flips snow; the validity invariant (gravity is 1 or -1) is kept |
| Game.Game.SetScalars | game/game.go:268-286 | gravity is negated on G, the brush follows the last of 1/2/3 pressed, snow flips on S |
| Game.Game.DropSnow | game/game.go:293-297 | the current grid becomes the grid with the nine chosen row-0 cells set to sand, in order |
| Game.Game.Paint | game/game.go:307-311 | the cell under the brush takes the brush type; no other cell changes |
| Game.Game.VisitCell | game/game.go:333-386 | one visit writes into the scratch grid exactly what `Physics.StepCell` specifies: walls in place, blanks nothing, grains via `SandTarget` |
| Game.Game.MoveGrain | game/game.go:344-386 | a grain is written at the cell `Physics.SandTarget` picks |
| Game.Game.SweepRow | game/game.go:322-387 | the inner loop over one row in its parity's direction leaves the scratch grid equal to the sweep specification after that row |
| Game.Game.SweepAllRows | game/game.go:313-388 | the outer loop over rows in gravity's order leaves the scratch grid equal to `Physics.Sweep` of the current grid |
| Game.Game.SweepGrid | game/game.go:313-388 | from a cleared scratch grid, the sweep leaves `Physics.Sweep` of the current grid in it |
| Game.Game.Prepare | game/game.go:289-311 | the scratch grid is cleared, and the current grid becomes the snowed and painted grid |
| Game.Game.UpdateGrid | game/game.go:289-400 | the buffers are swapped, not copied: the old current grid now holds the snowed and painted grid, and the new current grid is `Physics.Sweep` of it, with the validity invariant kept |
| Game.Game.TickGuarantees | game/game.go:289-390 | with no snow and no paint a tick conserves sand, and in every tick the new grid's walls are exactly those of the grid read |
| Game.Game.Step | game/game.go:230-231 | key handling followed by the grid update, with the combined effect on the scalar state and both buffers |
| Game.Game.Update | game/game.go:226-234 | the tick counter goes up by one modulo 2^64, then the keys and the grid update take effect as in `Step` |

## Left out

- Rendering: `Draw`, `drawGrid`, `drawBackground`, `drawCursor`, the sprite images and the debug text (game/game.go:159-219) only call the graphics library.
- Cursor and mouse: polling the mouse and moving and clamping the cursor (game/game.go:236-256) are input glue. The paint target is an input cell, and it must lie on the grid. The floating-point mapping from screen to grid (game/game.go:308-309) is not modelled.
- Sizing: the grid height computed with float32 from the screen size, and the width fixed at 150 (game/game.go:112-116), are not modelled. The constructor takes any positive width and height.
- Gravity is a float64 in the source that only ever holds 1 or -1 and is read through `int(...)`. It is modelled as an integer that is 1 or -1.
- Randomness: `cointoss` and `random` draw from a global generator. They are replaced by the `coins` table and the `snowCols` sequence. Each cell tosses at most one coin per tick, so a table indexed by cell can express any sequence of draws.
- Keys as events: "just pressed" edge detection is not modelled. Each key is a boolean for the frame.
- Key Q exits the process, and the double-initialisation panic, logging and `printGrid` are not modelled. These are process glue and console output.
- `main.go` is not part of this model. It holds no grid logic.
- The `Dx` and `Dy` fields of a tile are never read or set to anything but 0, so tiles are modelled by their type alone.
- Game.Game.HandleKeys: key R resets only the current grid, as the code does. A full board reset would also clear the scratch grid; that makes no observable difference, because every tick clears it first.
- Ragged grids: `Reset` (game/grid.go:33-39) bounds every row by the length of row 0, which differs from "every cell" on a ragged grid. Grids are modelled as `array2`, which is always rectangular, and `makeGrid` (game/game.go:86-99) only builds rectangular grids, so this case is not modelled.
