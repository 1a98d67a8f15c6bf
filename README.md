# Spiralling cells: the automaton engine

This project models the `CellularAutomaton` engine of `SpirallingCells10.py`. It then proves properties of that model.

The engine works as follows:
- It holds a `height` × `width` torus of cells. Each cell is in one of `num_states` states, `0 .. num_states - 1`.
- It keeps the grid it was filled with, so a run can be restarted, and it counts generations.
- In one generation, every cell that has a neighbour in the next state (mod `num_states`) advances by one. All other cells stay as they are. Every cell is decided from the old grid.
- Neighbours are found through one of two offset tables, "von Neumann" (4 neighbours) and "Moore" (8). Both wrap around the edges.
- Two disorder measures are defined:
  - the *min-diff* of a cell: the least circular distance between its state and its neighbours' states;
  - the *entropy*: the mean of the min-diff over all cells.

The model has three modules:

- `Rule` (`rule.dfy`) covers the parts that are pure values:
  - the offset tables;
  - the wrapped neighbour;
  - the per-cell rule `NextCell`;
  - the whole-grid successor `Step`.
  It also proves what the rule implies: a cell advances exactly when a neighbour holds its successor; the result does not depend on the order of the offset table; a uniform grid is a fixed point. On the two-state test board `Checkerboard`, which is a valid grid for any size, it proves that an even-width board flips every generation.
- `Disorder` (`disorder.dfy`) covers the two measures:
  - the circular distance `CircDist`, exactly as the engine computes it from two `%` remainders;
  - the fold `MinDiffOver`, which starts at `10 * num_states` as the engine does;
  - `MinDiff`, the per-cell metric grid, its sum `EntropySum`, and the mean.
  It proves their bounds and when they are zero.
- `Engine` (`engine.dfy`) covers the object. `EngineState` is the engine's fields taken as a value. `Evolve`, `EvolveN` and `Reset` are its transitions. The class `CellularAutomaton` has the same fields. Each of its methods is proved against those transitions, or against the `Rule`/`Disorder` functions.

The random initial fill is supplied by the caller as the grid `draw`.

## Model

| member | source | states |
|---|---|---|
| Rule.VonNeumannTable | SpirallingCells10.py:140 | the von Neumann table holds exactly the four offsets at Manhattan distance 1 |
| Rule.MooreTable | SpirallingCells10.py:138-140 | the Moore table holds exactly the eight non-zero king moves, and its first four entries are the von Neumann table |
| Rule.TablesHaveNoRepeats | SpirallingCells10.py:138-140 | neither table lists an offset twice |
| Rule.Neighbour | SpirallingCells10.py:164-166 | the wrapped neighbour position always lies inside the grid |
| Rule.WrapAround | SpirallingCells10.py:165-166 | a unit step off any edge re-enters at the opposite edge; otherwise it moves by the offset |
| Rule.Step | SpirallingCells10.py:183-185 | the next generation has the grid's shape and range, and each cell is the per-cell rule applied to the old grid |
| Rule.StepCell | SpirallingCells10.py:160-169 | a cell either keeps its state or takes its successor mod `num_states`; it changes only when some neighbour holds that successor, and then it must change |
| Rule.MoreOffsetsMoreMatches | SpirallingCells10.py:164-168 | a neighbour found in one offset table is also found in any table containing it |
| Rule.StepOrderIrrelevant | SpirallingCells10.py:164-168 | two tables with the same offsets give the same next generation, whatever their order |
| Rule.MooreSeesVonNeumann | SpirallingCells10.py:138-140 | the Moore neighbourhood contains the von Neumann one, so a cell that advances under von Neumann advances under Moore |
| Rule.StepIs | SpirallingCells10.py:183-185 | a grid that agrees with the per-cell rule everywhere is the next generation |
| Rule.UniformCell | SpirallingCells10.py:163-169 | in a uniform grid with at least two states, no cell has a neighbour in the next state, so each keeps its state |
| Rule.UniformIsFixedPoint | SpirallingCells10.py:181-185 | a uniform grid is a fixed point of a generation |
| Rule.CheckerboardRightNeighbour | SpirallingCells10.py:165-167 | on an even-width checkerboard (the two-state test board `Checkerboard`, where cell (r, c) holds `(r + c + phase) % 2`) the right-hand neighbour, wrapping included, holds the other state |
| Rule.CheckerboardCellAdvances | SpirallingCells10.py:160-169 | on an even-width two-state checkerboard every cell sees its successor among its von Neumann neighbours, so it advances to the other state |
| Rule.CheckerboardInverts | SpirallingCells10.py:181-185 | with two states and von Neumann neighbours, every cell of an even-width checkerboard advances, so one generation turns it into the opposite-phase checkerboard |
| Rule.CheckerboardPeriodTwo | SpirallingCells10.py:181-185 | two generations bring that checkerboard back to itself |
| Rule.FourByFourExample | SpirallingCells10.py:181-185 | a concrete 4 × 4 two-state checkerboard becomes its complement |
| Disorder.OppositeRemainders | SpirallingCells10.py:215-216 | the two remainders the engine takes are either both 0 or add up to `num_states` |
| Disorder.StatesDifferModulo | SpirallingCells10.py:215 | two valid states have remainder 0 exactly when they are equal |
| Disorder.CircDist | SpirallingCells10.py:215-216 | the distance between two states is between 0 and `num_states / 2` |
| Disorder.CircDistIsShorterWay | SpirallingCells10.py:215-216 | the engine's distance is the shorter way round the cycle of states, it is symmetric, and it is 0 exactly for equal states |
| Disorder.MinDiffOver | SpirallingCells10.py:206-217 | the fold is `10 * num_states` on an empty table and otherwise lies in [0, `num_states / 2`] |
| Disorder.MinDiffOverIsLeast | SpirallingCells10.py:211-216 | the fold is no larger than any neighbour's distance and equals one of them |
| Disorder.MinDiffOverExtend | SpirallingCells10.py:215-216 | one more offset in the fold takes the minimum with that neighbour's distance |
| Disorder.MinDiffBounds | SpirallingCells10.py:203-217 | a cell's min-diff lies in [0, `num_states / 2`] and is 0 exactly when some neighbour is in the same state |
| Disorder.MooreMinDiffAtMostVonNeumann | SpirallingCells10.py:207-209 | a cell's min-diff under Moore is never larger than under von Neumann |
| Disorder.Metrics | SpirallingCells10.py:222-224 | the metric grid has the grid's shape and holds every cell's min-diff |
| Disorder.SumRowBounds | SpirallingCells10.py:223-224 | a row sum of metrics bounded by `b` is between 0 and `k * b`, and is 0 exactly when every entry is 0 |
| Disorder.SumRowsBounds | SpirallingCells10.py:222-224 | the same for the sum over rows |
| Disorder.EntropySumBounds | SpirallingCells10.py:219-224 | the summed metric lies in [0, `(num_states / 2) * width * height`]; it is 0 exactly when every cell has an equal neighbour, and it is 0 on a uniform grid |
| Disorder.UniformCellHasEqualNeighbour | SpirallingCells10.py:211-216 | in a uniform grid every cell has an equal neighbour |
| Disorder.MeanBounds | SpirallingCells10.py:225 | the mean of such a sum over `width * height` cells lies in [0, `num_states / 2`] |
| Disorder.EntropyBounds | SpirallingCells10.py:219-225 | the entropy lies in [0, `num_states / 2`] |
| Engine.Evolve | SpirallingCells10.py:181-187 | a generation keeps the engine's invariant (shape, range, cell count, counter) |
| Engine.EvolveN | SpirallingCells10.py:181-187 | any number of generations keeps that invariant |
| Engine.Reset | SpirallingCells10.py:151-154 | a restart keeps that invariant |
| Engine.ResetIdempotent | SpirallingCells10.py:151-154 | restarting twice is the same as restarting once |
| Engine.RestartAfterRun | SpirallingCells10.py:151-154 | `k` generations advance the counter by `k` and change nothing but the grid and the counter, so a restart after a run equals a restart before it |
| Engine.UniformRunIsStill | SpirallingCells10.py:181-187 | a uniform grid stays the same over any number of generations |
| Engine.CellularAutomaton.constructor | SpirallingCells10.py:126-140 | a new engine holds its configuration, the fill as both grid and initial grid, counter 0, and `width * height` cells |
| Engine.CellularAutomaton.InitializeRandomly | SpirallingCells10.py:142-149 | a new fill replaces both the grid and the initial grid and changes nothing else |
| Engine.CellularAutomaton.ResetGrid | SpirallingCells10.py:151-154 | the grid goes back to the initial grid and the counter to 0 |
| Engine.CellularAutomaton.GetGrid | SpirallingCells10.py:156-158 | the snapshot is the current grid, of the configured shape and range |
| Engine.CellularAutomaton.HasPlusOneNeighbour | SpirallingCells10.py:160-169 | the scan answers true exactly when some neighbour in the table holds the cell's successor state |
| Engine.CellularAutomaton.NextGeneration | SpirallingCells10.py:183-185 | the nested comprehension builds exactly the next generation from the old grid |
| Engine.CellularAutomaton.EvolveOneStep | SpirallingCells10.py:181-187 | the grid becomes its next generation, the counter goes up by one and is returned, and everything else is unchanged |
| Engine.CellularAutomaton.GetMinDiff | SpirallingCells10.py:203-217 | the loop computes the cell's min-diff, which lies in [0, `num_states / 2`] |
| Engine.CellularAutomaton.GridMinDiffSum | SpirallingCells10.py:221-224 | the nested loops add up the min-diff of every cell, row by row |
| Engine.CellularAutomaton.RowMinDiffSum | SpirallingCells10.py:223-224 | the inner loop sums the min-diff along one row |
| Engine.CellularAutomaton.GetEntropy | SpirallingCells10.py:219-225 | the result is the summed min-diff divided by the cell count, and it lies in [0, `num_states / 2`] |
| Engine.RunThenRestart | SpirallingCells10.py:395-398 | after any number of generations, a restart restores the initial grid with counter 0 and leaves the rest of the engine as it was |

## Left out

- The pygame window, `Button`, `draw_text`, the event loop `main_loop`, `DrawCells` and `SaveImage`: drawing and input handling are I/O. `RunThenRestart` stands in for the loop's run-then-restart path only.
- `SaveInitial`, `SaveCurrent`, `LoadState` and the Tk file dialogs: they pickle to files, which is I/O. (As written, loading a state also leaves `num_cells` and `initial_grid` untouched; that is not modelled.)
- `get_filename`: it builds names from the wall clock.
- The random number generator and its seed: the random fill is the parameter `draw` of the constructor and of `InitializeRandomly`. That parameter must be a valid grid, because `randint(0, num_states - 1)` yields one.
- Engine.CellularAutomaton.constructor: models only `random_start=True`. With `random_start=False` the source leaves an all-zero grid and never sets `initial_grid`, so a later restart fails there.
- Engine.CellularAutomaton.constructor: requires positive width, height and state count. On the modelled `random_start=True` path, the source refuses `num_states <= 0` whenever the grid has a cell: `randint(0, num_states - 1)` raises on the empty range during construction, before any `%` runs. It does accept `width <= 0` or `height <= 0`, because the fill then draws nothing; `GetEntropy` then divides by a zero or negative cell count. Every construction in the main program passes `800 // cell_size` for both dimensions, with `cell_size` in {1, 2, 3, 4}, and a state count in {4, 8, 12, 16}, so it always meets this `requires`.
- Engine.CellularAutomaton.GetEntropy: the result is the exact real quotient. The float rounding of `float(ent) / num_cells` is not modelled.
- Engine.CellularAutomaton.GetGrid: grids are sequence values, so the snapshot cannot alias the engine's grid. The source's `grid[:]` copies only the outer list, and a caller that mutates a returned row would change the engine's grid. The engine itself never mutates a row in place: `EvolveOneStep` builds new rows and `ResetGrid` deep-copies.
- `NeighbourValues`: it is unused and is a copy of `HasPlusOneNeighbour`.
- The neighbourhood keys `"Moore"` and `"von Neumann"` are a datatype. A misspelt key, a `KeyError` in the source, cannot occur in the model.
- `GetMinDiff` has its own local offset table, identical to the engine's. The model uses the single table `Offsets`.
