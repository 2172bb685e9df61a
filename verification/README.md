# Minesweeper board and logical solver, in Dafny

This project models the core of a C++/Qt Minesweeper game and proves
properties of the model:

- the grid (`Cell`, `Board`, row-major indexing, the eight-direction
  neighbour lookup);
- board construction (argument checks, bomb placement with an exclusion
  list, neighbour-bomb counts);
- `open_cell` and its flood fill, `toggle_flag`, `cleared`, and the text
  rendering;
- the lazily initialised board, which places its bombs on the first open;
- the solver `MineAI`: a deduction pass over the (B, F, C) counts,
  speculation on cloned boards one nesting level deeper,
  `erase_assumption`, the `solve_all` loop with its step callback, and
  `open_any`.

Everything is a pure function or a method over immutable datatypes.
Mutation in the C++ becomes a new `Board` value. Exceptions become a
`Result`. Random numbers become an input sequence of draws. The step
callback becomes a function value `(Board, nat, nat) -> bool`.

Files, one module each:

| file | module | contents |
|---|---|---|
| wrappers.dfy | `Wrappers` | `Option`, `Result` |
| cells.dfy | `Cells` | `CellState`, `Cell` |
| grid.dfy | `Grid` | directions, index/point conversion, neighbour lookup, the geometric reference `Adjacent` |
| board.dfy | `Boards` | `Board`, cell counting, neighbour-count consistency, `toggle_flag`, `cleared` |
| reveal.dfy | `Reveal` | `open_cell` and the flood fill `open_cell4` |
| construction.dfy | `Construction` | `setup_cells`, `build_neighbor_map`, the `Board` constructor |
| rendering.dfy | `Rendering` | `char_of_cell`, `show_game_state` |
| solver.dfy | `Solver` | `next_step`, `erase_assumption`, `solve_all`, `open_any` |
| soundness.dfy | `SolverSoundness` | what the top-level solve guarantees on a consistent board |
| lazy.dfy | `LazyBoards` | `LazyInitBoard` construction and its first `open_cell` |

Main results. Every board operation finds neighbours through the
corrected lookup `Grid.Step` (see Findings), so each result below holds
for the code as written on square boards only; see `Grid.Step`.

- **Neighbour counts.** `Boards.CountsExact` proves that every neighbour
  count is the number of bombs among the geometrically adjacent cells.
- **Flood fill.** The fill opens only Closed safe cells (`Reveal.Flood`).
  It leaves no Closed safe neighbour around any opened zero cell
  (`Reveal.FloodClosure`). Every opened cell is joined to the target by a
  chain of opened cells that steps only out of zero cells
  (`Reveal.FloodReached`).
- **Solver choices.** A step applies the rule of the first cell that has
  one; failing that, it adopts the solved clone of the first candidate
  whose guess solves, and it throws "NO LOGIC" exactly when there is
  neither (`Solver.NextStepChoice`).
- **Solver soundness.** `SolverSoundness.SolveAllSound` starts from a board
  whose flags are all on bombs and whose opened cells are all safe. On
  such a board the solver never meets a contradiction and never opens a
  bomb. Its only error is "NO LOGIC". It stops unsolved only when the
  callback asks it to.
- **First open.** `LazyBoards.LazyOpenCell` never loses on the first open,
  and it leaves a board of that consistent kind.

Behaviour of the code that the model keeps:

- `solve_all` runs `next_step` before it checks `cleared()` and
  `failed()` (ai.cpp:52-62), so a board that is already cleared still
  goes through one `next_step`, which may throw.
- When bombs are disclosed, `char_of_cell` renders a flag on a safe cell
  as `'f'` and a flag on a bomb as `'F'` (board.cpp:277-279).
- `open_cell` on a Flagged bomb sets `failed` (board.cpp:303-306); only
  the flood fill skips Flagged cells.
- `Board(width, height, n_bombs, init)` has no excluded cells and
  rejects `n_bombs >= width * height` (board.cpp:19-21). The constructors
  with excluded cells, which are left out, subtract them: they check
  `n_bombs >= width * height - excludes.size()` (board.cpp:39, 69).
- A nested `solve_all` that stops because the callback returned false
  returns false without an exception. Speculation then tries the next
  candidate (ai.cpp:210-222).
- The speculation mark is the `is_assumption` field that ai.cpp reads and
  writes (ai.cpp:72-73, 105, 142, 160, 193, 209). The model's `Cell`
  carries it as `isAssumption`.

## Model

| member | source | states |
|---|---|---|
| Cells.NewCell | board.h:33-40 | a new cell has the given bomb bit and state (Closed unless another is passed), a neighbour count of 0 and no assumption mark |
| Cells.ExactlyOneState | board.h:66-68 | exactly one of `opened()`, `closed()`, `flagged()` holds for every cell |
| Grid.DirectionListsComplete | ai.h:20-24 | `ALL_DIRECTIONS` and the flood-fill order each list all eight directions, each exactly once |
| Grid.FloodPosition | board.cpp:330-332 | every direction has a position in the flood-fill direction list |
| Grid.RoundTripSquare | board.cpp:240-254 | on a square board `from_index` as written is the intended conversion, and `from_point`/`from_index` are inverse in both directions |
| Grid.CorrectedRoundTrip | board.cpp:240-254 | with the row computed as index / width, the conversion is a bijection between the indices and the points of a board of any shape |
| Grid.FromIndexNonSquareCounterexample | board.cpp:243 | on a 1-wide, 2-high board `from_index(1)` is (0, 0): the round trip fails, `get_cell_index` returns cell 1 as its own Down neighbour and misses cell 0 above it |
| Grid.GetCellIndexByOffset | board.cpp:203-235 | from a point on the grid, each direction's edge test fails exactly when the shifted point leaves the grid; otherwise the result is `from_point` of the shifted point |
| Grid.CorrectedLookupSound | board.cpp:197-238 | every index the lookup returns is on the board, adjacent to the base, and at the base's column and row plus the direction's offset |
| Grid.CorrectedLookupComplete | board.cpp:197-238 | every adjacent cell of the board is returned for the direction of its offset |
| Grid.CorrectedLookupInjective | board.cpp:197-238 | two directions that both succeed reach different cells |
| Grid.Step | board.cpp:197-238 | the neighbour lookup used everywhere returns only adjacent cells of the board, and on a square board it equals `get_cell_index` as written |
| Grid.NeighboursExact | board.cpp:181-192 | the neighbour list built over `ALL_DIRECTIONS` holds exactly the adjacent cells of the board, each once |
| Boards.TotalCells | board.h:127 | `get_total_cells()` is the number of cells of a well-formed board |
| Boards.CellAtPointOfIndex | board.h:117-121 | on a square board, indexing by the point of index i yields cell i |
| Boards.CountsExact | board.cpp:179-195 | after the neighbour map is built with the corrected lookup, each cell's count is the number of bomb cells adjacent to it; on square boards this is the code as written (see `Grid.Step`) |
| Boards.ToggleFlag | board.cpp:356-369 | Opened cells are unchanged, Closed becomes Flagged and Flagged becomes Closed, and nothing else changes |
| Boards.ToggleFlagTwice | board.cpp:356-369 | toggling the same cell twice gives back the board |
| Boards.CheckCleared | board.cpp:341-349 | the scan returns true iff every safe cell is Opened and no bomb cell is Opened |
| Boards.ToggleFlagKeepsCleared | board.cpp:356-369 | toggling a flag never changes whether the board is cleared |
| Reveal.Flood | board.cpp:315-339 | the fill only opens Closed safe cells, changes nothing else, always opens a Closed safe target, and leaves the board unchanged otherwise |
| Reveal.FloodDirs | board.cpp:330-338 | after the loop over the remaining directions, none of those neighbours is Closed and safe |
| Reveal.OpenCell | board.cpp:301-339 | opening a bomb cell, Flagged or not, sets `failed` and changes no cell; otherwise the fill runs and `failed` is unchanged: only Closed safe cells open, a Closed target opens, no Closed safe cell is left around an opened cell with zero bombs around it, and every opened cell is joined to the index by a chain of opened cells that steps only out of zero cells |
| Reveal.FloodClosure | board.cpp:325-338 | around every cell the fill opened with no bombs around it, no Closed safe cell remains |
| Reveal.FloodDirsClosure | board.cpp:330-338 | the loop's part of the closure property |
| Reveal.FloodSupported | board.cpp:318-338 | every cell the fill opened, other than the target, is a neighbour of a cell it opened with zero bombs around it |
| Reveal.FloodReached | board.cpp:315-339 | every cell the fill opened is joined to the target by a chain of cells it opened, each step going from a cell with zero bombs around it to one of its neighbours |
| Reveal.FloodDirsSupported | board.cpp:330-338 | the loop's part of the support property |
| Construction.Pool | board.cpp:164-169 | the candidate list holds every board index not excluded, each once |
| Construction.PoolSize | board.cpp:164-169 | the candidate list has one entry per board index minus the excluded ones |
| Construction.SetupCells | board.cpp:153-177 | the cells are width*height bomb-free Closed cells except for exactly `n_bombs` distinct bomb cells, none of them excluded |
| Construction.BuildNeighborMap | board.cpp:179-195 | every count becomes the number of bombs among the cell's neighbours under the corrected lookup, and only counts change; on square boards this is the code as written (see `Grid.Step`) |
| Construction.NewBoard | board.cpp:13-31 | the constructor fails with "illegal arguments" iff width <= 0, height <= 0, n_bombs < 0 or n_bombs >= width*height; otherwise the board has those dimensions, all cells Closed, `failed` false, n_bombs bombs (none when not initialised), and counts consistent under the corrected lookup, which on square boards is the code as written (see `Grid.Step`) |
| Rendering.LeadingDigit | board.cpp:289 | the first character of a positive count is a digit 1-9, the count itself below 10 |
| Rendering.CharOfCellHidesBombs | board.cpp:275-294 | without disclosure the character does not depend on the bomb bit: 'F' iff Flagged, 'O' iff Closed, ' ' or the count's digit when Opened |
| Rendering.CharOfCellDisclosed | board.cpp:275-294 | with disclosure, a bomb shows as '+' or 'F'; 'f' iff a flag on a safe cell; '+' iff an unflagged bomb; any other safe cell shows as it does without disclosure |
| Rendering.PosClosedForm | board.cpp:265-271 | cell i's character sits at 2i plus the number of newlines before it |
| Rendering.PosOfPoint | board.cpp:265-271 | the cell at (column, row) sits at row*(2*width+1) + 2*column |
| Rendering.TextLength | board.cpp:265-271 | the text of a w-by-h board has 2*w*h + h - 1 characters |
| Rendering.ShowGameState | board.cpp:262-273 | the text has one character per cell followed by a space, a newline before the first cell of each row after the first, and nothing else |
| Solver.SolverAt | ai.cpp:44-48 | the solver for a nesting level records that level and keeps `firsttime` set only at level 0 |
| Solver.OpenOne | ai.cpp:137-144 | a Closed neighbour is opened with `open_cell` at level 0 and set Opened with the assumption mark deeper; either way fewer cells are Closed or the game is lost; at level 0 the result is `open_cell`'s: a bomb sets `failed` and changes no cell, and a safe neighbour gets the whole flood fill, in which only safe cells open, none is left Closed and safe around an opened zero cell, and every opened cell is chained to the neighbour |
| Solver.OpenNeighbours | ai.cpp:136-145 | every listed neighbour ends up not Closed, unless it is a bomb opened at level 0, which loses the game; at level 0 `failed` becomes set exactly when it was set or some listed neighbour is a Closed bomb, and otherwise the board changes only by flood fills: only safe cells open, no Closed safe cell is left around an opened zero cell, and every opened cell is chained through opened zero cells to one of the listed neighbours |
| Solver.FlagNeighbours | ai.cpp:157-162 | every Closed listed neighbour becomes Flagged with the assumption mark equal to (level > 0), and no other cell changes |
| Solver.RuleAt | ai.cpp:95-170 | with B the cell's count, F its Flagged and C its Closed neighbours: a rule applies only to an Opened, unmarked cell; the contradiction iff B < F; opening the rest iff B == F and C > 0; flagging the rest iff B > F and C == B - F |
| Solver.Apply | ai.cpp:130-170 | the contradiction raises an error; opening the rest leaves every neighbour not Closed unless it is a bomb opened at level 0, which loses the game; at level 0 the game is lost exactly when it was lost or a Closed neighbour is a bomb, and apart from that flag only safe cells open, as flood fills from the neighbours (closed around zero cells, every opened cell chained to a neighbour); at deeper levels it sets exactly the Closed neighbours Opened and marked; flagging the rest flags every Closed neighbour with the mark equal to (level > 0) and changes nothing else; either way fewer cells are Closed or the game is lost |
| Solver.DeduceFrom | ai.cpp:89-176 | the deduction pass does nothing iff no cell has an applicable rule; otherwise it applies the rule of the first such cell |
| Solver.EraseAssumption | ai.cpp:65-76 | only assumption marks change, and the marks left are those marked in both `erased` and `base` |
| Solver.EraseAssumptionIdempotent | ai.cpp:65-76 | erasing again changes nothing, and erasing a board against itself changes nothing |
| Solver.Guess | ai.cpp:207-209 | the clone has the chosen Closed cell Flagged and marked, every other cell unchanged, and fewer Closed cells |
| Solver.SolveAllAt | ai.cpp:39-63 | a solve at any level keeps dimensions, bombs and counts; it returns true only on a cleared board; it returns false on a board that is not lost only when the callback said stop; its errors are "NO LOGIC" or the contradiction; an error of the first step is its error, a first step that clears the board with the callback continuing returns true on that board, one that loses the game returns false on it, and otherwise the loop goes on from the stepped board at step 1 |
| Solver.SolveLoop | ai.cpp:51-62 | each round runs one step, then the callback, then the cleared and failed checks: a failing step is the result, a callback returning false stops with false on the stepped board, a continuing callback on a cleared board stops with true, on a lost board it stops with false, and on any other board the result is that of the next round from the stepped board with the step count plus one; the results keep the guarantees of `SolveAllAt` |
| Solver.NextStep | ai.cpp:78-231 | a successful step leaves fewer Closed cells or a lost game; the contradiction error arises exactly when the deduction pass meets it, "NO LOGIC" only when no rule applies, and a deduction that applies is the step's result |
| Solver.Speculate | ai.cpp:178-230 | the board is replaced only by a cleared clone, with no new assumption marks and `failed` unchanged; with no candidate cell the result is "NO LOGIC" |
| Solver.TryGuess | ai.cpp:203-222 | a guess is adopted only as a cleared board with fewer Closed cells, no new marks and `failed` unchanged |
| Solver.SpeculateFails | ai.cpp:178-230 | the speculation pass throws "NO LOGIC" exactly when no candidate's guess solves |
| Solver.SpeculateAdopts | ai.cpp:178-230 | a successful speculation pass adopts the board of the first candidate, in index order, whose guess solves |
| Solver.NextStepChoice | ai.cpp:78-231 | `next_step` throws "NO LOGIC" iff no rule applies and no guess solves, throws the contradiction iff the deduction pass meets it, carries out a deduction that applies, and otherwise adopts the first solved guess |
| Solver.SolveAll | ai.cpp:34-37 | the top-level solve is `SolveAllAt` at level 0, with the same guarantees, including the first round's outcome and the hand-over to the next round |
| Solver.OpenAny | ai.cpp:18-32 | opens the lowest-index Closed cell and returns its index, or returns none and changes nothing when no cell is Closed |
| SolverSoundness.EvolvesKeepsCounts | board.cpp:185-193 | counts stay consistent under any change that keeps bombs and counts |
| SolverSoundness.CountAtSplit | ai.cpp:115-128 | when flags are on bombs and opened cells are safe, B = F + (Closed bombs around), so B - F Closed bombs remain among C Closed cells |
| SolverSoundness.RuleSound | ai.cpp:130-170 | on a consistent board B < F never happens; opening the rest applies iff the cell has a Closed neighbour and every Closed neighbour is safe; flagging the rest applies iff it has a Closed neighbour and every Closed neighbour is a bomb |
| SolverSoundness.ApplySound | ai.cpp:130-164 | a top-level deduction on a consistent board opens only safe cells and flags only bombs |
| SolverSoundness.DeduceSound | ai.cpp:89-176 | the top-level deduction pass on a consistent board never raises the contradiction |
| SolverSoundness.NextStepSound | ai.cpp:78-231 | a top-level step on a consistent board ends consistent, or fails with "NO LOGIC" |
| SolverSoundness.SolveLoopSound | ai.cpp:51-62 | the top-level loop only passes through consistent boards |
| SolverSoundness.SolveAllSound | ai.cpp:34-63 | on a consistent board `solve_all` never opens a bomb, never raises the contradiction, fails only with "NO LOGIC", and stops unsolved only when the callback says stop |
| LazyBoards.NewLazyBoard | board.cpp:426-430 | the lazy board checks its arguments like a `Board`, places no bomb, and waits for its first open |
| LazyBoards.Place | board.cpp:390-395 | a generation attempt places exactly n_bombs bombs, none at the opened index, with consistent counts and all cells Closed |
| LazyBoards.Generate | board.cpp:390-398 | the generated board has the opened index safe and Opened, and is consistent |
| LazyBoards.LazyOpenCell | board.cpp:467-475 | the first open generates the bombs away from the index and opens it, so it never loses; later opens are `Board::open_cell` |

## Left out

- Logging to `std::cout`/`std::cerr` and the `logging` flags are left out. They have no effect on the result.
- The stream plumbing of `show_game_state` is left out. The model returns the rendered text as a `string`.
- `std::random_device`/`mt19937` are left out. `SetupCells` and `NewBoard` take the raw generator outputs as a `draws` sequence, and each choice is `draw % pool size` as in the source. They require at least `n_bombs` draws.
- `AICallback::before_start` is left out: a `before_start` that changes the board is not modelled. `on_step` is a pure function value, so a callback with side effects, including one that changes the board, is not modelled.
- `ai_is_solvable` is left out: its one-second timeout on a `QThread` is about wall-clock time and threads.
- `BoardBuilder::generateLogicalBoard` is not part of this model. Its source is not available.
- LazyBoards.Generate: models one attempt of the generator closure. The builder's retrying until a board is logically solvable is not modelled.
- LazyBoards.LazyOpenCell: the generation thread of `generateActualBoard` is treated as having finished before the call returns. The window in which the board is still empty is not modelled.
- The constructors with excluded indices or points (board.cpp:33-100) are left out. They go through the same unavailable builder and a thread.
- `LazyInitBoard` copy/move/assignment and `Board` copy/move/assignment are value copies in the model. They need no separate member.
- The `Point` overloads of `open_cell`, `toggle_flag` and `operator[]` are left out. They only apply `from_point` first. `Boards.CellAtPointOfIndex` covers indexing.
- The `initialize` path of `LazyInitBoard::initAll` is left out: clearing the cells only precedes `setup_cells`, which rebuilds them.
- The `firsttime` first-move shortcut in `next_step` is commented out in the source, so `SolverAt` only records the flag.
- Grid.Step: follows the corrected `from_index`. On a board wider than it is high, the code as written indexes outside the cell vector. On a board higher than it is wide, it finds wrong neighbours. Both cases are logged under Findings.
- Boards.CountsExact: holds for the corrected lookup. As written, `build_neighbor_map` on a board wider than it is high reads past the cell vector (board.cpp:188-189; on a 2-wide, 1-high board cell 1 is taken as point (1, 1)), and on a board higher than it is wide it counts wrong cells (on a 1-wide, 2-high board cell 1 counts itself).
- Construction.BuildNeighborMap: the same restriction as `Boards.CountsExact`; its counts match the code as written on square boards only.
- Construction.NewBoard: its consistent counts are those of the corrected lookup, so they match the code as written on square boards only, for the reasons given under `Boards.CountsExact`.
- Construction.NewBoard: `width * height` is a 32-bit `int` product in the source (board.cpp:19, 26, 159; board.h:127). The model multiplies unbounded integers, so overflow is not modelled: a product past 2^31 - 1 is undefined behaviour in C++ and wraps on common targets, where 65536 by 65536 compares `n_bombs` against 0.
- Solver.SolveAllAt: a `Failure` carries no board. In the source, `solve_all` changes the caller's board in place (ai.cpp:39-63), so the rounds before an `AIReasoningError` stay on it, and `GuiMain::autoSolve` keeps that board after catching the error (guimain.cpp:62-70). The model states the error only, not the board left behind; `SolveLoop`'s continuation clause ties each failing round to the rounds before it.
- The `is_assumption` declaration is not visible in the available source files: board.h declares no such field, and its hand-written `Cell` copy constructor and `operator=` (board.h:42-55) copy only `has_bomb_`, `state_` and `neighbor_bombs_`. The model takes the mark to be copied along with the other three fields, as the speculation clone (a copy of the cell vector, ai.cpp:207-209) needs.
- The `beforeInit` declaration is not visible in the available source files. `NewLazyBoard` takes it to start true, as `open_cell`'s dispatch implies.

## Findings

| source | as written | input that shows it | evidently intended | confidence | as-written member | corrected member |
|---|---|---|---|---|---|---|
| board.cpp:243 | `from_index` computes the row as `index / height_` | width 1, height 2, index 1: `from_index` gives (0, 0), `from_point` maps it back to 0, and `get_cell_index(1, Down)` returns 1 itself while `Up` returns none | row = `index / width_`, so that `from_point(from_index(i)) == i` on every board | high; not executed | Grid.FromIndexNonSquareCounterexample | Grid.CorrectedRoundTrip |
