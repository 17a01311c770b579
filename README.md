# Conway's Game of Life engine and episode controller, in Dafny

This project models the core of a small Python package that simulates Conway's Game of Life
on a toroidal grid and drives it in episodes:

- **the neighbour scan** (`conway/nearest.py`): for a cell `(row, col)`, `encode_neighbors`
  visits the 8 surrounding offsets in row-major order, skips the centre, wraps both
  coordinates with Python's `%`, and returns the 8 `(state, token, loc)` entries with their
  `alive` count; `NearestNeighbors.alive_cells` / `dead_cells` filter them;
- **the automaton** (`conway/game.py`): a `Cell` (a `Grid` with a shape check) holds two
  same-shaped buffers, `root` (the current generation) and `hidden` (the next). `scan`
  applies the birth/survival rule to every cell in row-major order, with neighbour counts
  taken from `root`, writes the result into `hidden` and counts `[born, killed, survived]`
  (indexed by `CellState`); `forward` wraps the counts in `Stats` and swaps the buffers;
  `CellBatch` tags a list of cells with ids `cell_0`, `cell_1`, ... and looks them up;
- **the episode controller** (`conway/core.py`): `criterion` measures how far apart the alive
  densities of the two buffers are, and `Env.step(t)` keeps a counter `flag` of zero-loss
  steps per window of `k` steps, setting `done` at each window boundary.

Modules: `Wrappers` (an `Option` type), `Grids` (the grid type, shape predicates, Python's `%`
and list subscript), `Nearest` (`conway/nearest.py`), `Game` (`conway/game.py`) and `Core`
(`conway/core.py`).

Form of the model. `encode_neighbors` is a nested loop, so it is a method
(`Nearest.EncodeNeighbors`, its inner loop `Nearest.EncodeOffsetRow`) proved against the
specification function `Nearest.Neighbors`. `Grid` and `Cell` are one class `Game.Cell`
whose `root` and `hidden` fields are lists of lists (`seq<seq<int>>`) that `Scan`, `Invert`
and `Forward` reassign; `scan` is a nested-loop method (`Game.Cell.Scan` with its inner loop
`Game.Cell.ScanRow`) proved against the specification functions `Game.NextGen` (the next
generation) and `Game.Tally` (the counts). `CellBatch` is a class with a `map<string, Cell>`
field filled by a loop. `Env` is a class whose `Step` and `Reset` update `flag`, `done` and
`cell`; the counter logic is stated as the pure functions `Core.Update` (one step) and
`Core.Run` (a run of steps from a fresh controller), about which the window properties are
proved.

Inputs the model takes as parameters: the random first generation (`Grid.init` draws each
cell with `rand.randint`) is an `init` grid argument, any 0/1 grid of the right shape.

## Model

| member | source | states |
|---|---|---|
| `Grids.PyMod` | conway/nearest.py:33-34 | Python's `%` by a positive modulus lands in `[0, n)`, keeps in-range values, sends -1 to n-1 and n to 0 |
| `Grids.PyIndex` | conway/game.py:104-105 | a Python list subscript: defined exactly for `-len <= idx < len`, negative indices count from the end |
| `Nearest.Offset` | conway/nearest.py:29-32 | entry k of the scan has a fixed offset in `{-1,0,1}²` other than `(0,0)`, and the offsets run in row-major order (its slot is k) |
| `Nearest.TokenNames` | conway/nearest.py:37 | the token is `"alive"` exactly for state 1 and `"dead"` for every other state |
| `Nearest.EntryAtOffset` | conway/nearest.py:33-39 | the entry at the slot of offset `(i, j)` is the neighbour at that offset: `root` at the wrapped location, with its token and location |
| `Nearest.SlotOffset` | conway/nearest.py:29-32 | each offset other than `(0,0)` has its own slot among the 8 in visiting order, and the next column offset takes the next slot |
| `Nearest.Neighbors` | conway/nearest.py:41 | the neighbour list always has exactly 8 entries |
| `Nearest.NeighborsSound` | conway/nearest.py:29-39 | entry k's `loc` is `((row+di) mod nrows, (col+dj) mod ncols)` for the k-th offset, inside the grid; its `state` is `root` at `loc`; its token is `"alive"` exactly when the state is 1 and `"dead"` otherwise |
| `Nearest.EncodeNeighbors` | conway/nearest.py:26-45 | the nested loop returns exactly the 8 neighbours of the specification, in order, and `alive` is the sum of their states; it reads only `root` |
| `Nearest.EncodeOffsetRow` | conway/nearest.py:30-39 | one pass of the inner loop appends the neighbours of one row offset (skipping the centre) and adds their states to `alive` |
| `Nearest.VisitOffset` | conway/nearest.py:33-39 | the body of the inner loop for one offset appends the next neighbour of the list and adds its state to `alive` |
| `Nearest.Visit` | conway/nearest.py:33-39 | the neighbour built at offset `(i, j)` is the next entry of the specification list and adds its state to the count |
| `Nearest.StateSumBounds` | conway/nearest.py:36 | a sum of 0/1 states lies between 0 and the number of entries |
| `Nearest.StateSumOfDead` | conway/nearest.py:36 | neighbours that are all dead sum to 0 |
| `Nearest.NeighborsBinary` | conway/nearest.py:35 | on a 0/1 grid every scanned state is 0 or 1 |
| `Nearest.AliveCells` | conway/nearest.py:15-16 | `alive_cells` is no longer than the list and holds only entries whose state is 1 |
| `Nearest.DeadCells` | conway/nearest.py:18-19 | `dead_cells` is no longer than the list and holds only entries whose state is 0 |
| `Nearest.FiltersKeep` | conway/nearest.py:15-19 | an entry is in `alive_cells` exactly when it is in the list with state 1, and in `dead_cells` exactly when it is in the list with state 0 |
| `Nearest.AliveBounds` | conway/nearest.py:27-43 | on a 0/1 grid the alive count of every cell lies in `[0, 8]` |
| `Nearest.FiltersPartition` | conway/nearest.py:15-19 | for 0/1 states `alive_cells` and `dead_cells` split the entries between them (as multisets) and `alive_cells` has as many entries as the states sum to |
| `Nearest.NeighborFilters` | conway/nearest.py:15-19 | on the scan of a 0/1 grid, `alive_cells` has `alive` entries and the two filters partition the 8 neighbours |
| `Nearest.CornersWrap` | conway/nearest.py:33-34 | toroidal wrap: the first neighbour of `(0,0)` is `(nrows-1, ncols-1)` and the last neighbour of `(nrows-1, ncols-1)` is `(0,0)` |
| `Game.CellStateOf` | conway/game.py:10-14 | `CellState(v)` exists exactly for v in 0..2 and names the member with that value |
| `Game.ValuesUnique` | conway/game.py:10-14 | the bucket values BORN=0, KILLED=1, SURVIVED=2 are distinct and below 3 |
| `Game.Base` | conway/game.py:30-32 | `base` is an `nrows × ncols` grid of dead cells |
| `Game.FlatLength` | conway/game.py:41-45 | flattening an `nrows × ncols` grid gives `nrows*ncols` entries |
| `Game.FlatAt` | conway/game.py:41-45 | flattening puts cell `(i, j)` at position `i*ncols + j` |
| `Game.FlatIndex` | conway/game.py:41-45 | flattening keeps every cell, in row-major order |
| `Game.SumOfBinary` | conway/core.py:16 | on 0/1 entries `sum` counts the alive entries |
| `Game.FlatBinary` | conway/game.py:41-45 | flattening a 0/1 grid yields 0/1 entries |
| `Game.FlatSumIsPopulation` | conway/core.py:14-16 | the `sum` of a flattened 0/1 buffer is its number of alive cells |
| `Game.FateBuckets` | conway/game.py:84-92 | the first-match rule picks KILLED exactly for fewer than 2 or more than 3 alive neighbours, BORN exactly for a dead cell with 3, and SURVIVED exactly for 2, or for 3 around a cell that is not dead |
| `Game.RuleIsConway` | conway/game.py:84-92 | on 0/1 states the first-match rule is B3/S23: alive next iff alive with 2 or 3 neighbours or dead with 3; BORN exactly for dead cells that come alive; KILLED cells end dead; SURVIVED cells keep their state |
| `Game.NextGen` | conway/game.py:80-92 | the next generation has the same shape and stays 0/1 |
| `Game.CellStep` | conway/game.py:82-92 | one step of the scan writes the rule's state and bumps exactly the bucket of the rule's branch |
| `Game.RowCountsSum` | conway/game.py:81-92 | the three counters of a row prefix add up to its length |
| `Game.GridCountsSum` | conway/game.py:80-92 | the three counters of the first i rows add up to `i*ncols` |
| `Game.Tally` | conway/game.py:79-97 | the `Stats(born, killed, survived)` of one generation: every cell falls into exactly one bucket, so `born + killed + survived == nrows*ncols` |
| `Game.DeadCellIsKilled` | conway/game.py:84-86 | in an all-dead grid every cell has 0 alive neighbours, so it is counted KILLED and stays dead |
| `Game.DeadRowCounts` | conway/game.py:81-92 | on an all-dead grid a row prefix of length j counts j KILLED and nothing else |
| `Game.DeadGridCounts` | conway/game.py:80-92 | on an all-dead grid the first i rows count `i*ncols` KILLED and nothing else |
| `Game.AllDeadStaysDead` | conway/game.py:84-86 | an all-dead grid stays all dead and yields `(born=0, killed=nrows*ncols, survived=0)` |
| `Game.Cell.constructor` | conway/game.py:65-71 | once the shape check has passed and seeding cannot raise, a new cell has the given shape and probe, `size == nrows*ncols`, `root` the seeded grid and `hidden` all dead, both `nrows × ncols` |
| `Game.Cell.New` | conway/game.py:65-71 | constructing a cell fails exactly when `nrows + ncols < 6` (the shape assert) or when the probe is negative on a grid with at least one cell (seeding's `randint(0, probe)` at conway/game.py:28 raises ValueError); otherwise a fresh cell with the given shape and probe, `size == nrows*ncols`, the seeded `root`, an all-dead `hidden` and no id |
| `Game.Cell.Flatten` | conway/game.py:41-45 | both buffers flattened row-major, each of length `size`, cell `(i, j)` at `i*ncols + j` |
| `Game.Cell.Grids` | conway/game.py:73-74 | the buffers under the keys `"root"` and `"hidden"`, and no other key |
| `Game.Cell.GetItem` | conway/game.py:104-105 | row `idx` of both buffers, Python-indexed; out of range is an IndexError |
| `Game.Cell.Invert` | conway/game.py:47-58 | swaps `root` and `hidden` and nothing else, so two swaps restore the pair |
| `Game.Cell.Scan` | conway/game.py:76-93 | leaves `root` unchanged, sets `hidden` to the next generation computed from `root` alone, and returns `[born, killed, survived]` of that generation |
| `Game.Cell.ScanRow` | conway/game.py:81-92 | the inner loop writes row i of the next generation, leaves other rows alone and adds row i's cells to their buckets |
| `Game.Cell.Forward` | conway/game.py:95-99 | the new `root` is the generation computed from the old one, the new `hidden` is the old `root`, and the stats are the scan's counts |
| `Game.Cell.Reset` | conway/game.py:101-102 | a fresh cell of the same shape, probe and size, seeded anew, with an all-dead `hidden` and no id |
| `Game.Digit` | conway/game.py:115 | the character of a decimal digit |
| `Game.NatToString` | conway/game.py:115 | an f-string renders a natural number as a non-empty run of decimal digits |
| `Game.NatToStringRoundTrip` | conway/game.py:115 | reading back a rendered natural number gives the number |
| `Game.NatToStringInjective` | conway/game.py:115 | distinct natural numbers render differently |
| `Game.IntToString` | conway/game.py:128 | an integer renders with a leading minus sign exactly when it is negative |
| `Game.IntToStringInjective` | conway/game.py:128 | distinct integers render differently |
| `Game.CellIdReadBack` | conway/game.py:115 | the id of a position reads back as that position: after `cell_` come only digits, and their value is the position |
| `Game.CellIdInjective` | conway/game.py:115 | `cell_a` and `cell_b` are the same id exactly when a == b |
| `Game.LastIndex` | conway/game.py:114-116 | the last position among the first n that holds a cell, or -1 |
| `Game.LastIndexIsLast` | conway/game.py:114-116 | a cell's last position is at or after every position that holds it (a cell listed twice keeps the later id) |
| `Game.IdMapOnlyIds` | conway/game.py:114-117 | only ids of positions are keys of the batch |
| `Game.IdMapFinds` | conway/game.py:114-117 | the id of every position leads to the cell at that position |
| `Game.IdMapSize` | conway/game.py:114-117 | the batch has one key per position |
| `Game.IdMapKeys` | conway/game.py:112-117 | the three facts above for the whole batch |
| `Game.TagCells` | conway/game.py:114-117 | the loop builds the id map, tags each cell with the id of its last position, and leaves every cell's buffers as they were |
| `Game.CellBatch.constructor` | conway/game.py:112-117 | every cell is tagged with an id under which the batch finds it, and the batch holds exactly the ids of the positions |
| `Game.CellBatch.IdsOf` | conway/game.py:127-130 | `cell_i` is a key exactly when i is a position |
| `Game.CellBatch.Len` | conway/game.py:119-121 | `batch_size` / `len` is the number of cells given |
| `Game.CellBatch.GetItem` | conway/game.py:123-130 | an int i finds a cell exactly when i is a position, and then the cell at position i; a string finds a cell exactly when it is the id `cell_m` of a position m, and then the cell at position m; a missing key gives None |
| `Core.CountAliveBound` | conway/core.py:16 | a list has no more alive entries than entries |
| `Core.PopulationBound` | conway/core.py:14-16 | a grid has no more alive cells than `nrows*ncols` |
| `Core.Criterion` | conway/core.py:12-17 | the loss fails exactly on an empty cell; otherwise it is never negative, at most `size` (a density difference of at most 1), and 0 exactly when both buffers have the same number of alive cells |
| `Core.Update` | conway/core.py:63-68 | one tracked step: at `t % k == 0` `done` becomes "the counter had reached k" and the counter restarts, counting this step as 1 when its loss is 0; elsewhere `done` is kept and the counter grows by 1 exactly when the loss is 0 |
| `Core.CountTrueBound` | conway/core.py:68 | no more steps are counted than were taken |
| `Core.CountTrueAll` | conway/core.py:66 | all steps had zero loss exactly when every one of them is counted |
| `Core.DivModUnique` | conway/core.py:65 | `t % k` and `t / k` are determined by `t == q*k + r, 0 <= r < k` |
| `Core.Boundary` | conway/core.py:65 | the last window boundary at or before t is a multiple of k at most k-1 below t |
| `Core.BoundaryStep` | conway/core.py:65 | one step back from a boundary lands k-1 steps into the previous window; from elsewhere it stays in the same window |
| `Core.RunWindow` | conway/core.py:63-68 | after steps `t = 0..n-1`, `flag` counts the zero-loss steps since the last boundary b (inclusive), and `done` holds exactly when `b >= k` and all k steps of `[b-k, b)` had zero loss |
| `Core.RunFlag` | conway/core.py:63-68 | the counter after steps `t = 0..n-1` is the number of zero-loss steps since the last boundary, that boundary included |
| `Core.RunDone` | conway/core.py:63-68 | `done` after steps `t = 0..n-1` holds exactly when a full window precedes the last boundary and all its k steps had zero loss |
| `Core.RunFlagBound` | conway/core.py:63-68 | when driven with `t = 0, 1, 2, ...`, `0 <= flag <= k` throughout |
| `Core.Run` | conway/core.py:63-68 | the counter and `done` after tracked steps at `t = 0, 1, ...`: the counter never exceeds the number of steps, and `done` is never true before more than k steps have run (in particular it is false after `t = 0`) |
| `Core.RunDoneAtBoundary` | conway/core.py:63-68 | at `t = m*k` with `m >= 1`, `done` is true exactly when all k steps of `[(m-1)k, mk)` had zero loss |
| `Core.Env.constructor` | conway/core.py:21-36 | a new controller holds the given cell, window length and probe, with `flag == 0` and `done == false` |
| `Core.Env.New` | conway/core.py:30-36 | stores k, probe and the shape; a given cell is used as is; otherwise `Cell(shape, probe)` is built, which fails exactly when `nrows + ncols < 6` or when the probe is negative on a grid with at least one cell, and else has that shape and probe, the seeded `root`, an all-dead `hidden` and no id; the counter starts at 0 and `done` false |
| `Core.Env.Step` | conway/core.py:57-70 | advances the cell once (new `root` the next generation, new `hidden` the old `root`) and returns that forward call's stats; without `t` the counter and `done` are untouched; with `t`, at `t % k == 0` `done := (flag_before == k)` and the counter restarts at 0 before this step is counted, elsewhere `done` is kept; then the counter grows by exactly 1 when the loss is 0; the returned `done` is the updated one; an empty cell or `k == 0` raises a division error after the forward step |
| `Core.Env.Reset` | conway/core.py:72-77 | installs a fresh, untagged cell of the same shape, probe and size, sets `flag == 0` and `done == false`, and returns the same controller |

## Left out

- `conway/util.py` (console and notebook rendering, terminal escapes, colour tables) is not
  part of this model; `Env.render`, the render-mode dispatch with its `NotImplementedError`
  path, `Env.grids` (a pass-through to `Cell.grids`), `close`, `__enter__` and `__exit__`
  are glue with no behaviour of their own.
- Random seeding (`Grid.state`, `Grid.init`) is replaced by the `init` grid parameter of the
  constructors and of `Reset`. Of the draw itself the model keeps only its failure: a
  negative `probe` makes `randint(0, probe)` raise ValueError, so `Cell.New` and `Env.New`
  fail for it on any grid with at least one cell.
- Core.Criterion: the program's loss is a float, `|sum(root)/size - sum(hidden)/size|`; the
  model returns the integer numerator `|sum(root) - sum(hidden)|`, so it states when the
  loss is zero and its sign, not its floating-point value (the two agree on zero for any
  grid with fewer than 2^52 cells).
- `Env.step`'s `return_dict` switch to `stats.__dict__` is not modelled; the record is
  returned.
- The diagnostic field `Cell.nn` that `scan` overwrites, `Cell.__repr__`,
  `CellBatch.__repr__` and `NearestNeighbors.__repr__` (which reads an attribute that does
  not exist) are not modelled.
- `CellBatch.__iter__`: the model's map does not keep insertion order; the order of the
  cells is kept only in the ghost list `Cells` the batch was built from.
- Game.TagCells: when a cell object occurs twice in the list, the model states which id it
  ends with (that of its last position) but not the order of the writes.
- `Env.shape` and `Env.probe` are stored (`nrows`, `ncols`, `probe`) but, as in the program,
  `reset` takes the shape and probe from the cell.
- `demo.py`, `setup.py` and `conway/__init__.py` (orchestration and packaging) are not part
  of this model. `demo.py` passes a `p` argument (demo.py:28, 49) that neither
  `Cell.__init__` (conway/game.py:65) nor `Env.reset` (conway/core.py:72) takes; the model
  has no such argument either.
- At a window boundary `Env.step` reads `flag` before counting the current step
  (conway/core.py:64-68); the model keeps that order.
- Default arguments: `Grid(nrows=16, ncols=32, probe=7)`, `Cell(shape=(16, 32), probe=7)` and
  `Env(k=3, probe=7, shape=(16, 32))` (conway/game.py:20, 65; conway/core.py:22-25) have
  defaults; the model takes every argument explicitly.
- Shapes with a negative dimension: `assert sum(shape) >= 6` (conway/game.py:66) accepts a
  shape such as `(-1, 7)`, which builds an empty grid with `size == -7` on which `criterion`
  returns 0.0 without error. The model's dimensions are natural numbers, so it does not
  cover such shapes.
- Buffers as values: `grids()` and `__getitem__` (conway/game.py:73-74, 104-105) return the
  live lists, which later in-place writes by `scan` change; `Game.Cell.Grids` and
  `Game.Cell.GetItem` return the values the buffers hold at the call, so the model does not
  capture that aliasing.
