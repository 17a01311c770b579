/** The automaton: its bucket enumeration, the double-buffered grid with its generation step
    (`Grid` and `Cell`, merged into one class), and the id-keyed `CellBatch`. */
module Game {
  import opened Wrappers
  import opened Grids
  import Nearest

  /** `CellState`: the three buckets of a generation's counts. Their values index the
      `[born, killed, survived]` list the scan fills. */
  datatype CellState = BORN | KILLED | SURVIVED {
    function Value(): nat
    {
      match this
      case BORN => 0
      case KILLED => 1
      case SURVIVED => 2
    }
  }

  /** `CellState(v)`: the member whose value is `v`; any other value has none. */
  function CellStateOf(v: int): (r: Option<CellState>)
    ensures r.Some? <==> 0 <= v < 3
    ensures r.Some? ==> r.value.Value() == v
  {
    if v == 0 then Some(BORN)
    else if v == 1 then Some(KILLED)
    else if v == 2 then Some(SURVIVED)
    else None
  }

  /** The values are distinct and each names its member back. */
  lemma ValuesUnique(a: CellState, b: CellState)
    ensures a.Value() < 3
    ensures a.Value() == b.Value() ==> a == b
    ensures CellStateOf(a.Value()) == Some(a)
  {
  }

  /** The counts of one generation, in the field order of `CellState`. */
  datatype Stats = Stats(born: nat, killed: nat, survived: nat)

  // ---------------------------------------------------------------------------------------
  // Grid contents

  /** `Grid.base`: a grid of dead cells. */
  function Base(nrows: nat, ncols: nat): (g: Grid)
    ensures IsGrid(g, nrows, ncols) && IsBinary(g)
    ensures forall i, j :: 0 <= i < nrows && 0 <= j < ncols ==> g[i][j] == 0
  {
    seq(nrows, _ => seq(ncols, _ => 0))
  }

  /** The row-major concatenation of a grid's rows (`flat` in `Grid.flatten`). */
  function Flat(g: Grid): seq<int>
  {
    if g == [] then [] else g[0] + Flat(g[1..])
  }

  /** The position of cell (i, j) in a row-major flattening. */
  function RowMajor(nrows: nat, ncols: nat, i: nat, j: nat): (p: nat)
    requires i < nrows && j < ncols
    ensures p < nrows * ncols
    ensures p == i * ncols + j
  {
    assert (i + 1) * ncols <= nrows * ncols by {
      assert nrows * ncols == (i + 1) * ncols + (nrows - (i + 1)) * ncols;
    }
    i * ncols + j
  }

  /** Flattening keeps the grid's size. */
  lemma {:induction false} FlatLength(g: Grid, nrows: nat, ncols: nat)
    requires IsGrid(g, nrows, ncols)
    ensures |Flat(g)| == nrows * ncols
  {
    if nrows > 0 {
      FlatLength(g[1..], nrows - 1, ncols);
      assert nrows * ncols == ncols + (nrows - 1) * ncols;
    }
  }

  /** Flattening puts cell (i, j) at position i * ncols + j. */
  lemma {:induction false} FlatAt(g: Grid, nrows: nat, ncols: nat, i: nat, j: nat)
    requires IsGrid(g, nrows, ncols) && i < nrows && j < ncols
    ensures |Flat(g)| == nrows * ncols
    ensures Flat(g)[RowMajor(nrows, ncols, i, j)] == g[i][j]
  {
    FlatLength(g, nrows, ncols);
    if i > 0 {
      var rest := g[1..];
      FlatAt(rest, nrows - 1, ncols, i - 1, j);
      var q := RowMajor(nrows - 1, ncols, i - 1, j);
      assert RowMajor(nrows, ncols, i, j) == ncols + q;
      assert Flat(g) == g[0] + Flat(rest);
      assert rest[i - 1] == g[i];
    }
  }

  /** Flattening keeps every cell, in row-major order. */
  lemma FlatIndex(g: Grid, nrows: nat, ncols: nat)
    requires IsGrid(g, nrows, ncols)
    ensures |Flat(g)| == nrows * ncols
    ensures forall i, j :: 0 <= i < nrows && 0 <= j < ncols ==> Flat(g)[RowMajor(nrows, ncols, i, j)] == g[i][j]
  {
    FlatLength(g, nrows, ncols);
    forall i, j | 0 <= i < nrows && 0 <= j < ncols
      ensures Flat(g)[RowMajor(nrows, ncols, i, j)] == g[i][j]
    {
      FlatAt(g, nrows, ncols, i, j);
    }
  }

  /** Sum of a list of states (Python's `sum`). */
  function Sum(s: seq<int>): int
  {
    if s == [] then 0 else s[0] + Sum(s[1..])
  }

  /** Number of alive (1) entries of a list. */
  function CountAlive(s: seq<int>): nat
  {
    if s == [] then 0 else (if s[0] == 1 then 1 else 0) + CountAlive(s[1..])
  }

  /** Number of alive cells of a grid. */
  function Population(g: Grid): nat
  {
    CountAlive(Flat(g))
  }

  /** On 0/1 entries the sum is the number of alive entries. */
  lemma {:induction false} SumOfBinary(s: seq<int>)
    requires forall x :: x in s ==> x == 0 || x == 1
    ensures Sum(s) == CountAlive(s)
  {
    if s != [] {
      assert s[0] in s;
      assert forall x :: x in s[1..] ==> x in s;
      SumOfBinary(s[1..]);
    }
  }

  /** Flattening a 0/1 grid gives 0/1 entries. */
  lemma {:induction false} FlatBinary(g: Grid)
    requires IsBinary(g)
    ensures forall x :: x in Flat(g) ==> x == 0 || x == 1
  {
    if g != [] {
      assert IsBinary(g[1..]) by {
        forall i, j | 0 <= i < |g[1..]| && 0 <= j < |g[1..][i]|
          ensures g[1..][i][j] == 0 || g[1..][i][j] == 1
        {
          assert g[1..][i] == g[i + 1];
        }
      }
      FlatBinary(g[1..]);
      forall x | x in Flat(g) ensures x == 0 || x == 1 {
        if x !in g[0] {
          assert x in Flat(g[1..]);
        } else {
          var j :| 0 <= j < |g[0]| && g[0][j] == x;
        }
      }
    }
  }

  /** The sum of a flattened 0/1 grid is its number of alive cells. */
  lemma FlatSumIsPopulation(g: Grid)
    requires IsBinary(g)
    ensures Sum(Flat(g)) == Population(g)
  {
    FlatBinary(g);
    SumOfBinary(Flat(g));
  }

  // ---------------------------------------------------------------------------------------
  // The generation rule

  /** The bucket a cell falls in, from its alive-neighbour count and its state: the first
      branch that applies wins. */
  function Fate(alive: int, state: int): (b: CellState)
  {
    if alive < 2 || alive > 3 then KILLED
    else if alive == 3 && state == 0 then BORN
    else SURVIVED
  }

  /** Which bucket each first-match branch covers, stated without the branch order: KILLED
      outside 2..3 alive neighbours, BORN for a dead cell with 3, SURVIVED for the rest. */
  lemma FateBuckets(alive: int, state: int)
    ensures Fate(alive, state) == KILLED <==> alive < 2 || alive > 3
    ensures Fate(alive, state) == BORN <==> alive == 3 && state == 0
    ensures Fate(alive, state) == SURVIVED <==> alive == 2 || (alive == 3 && state != 0)
  {
  }

  /** The state written into the hidden buffer for that cell. */
  function NextState(alive: int, state: int): (n: int)
  {
    match Fate(alive, state)
    case KILLED => 0
    case BORN => 1
    case SURVIVED => state
  }

  /** On 0/1 states the rule is Conway's B3/S23: a cell is alive next exactly when it is alive
      with two or three alive neighbours or dead with three. BORN counts exactly the cells
      that come alive; KILLED cells end dead whatever they were; SURVIVED cells keep their
      state, so a dead cell with exactly two alive neighbours counts as SURVIVED. */
  lemma RuleIsConway(alive: int, state: int)
    requires state == 0 || state == 1
    ensures NextState(alive, state) == 0 || NextState(alive, state) == 1
    ensures NextState(alive, state) == 1 <==>
      (state == 1 && (alive == 2 || alive == 3)) || (state == 0 && alive == 3)
    ensures Fate(alive, state) == BORN <==> state == 0 && NextState(alive, state) == 1
    ensures Fate(alive, state) == KILLED <==> NextState(alive, state) == 0 && (alive < 2 || alive > 3)
    ensures Fate(alive, state) == SURVIVED ==> NextState(alive, state) == state
  {
  }

  /** The bucket of cell (i, j) of `g`, with neighbours counted on `g`. */
  function FateAt(g: Grid, nrows: nat, ncols: nat, i: nat, j: nat): CellState
    requires IsGrid(g, nrows, ncols) && i < nrows && j < ncols
  {
    Fate(Nearest.AliveAround(g, nrows, ncols, i, j), g[i][j])
  }

  /** The next state of cell (i, j) of `g`. */
  function NextAt(g: Grid, nrows: nat, ncols: nat, i: nat, j: nat): int
    requires IsGrid(g, nrows, ncols) && i < nrows && j < ncols
  {
    NextState(Nearest.AliveAround(g, nrows, ncols, i, j), g[i][j])
  }

  /** The generation after `g`: every cell from neighbour counts taken on `g` alone. */
  function NextGen(g: Grid, nrows: nat, ncols: nat): (n: Grid)
    requires IsGrid(g, nrows, ncols)
    ensures IsGrid(n, nrows, ncols)
    ensures IsBinary(g) ==> IsBinary(n)
  {
    seq(nrows, i requires 0 <= i < nrows =>
      seq(ncols, j requires 0 <= j < ncols => NextAt(g, nrows, ncols, i, j)))
  }

  /** Cell (i, j) of the next generation is the rule applied to cell (i, j) of `g`. */
  lemma NextGenAt(g: Grid, nrows: nat, ncols: nat, i: nat, j: nat)
    requires IsGrid(g, nrows, ncols) && i < nrows && j < ncols
    ensures NextGen(g, nrows, ncols)[i][j] == NextAt(g, nrows, ncols, i, j)
  {
  }

  /** Cells (i, 0) .. (i, j-1) whose bucket is `b`. */
  function RowCount(g: Grid, nrows: nat, ncols: nat, i: nat, j: nat, b: CellState): nat
    requires IsGrid(g, nrows, ncols) && i < nrows && j <= ncols
  {
    if j == 0 then 0
    else RowCount(g, nrows, ncols, i, j - 1, b) + (if FateAt(g, nrows, ncols, i, j - 1) == b then 1 else 0)
  }

  /** Cells of rows 0 .. i-1 whose bucket is `b`. */
  function GridCount(g: Grid, nrows: nat, ncols: nat, i: nat, b: CellState): nat
    requires IsGrid(g, nrows, ncols) && i <= nrows
  {
    if i == 0 then 0
    else GridCount(g, nrows, ncols, i - 1, b) + RowCount(g, nrows, ncols, i - 1, ncols, b)
  }

  /** The `[born, killed, survived]` list after the scan has visited every cell before (i, j)
      in row-major order. */
  function Counted(g: Grid, nrows: nat, ncols: nat, i: nat, j: nat): (obs: seq<nat>)
    requires IsGrid(g, nrows, ncols) && i <= nrows && j <= ncols && (i == nrows ==> j == 0)
    ensures |obs| == 3
  {
    if i == nrows then
      [GridCount(g, nrows, ncols, i, BORN), GridCount(g, nrows, ncols, i, KILLED),
       GridCount(g, nrows, ncols, i, SURVIVED)]
    else
      [GridCount(g, nrows, ncols, i, BORN) + RowCount(g, nrows, ncols, i, j, BORN),
       GridCount(g, nrows, ncols, i, KILLED) + RowCount(g, nrows, ncols, i, j, KILLED),
       GridCount(g, nrows, ncols, i, SURVIVED) + RowCount(g, nrows, ncols, i, j, SURVIVED)]
  }

  /** One step of the scan at (i, j), given the alive count the neighbour scan returned: the
      bucket and next state it picks, and the count it bumps. */
  lemma CellStep(g: Grid, nrows: nat, ncols: nat, i: nat, j: nat, alive: int)
    requires IsGrid(g, nrows, ncols) && i < nrows && j < ncols
    requires alive == Nearest.AliveAround(g, nrows, ncols, i, j)
    ensures NextGen(g, nrows, ncols)[i][j] == NextState(alive, g[i][j])
    ensures var b, obs := Fate(alive, g[i][j]), Counted(g, nrows, ncols, i, j);
      Counted(g, nrows, ncols, i, j + 1) == obs[b.Value() := obs[b.Value()] + 1]
  {
    var b := Fate(alive, g[i][j]);
    NextGenAt(g, nrows, ncols, i, j);
    assert FateAt(g, nrows, ncols, i, j) == b;
    assert NextAt(g, nrows, ncols, i, j) == NextState(alive, g[i][j]);
  }

  /** Finishing row i is starting row i + 1. */
  lemma CountedNextRow(g: Grid, nrows: nat, ncols: nat, i: nat)
    requires IsGrid(g, nrows, ncols) && i < nrows
    ensures Counted(g, nrows, ncols, i, ncols) == Counted(g, nrows, ncols, i + 1, 0)
  {
  }

  /** The counts of one generation of `g`. */
  function Tally(g: Grid, nrows: nat, ncols: nat): (s: Stats)
    requires IsGrid(g, nrows, ncols)
    ensures s.born + s.killed + s.survived == nrows * ncols
  {
    GridCountsSum(g, nrows, ncols, nrows);
    Stats(GridCount(g, nrows, ncols, nrows, BORN),
          GridCount(g, nrows, ncols, nrows, KILLED),
          GridCount(g, nrows, ncols, nrows, SURVIVED))
  }

  lemma {:induction false} RowCountsSum(g: Grid, nrows: nat, ncols: nat, i: nat, j: nat)
    requires IsGrid(g, nrows, ncols) && i < nrows && j <= ncols
    ensures RowCount(g, nrows, ncols, i, j, BORN) + RowCount(g, nrows, ncols, i, j, KILLED)
          + RowCount(g, nrows, ncols, i, j, SURVIVED) == j
  {
    if j > 0 {
      RowCountsSum(g, nrows, ncols, i, j - 1);
    }
  }

  lemma {:induction false} GridCountsSum(g: Grid, nrows: nat, ncols: nat, i: nat)
    requires IsGrid(g, nrows, ncols) && i <= nrows
    ensures GridCount(g, nrows, ncols, i, BORN) + GridCount(g, nrows, ncols, i, KILLED)
          + GridCount(g, nrows, ncols, i, SURVIVED) == i * ncols
  {
    if i > 0 {
      GridCountsSum(g, nrows, ncols, i - 1);
      RowCountsSum(g, nrows, ncols, i - 1, ncols);
      var rb, rk, rs := RowCount(g, nrows, ncols, i - 1, ncols, BORN),
        RowCount(g, nrows, ncols, i - 1, ncols, KILLED), RowCount(g, nrows, ncols, i - 1, ncols, SURVIVED);
      assert GridCount(g, nrows, ncols, i, BORN) == GridCount(g, nrows, ncols, i - 1, BORN) + rb;
      assert GridCount(g, nrows, ncols, i, KILLED) == GridCount(g, nrows, ncols, i - 1, KILLED) + rk;
      assert GridCount(g, nrows, ncols, i, SURVIVED) == GridCount(g, nrows, ncols, i - 1, SURVIVED) + rs;
      assert i * ncols == (i - 1) * ncols + ncols;
    }
  }

  lemma DeadCellIsKilled(nrows: nat, ncols: nat, i: nat, j: nat)
    requires i < nrows && j < ncols
    ensures FateAt(Base(nrows, ncols), nrows, ncols, i, j) == KILLED
    ensures NextAt(Base(nrows, ncols), nrows, ncols, i, j) == 0
  {
    var g := Base(nrows, ncols);
    forall k | 0 <= k < 8
      ensures Nearest.Neighbors(g, nrows, ncols, i, j)[k].state == 0
    {
      Nearest.NeighborsSound(g, nrows, ncols, i, j, k);
    }
    Nearest.StateSumOfDead(Nearest.Neighbors(g, nrows, ncols, i, j));
  }

  lemma {:induction false} DeadRowCounts(nrows: nat, ncols: nat, i: nat, j: nat)
    requires i < nrows && j <= ncols
    ensures RowCount(Base(nrows, ncols), nrows, ncols, i, j, KILLED) == j
    ensures RowCount(Base(nrows, ncols), nrows, ncols, i, j, BORN) == 0
    ensures RowCount(Base(nrows, ncols), nrows, ncols, i, j, SURVIVED) == 0
  {
    if j > 0 {
      DeadRowCounts(nrows, ncols, i, j - 1);
      DeadCellIsKilled(nrows, ncols, i, j - 1);
    }
  }

  lemma {:induction false} DeadGridCounts(nrows: nat, ncols: nat, i: nat)
    requires i <= nrows
    ensures GridCount(Base(nrows, ncols), nrows, ncols, i, KILLED) == i * ncols
    ensures GridCount(Base(nrows, ncols), nrows, ncols, i, BORN) == 0
    ensures GridCount(Base(nrows, ncols), nrows, ncols, i, SURVIVED) == 0
  {
    if i > 0 {
      DeadGridCounts(nrows, ncols, i - 1);
      DeadRowCounts(nrows, ncols, i - 1, ncols);
      assert i * ncols == (i - 1) * ncols + ncols;
    }
  }

  /** An all-dead grid stays all dead, and every one of its cells is counted KILLED. */
  lemma AllDeadStaysDead(nrows: nat, ncols: nat)
    ensures NextGen(Base(nrows, ncols), nrows, ncols) == Base(nrows, ncols)
    ensures var s := Tally(Base(nrows, ncols), nrows, ncols);
      s.born == 0 && s.killed == nrows * ncols && s.survived == 0
  {
    var g := Base(nrows, ncols);
    var n := NextGen(g, nrows, ncols);
    forall i | 0 <= i < nrows ensures n[i] == g[i] {
      forall j | 0 <= j < ncols ensures n[i][j] == g[i][j] {
        DeadCellIsKilled(nrows, ncols, i, j);
        NextGenAt(g, nrows, ncols, i, j);
      }
    }
    DeadGridCounts(nrows, ncols, nrows);
  }

  // ---------------------------------------------------------------------------------------
  // The automaton

  /** The states written for a dead and for an alive cell. */
  const DEAD_ID := 0
  const ALIVE_ID := 1

  /** Seeding draws `randint(0, probe)` once per cell, and that draw raises ValueError (an
      empty range) when `probe` is negative; a grid without cells never draws. */
  predicate Seedable(nrows: nat, ncols: nat, probe: int)
  {
    probe >= 0 || nrows == 0 || ncols == 0
  }

  /** A `Cell` (with the `Grid` it extends): a fixed shape and two same-shaped buffers,
      `root` the current generation and `hidden` the next. */
  class Cell {
    const nrows: nat
    const ncols: nat
    const probe: int
    const size: int
    var root: Grid
    var hidden: Grid
    /** The id a `CellBatch` attaches; None until then. */
    var id: Option<string>

    ghost predicate Valid()
      reads this
    {
      nrows + ncols >= 6 && Seedable(nrows, ncols, probe) && size == nrows * ncols &&
      IsGrid(root, nrows, ncols) && IsGrid(hidden, nrows, ncols) &&
      IsBinary(root) && IsBinary(hidden)
    }

    /** Builds the cell once the shape check has passed; `init` stands for the randomly
        seeded first generation. */
    constructor (nrows: nat, ncols: nat, probe: int, init: Grid)
      requires nrows + ncols >= 6 && Seedable(nrows, ncols, probe)
      requires IsGrid(init, nrows, ncols) && IsBinary(init)
      ensures Valid()
      ensures this.nrows == nrows && this.ncols == ncols && this.probe == probe
      ensures root == init && hidden == Base(nrows, ncols) && id == None
    {
      this.nrows := nrows;
      this.ncols := ncols;
      this.probe := probe;
      size := nrows * ncols;
      root := init;
      hidden := Base(nrows, ncols);
      id := None;
    }

    /** `Cell(shape, probe)`: fails (None) when the two dimensions add up to less than 6, or
        when seeding raises because the probe is negative; otherwise a fresh cell with
        `root == init`, an all-dead `hidden`, and size rows*cols. */
    static method New(nrows: nat, ncols: nat, probe: int, init: Grid) returns (r: Option<Cell>)
      requires IsGrid(init, nrows, ncols) && IsBinary(init)
      ensures r.None? <==> nrows + ncols < 6 || !Seedable(nrows, ncols, probe)
      ensures r.Some? ==> fresh(r.value) && r.value.Valid()
      ensures r.Some? ==> r.value.nrows == nrows && r.value.ncols == ncols && r.value.probe == probe
      ensures r.Some? ==> r.value.size == nrows * ncols
      ensures r.Some? ==> r.value.root == init && r.value.hidden == Base(nrows, ncols)
      ensures r.Some? ==> r.value.id == None
    {
      if nrows + ncols < 6 || !Seedable(nrows, ncols, probe) {
        return None;
      }
      var c := new Cell(nrows, ncols, probe, init);
      return Some(c);
    }

    /** `Grid.flatten`: both buffers flattened row-major; cell (i, j) lands at i*ncols + j. */
    function Flatten(): (r: (seq<int>, seq<int>))
      reads this
      requires Valid()
      ensures |r.0| == size && |r.1| == size
      ensures forall i, j :: 0 <= i < nrows && 0 <= j < ncols ==>
        r.0[RowMajor(nrows, ncols, i, j)] == root[i][j] && r.1[RowMajor(nrows, ncols, i, j)] == hidden[i][j]
    {
      FlatIndex(root, nrows, ncols);
      FlatIndex(hidden, nrows, ncols);
      (Flat(root), Flat(hidden))
    }

    /** `Cell.grids`: the two buffers under their names. */
    function Grids(): (m: map<string, Grid>)
      reads this
      ensures m.Keys == {"root", "hidden"}
      ensures m["root"] == root && m["hidden"] == hidden
    {
      map["root" := root, "hidden" := hidden]
    }

    /** `Cell.__getitem__`: row `idx` of both buffers, Python-indexed (negative counts from
        the end); an index out of range is an IndexError (None). */
    function GetItem(idx: int): (r: Option<(seq<int>, seq<int>)>)
      reads this
      requires Valid()
      ensures r.Some? <==> -(nrows as int) <= idx < nrows
      ensures r.Some? && idx >= 0 ==> r.value == (root[idx], hidden[idx])
      ensures r.Some? && idx < 0 ==> r.value == (root[nrows + idx], hidden[nrows + idx])
    {
      match PyIndex(nrows, idx)
      case None => None
      case Some(k) => Some((root[k], hidden[k]))
    }

    /** `Grid.invert` / `__invert__`: swaps the two buffers and changes nothing else. */
    method Invert()
      requires Valid()
      modifies this`root, this`hidden
      ensures Valid()
      ensures root == old(hidden) && hidden == old(root)
    {
      root, hidden := hidden, root;
    }

    /** `Cell.scan`: walks the grid row-major, writes the next state of every cell into
        `hidden` from neighbour counts taken on `root`, and counts the buckets. */
    method Scan() returns (observation: seq<nat>)
      requires Valid()
      modifies this`hidden
      ensures Valid()
      ensures hidden == NextGen(root, nrows, ncols)
      ensures var s := Tally(root, nrows, ncols); observation == [s.born, s.killed, s.survived]
    {
      var g, h := root, hidden;
      var obs: seq<nat> := [0, 0, 0];
      for i := 0 to nrows
        invariant IsGrid(h, nrows, ncols)
        invariant forall r :: 0 <= r < i ==> h[r] == NextGen(g, nrows, ncols)[r]
        invariant obs == Counted(g, nrows, ncols, i, 0)
      {
        h, obs := ScanRow(g, nrows, ncols, i, h, obs);
      }
      assert h == NextGen(g, nrows, ncols);
      hidden := h;
      observation := obs;
    }

    /** The inner loop of `Cell.scan` over the columns of row `i`: writes row `i` of the next
        generation into `h` and bumps the bucket of every cell of the row. */
    static method ScanRow(g: Grid, nrows: nat, ncols: nat, i: nat, h: Grid, obs: seq<nat>)
      returns (h': Grid, obs': seq<nat>)
      requires IsGrid(g, nrows, ncols) && IsGrid(h, nrows, ncols) && i < nrows
      requires obs == Counted(g, nrows, ncols, i, 0)
      ensures IsGrid(h', nrows, ncols)
      ensures h'[i] == NextGen(g, nrows, ncols)[i]
      ensures forall r :: 0 <= r < nrows && r != i ==> h'[r] == h[r]
      ensures obs' == Counted(g, nrows, ncols, i + 1, 0)
    {
      ghost var next := NextGen(g, nrows, ncols)[i];
      h', obs' := h, obs;
      for j := 0 to ncols
        invariant IsGrid(h', nrows, ncols)
        invariant forall r :: 0 <= r < nrows && r != i ==> h'[r] == h[r]
        invariant forall c :: 0 <= c < j ==> h'[i][c] == next[c]
        invariant obs' == Counted(g, nrows, ncols, i, j)
      {
        var nn := Nearest.EncodeNeighbors(i, j, g, nrows, ncols);
        var alive := nn.alive;
        CellStep(g, nrows, ncols, i, j, alive);
        var state: int, bucket: CellState;
        if alive < 2 || alive > 3 {
          state, bucket := DEAD_ID, KILLED;
        } else if alive == 3 && g[i][j] == 0 {
          state, bucket := ALIVE_ID, BORN;
        } else {
          state, bucket := g[i][j], SURVIVED;
        }
        h' := h'[i := h'[i][j := state]];
        obs' := obs'[bucket.Value() := obs'[bucket.Value()] + 1];
      }
      assert h'[i] == next;
      CountedNextRow(g, nrows, ncols, i);
    }

    /** `Cell.forward`: one generation. The new `root` is the generation computed from the old
        one, the new `hidden` is the old `root`, and the stats are the scan's counts. */
    method Forward() returns (stats: Stats)
      requires Valid()
      modifies this`root, this`hidden
      ensures Valid()
      ensures root == NextGen(old(root), nrows, ncols) && hidden == old(root)
      ensures stats == Tally(old(root), nrows, ncols)
    {
      var obs := Scan();
      stats := Stats(obs[0], obs[1], obs[2]);
      Invert();
    }

    /** `Cell.reset`: a fresh cell of the same shape and probe, seeded with `init`. */
    method Reset(init: Grid) returns (c: Cell)
      requires Valid()
      requires IsGrid(init, nrows, ncols) && IsBinary(init)
      ensures fresh(c) && c.Valid()
      ensures c.nrows == nrows && c.ncols == ncols && c.probe == probe && c.size == size
      ensures c.root == init && c.hidden == Base(nrows, ncols) && c.id == None
    {
      c := new Cell(nrows, ncols, probe, init);
    }
  }

  // ---------------------------------------------------------------------------------------
  // Batches of cells

  /** The character of a decimal digit. */
  function Digit(d: nat): (c: char)
    requires d < 10
    ensures '0' <= c <= '9' && c as int - '0' as int == d
  {
    (48 + d) as char
  }

  /** Decimal rendering of a natural number, most significant digit first, as an f-string
      renders it. */
  function NatToString(n: nat): (s: string)
    ensures |s| > 0 && (n >= 10 <==> |s| >= 2)
    ensures forall k :: 0 <= k < |s| ==> '0' <= s[k] <= '9'
  {
    if n < 10 then [Digit(n)] else NatToString(n / 10) + [Digit(n % 10)]
  }

  /** The value of a string of decimal digits (the inverse of `NatToString`). */
  function DigitsValue(s: string): nat
    requires forall k :: 0 <= k < |s| ==> '0' <= s[k] <= '9'
  {
    if s == [] then 0 else DigitsValue(s[..|s| - 1]) * 10 + (s[|s| - 1] as int - '0' as int)
  }

  /** Reading back a rendered number gives the number. */
  lemma {:induction false} NatToStringRoundTrip(n: nat)
    ensures DigitsValue(NatToString(n)) == n
  {
    if n >= 10 {
      NatToStringRoundTrip(n / 10);
      var s := NatToString(n);
      assert s[..|s| - 1] == NatToString(n / 10);
    }
  }

  /** Decimal rendering of an integer: a minus sign before the digits of a negative one. */
  function IntToString(i: int): (s: string)
    ensures i < 0 <==> (|s| > 0 && s[0] == '-')
  {
    if i < 0 then "-" + NatToString(-i) else NatToString(i)
  }

  /** Distinct integers render to distinct strings. */
  lemma NatToStringInjective(a: nat, b: nat)
    requires NatToString(a) == NatToString(b)
    ensures a == b
  {
    NatToStringRoundTrip(a);
    NatToStringRoundTrip(b);
  }

  lemma IntToStringInjective(a: int, b: int)
    requires IntToString(a) == IntToString(b)
    ensures a == b
  {
    var s := IntToString(a);
    if a < 0 {
      assert s[0] == '-';
      assert b < 0;
      assert s[1..] == NatToString(-a);
      assert IntToString(b)[1..] == NatToString(-b);
      NatToStringInjective(-a, -b);
    } else {
      assert s == NatToString(a) && '0' <= s[0] <= '9';
      assert b >= 0;
      NatToStringInjective(a, b);
    }
  }

  /** The id `CellBatch` gives the cell at position i: `f'cell_{i}'`. */
  function CellId(i: int): string
  {
    "cell_" + IntToString(i)
  }

  /** The id of a position reads back as that position: `cell_` followed by its digits. */
  lemma CellIdReadBack(i: nat)
    ensures forall k :: 5 <= k < |CellId(i)| ==> '0' <= CellId(i)[k] <= '9'
    ensures DigitsValue(CellId(i)[5..]) == i
  {
    NatToStringRoundTrip(i);
  }

  /** Distinct positions get distinct ids. */
  lemma CellIdInjective(a: int, b: int)
    ensures CellId(a) == CellId(b) <==> a == b
  {
    if CellId(a) == CellId(b) {
      assert CellId(a)[5..] == IntToString(a);
      assert CellId(b)[5..] == IntToString(b);
      IntToStringInjective(a, b);
    }
  }

  /** The position of the last occurrence of `c` among the first n cells, or -1. */
  function LastIndex(cells: seq<Cell>, n: nat, c: Cell): (m: int)
    requires n <= |cells|
    ensures -1 <= m < n
    ensures m >= 0 ==> cells[m] == c
  {
    if n == 0 then -1 else if cells[n - 1] == c then n - 1 else LastIndex(cells, n - 1, c)
  }

  /** No later position among the first n holds the cell: the last occurrence is at or
      after any position that holds it. */
  lemma {:induction false} LastIndexIsLast(cells: seq<Cell>, n: nat, k: nat)
    requires k < n <= |cells|
    ensures k <= LastIndex(cells, n, cells[k])
  {
    if cells[n - 1] != cells[k] {
      LastIndexIsLast(cells, n - 1, k);
    }
  }

  /** The two buffers of a cell. */
  ghost function Buffers(c: Cell): (Grid, Grid)
    reads c`root, c`hidden
  {
    (c.root, c.hidden)
  }

  /** The map `CellBatch` builds from the first n cells: position m under `cell_m`. */
  function IdMap(cells: seq<Cell>, n: nat): map<string, Cell>
    requires n <= |cells|
  {
    if n == 0 then map[] else IdMap(cells, n - 1)[CellId(n - 1) := cells[n - 1]]
  }

  /** Only ids of positions are keys of the map of the first n cells. */
  lemma {:induction false} IdMapOnlyIds(cells: seq<Cell>, n: nat, key: string)
    requires n <= |cells| && key in IdMap(cells, n)
    ensures exists m :: 0 <= m < n && key == CellId(m)
  {
    if key != CellId(n - 1) {
      IdMapOnlyIds(cells, n - 1, key);
    }
  }

  /** The id of every position among the first n leads to the cell at that position. */
  lemma {:induction false} IdMapFinds(cells: seq<Cell>, n: nat, m: nat)
    requires m < n <= |cells|
    ensures CellId(m) in IdMap(cells, n) && IdMap(cells, n)[CellId(m)] == cells[m]
  {
    if m < n - 1 {
      IdMapFinds(cells, n - 1, m);
      var key, last := CellId(m), CellId(n - 1);
      assert key != last by {
        CellIdInjective(m, n - 1);
      }
      assert IdMap(cells, n) == IdMap(cells, n - 1)[last := cells[n - 1]];
    }
  }

  /** The map of the first n cells has exactly n keys. */
  lemma {:induction false} IdMapSize(cells: seq<Cell>, n: nat)
    requires n <= |cells|
    ensures |IdMap(cells, n)| == n
  {
    if n > 0 {
      IdMapSize(cells, n - 1);
      if CellId(n - 1) in IdMap(cells, n - 1) {
        IdMapOnlyIds(cells, n - 1, CellId(n - 1));
        var m :| 0 <= m < n - 1 && CellId(n - 1) == CellId(m);
        CellIdInjective(m, n - 1);
      }
    }
  }

  /** The map of the first n cells has one key per position: each position's id leads to
      its cell, and every key is the id of a position. */
  lemma IdMapKeys(cells: seq<Cell>, n: nat)
    requires n <= |cells|
    ensures |IdMap(cells, n)| == n
    ensures forall m :: 0 <= m < n ==> CellId(m) in IdMap(cells, n) && IdMap(cells, n)[CellId(m)] == cells[m]
    ensures forall key :: key in IdMap(cells, n) ==> exists m :: 0 <= m < n && key == CellId(m)
  {
    IdMapSize(cells, n);
    forall m | 0 <= m < n
      ensures CellId(m) in IdMap(cells, n) && IdMap(cells, n)[CellId(m)] == cells[m]
    {
      IdMapFinds(cells, n, m);
    }
    forall key | key in IdMap(cells, n) ensures exists m :: 0 <= m < n && key == CellId(m) {
      IdMapOnlyIds(cells, n, key);
    }
  }

  /** The loop of `CellBatch.__init__`: tags every cell with the id of its position and
      enters it under that id. A cell that occurs more than once keeps the id of its last
      occurrence, while every position still gets its own key; the buffers of the cells are
      left as they were. */
  method TagCells(cells: seq<Cell>) returns (batch: map<string, Cell>)
    modifies cells
    ensures batch == IdMap(cells, |cells|)
    ensures forall m :: 0 <= m < |cells| ==> cells[m].id == Some(CellId(LastIndex(cells, |cells|, cells[m])))
    ensures forall m :: 0 <= m < |cells| ==> Buffers(cells[m]) == old(Buffers(cells[m]))
  {
    batch := map[];
    for i := 0 to |cells|
      invariant batch == IdMap(cells, i)
      invariant forall m :: 0 <= m < i ==> cells[m].id == Some(CellId(LastIndex(cells, i, cells[m])))
      invariant forall m :: 0 <= m < |cells| ==> Buffers(cells[m]) == old(Buffers(cells[m]))
    {
      var cellId := CellId(i);
      cells[i].id := Some(cellId);
      batch := batch[cellId := cells[i]];
      forall m | 0 <= m <= i ensures cells[m].id == Some(CellId(LastIndex(cells, i + 1, cells[m]))) {
        if cells[m] != cells[i] {
          assert LastIndex(cells, i + 1, cells[m]) == LastIndex(cells, i, cells[m]);
        }
      }
    }
  }

  /** A key of `CellBatch.__getitem__`: an id string or a position. */
  datatype Key = Str(s: string) | Int(i: int)

  /** `CellBatch`: the given cells keyed by `cell_0`, `cell_1`, ... in list order. `Cells` is
      the list the batch was built from, which is also the insertion order of the map. */
  class CellBatch {
    var batch: map<string, Cell>
    ghost var Cells: seq<Cell>

    /** The keys are exactly the ids of the positions, and each maps to its cell. */
    ghost predicate Valid()
      reads this
    {
      batch == IdMap(Cells, |Cells|)
    }

    /** `CellBatch(cells)`: every cell is tagged and can be found under its tag. */
    constructor (cells: seq<Cell>)
      modifies cells
      ensures Valid() && Cells == cells
      ensures forall m :: 0 <= m < |cells| ==>
        cells[m].id == Some(CellId(LastIndex(cells, |cells|, cells[m])))
      ensures forall m :: 0 <= m < |cells| ==>
        cells[m].id.Some? && cells[m].id.value in batch && batch[cells[m].id.value] == cells[m]
      ensures forall m :: 0 <= m < |cells| ==> Buffers(cells[m]) == old(Buffers(cells[m]))
    {
      var b := TagCells(cells);
      forall m | 0 <= m < |cells|
        ensures cells[m].id.Some? && cells[m].id.value in b && b[cells[m].id.value] == cells[m]
      {
        var last := LastIndex(cells, |cells|, cells[m]);
        LastIndexIsLast(cells, |cells|, m);
        IdMapFinds(cells, |cells|, last);
      }
      batch := b;
      Cells := cells;
    }

    /** `batch_size` / `__len__`: one entry per cell given. */
    function Len(): (n: nat)
      reads this
      requires Valid()
      ensures n == |Cells|
    {
      IdMapKeys(Cells, |Cells|);
      |batch|
    }

    /** `CellBatch.__getitem__`: a string is looked up as an id, an integer i as `cell_i`;
        a missing key gives None. So an integer finds the cell at that position exactly when
        it is one, and a string exactly when it is the id of a position. */
    function GetItem(item: Key): (r: Option<Cell>)
      reads this
      requires Valid()
      ensures item.Int? ==> (r.Some? <==> 0 <= item.i < |Cells|)
      ensures item.Int? && r.Some? ==> r.value == Cells[item.i]
      ensures item.Str? ==> (r.Some? <==> exists m :: 0 <= m < |Cells| && item.s == CellId(m))
      ensures item.Str? && r.Some? ==> exists m :: 0 <= m < |Cells| && item.s == CellId(m) && r.value == Cells[m]
    {
      match item
      case Str(s) =>
        IdMapKeys(Cells, |Cells|);
        if s in batch then Some(batch[s]) else None
      case Int(i) =>
        IdsOf(i);
        IdMapKeys(Cells, |Cells|);
        if CellId(i) in batch then Some(batch[CellId(i)]) else None
    }

    /** The id of position i is a key exactly when i is a position. */
    lemma IdsOf(i: int)
      requires Valid()
      ensures CellId(i) in batch <==> 0 <= i < |Cells|
    {
      IdMapKeys(Cells, |Cells|);
      if CellId(i) in batch {
        var m :| 0 <= m < |Cells| && CellId(i) == CellId(m);
        CellIdInjective(i, m);
      }
    }
  }
}
