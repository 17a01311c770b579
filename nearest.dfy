/** The toroidal neighbour scan of one cell (`encode_neighbors` and `NearestNeighbors`). */
module Nearest {
  import opened Grids

  /** One neighbour: its state, the token naming that state, and its wrapped location. */
  datatype CellState = CellState(state: int, token: string, loc: (int, int))

  /** The 8 neighbours of a cell in visiting order, with the sum of their states. */
  datatype NearestNeighbors = NearestNeighbors(states: seq<CellState>, alive: int)

  /** The token the scan attaches to a state. */
  function Token(state: int): (t: string)
  {
    if state == 1 then "alive" else "dead"
  }

  /** A token names the state: "alive" exactly for state 1, "dead" for every other state. */
  lemma TokenNames(state: int)
    ensures Token(state) == "alive" <==> state == 1
    ensures Token(state) == "dead" <==> state != 1
  {
  }

  /** Number of neighbours the scan has produced before it reaches offset (i, j): the
      offsets run row-major over {-1, 0, 1} x {-1, 0, 1} and the centre is skipped. */
  function Slot(i: int, j: int): nat
    requires -1 <= i && -1 <= j <= 2 && 3 * (i + 1) + (j + 1) <= 9
  {
    var p := 3 * (i + 1) + (j + 1);
    if p <= 4 then p else p - 1
  }

  /** The offset of the k-th neighbour. */
  function Offset(k: nat): (d: (int, int))
    requires k < 8
    ensures -1 <= d.0 <= 1 && -1 <= d.1 <= 1 && d != (0, 0)
    ensures Slot(d.0, d.1) == k
  {
    if k < 3 then (-1, k - 1)
    else if k == 3 then (0, -1)
    else if k == 4 then (0, 1)
    else (1, k - 6)
  }

  /** The k-th neighbour of (row, col), read from `root` with both coordinates wrapped. */
  function Entry(root: Grid, nrows: nat, ncols: nat, row: int, col: int, k: nat): (e: CellState)
    requires IsGrid(root, nrows, ncols) && nrows > 0 && ncols > 0 && k < 8
  {
    var ix := PyMod(row + Offset(k).0, nrows);
    var jx := PyMod(col + Offset(k).1, ncols);
    CellState(root[ix][jx], Token(root[ix][jx]), (ix, jx))
  }

  /** The first n neighbours of (row, col), in visiting order. */
  function NeighborsUpTo(root: Grid, nrows: nat, ncols: nat, row: int, col: int, n: nat): (r: seq<CellState>)
    requires IsGrid(root, nrows, ncols) && nrows > 0 && ncols > 0 && n <= 8
    ensures |r| == n
  {
    if n == 0 then []
    else NeighborsUpTo(root, nrows, ncols, row, col, n - 1) + [Entry(root, nrows, ncols, row, col, n - 1)]
  }

  /** The neighbour list `encode_neighbors` builds for (row, col). */
  function Neighbors(root: Grid, nrows: nat, ncols: nat, row: int, col: int): (r: seq<CellState>)
    requires IsGrid(root, nrows, ncols) && nrows > 0 && ncols > 0
    ensures |r| == 8
  {
    NeighborsUpTo(root, nrows, ncols, row, col, 8)
  }

  /** One more neighbour extends the list by the next entry. */
  lemma NeighborsUpToSnoc(root: Grid, nrows: nat, ncols: nat, row: int, col: int, n: nat)
    requires IsGrid(root, nrows, ncols) && nrows > 0 && ncols > 0 && n < 8
    ensures NeighborsUpTo(root, nrows, ncols, row, col, n + 1)
         == NeighborsUpTo(root, nrows, ncols, row, col, n) + [Entry(root, nrows, ncols, row, col, n)]
  {
  }

  /** Entry k of a prefix of the list is the k-th neighbour. */
  lemma {:induction false} NeighborsUpToAt(root: Grid, nrows: nat, ncols: nat, row: int, col: int, n: nat, k: nat)
    requires IsGrid(root, nrows, ncols) && nrows > 0 && ncols > 0 && k < n <= 8
    ensures NeighborsUpTo(root, nrows, ncols, row, col, n)[k] == Entry(root, nrows, ncols, row, col, k)
  {
    if k < n - 1 {
      NeighborsUpToAt(root, nrows, ncols, row, col, n - 1, k);
    }
  }

  /** What each of the 8 entries says: a location on the torus, the state stored there in
      `root`, and a token that is "alive" exactly for state 1 and "dead" otherwise. */
  lemma NeighborsSound(root: Grid, nrows: nat, ncols: nat, row: int, col: int, k: nat)
    requires IsGrid(root, nrows, ncols) && nrows > 0 && ncols > 0 && k < 8
    ensures var e := Neighbors(root, nrows, ncols, row, col)[k];
      0 <= e.loc.0 < nrows && 0 <= e.loc.1 < ncols &&
      e.loc == (PyMod(row + Offset(k).0, nrows), PyMod(col + Offset(k).1, ncols)) &&
      e.state == root[e.loc.0][e.loc.1] &&
      (e.token == "alive" <==> e.state == 1) &&
      (e.token == "dead" <==> e.state != 1)
  {
    NeighborsUpToAt(root, nrows, ncols, row, col, 8, k);
  }

  /** Sum of the states of a list of neighbours. */
  function StateSum(s: seq<CellState>): int
  {
    if s == [] then 0 else StateSum(s[..|s| - 1]) + s[|s| - 1].state
  }

  /** Number of alive neighbours of (row, col): the `alive` field of the scan. */
  function AliveAround(root: Grid, nrows: nat, ncols: nat, row: int, col: int): int
    requires IsGrid(root, nrows, ncols) && nrows > 0 && ncols > 0
  {
    StateSum(Neighbors(root, nrows, ncols, row, col))
  }

  /** `NearestNeighbors.alive_cells`: the entries whose state is 1, in order. */
  function AliveCells(s: seq<CellState>): (r: seq<CellState>)
    ensures |r| <= |s|
    ensures forall k :: 0 <= k < |r| ==> r[k].state == 1
  {
    if s == [] then []
    else AliveCells(s[..|s| - 1]) + (if s[|s| - 1].state == 1 then [s[|s| - 1]] else [])
  }

  /** `NearestNeighbors.dead_cells`: the entries whose state is 0, in order. */
  function DeadCells(s: seq<CellState>): (r: seq<CellState>)
    ensures |r| <= |s|
    ensures forall k :: 0 <= k < |r| ==> r[k].state == 0
  {
    if s == [] then []
    else DeadCells(s[..|s| - 1]) + (if s[|s| - 1].state == 0 then [s[|s| - 1]] else [])
  }

  /** The filters keep every entry of their state and nothing else. */
  lemma {:induction false} FiltersKeep(s: seq<CellState>, e: CellState)
    ensures e in AliveCells(s) <==> e in s && e.state == 1
    ensures e in DeadCells(s) <==> e in s && e.state == 0
  {
    if s != [] {
      var init, last := s[..|s| - 1], s[|s| - 1];
      FiltersKeep(init, e);
      assert s == init + [last];
    }
  }

  /** The scan itself: a nested loop over the offsets that appends each wrapped neighbour
      and accumulates the alive count. It reads `root` and nothing else. */
  method EncodeNeighbors(row: int, col: int, root: Grid, nrows: nat, ncols: nat)
    returns (nn: NearestNeighbors)
    requires IsGrid(root, nrows, ncols) && nrows > 0 && ncols > 0
    ensures |nn.states| == 8
    ensures nn.states == Neighbors(root, nrows, ncols, row, col)
    ensures nn.alive == StateSum(nn.states)
  {
    var alive := 0;
    var states: seq<CellState> := [];
    for i := -1 to 2
      invariant states == NeighborsUpTo(root, nrows, ncols, row, col, Slot(i, -1))
      invariant alive == StateSum(states)
    {
      states, alive := EncodeOffsetRow(row, col, root, nrows, ncols, i, states, alive);
    }
    nn := NearestNeighbors(states, alive);
  }

  /** The inner loop of the scan, over the column offsets of row offset `i`: appends the
      neighbours of that row in order (skipping the cell itself) and adds their states. */
  method EncodeOffsetRow(row: int, col: int, root: Grid, nrows: nat, ncols: nat, i: int,
                         states: seq<CellState>, alive: int)
    returns (states': seq<CellState>, alive': int)
    requires IsGrid(root, nrows, ncols) && nrows > 0 && ncols > 0 && -1 <= i <= 1
    requires states == NeighborsUpTo(root, nrows, ncols, row, col, Slot(i, -1))
    requires alive == StateSum(states)
    ensures states' == NeighborsUpTo(root, nrows, ncols, row, col, Slot(i + 1, -1))
    ensures alive' == StateSum(states')
  {
    states', alive' := states, alive;
    for j := -1 to 2
      invariant states' == NeighborsUpTo(root, nrows, ncols, row, col, Slot(i, j))
      invariant alive' == StateSum(states')
    {
      if i == 0 && j == 0 {
        assert Slot(i, j + 1) == Slot(i, j);
        continue;
      }
      states', alive' := VisitOffset(row, col, root, nrows, ncols, i, j, states', alive');
    }
    assert Slot(i, 2) == Slot(i + 1, -1);
  }

  /** The body of the inner loop for an offset other than (0, 0): reads the wrapped
      neighbour, appends it with its token and location, and adds its state. */
  method VisitOffset(row: int, col: int, root: Grid, nrows: nat, ncols: nat, i: int, j: int,
                     states: seq<CellState>, alive: int)
    returns (states': seq<CellState>, alive': int)
    requires IsGrid(root, nrows, ncols) && nrows > 0 && ncols > 0
    requires -1 <= i <= 1 && -1 <= j <= 1 && (i, j) != (0, 0)
    requires states == NeighborsUpTo(root, nrows, ncols, row, col, Slot(i, j))
    requires alive == StateSum(states)
    ensures states' == NeighborsUpTo(root, nrows, ncols, row, col, Slot(i, j + 1))
    ensures alive' == StateSum(states')
  {
    var ix := PyMod(row + i, nrows);
    var jx := PyMod(col + j, ncols);
    var state := root[ix][jx];
    var token := Token(state);
    Visit(root, nrows, ncols, row, col, i, j, states);
    alive' := alive + state;
    states' := states + [CellState(state, token, (ix, jx))];
  }

  /** One visit of the scan: the neighbour at offset (i, j) is the next entry of the list,
      and its state is what the alive count grows by. */
  lemma Visit(root: Grid, nrows: nat, ncols: nat, row: int, col: int, i: int, j: int, states: seq<CellState>)
    requires IsGrid(root, nrows, ncols) && nrows > 0 && ncols > 0
    requires -1 <= i <= 1 && -1 <= j <= 1 && (i, j) != (0, 0)
    requires states == NeighborsUpTo(root, nrows, ncols, row, col, Slot(i, j))
    ensures var ix, jx := PyMod(row + i, nrows), PyMod(col + j, ncols);
      var e := CellState(root[ix][jx], Token(root[ix][jx]), (ix, jx));
      states + [e] == NeighborsUpTo(root, nrows, ncols, row, col, Slot(i, j + 1)) &&
      StateSum(states + [e]) == StateSum(states) + root[ix][jx]
  {
    var ix, jx := PyMod(row + i, nrows), PyMod(col + j, ncols);
    var e := CellState(root[ix][jx], Token(root[ix][jx]), (ix, jx));
    assert states + [e] == NeighborsUpTo(root, nrows, ncols, row, col, Slot(i, j + 1)) by {
      SlotOffset(i, j);
      EntryAtOffset(root, nrows, ncols, row, col, i, j);
      NeighborsUpToSnoc(root, nrows, ncols, row, col, Slot(i, j));
    }
    StateSumSnoc(states, e);
  }

  /** The entry at the slot of offset (i, j) is the cell at that offset, wrapped. */
  lemma EntryAtOffset(root: Grid, nrows: nat, ncols: nat, row: int, col: int, i: int, j: int)
    requires IsGrid(root, nrows, ncols) && nrows > 0 && ncols > 0
    requires -1 <= i <= 1 && -1 <= j <= 1 && (i, j) != (0, 0)
    ensures Slot(i, j) < 8
    ensures var ix, jx := PyMod(row + i, nrows), PyMod(col + j, ncols);
      Entry(root, nrows, ncols, row, col, Slot(i, j)) == CellState(root[ix][jx], Token(root[ix][jx]), (ix, jx))
  {
    SlotOffset(i, j);
  }

  /** The offset (i, j) is the one the scan visits at its slot, and the next offset of the
      row takes the next slot. */
  lemma SlotOffset(i: int, j: int)
    requires -1 <= i <= 1 && -1 <= j <= 1 && (i, j) != (0, 0)
    ensures Slot(i, j) < 8 && Offset(Slot(i, j)) == (i, j)
    ensures Slot(i, j + 1) == Slot(i, j) + 1
  {
  }

  /** Appending one neighbour adds its state to the sum. */
  lemma StateSumSnoc(s: seq<CellState>, e: CellState)
    ensures StateSum(s + [e]) == StateSum(s) + e.state
  {
    assert (s + [e])[..|s|] == s;
  }

  /** Every entry has state 0 or 1. */
  predicate BinaryStates(s: seq<CellState>)
  {
    forall k :: 0 <= k < |s| ==> s[k].state == 0 || s[k].state == 1
  }

  /** Sum of 0/1 states is between 0 and the number of entries. */
  lemma {:induction false} StateSumBounds(s: seq<CellState>)
    requires BinaryStates(s)
    ensures 0 <= StateSum(s) <= |s|
  {
    if s != [] {
      StateSumBounds(s[..|s| - 1]);
    }
  }

  /** Entries that are all dead sum to 0. */
  lemma {:induction false} StateSumOfDead(s: seq<CellState>)
    requires forall k :: 0 <= k < |s| ==> s[k].state == 0
    ensures StateSum(s) == 0
  {
    if s != [] {
      StateSumOfDead(s[..|s| - 1]);
    }
  }

  /** For 0/1 states the two filters partition the entries, and the alive filter has exactly
      as many entries as the states sum to. */
  lemma {:induction false} FiltersPartition(s: seq<CellState>)
    requires BinaryStates(s)
    ensures multiset(AliveCells(s)) + multiset(DeadCells(s)) == multiset(s)
    ensures |AliveCells(s)| + |DeadCells(s)| == |s|
    ensures |AliveCells(s)| == StateSum(s)
  {
    if s != [] {
      var init, last := s[..|s| - 1], s[|s| - 1];
      assert BinaryStates(init);
      FiltersPartition(init);
      assert s == init + [last];
      var a, d := AliveCells(init), DeadCells(init);
      if last.state == 1 {
        assert AliveCells(s) == a + [last] && DeadCells(s) == d;
        assert multiset(AliveCells(s)) == multiset(a) + multiset{last};
      } else {
        assert AliveCells(s) == a && DeadCells(s) == d + [last];
        assert multiset(DeadCells(s)) == multiset(d) + multiset{last};
      }
      assert multiset(s) == multiset(init) + multiset{last};
    }
  }

  /** The scan of any cell of a 0/1 grid yields 0/1 states. */
  lemma NeighborsBinary(root: Grid, nrows: nat, ncols: nat, row: int, col: int)
    requires IsGrid(root, nrows, ncols) && IsBinary(root) && nrows > 0 && ncols > 0
    ensures BinaryStates(Neighbors(root, nrows, ncols, row, col))
  {
    forall k | 0 <= k < 8
      ensures Neighbors(root, nrows, ncols, row, col)[k].state in {0, 1}
    {
      NeighborsSound(root, nrows, ncols, row, col, k);
    }
  }

  /** For a 0/1 grid the alive count of every cell lies in [0, 8]. */
  lemma AliveBounds(root: Grid, nrows: nat, ncols: nat, row: int, col: int)
    requires IsGrid(root, nrows, ncols) && IsBinary(root) && nrows > 0 && ncols > 0
    ensures 0 <= AliveAround(root, nrows, ncols, row, col) <= 8
  {
    NeighborsBinary(root, nrows, ncols, row, col);
    StateSumBounds(Neighbors(root, nrows, ncols, row, col));
  }

  /** The partition property on the scan itself: alive_cells has `alive` entries, and the two
      filters split the 8 neighbours between them. */
  lemma NeighborFilters(root: Grid, nrows: nat, ncols: nat, row: int, col: int)
    requires IsGrid(root, nrows, ncols) && IsBinary(root) && nrows > 0 && ncols > 0
    ensures var s := Neighbors(root, nrows, ncols, row, col);
      |AliveCells(s)| == AliveAround(root, nrows, ncols, row, col) &&
      |AliveCells(s)| + |DeadCells(s)| == 8 &&
      multiset(AliveCells(s)) + multiset(DeadCells(s)) == multiset(s)
  {
    NeighborsBinary(root, nrows, ncols, row, col);
    FiltersPartition(Neighbors(root, nrows, ncols, row, col));
  }

  /** Toroidal wrap at the corners: the first neighbour of (0, 0) is the opposite corner, and
      the last neighbour of the opposite corner is (0, 0). */
  lemma CornersWrap(root: Grid, nrows: nat, ncols: nat)
    requires IsGrid(root, nrows, ncols) && nrows > 0 && ncols > 0
    ensures Neighbors(root, nrows, ncols, 0, 0)[0].loc == (nrows - 1, ncols - 1)
    ensures Neighbors(root, nrows, ncols, nrows - 1, ncols - 1)[7].loc == (0, 0)
  {
    NeighborsSound(root, nrows, ncols, 0, 0, 0);
    NeighborsSound(root, nrows, ncols, nrows - 1, ncols - 1, 7);
  }
}
