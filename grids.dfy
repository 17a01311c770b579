/** The grid representation shared by the neighbour scan, the automaton and the controller. */
module Grids {
  import opened Wrappers

  /** A grid as the program stores it: a list of rows, each a list of cell states. */
  type Grid = seq<seq<int>>

  /** `g` has `nrows` rows of `ncols` cells each. */
  predicate IsGrid(g: Grid, nrows: nat, ncols: nat)
  {
    |g| == nrows && forall i :: 0 <= i < |g| ==> |g[i]| == ncols
  }

  /** Every cell is dead (0) or alive (1). */
  predicate IsBinary(g: Grid)
  {
    forall i, j :: 0 <= i < |g| && 0 <= j < |g[i]| ==> g[i][j] == 0 || g[i][j] == 1
  }

  /** Python's `a % n` for a positive modulus: the remainder of floor division, in [0, n).
      Dafny's `%` agrees with it whenever the modulus is positive. */
  function PyMod(a: int, n: int): (r: int)
    requires n > 0
    ensures 0 <= r < n
    ensures 0 <= a < n ==> r == a
    ensures a == -1 ==> r == n - 1
    ensures a == n ==> r == 0
  {
    a % n
  }

  /** Python's subscript `xs[idx]` on a list of length `len`: negative indices count from the
      end, and anything outside [-len, len) is an IndexError (None). */
  function PyIndex(len: nat, idx: int): (r: Option<nat>)
    ensures r.Some? <==> -(len as int) <= idx < len
    ensures r.Some? ==> r.value < len
    ensures r.Some? && idx >= 0 ==> r.value == idx
    ensures r.Some? && idx < 0 ==> r.value == len + idx
  {
    if 0 <= idx < len then Some(idx)
    else if -(len as int) <= idx < 0 then Some(len + idx)
    else None
  }
}
