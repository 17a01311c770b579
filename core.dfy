/** The episode controller: the stability loss of a cell (`criterion`) and the `Env` that
    advances a cell and decides, window by window, when a run has settled. */
module Core {
  import opened Wrappers
  import opened Grids
  import opened Game

  // ---------------------------------------------------------------------------------------
  // The stability loss

  /** A list has at most as many alive entries as it has entries. */
  lemma {:induction false} CountAliveBound(s: seq<int>)
    ensures CountAlive(s) <= |s|
  {
    if s != [] {
      CountAliveBound(s[1..]);
    }
  }

  /** A grid has at most as many alive cells as it has cells. */
  lemma PopulationBound(g: Grid, nrows: nat, ncols: nat)
    requires IsGrid(g, nrows, ncols)
    ensures Population(g) <= nrows * ncols
  {
    FlatLength(g, nrows, ncols);
    CountAliveBound(Flat(g));
  }

  /** `criterion`: how far apart the alive densities of the two buffers are. The program
      computes `|sum(root) / size - sum(hidden) / size|` in floating point; the model keeps
      the numerator `|sum(root) - sum(hidden)|`, which is zero exactly when that quotient is.
      An empty cell (size 0) makes the division fail (None). */
  function Criterion(c: Cell): (loss: Option<nat>)
    reads c
    requires c.Valid()
    ensures loss.None? <==> c.size == 0
    ensures loss.Some? ==> (loss.value == 0 <==> Population(c.root) == Population(c.hidden))
    ensures loss.Some? ==> loss.value <= c.size
  {
    if c.size == 0 then None
    else
      var (r, h) := c.Flatten();
      FlatSumIsPopulation(c.root);
      FlatSumIsPopulation(c.hidden);
      PopulationBound(c.root, c.nrows, c.ncols);
      PopulationBound(c.hidden, c.nrows, c.ncols);
      var d := Sum(r) - Sum(h);
      Some(if d < 0 then -d else d)
  }

  // ---------------------------------------------------------------------------------------
  // The convergence counter

  /** The controller state `Env.step` updates: the zero-loss counter and the done flag. */
  datatype Episode = Episode(flag: int, done: bool)

  /** One tracked step at time `t` with window length `k`: at a window boundary (`t % k == 0`)
      `done` records whether the counter had reached `k` and the counter restarts at 0; then
      the counter grows by one when the step had zero loss. Python's `t % k` is zero exactly
      when Dafny's is (both mean that k divides t). */
  function Update(e: Episode, k: int, t: int, zeroLoss: bool): (e': Episode)
    requires k != 0
    ensures t % k == 0 ==> e'.done == (e.flag == k) && e'.flag == (if zeroLoss then 1 else 0)
    ensures t % k != 0 ==> e'.done == e.done && e'.flag == e.flag + (if zeroLoss then 1 else 0)
  {
    var e' := if t % k == 0 then Episode(0, e.flag == k) else e;
    Episode(e'.flag + (if zeroLoss then 1 else 0), e'.done)
  }

  /** The state after tracked steps at t = 0, 1, ..., |zs| - 1 from a fresh or reset
      controller, where zs[t] tells whether step t had zero loss. */
  function Run(k: int, zs: seq<bool>): (e: Episode)
    requires k > 0
    ensures 0 <= e.flag <= |zs|
    ensures |zs| <= k ==> !e.done
  {
    if zs == [] then Episode(0, false)
    else Update(Run(k, zs[..|zs| - 1]), k, |zs| - 1, zs[|zs| - 1])
  }

  /** Number of steps of `zs` that had zero loss. */
  function CountTrue(zs: seq<bool>): nat
  {
    if zs == [] then 0 else CountTrue(zs[..|zs| - 1]) + (if zs[|zs| - 1] then 1 else 0)
  }

  lemma {:induction false} CountTrueBound(zs: seq<bool>)
    ensures CountTrue(zs) <= |zs|
  {
    if zs != [] {
      CountTrueBound(zs[..|zs| - 1]);
    }
  }

  /** All steps had zero loss exactly when every one of them is counted. */
  lemma {:induction false} CountTrueAll(zs: seq<bool>)
    ensures CountTrue(zs) == |zs| <==> forall i :: 0 <= i < |zs| ==> zs[i]
  {
    if zs != [] {
      var init := zs[..|zs| - 1];
      CountTrueAll(init);
      CountTrueBound(init);
      assert forall i :: 0 <= i < |init| ==> init[i] == zs[i];
    }
  }

  /** Division with remainder is unique: a == q * k + r with 0 <= r < k fixes q and r. */
  lemma DivModUnique(a: int, k: int, q: int, r: int)
    requires k > 0 && 0 <= r < k && a == q * k + r
    ensures a / k == q && a % k == r
  {
    var q', r' := a / k, a % k;
    var d := q - q';
    assert d * k == r' - r by {
      assert a == q' * k + r';
      assert q * k == (q' + d) * k == q' * k + d * k;
    }
    if d >= 1 {
      MulMonotone(1, d, k);
    } else if d <= -1 {
      MulMonotone(d, -1, k);
    }
  }

  lemma MulMonotone(x: int, y: int, k: int)
    requires x <= y && k > 0
    ensures x * k <= y * k
  {
    assert y * k == x * k + (y - x) * k;
  }

  /** The last window boundary at or before t: the largest multiple of k not above t. */
  function Boundary(t: nat, k: int): (b: nat)
    requires k > 0
    ensures b <= t < b + k
    ensures b == (t / k) * k
  {
    (t / k) * k
  }

  /** Stepping back one time unit from t either stays in t's window or, when t is itself a
      boundary, lands in the window before it. */
  lemma BoundaryStep(t: nat, k: int)
    requires t > 0 && k > 0
    ensures t % k == 0 ==> Boundary(t, k) == t && Boundary(t - 1, k) == t - k
    ensures t % k != 0 ==> Boundary(t - 1, k) == Boundary(t, k)
  {
    var q, r := t / k, t % k;
    assert t == q * k + r;
    if r == 0 {
      assert t - 1 == (q - 1) * k + (k - 1);
      DivModUnique(t - 1, k, q - 1, k - 1);
    } else {
      assert t - 1 == q * k + (r - 1);
      DivModUnique(t - 1, k, q, r - 1);
    }
  }

  /** The counter after tracked steps 0 .. t (t = |zs| - 1) is the number of zero-loss
      steps since the boundary b of t's window, b included. */
  lemma {:induction false} RunFlag(k: int, zs: seq<bool>)
    requires k > 0 && |zs| > 0
    ensures Run(k, zs).flag == CountTrue(zs[Boundary(|zs| - 1, k)..])
  {
    var t := |zs| - 1;
    var b := Boundary(t, k);
    var pre := zs[..t];
    assert Run(k, zs) == Update(Run(k, pre), k, t, zs[t]);
    assert CountTrue(zs[b..]) == CountTrue(zs[b..t]) + (if zs[t] then 1 else 0) by {
      assert zs[b..][..|zs[b..]| - 1] == zs[b..t];
    }
    if t == 0 {
      assert zs[b..t] == [];
    } else {
      BoundaryStep(t, k);
      if t % k == 0 {
        assert zs[b..t] == [];
      } else {
        RunFlag(k, pre);
        assert pre[b..] == zs[b..t];
      }
    }
  }

  /** After tracked steps 0 .. t, with b the boundary of t's window, `done` holds exactly
      when a full window [b - k, b) precedes b and all its k steps had zero loss. */
  lemma {:induction false} RunDone(k: int, zs: seq<bool>)
    requires k > 0 && |zs| > 0
    ensures var b := Boundary(|zs| - 1, k);
      Run(k, zs).done <==> b >= k && CountTrue(zs[b - k..b]) == k
  {
    var t := |zs| - 1;
    var b := Boundary(t, k);
    var pre := zs[..t];
    var e, e' := Run(k, pre), Run(k, zs);
    assert e' == Update(e, k, t, zs[t]);
    if t == 0 {
      assert !e'.done && b == 0;
    } else {
      BoundaryStep(t, k);
      if t % k == 0 {
        assert e'.done == (e.flag == k) && b == t;
        RunFlag(k, pre);
        assert Boundary(t - 1, k) == t - k;
        assert pre[t - k..] == zs[b - k..b];
      } else {
        assert e'.done == e.done && Boundary(t - 1, k) == b;
        RunDone(k, pre);
        assert b >= k ==> pre[b - k..b] == zs[b - k..b];
      }
    }
  }

  /** The counter and the done flag after tracked steps 0 .. t (t = |zs| - 1), with b the
      boundary of t's window: the counter is the number of zero-loss steps in [b, t], and
      `done` holds exactly when a full window [b - k, b) precedes b and all its k steps had
      zero loss. */
  lemma RunWindow(k: int, zs: seq<bool>)
    requires k > 0 && |zs| > 0
    ensures var b := Boundary(|zs| - 1, k);
      Run(k, zs).flag == CountTrue(zs[b..]) &&
      (Run(k, zs).done <==> b >= k && CountTrue(zs[b - k..b]) == k)
  {
    RunFlag(k, zs);
    RunDone(k, zs);
  }

  /** The counter never exceeds the window length: `0 <= flag <= k` throughout a run. */
  lemma RunFlagBound(k: int, zs: seq<bool>)
    requires k > 0
    ensures 0 <= Run(k, zs).flag <= k
  {
    if zs != [] {
      RunWindow(k, zs);
      var b := Boundary(|zs| - 1, k);
      CountTrueBound(zs[b..]);
    }
  }

  /** At t = m * k with m >= 1, `done` is true exactly when each of the k steps of the window
      [(m - 1) * k, m * k) had zero loss. */
  lemma RunDoneAtBoundary(k: int, zs: seq<bool>, m: nat)
    requires k > 0 && m >= 1 && |zs| == m * k + 1
    ensures Run(k, zs).done <==> forall i :: (m - 1) * k <= i < m * k ==> zs[i]
  {
    var t := m * k;
    DivModUnique(t, k, m, 0);
    assert Boundary(t, k) == t;
    assert t >= k by {
      MulMonotone(1, m, k);
    }
    assert (m - 1) * k == t - k;
    RunWindow(k, zs);
    var w := zs[t - k..t];
    CountTrueAll(w);
    assert forall i :: t - k <= i < t ==> zs[i] == w[i - (t - k)];
  }

  // ---------------------------------------------------------------------------------------
  // The controller

  /** What `Env.step` returns: the stats alone when no time is given, the stats with the
      loss and the done flag when one is, or the division error of `criterion` on an empty
      cell or of `t % k` with k == 0. */
  datatype StepResult =
    | Free(stats: Stats)
    | Tracked(stats: Stats, loss: nat, done: bool)
    | DivisionByZero

  /** `Env`: a cell, the window length `k`, and the convergence state `flag` / `done`. */
  class Env {
    const k: int
    const probe: int
    const nrows: nat
    const ncols: nat
    var cell: Cell
    var flag: int
    var done: bool

    ghost predicate Valid()
      reads this, cell
    {
      cell.Valid()
    }

    /** `Env(k, probe, shape, cell=cell)`: wraps the given cell with a fresh counter. */
    constructor (k: int, probe: int, nrows: nat, ncols: nat, cell: Cell)
      requires cell.Valid()
      ensures Valid()
      ensures this.k == k && this.probe == probe && this.nrows == nrows && this.ncols == ncols
      ensures this.cell == cell && flag == 0 && !done
    {
      this.k := k;
      this.probe := probe;
      this.nrows := nrows;
      this.ncols := ncols;
      this.cell := cell;
      flag := 0;
      done := false;
    }

    /** `Env(k, probe, shape, cell)`: uses `given` when there is one and otherwise builds
        `Cell(shape, probe)` seeded with `init`, which fails (None) when the two dimensions
        add up to less than 6 or when seeding raises on a negative probe. Either way the counter starts at 0 and `done` is false. */
    static method New(k: int, probe: int, nrows: nat, ncols: nat, given: Option<Cell>, init: Grid)
      returns (r: Option<Env>)
      requires given.Some? ==> given.value.Valid()
      requires given.None? ==> IsGrid(init, nrows, ncols) && IsBinary(init)
      ensures r.None? <==> given.None? && (nrows + ncols < 6 || !Seedable(nrows, ncols, probe))
      ensures r.Some? ==> fresh(r.value) && r.value.Valid() && r.value.k == k
      ensures r.Some? ==> r.value.probe == probe && r.value.nrows == nrows && r.value.ncols == ncols
      ensures r.Some? ==> r.value.flag == 0 && !r.value.done
      ensures r.Some? && given.Some? ==> r.value.cell == given.value
      ensures r.Some? && given.None? ==>
        fresh(r.value.cell) && r.value.cell.nrows == nrows && r.value.cell.ncols == ncols &&
        r.value.cell.root == init && r.value.cell.hidden == Base(nrows, ncols) &&
        r.value.cell.probe == probe && r.value.cell.id == None
    {
      var c: Cell;
      if given.Some? {
        c := given.value;
      } else {
        var made := Cell.New(nrows, ncols, probe, init);
        if made.None? {
          return None;
        }
        c := made.value;
      }
      var e := new Env(k, probe, nrows, ncols, c);
      return Some(e);
    }

    /** `Env.step(t)`: advances the cell by one generation. Without `t` only the stats come
        back and the counter is left alone. With `t`, the loss of the new pair of buffers is
        measured; at a window boundary `done` becomes "the counter had reached k" and the
        counter restarts at 0 (checked before this step is counted), elsewhere `done` is
        kept; then the counter grows by one exactly when the loss is zero. */
    method Step(t: Option<int>) returns (r: StepResult)
      requires Valid()
      modifies this`flag, this`done, cell`root, cell`hidden
      ensures Valid()
      ensures cell.root == NextGen(old(cell.root), cell.nrows, cell.ncols) && cell.hidden == old(cell.root)
      ensures !r.DivisionByZero? ==> r.stats == Tally(old(cell.root), cell.nrows, cell.ncols)
      ensures t.None? ==> r.Free? && flag == old(flag) && done == old(done)
      ensures t.Some? && (cell.size == 0 || k == 0) ==>
        r.DivisionByZero? && flag == old(flag) && done == old(done)
      ensures t.Some? && cell.size != 0 && k != 0 ==>
        r.Tracked? && Criterion(cell) == Some(r.loss) && r.done == done &&
        (r.loss == 0 <==> Population(cell.root) == Population(old(cell.root))) &&
        Episode(flag, done) == Update(Episode(old(flag), old(done)), k, t.value, r.loss == 0)
      ensures t.Some? && cell.size != 0 && k != 0 && t.value % k == 0 ==>
        done == (old(flag) == k) && flag == (if r.loss == 0 then 1 else 0)
      ensures t.Some? && cell.size != 0 && k != 0 && t.value % k != 0 ==>
        done == old(done) && flag == old(flag) + (if r.loss == 0 then 1 else 0)
    {
      var stats := cell.Forward();
      if t.None? {
        return Free(stats);
      }
      var loss := Criterion(cell);
      if loss.None? || k == 0 {
        return DivisionByZero;
      }
      var f := flag;
      if t.value % k == 0 {
        done := f == k;
        flag := 0;
      }
      flag := flag + (if loss.value == 0 then 1 else 0);
      return Tracked(stats, loss.value, done);
    }

    /** `Env.reset`: installs a fresh cell of the same shape and probe, seeded with `init`,
        clears the counter and `done`, and returns the controller itself. */
    method Reset(init: Grid) returns (e: Env)
      requires Valid()
      requires IsGrid(init, cell.nrows, cell.ncols) && IsBinary(init)
      modifies this`cell, this`flag, this`done
      ensures e == this && Valid()
      ensures flag == 0 && !done
      ensures fresh(cell) && cell.nrows == old(cell.nrows) && cell.ncols == old(cell.ncols)
      ensures cell.probe == old(cell.probe) && cell.size == old(cell.size)
      ensures cell.root == init && cell.hidden == Base(cell.nrows, cell.ncols) && cell.id == None
    {
      var c := cell.Reset(init);
      cell := c;
      flag := 0;
      done := false;
      return this;
    }
  }
}
