/** The automaton engine: an object holding the grid, the grid it started
    from, the configuration and a generation counter, whose methods evolve,
    restart and measure it. Each method is proved against a function on
    `EngineState`, the engine's fields taken as a value. */
module Engine {
  import opened Rule
  import opened Disorder

  /** The fields of a `CellularAutomaton`, as a value. */
  datatype EngineState = EngineState(
    width: int,
    height: int,
    numStates: int,
    cellSize: int,
    grid: seq<seq<int>>,
    initialGrid: seq<seq<int>>,
    iterations: int,
    numCells: int)

  /** The invariant the engine keeps: positive dimensions, at least one state,
      the cell count, a non-negative counter, and both grids of the configured
      shape with every cell a valid state. */
  predicate WellFormed(s: EngineState)
  {
    ValidDims(s.height, s.width, s.numStates) &&
    s.numCells == s.width * s.height && s.numCells > 0 &&
    s.iterations >= 0 &&
    IsGrid(s.grid, s.height, s.width, s.numStates) &&
    IsGrid(s.initialGrid, s.height, s.width, s.numStates)
  }

  /** One generation: the grid is replaced by its successor, the counter goes up by one. */
  function Evolve(s: EngineState, nb: Neighbourhood): (t: EngineState)
    requires WellFormed(s)
    ensures WellFormed(t)
  {
    s.(grid := Step(s.grid, s.height, s.width, s.numStates, Offsets(nb)), iterations := s.iterations + 1)
  }

  /** `k` generations in a row. */
  function EvolveN(s: EngineState, nb: Neighbourhood, k: nat): (t: EngineState)
    requires WellFormed(s)
    ensures WellFormed(t)
  {
    if k == 0 then s else Evolve(EvolveN(s, nb, k - 1), nb)
  }

  /** Restart: the grid goes back to the initial grid, the counter to 0. */
  function Reset(s: EngineState): (t: EngineState)
    requires WellFormed(s)
    ensures WellFormed(t)
  {
    s.(grid := s.initialGrid, iterations := 0)
  }

  /** Restarting twice is the same as restarting once. */
  lemma ResetIdempotent(s: EngineState)
    requires WellFormed(s)
    ensures Reset(Reset(s)) == Reset(s)
  {
  }

  /** Running `k` generations advances the counter by `k` and touches
      nothing but the grid and the counter; so a restart after any run gives
      the same state as a restart before it. */
  lemma {:induction false} RestartAfterRun(s: EngineState, nb: Neighbourhood, k: nat)
    requires WellFormed(s)
    ensures EvolveN(s, nb, k).iterations == s.iterations + k
    ensures EvolveN(s, nb, k).(grid := s.grid, iterations := s.iterations) == s
    ensures Reset(EvolveN(s, nb, k)) == Reset(s)
  {
    if k > 0 {
      RestartAfterRun(s, nb, k - 1);
    }
  }

  /** A uniform grid never changes, however many generations run. */
  lemma {:induction false} UniformRunIsStill(s: EngineState, nb: Neighbourhood, k: nat, v: int)
    requires WellFormed(s) && Uniform(s.grid, s.height, s.width, v)
    ensures EvolveN(s, nb, k).grid == s.grid
  {
    if k > 0 {
      UniformRunIsStill(s, nb, k - 1, v);
      var t := EvolveN(s, nb, k - 1);
      UniformIsFixedPoint(t.grid, t.height, t.width, t.numStates, Offsets(nb), v);
    }
  }

  class CellularAutomaton {
    var width: int
    var height: int
    var numStates: int
    var cellSize: int
    var grid: seq<seq<int>>
    var initialGrid: seq<seq<int>>
    var iterations: int
    var numCells: int

    ghost function State(): EngineState
      reads this
    {
      EngineState(width, height, numStates, cellSize, grid, initialGrid, iterations, numCells)
    }

    ghost predicate Valid()
      reads this
    {
      WellFormed(State())
    }

    /** A fresh engine whose random initial fill is `draw`. */
    constructor (w: int, h: int, numStates: int, cellSize: int, draw: seq<seq<int>>)
      requires ValidDims(h, w, numStates) && IsGrid(draw, h, w, numStates)
      ensures Valid()
      ensures State() == EngineState(w, h, numStates, cellSize, draw, draw, 0, w * h)
    {
      width, height := w, h;
      this.numStates, this.cellSize := numStates, cellSize;
      grid, initialGrid := draw, draw;
      iterations := 0;
      numCells := w * h;
      assert w * h > 0 by { assert w * h >= 1 * h; }
    }

    /** Replaces both the grid and the retained initial grid by a new fill;
        the counter is left as it is. */
    method InitializeRandomly(draw: seq<seq<int>>)
      requires Valid() && IsGrid(draw, height, width, numStates)
      modifies this
      ensures Valid()
      ensures State() == old(State()).(grid := draw, initialGrid := draw)
    {
      grid := draw;
      initialGrid := grid;
    }

    method ResetGrid()
      requires Valid()
      modifies this
      ensures Valid()
      ensures State() == Reset(old(State()))
    {
      iterations := 0;
      grid := initialGrid;
    }

    method GetGrid() returns (g: seq<seq<int>>)
      requires Valid()
      ensures IsGrid(g, height, width, numStates)
      ensures g == grid
    {
      g := grid;
    }

    /** Scans the offset table in order and stops at the first neighbour
        holding the successor of the cell's state. */
    method HasPlusOneNeighbour(row: int, col: int, nb: Neighbourhood) returns (found: bool)
      requires Valid()
      requires 0 <= row < height && 0 <= col < width
      ensures found == PlusOneNeighbour(grid, height, width, numStates, row, col, Offsets(nb))
    {
      var g, h, w, n := grid, height, width, numStates;
      var target := (g[row][col] + 1) % n;
      var offs := Offsets(nb);
      var k := 0;
      while k < |offs|
        invariant 0 <= k <= |offs|
        invariant forall j :: 0 <= j < k ==> NeighbourValue(g, h, w, n, row, col, offs[j]) != target
      {
        var row2 := (row + offs[k].dr) % h;
        var col2 := (col + offs[k].dc) % w;
        assert NeighbourValue(g, h, w, n, row, col, offs[k]) == g[row2][col2];
        if g[row2][col2] == target {
          return true;
        }
        k := k + 1;
      }
      return false;
    }

    /** The comprehension that builds the next generation from the current
        grid, row by row and cell by cell, without touching the engine. */
    method NextGeneration(nb: Neighbourhood) returns (rows: seq<seq<int>>)
      requires Valid()
      ensures rows == Step(grid, height, width, numStates, Offsets(nb))
    {
      var g, h, w, n := grid, height, width, numStates;
      ghost var next := Step(g, h, w, n, Offsets(nb));
      rows := [];
      var row := 0;
      while row < h
        invariant 0 <= row <= h
        invariant |rows| == row
        invariant forall r :: 0 <= r < row ==> rows[r] == next[r]
      {
        var cells: seq<int> := [];
        var col := 0;
        while col < w
          invariant 0 <= col <= w
          invariant cells == next[row][..col]
        {
          var plusOne := HasPlusOneNeighbour(row, col, nb);
          var cell := if !plusOne then g[row][col] else (g[row][col] + 1) % n;
          assert cell == next[row][col];
          assert next[row][..col + 1] == next[row][..col] + [cell];
          cells := cells + [cell];
          col := col + 1;
        }
        assert cells == next[row];
        rows := rows + [cells];
        row := row + 1;
      }
    }

    /** Replaces the grid by the next generation, computed from the old grid
        only, and counts the generation. */
    method EvolveOneStep(nb: Neighbourhood) returns (count: int)
      requires Valid()
      modifies this
      ensures Valid()
      ensures State() == Evolve(old(State()), nb)
      ensures count == iterations
    {
      grid := NextGeneration(nb);
      iterations := iterations + 1;
      count := iterations;
    }

    /** The least circular distance between the cell's state and its
        neighbours' states, folded over the offset table from `10 * numStates`. */
    method GetMinDiff(row: int, col: int, nb: Neighbourhood) returns (minDiff: int)
      requires Valid()
      requires 0 <= row < height && 0 <= col < width
      ensures minDiff == MinDiff(grid, height, width, numStates, row, col, nb)
      ensures 0 <= minDiff <= numStates / 2
    {
      var g, h, w, n := grid, height, width, numStates;
      minDiff := 10 * n;
      var offs := Offsets(nb);
      var thisState := g[row][col];
      for k := 0 to |offs|
        invariant minDiff == MinDiffOver(g, h, w, n, row, col, offs[..k])
      {
        var p := Neighbour(h, w, row, col, offs[k]);
        var otherState := g[p.0][p.1];
        MinDiffOverExtend(g, h, w, n, row, col, offs, k);
        minDiff := Min(minDiff, CircDist(thisState, otherState, n));
      }
      assert offs[..|offs|] == offs;
      MinDiffBounds(g, h, w, n, row, col, nb);
    }

    /** The mean metric over the grid: the summed metric divided by the
        number of cells. */
    method GetEntropy(nb: Neighbourhood) returns (entropy: real)
      requires Valid()
      ensures entropy == Mean(EntropySum(grid, height, width, numStates, nb), numCells)
      ensures 0.0 <= entropy <= (numStates / 2) as real
    {
      var ent := GridMinDiffSum(nb);
      EntropyBounds(grid, height, width, numStates, nb);
      entropy := ent as real / numCells as real;
    }

    /** The outer loop of `GetEntropy`: the metric of every cell summed row by row. */
    method GridMinDiffSum(nb: Neighbourhood) returns (ent: int)
      requires Valid()
      ensures ent == EntropySum(grid, height, width, numStates, nb)
    {
      var h, w := height, width;
      ghost var m := Metrics(grid, h, w, numStates, nb);
      ent := 0;
      for row := 0 to h
        invariant ent == SumRows(m, w, row)
      {
        var rowSum := RowMinDiffSum(row, nb);
        assert rowSum == SumRow(m[row], w);
        ent := ent + rowSum;
      }
    }

    /** The inner loop of `GetEntropy`: the metric summed along one row. */
    method RowMinDiffSum(row: int, nb: Neighbourhood) returns (ent: int)
      requires Valid()
      requires 0 <= row < height
      ensures ent == SumRow(Metrics(grid, height, width, numStates, nb)[row], width)
    {
      ghost var cells := Metrics(grid, height, width, numStates, nb)[row];
      ent := 0;
      for col := 0 to width
        invariant ent == SumRow(cells, col)
      {
        var d := GetMinDiff(row, col, nb);
        ent := ent + d;
      }
    }
  }

  /** The shell's restart path: after any number of generations, a restart
      brings back the initial grid with the counter at 0, and nothing else
      about the engine has changed. */
  method RunThenRestart(ca: CellularAutomaton, nb: Neighbourhood, k: nat)
    requires ca.Valid()
    modifies ca
    ensures ca.Valid()
    ensures ca.State() == Reset(old(ca.State()))
    ensures ca.grid == old(ca.initialGrid) && ca.iterations == 0
  {
    ghost var start := ca.State();
    for i := 0 to k
      invariant ca.Valid()
      invariant ca.State() == EvolveN(start, nb, i)
    {
      var _ := ca.EvolveOneStep(nb);
    }
    ca.ResetGrid();
    RestartAfterRun(start, nb, k);
  }
}
