/** The evolution rule of the spiralling-cells automaton, stated on values.

    A grid is a `height x width` torus of cells, indexed `[row][col]`, each
    holding a state in `[0, numStates)`. In one generation a cell with state
    `v` advances to `(v + 1) % numStates` when at least one of its neighbours
    already holds that state, and keeps `v` otherwise. Neighbours are found
    through a fixed table of offsets; coordinates wrap around both edges.
 */
module Rule {

  /** A neighbour's position relative to a cell: a row and a column offset. */
  datatype Offset = Offset(dr: int, dc: int)

  /** The two neighbourhood kinds the engine accepts. */
  datatype Neighbourhood = VonNeumann | Moore

  function Abs(x: int): int { if x < 0 then -x else x }

  /** The offset tables, in the order the engine scans them. */
  function Offsets(nb: Neighbourhood): seq<Offset>
  {
    match nb
    case VonNeumann => [Offset(0, 1), Offset(0, -1), Offset(1, 0), Offset(-1, 0)]
    case Moore => [Offset(0, 1), Offset(0, -1), Offset(1, 0), Offset(-1, 0),
                   Offset(1, 1), Offset(1, -1), Offset(-1, 1), Offset(-1, -1)]
  }

  /** The von Neumann table holds exactly the four orthogonal unit steps. */
  lemma VonNeumannTable()
    ensures forall o :: o in Offsets(VonNeumann) <==> Abs(o.dr) + Abs(o.dc) == 1
  {
  }

  /** The Moore table holds exactly the eight steps of a chess king, and its
      first four entries are the von Neumann table. */
  lemma MooreTable()
    ensures forall o :: o in Offsets(Moore) <==> o != Offset(0, 0) && -1 <= o.dr <= 1 && -1 <= o.dc <= 1
    ensures Offsets(Moore)[..4] == Offsets(VonNeumann)
  {
  }

  /** Neither table lists an offset twice, so each neighbour is looked at once. */
  lemma TablesHaveNoRepeats(nb: Neighbourhood)
    ensures forall i, j :: 0 <= i < j < |Offsets(nb)| ==> Offsets(nb)[i] != Offsets(nb)[j]
  {
  }

  /** Dimensions and state count the engine can work with. */
  predicate ValidDims(h: int, w: int, n: int)
  {
    h > 0 && w > 0 && n > 0
  }

  /** `g` has `h` rows of `w` cells, each a state in `[0, n)`. */
  predicate IsGrid(g: seq<seq<int>>, h: int, w: int, n: int)
  {
    |g| == h &&
    forall r :: 0 <= r < h ==> |g[r]| == w && forall c :: 0 <= c < w ==> 0 <= g[r][c] < n
  }

  /** The position of the neighbour at offset `o`, wrapped around the torus. */
  function Neighbour(h: int, w: int, row: int, col: int, o: Offset): (p: (int, int))
    requires h > 0 && w > 0
    ensures 0 <= p.0 < h && 0 <= p.1 < w
  {
    ((row + o.dr) % h, (col + o.dc) % w)
  }

  /** The state of the neighbour at offset `o`. */
  function NeighbourValue(g: seq<seq<int>>, h: int, w: int, n: int, row: int, col: int, o: Offset): int
    requires ValidDims(h, w, n) && IsGrid(g, h, w, n)
  {
    var p := Neighbour(h, w, row, col, o);
    g[p.0][p.1]
  }

  /** The state a cell advances to when it advances. */
  function Successor(v: int, n: int): int
    requires n > 0
  {
    (v + 1) % n
  }

  /** Some neighbour listed in `offs` holds the successor of the cell's state. */
  predicate PlusOneNeighbour(g: seq<seq<int>>, h: int, w: int, n: int, row: int, col: int, offs: seq<Offset>)
    requires ValidDims(h, w, n) && IsGrid(g, h, w, n)
    requires 0 <= row < h && 0 <= col < w
  {
    exists k :: 0 <= k < |offs| && NeighbourValue(g, h, w, n, row, col, offs[k]) == Successor(g[row][col], n)
  }

  /** The state of cell `(row, col)` in the next generation. */
  function NextCell(g: seq<seq<int>>, h: int, w: int, n: int, row: int, col: int, offs: seq<Offset>): int
    requires ValidDims(h, w, n) && IsGrid(g, h, w, n)
    requires 0 <= row < h && 0 <= col < w
  {
    if PlusOneNeighbour(g, h, w, n, row, col, offs) then Successor(g[row][col], n) else g[row][col]
  }

  /** The next generation, built from the old grid only. */
  function Step(g: seq<seq<int>>, h: int, w: int, n: int, offs: seq<Offset>): (g': seq<seq<int>>)
    requires ValidDims(h, w, n) && IsGrid(g, h, w, n)
    ensures IsGrid(g', h, w, n)
    ensures forall r, c :: 0 <= r < h && 0 <= c < w ==> g'[r][c] == NextCell(g, h, w, n, r, c, offs)
  {
    seq(h, r requires 0 <= r < h => seq(w, c requires 0 <= c < w => NextCell(g, h, w, n, r, c, offs)))
  }

  /** A cell changes only by advancing to its successor, it advances exactly
      when a neighbour holds that successor, and so a state only ever spreads
      to a cell from one of its neighbours. */
  lemma StepCell(g: seq<seq<int>>, h: int, w: int, n: int, offs: seq<Offset>, row: int, col: int)
    requires ValidDims(h, w, n) && IsGrid(g, h, w, n)
    requires 0 <= row < h && 0 <= col < w
    ensures var v, v' := g[row][col], Step(g, h, w, n, offs)[row][col];
      (v' == v || v' == Successor(v, n)) &&
      (v' != v ==> exists k :: 0 <= k < |offs| && NeighbourValue(g, h, w, n, row, col, offs[k]) == v') &&
      ((exists k :: 0 <= k < |offs| && NeighbourValue(g, h, w, n, row, col, offs[k]) == Successor(v, n))
         ==> v' == Successor(v, n))
  {
  }

  /** Neighbour coordinates of a cell inside the grid, for a unit offset, are
      the plain sum unless they fall off an edge, in which case they re-enter
      at the opposite edge. */
  lemma WrapAround(h: int, w: int, row: int, col: int, o: Offset)
    requires h > 0 && w > 0 && 0 <= row < h && 0 <= col < w
    requires -1 <= o.dr <= 1 && -1 <= o.dc <= 1
    ensures Neighbour(h, w, row, col, o).0 ==
      if row + o.dr == -1 then h - 1 else if row + o.dr == h then 0 else row + o.dr
    ensures Neighbour(h, w, row, col, o).1 ==
      if col + o.dc == -1 then w - 1 else if col + o.dc == w then 0 else col + o.dc
  {
  }

  /** Looking at more offsets can only find more matches. */
  lemma MoreOffsetsMoreMatches(g: seq<seq<int>>, h: int, w: int, n: int, row: int, col: int,
                               offs: seq<Offset>, offs': seq<Offset>)
    requires ValidDims(h, w, n) && IsGrid(g, h, w, n)
    requires 0 <= row < h && 0 <= col < w
    requires forall o :: o in offs ==> o in offs'
    ensures PlusOneNeighbour(g, h, w, n, row, col, offs) ==> PlusOneNeighbour(g, h, w, n, row, col, offs')
  {
    if PlusOneNeighbour(g, h, w, n, row, col, offs) {
      var k :| 0 <= k < |offs| && NeighbourValue(g, h, w, n, row, col, offs[k]) == Successor(g[row][col], n);
      assert offs[k] in offs';
      var j :| 0 <= j < |offs'| && offs'[j] == offs[k];
      assert NeighbourValue(g, h, w, n, row, col, offs'[j]) == Successor(g[row][col], n);
    }
  }

  /** The order in which the offsets are scanned does not change the step:
      only the set of offsets matters. */
  lemma {:induction false} StepOrderIrrelevant(g: seq<seq<int>>, h: int, w: int, n: int,
                                               offs: seq<Offset>, offs': seq<Offset>)
    requires ValidDims(h, w, n) && IsGrid(g, h, w, n)
    requires forall o :: o in offs <==> o in offs'
    ensures Step(g, h, w, n, offs) == Step(g, h, w, n, offs')
  {
    var s, s' := Step(g, h, w, n, offs), Step(g, h, w, n, offs');
    forall r | 0 <= r < h
      ensures s[r] == s'[r]
    {
      forall c | 0 <= c < w
        ensures s[r][c] == s'[r][c]
      {
        MoreOffsetsMoreMatches(g, h, w, n, r, c, offs, offs');
        MoreOffsetsMoreMatches(g, h, w, n, r, c, offs', offs);
      }
    }
  }

  /** Every von Neumann offset is a Moore offset, so a cell that would advance
      under von Neumann also advances under Moore. */
  lemma MooreSeesVonNeumann(g: seq<seq<int>>, h: int, w: int, n: int, row: int, col: int)
    requires ValidDims(h, w, n) && IsGrid(g, h, w, n)
    requires 0 <= row < h && 0 <= col < w
    ensures forall o :: o in Offsets(VonNeumann) ==> o in Offsets(Moore)
    ensures PlusOneNeighbour(g, h, w, n, row, col, Offsets(VonNeumann)) ==>
            PlusOneNeighbour(g, h, w, n, row, col, Offsets(Moore))
  {
    MoreOffsetsMoreMatches(g, h, w, n, row, col, Offsets(VonNeumann), Offsets(Moore));
  }

  /** Every cell of `g` holds `v`. */
  predicate Uniform(g: seq<seq<int>>, h: int, w: int, v: int)
    requires |g| == h && forall r :: 0 <= r < h ==> |g[r]| == w
  {
    forall r, c :: 0 <= r < h && 0 <= c < w ==> g[r][c] == v
  }

  /** Two grids agree when they agree on every cell. */
  lemma {:induction false} StepIs(g: seq<seq<int>>, h: int, w: int, n: int, offs: seq<Offset>, g': seq<seq<int>>)
    requires ValidDims(h, w, n) && IsGrid(g, h, w, n) && IsGrid(g', h, w, n)
    requires forall r, c :: 0 <= r < h && 0 <= c < w ==> NextCell(g, h, w, n, r, c, offs) == g'[r][c]
    ensures Step(g, h, w, n, offs) == g'
  {
    var s := Step(g, h, w, n, offs);
    forall r | 0 <= r < h
      ensures s[r] == g'[r]
    {
      assert |s[r]| == |g'[r]|;
      forall c | 0 <= c < w
        ensures s[r][c] == g'[r][c]
      {
      }
    }
  }

  /** In a uniform grid with at least two states, no neighbour holds a cell's
      successor, and with one state the successor is the state itself. */
  lemma UniformCell(g: seq<seq<int>>, h: int, w: int, n: int, offs: seq<Offset>, v: int, row: int, col: int)
    requires ValidDims(h, w, n) && IsGrid(g, h, w, n) && Uniform(g, h, w, v)
    requires 0 <= row < h && 0 <= col < w
    ensures n >= 2 ==> !PlusOneNeighbour(g, h, w, n, row, col, offs)
    ensures NextCell(g, h, w, n, row, col, offs) == v
  {
    assert g[row][col] == v && 0 <= v < n;
    if n >= 2 {
      assert Successor(v, n) != v;
      forall k | 0 <= k < |offs|
        ensures NeighbourValue(g, h, w, n, row, col, offs[k]) == v
      {
        var p := Neighbour(h, w, row, col, offs[k]);
        assert g[p.0][p.1] == v;
      }
    }
  }

  /** A uniform grid is a fixed point of the step: with at least two states
      no cell has a neighbour holding its successor. */
  lemma {:induction false} UniformIsFixedPoint(g: seq<seq<int>>, h: int, w: int, n: int, offs: seq<Offset>, v: int)
    requires ValidDims(h, w, n) && IsGrid(g, h, w, n) && Uniform(g, h, w, v)
    ensures n >= 2 ==> forall r, c :: 0 <= r < h && 0 <= c < w ==> !PlusOneNeighbour(g, h, w, n, r, c, offs)
    ensures Step(g, h, w, n, offs) == g
  {
    forall r, c | 0 <= r < h && 0 <= c < w
      ensures (n >= 2 ==> !PlusOneNeighbour(g, h, w, n, r, c, offs)) && NextCell(g, h, w, n, r, c, offs) == g[r][c]
    {
      UniformCell(g, h, w, n, offs, v, r, c);
    }
    StepIs(g, h, w, n, offs, g);
  }

  /** A two-state checkerboard with parity `phase`. */
  function Checkerboard(h: nat, w: nat, phase: nat): (g: seq<seq<int>>)
    ensures IsGrid(g, h, w, 2)
  {
    seq(h, r requires 0 <= r < h => seq(w, c requires 0 <= c < w => (r + c + phase) % 2))
  }

  /** The right-hand neighbour of a checkerboard cell has the opposite
      parity, also across the right edge when the width is even. */
  lemma CheckerboardRightNeighbour(h: nat, w: nat, phase: nat, r: int, c: int)
    requires h > 0 && w > 0 && w % 2 == 0
    requires 0 <= r < h && 0 <= c < w
    ensures NeighbourValue(Checkerboard(h, w, phase), h, w, 2, r, c, Offset(0, 1)) == (r + c + phase + 1) % 2
  {
    var g := Checkerboard(h, w, phase);
    WrapAround(h, w, r, c, Offset(0, 1));
    if c + 1 == w {
      assert NeighbourValue(g, h, w, 2, r, c, Offset(0, 1)) == g[r][0] == (r + phase) % 2;
    } else {
      assert NeighbourValue(g, h, w, 2, r, c, Offset(0, 1)) == g[r][c + 1];
    }
  }

  /** On a torus of even width with two states and the von Neumann
      neighbourhood, every cell of a checkerboard sees its successor to its
      right, so one step inverts the whole grid. The height may be odd: then
      the board does not alternate across the top and bottom wrap, but the
      right-hand neighbour alone makes every cell advance. */
  lemma CheckerboardCellAdvances(h: nat, w: nat, phase: nat, r: int, c: int)
    requires h > 0 && w > 0 && w % 2 == 0
    requires 0 <= r < h && 0 <= c < w
    ensures PlusOneNeighbour(Checkerboard(h, w, phase), h, w, 2, r, c, Offsets(VonNeumann))
    ensures NextCell(Checkerboard(h, w, phase), h, w, 2, r, c, Offsets(VonNeumann)) == Checkerboard(h, w, phase + 1)[r][c]
  {
    var g, vn := Checkerboard(h, w, phase), Offsets(VonNeumann);
    CheckerboardRightNeighbour(h, w, phase, r, c);
    assert vn[0] == Offset(0, 1);
    assert NeighbourValue(g, h, w, 2, r, c, vn[0]) == Successor(g[r][c], 2);
  }

  lemma {:induction false} CheckerboardInverts(h: nat, w: nat, phase: nat)
    requires h > 0 && w > 0 && w % 2 == 0
    ensures Step(Checkerboard(h, w, phase), h, w, 2, Offsets(VonNeumann)) == Checkerboard(h, w, phase + 1)
  {
    var g, vn, g' := Checkerboard(h, w, phase), Offsets(VonNeumann), Checkerboard(h, w, phase + 1);
    forall r, c | 0 <= r < h && 0 <= c < w
      ensures NextCell(g, h, w, 2, r, c, vn) == g'[r][c]
    {
      CheckerboardCellAdvances(h, w, phase, r, c);
    }
    StepIs(g, h, w, 2, vn, g');
  }

  /** The checkerboard oscillates with period two. */
  lemma CheckerboardPeriodTwo(h: nat, w: nat, phase: nat)
    requires h > 0 && w > 0 && w % 2 == 0
    ensures var vn := Offsets(VonNeumann);
      Step(Step(Checkerboard(h, w, phase), h, w, 2, vn), h, w, 2, vn) == Checkerboard(h, w, phase)
  {
    CheckerboardInverts(h, w, phase);
    CheckerboardInverts(h, w, phase + 1);
    var a, b := Checkerboard(h, w, phase + 2), Checkerboard(h, w, phase);
    forall r | 0 <= r < h
      ensures a[r] == b[r]
    {
    }
  }

  /** The 4 x 4 two-state von Neumann example: one step inverts the board. */
  lemma FourByFourExample()
    ensures Step([[0, 1, 0, 1], [1, 0, 1, 0], [0, 1, 0, 1], [1, 0, 1, 0]], 4, 4, 2, Offsets(VonNeumann))
         == [[1, 0, 1, 0], [0, 1, 0, 1], [1, 0, 1, 0], [0, 1, 0, 1]]
  {
    CheckerboardInverts(4, 4, 0);
    var even, odd := [0, 1, 0, 1], [1, 0, 1, 0];
    assert Checkerboard(4, 4, 0)[0] == even && Checkerboard(4, 4, 0)[1] == odd;
    assert Checkerboard(4, 4, 0)[2] == even && Checkerboard(4, 4, 0)[3] == odd;
    assert Checkerboard(4, 4, 1)[0] == odd && Checkerboard(4, 4, 1)[1] == even;
    assert Checkerboard(4, 4, 1)[2] == odd && Checkerboard(4, 4, 1)[3] == even;
    assert Checkerboard(4, 4, 0) == [even, odd, even, odd];
    assert Checkerboard(4, 4, 1) == [odd, even, odd, even];
  }
}
