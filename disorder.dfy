/** The engine's disorder metric: for each cell, the least circular distance
    between its state and a neighbour's state, and the sum of that over the
    whole grid, whose mean the engine reports as its entropy. */
module Disorder {
  import opened Rule

  function Min(a: int, b: int): int { if a <= b then a else b }

  /** A non-zero multiple of `n` is at least `n` away from 0. */
  lemma MultipleBound(d: int, n: int)
    requires n > 0
    ensures d >= 1 ==> d * n >= n
    ensures d <= -1 ==> d * n <= -n
  {
  }

  /** `x % n` is the unique remainder in `[0, n)` of `x` modulo `n`. */
  lemma {:induction false} ModUnique(x: int, n: int, q: int, s: int)
    requires n > 0 && 0 <= s < n && x == q * n + s
    ensures x % n == s
  {
    var q', s' := x / n, x % n;
    assert (q - q') * n == s' - s by {
      assert x == q' * n + s';
      assert (q - q') * n == q * n - q' * n;
    }
    MultipleBound(q - q', n);
  }

  /** The two remainders of `a - b` and `b - a` add up to `n`, unless both are 0. */
  lemma {:induction false} OppositeRemainders(x: int, n: int)
    requires n > 0
    ensures x % n == 0 ==> (-x) % n == 0
    ensures x % n != 0 ==> (-x) % n == n - x % n
  {
    var q, s := x / n, x % n;
    assert x == q * n + s;
    if s == 0 {
      ModUnique(-x, n, -q, 0);
    } else {
      ModUnique(-x, n, -q - 1, n - s);
    }
  }

  /** Two states in `[0, n)` are congruent modulo `n` only when equal. */
  lemma StatesDifferModulo(a: int, b: int, n: int)
    requires n > 0
    ensures 0 <= a < n && 0 <= b < n ==> ((a - b) % n == 0 <==> a == b)
  {
    if 0 <= a < n && 0 <= b < n {
      if a < b {
        ModUnique(a - b, n, -1, a - b + n);
      } else {
        ModUnique(a - b, n, 0, a - b);
      }
    }
  }

  /** The circular distance between states `a` and `b` on a cycle of `n`
      states, as the engine computes it: the smaller of the two remainders,
      each passed through `abs`. */
  function CircDist(a: int, b: int, n: int): (d: int)
    requires n > 0
    ensures 0 <= d <= n / 2
  {
    OppositeRemainders(a - b, n);
    Min(Abs((a - b) % n), Abs((b - a) % n))
  }

  /** Reference definition of the distance: the shorter way round the cycle,
      counting the steps from `a` forward to `b` and back. */
  function CircDistRef(a: int, b: int, n: int): int
    requires n > 0
  {
    var forward := (b - a) % n;
    if forward == 0 then 0 else Min(forward, n - forward)
  }

  /** The engine's distance is the shorter way round the cycle, whichever
      state one starts from, and two valid states are at distance 0 exactly
      when they are equal. */
  lemma CircDistIsShorterWay(a: int, b: int, n: int)
    requires n > 0
    ensures CircDist(a, b, n) == CircDistRef(a, b, n) == CircDistRef(b, a, n)
    ensures 0 <= a < n && 0 <= b < n ==> (CircDist(a, b, n) == 0 <==> a == b)
  {
    OppositeRemainders(a - b, n);
    OppositeRemainders(b - a, n);
    StatesDifferModulo(a, b, n);
  }

  /** The distance between a cell and its neighbour at offset `o`. */
  function NeighbourDist(g: seq<seq<int>>, h: int, w: int, n: int, row: int, col: int, o: Offset): int
    requires ValidDims(h, w, n) && IsGrid(g, h, w, n)
    requires 0 <= row < h && 0 <= col < w
  {
    CircDist(g[row][col], NeighbourValue(g, h, w, n, row, col, o), n)
  }

  /** The fold the engine runs over an offset table: start from `10 * n` and
      take the minimum with each neighbour's distance, in table order. */
  function MinDiffOver(g: seq<seq<int>>, h: int, w: int, n: int, row: int, col: int, offs: seq<Offset>): (d: int)
    requires ValidDims(h, w, n) && IsGrid(g, h, w, n)
    requires 0 <= row < h && 0 <= col < w
    ensures |offs| == 0 ==> d == 10 * n
    ensures |offs| > 0 ==> 0 <= d <= n / 2
    decreases |offs|
  {
    if |offs| == 0 then 10 * n
    else Min(MinDiffOver(g, h, w, n, row, col, offs[..|offs| - 1]), NeighbourDist(g, h, w, n, row, col, offs[|offs| - 1]))
  }

  /** The fold yields the least neighbour distance: it is no larger than any
      of them and equal to one of them. */
  lemma {:induction false} MinDiffOverIsLeast(g: seq<seq<int>>, h: int, w: int, n: int, row: int, col: int, offs: seq<Offset>)
    requires ValidDims(h, w, n) && IsGrid(g, h, w, n)
    requires 0 <= row < h && 0 <= col < w
    ensures forall k :: 0 <= k < |offs| ==> MinDiffOver(g, h, w, n, row, col, offs) <= NeighbourDist(g, h, w, n, row, col, offs[k])
    ensures |offs| > 0 ==>
      exists k :: 0 <= k < |offs| && MinDiffOver(g, h, w, n, row, col, offs) == NeighbourDist(g, h, w, n, row, col, offs[k])
    decreases |offs|
  {
    if |offs| > 0 {
      var init := offs[..|offs| - 1];
      MinDiffOverIsLeast(g, h, w, n, row, col, init);
      forall k | 0 <= k < |init|
        ensures init[k] == offs[k]
      {
      }
      if |init| == 0 {
        assert MinDiffOver(g, h, w, n, row, col, offs) == NeighbourDist(g, h, w, n, row, col, offs[0]);
      }
    }
  }

  /** One more offset in the fold takes one more minimum. */
  lemma MinDiffOverExtend(g: seq<seq<int>>, h: int, w: int, n: int, row: int, col: int, offs: seq<Offset>, k: int)
    requires ValidDims(h, w, n) && IsGrid(g, h, w, n)
    requires 0 <= row < h && 0 <= col < w && 0 <= k < |offs|
    ensures MinDiffOver(g, h, w, n, row, col, offs[..k + 1]) ==
      Min(MinDiffOver(g, h, w, n, row, col, offs[..k]), NeighbourDist(g, h, w, n, row, col, offs[k]))
  {
    assert offs[..k + 1][..k] == offs[..k] && offs[..k + 1][k] == offs[k];
  }

  /** The metric of one cell for a neighbourhood kind. */
  function MinDiff(g: seq<seq<int>>, h: int, w: int, n: int, row: int, col: int, nb: Neighbourhood): int
    requires ValidDims(h, w, n) && IsGrid(g, h, w, n)
    requires 0 <= row < h && 0 <= col < w
  {
    MinDiffOver(g, h, w, n, row, col, Offsets(nb))
  }

  /** Some neighbour of the cell holds the cell's own state. */
  predicate HasEqualNeighbour(g: seq<seq<int>>, h: int, w: int, n: int, row: int, col: int, nb: Neighbourhood)
    requires ValidDims(h, w, n) && IsGrid(g, h, w, n)
    requires 0 <= row < h && 0 <= col < w
  {
    var offs := Offsets(nb);
    exists k :: 0 <= k < |offs| && NeighbourValue(g, h, w, n, row, col, offs[k]) == g[row][col]
  }

  /** The metric of a cell lies in `[0, n / 2]` and is 0 exactly when some
      neighbour shares the cell's state. */
  lemma MinDiffBounds(g: seq<seq<int>>, h: int, w: int, n: int, row: int, col: int, nb: Neighbourhood)
    requires ValidDims(h, w, n) && IsGrid(g, h, w, n)
    requires 0 <= row < h && 0 <= col < w
    ensures 0 <= MinDiff(g, h, w, n, row, col, nb) <= n / 2
    ensures MinDiff(g, h, w, n, row, col, nb) == 0 <==> HasEqualNeighbour(g, h, w, n, row, col, nb)
  {
    var offs := Offsets(nb);
    var v := g[row][col];
    MinDiffOverIsLeast(g, h, w, n, row, col, offs);
    if HasEqualNeighbour(g, h, w, n, row, col, nb) {
      var k :| 0 <= k < |offs| && NeighbourValue(g, h, w, n, row, col, offs[k]) == v;
      CircDistIsShorterWay(v, v, n);
    } else {
      var k :| 0 <= k < |offs| && MinDiff(g, h, w, n, row, col, nb) == NeighbourDist(g, h, w, n, row, col, offs[k]);
      var p := Neighbour(h, w, row, col, offs[k]);
      CircDistIsShorterWay(v, g[p.0][p.1], n);
    }
  }

  /** The Moore neighbourhood includes the von Neumann one, so its metric is
      never larger. */
  lemma MooreMinDiffAtMostVonNeumann(g: seq<seq<int>>, h: int, w: int, n: int, row: int, col: int)
    requires ValidDims(h, w, n) && IsGrid(g, h, w, n)
    requires 0 <= row < h && 0 <= col < w
    ensures MinDiff(g, h, w, n, row, col, Moore) <= MinDiff(g, h, w, n, row, col, VonNeumann)
  {
    var vn, moore := Offsets(VonNeumann), Offsets(Moore);
    MinDiffOverIsLeast(g, h, w, n, row, col, vn);
    MinDiffOverIsLeast(g, h, w, n, row, col, moore);
    var k :| 0 <= k < |vn| && MinDiff(g, h, w, n, row, col, VonNeumann) == NeighbourDist(g, h, w, n, row, col, vn[k]);
    assert vn[k] == moore[k];
  }

  /** The metric of every cell, laid out like the grid. */
  function Metrics(g: seq<seq<int>>, h: int, w: int, n: int, nb: Neighbourhood): (m: seq<seq<int>>)
    requires ValidDims(h, w, n) && IsGrid(g, h, w, n)
    ensures |m| == h && forall r :: 0 <= r < h ==> |m[r]| == w
    ensures forall r, c {:trigger MinDiff(g, h, w, n, r, c, nb)} :: 0 <= r < h && 0 <= c < w ==> m[r][c] == MinDiff(g, h, w, n, r, c, nb)
  {
    seq(h, r requires 0 <= r < h => seq(w, c requires 0 <= c < w => MinDiff(g, h, w, n, r, c, nb)))
  }

  /** The sum of the first `k` entries of `xs`, added left to right. */
  function SumRow(xs: seq<int>, k: int): int
    requires 0 <= k <= |xs|
    decreases k
  {
    if k == 0 then 0 else SumRow(xs, k - 1) + xs[k - 1]
  }

  /** The sum of the first `k` rows of `m`, each summed over its `w` entries. */
  function SumRows(m: seq<seq<int>>, w: int, k: int): int
    requires 0 <= k <= |m| && 0 <= w
    requires forall r :: 0 <= r < |m| ==> |m[r]| == w
    decreases k
  {
    if k == 0 then 0 else SumRows(m, w, k - 1) + SumRow(m[k - 1], w)
  }

  /** A sum of `k` entries in `[0, b]` lies in `[0, k * b]`, and it is 0
      exactly when each of them is. */
  lemma {:induction false} SumRowBounds(xs: seq<int>, k: int, b: int)
    requires 0 <= k <= |xs|
    requires forall i :: 0 <= i < |xs| ==> 0 <= xs[i] <= b
    ensures 0 <= SumRow(xs, k) <= k * b
    ensures SumRow(xs, k) == 0 <==> forall i :: 0 <= i < k ==> xs[i] == 0
  {
    if k > 0 {
      SumRowBounds(xs, k - 1, b);
      assert (k - 1) * b + b == k * b;
    }
  }

  /** The same for `k` rows of `w` entries: the sum lies in `[0, k * (w * b)]`
      and it is 0 exactly when every entry is. */
  lemma {:induction false} SumRowsBounds(m: seq<seq<int>>, w: int, k: int, b: int)
    requires 0 <= k <= |m| && 0 <= w
    requires forall r :: 0 <= r < |m| ==> |m[r]| == w
    requires forall r, c :: 0 <= r < |m| && 0 <= c < w ==> 0 <= m[r][c] <= b
    ensures 0 <= SumRows(m, w, k) <= k * (w * b)
    ensures SumRows(m, w, k) == 0 <==> forall r, c :: 0 <= r < k && 0 <= c < w ==> m[r][c] == 0
  {
    if k > 0 {
      SumRowsBounds(m, w, k - 1, b);
      SumRowBounds(m[k - 1], w, b);
      assert (k - 1) * (w * b) + w * b == k * (w * b);
    }
  }

  /** The integer total the engine divides by the number of cells. */
  function EntropySum(g: seq<seq<int>>, h: int, w: int, n: int, nb: Neighbourhood): int
    requires ValidDims(h, w, n) && IsGrid(g, h, w, n)
  {
    SumRows(Metrics(g, h, w, n, nb), w, h)
  }

  /** The total lies in `[0, (n / 2) * w * h]`, and it is 0 exactly when
      every cell has a neighbour in its own state; in particular it is 0 on a
      uniform grid. */
  lemma {:induction false} EntropySumBounds(g: seq<seq<int>>, h: int, w: int, n: int, nb: Neighbourhood)
    requires ValidDims(h, w, n) && IsGrid(g, h, w, n)
    ensures 0 <= EntropySum(g, h, w, n, nb) <= (n / 2) * w * h
    ensures EntropySum(g, h, w, n, nb) == 0 <==>
      forall r, c :: 0 <= r < h && 0 <= c < w ==> HasEqualNeighbour(g, h, w, n, r, c, nb)
    ensures forall v :: Uniform(g, h, w, v) ==> EntropySum(g, h, w, n, nb) == 0
  {
    var m := Metrics(g, h, w, n, nb);
    forall r, c | 0 <= r < h && 0 <= c < w
      ensures 0 <= m[r][c] <= n / 2
      ensures m[r][c] == 0 <==> HasEqualNeighbour(g, h, w, n, r, c, nb)
    {
      MinDiffBounds(g, h, w, n, r, c, nb);
    }
    SumRowsBounds(m, w, h, n / 2);
    Reassociate(h, w, n / 2);
    forall v | Uniform(g, h, w, v)
      ensures EntropySum(g, h, w, n, nb) == 0
    {
      forall r, c | 0 <= r < h && 0 <= c < w
        ensures HasEqualNeighbour(g, h, w, n, r, c, nb)
      {
        UniformCellHasEqualNeighbour(g, h, w, n, nb, v, r, c);
      }
    }
  }

  lemma Reassociate(h: int, w: int, b: int)
    ensures h * (w * b) == b * w * h
  {
  }

  /** In a uniform grid every neighbour shares the cell's state. */
  lemma UniformCellHasEqualNeighbour(g: seq<seq<int>>, h: int, w: int, n: int, nb: Neighbourhood, v: int, row: int, col: int)
    requires ValidDims(h, w, n) && IsGrid(g, h, w, n) && Uniform(g, h, w, v)
    requires 0 <= row < h && 0 <= col < w
    ensures HasEqualNeighbour(g, h, w, n, row, col, nb)
  {
    var offs := Offsets(nb);
    var p := Neighbour(h, w, row, col, offs[0]);
    assert g[p.0][p.1] == v == g[row][col];
  }

  /** The mean of the metric over the grid, as an exact quotient. */
  function Mean(sum: int, cells: int): real
    requires cells > 0
  {
    sum as real / cells as real
  }

  /** A quotient by a positive divisor inherits the bounds of its dividend. */
  lemma QuotientBounds(s: real, c: real, b: real)
    requires c > 0.0 && 0.0 <= s <= b * c
    ensures 0.0 <= s / c <= b
  {
    assert b - s / c == (b * c - s) / c;
  }

  /** The reported entropy lies in `[0, n / 2]`. */
  lemma {:induction false} MeanBounds(sum: int, h: int, w: int, n: int)
    requires h > 0 && w > 0 && n > 0
    requires 0 <= sum <= (n / 2) * w * h
    ensures w * h > 0
    ensures 0.0 <= Mean(sum, w * h) <= (n / 2) as real
  {
    var cells, half := w * h, n / 2;
    assert cells > 0 by { assert w * h >= 1 * h; }
    assert half * w * h == half * cells;
    assert (half * cells) as real == (half as real) * (cells as real);
    QuotientBounds(sum as real, cells as real, half as real);
  }

  /** The mean of the metric over the grid, the engine's entropy, lies in
      `[0, n / 2]`. */
  lemma EntropyBounds(g: seq<seq<int>>, h: int, w: int, n: int, nb: Neighbourhood)
    requires ValidDims(h, w, n) && IsGrid(g, h, w, n)
    ensures w * h > 0
    ensures 0.0 <= Mean(EntropySum(g, h, w, n, nb), w * h) <= (n / 2) as real
  {
    EntropySumBounds(g, h, w, n, nb);
    MeanBounds(EntropySum(g, h, w, n, nb), h, w, n);
  }
}
