/**
 * The paint bucket of src/widgets/Canvas.js (`floodFill`, lines 153-185): a
 * breadth-first search over 4-connected neighbours on a working copy of the grid.
 */
module FloodFill {
  import opened Grids

  /** The two cells share an edge. */
  predicate Adjacent(a: Cell, b: Cell)
  {
    (a.0 == b.0 && (a.1 == b.1 + 1 || a.1 + 1 == b.1)) ||
    (a.1 == b.1 && (a.0 == b.0 + 1 || a.0 + 1 == b.0))
  }

  /** The four cells queued after a write (lines 177-180), in the order they are pushed. */
  function Neighbours(p: Cell): (r: seq<Cell>)
    ensures |r| == 4 && forall k :: 0 <= k < 4 ==> Adjacent(p, r[k])
  {
    [(p.0 + 1, p.1), (p.0 - 1, p.1), (p.0, p.1 + 1), (p.0, p.1 - 1)]
  }

  /** A walk through edge-sharing cells of `g` that all have colour `target`. */
  ghost predicate IsPath(g: Grid, target: Color, p: seq<Cell>)
  {
    |p| > 0 &&
    (forall k :: 0 <= k < |p| ==> InGrid(g, p[k]) && At(g, p[k]) == target) &&
    (forall k :: 0 <= k < |p| - 1 ==> Adjacent(p[k], p[k + 1]))
  }

  /** `to` lies in the 4-connected region of `target`-coloured cells that contains `from`. */
  ghost predicate Connected(g: Grid, target: Color, from: Cell, to: Cell)
  {
    exists p :: IsPath(g, target, p) && p[0] == from && p[|p| - 1] == to
  }

  /**
   * `ng` is `g` with exactly the region of the seed's colour around the seed repainted
   * with `replacement`.
   */
  ghost predicate FillResult(g: Grid, height: nat, width: nat, seed: Cell, replacement: Color, ng: Grid)
    requires WellFormed(g, height, width) && InBounds(seed, height, width)
  {
    WellFormed(ng, height, width) &&
    forall r, c :: 0 <= r < height && 0 <= c < width ==>
      ng[r][c] == if Connected(g, At(g, seed), seed, (r, c)) then replacement else g[r][c]
  }

  /** The three early returns of `floodFill` (lines 154-156); `None` stands for `null`. */
  predicate IsNoOp(g: Grid, height: nat, width: nat, seed: Cell, target: Option<Color>, replacement: Color)
    requires WellFormed(g, height, width)
  {
    target == Some(replacement) ||
    !InBounds(seed, height, width) ||
    Some(g[seed.0][seed.1]) != target
  }

  /**
   * `floodFill(row, col, targetColor, replacementColor)` on a grid value: `None` when one
   * of its guards returns early, otherwise the working copy after the queue loop, in
   * which exactly the seed's 4-connected region of the target colour is repainted.
   */
  method Fill(g: Grid, height: nat, width: nat, row: int, col: int, target: Option<Color>, replacement: Color)
    returns (result: Option<Grid>)
    requires WellFormed(g, height, width)
    ensures result.None? <==> IsNoOp(g, height, width, (row, col), target, replacement)
    ensures result.Some? ==> FillResult(g, height, width, (row, col), replacement, result.value)
  {
    if target == Some(replacement) {
      return None;
    }
    if row < 0 || row >= height || col < 0 || col >= width {
      return None;
    }
    if Some(g[row][col]) != target {
      return None;
    }
    var ng := FillRegion(g, height, width, target.value, replacement, (row, col));
    return Some(ng);
  }

  /**
   * The queue loop of `floodFill` (lines 159-181): breadth-first from the seed, on a
   * working copy of the grid, repainting each queued cell that still has the target
   * colour and queueing its four neighbours.
   */
  method FillRegion(g: Grid, height: nat, width: nat, t: Color, replacement: Color, seed: Cell)
    returns (ng: Grid)
    requires WellFormed(g, height, width) && InBounds(seed, height, width)
    requires g[seed.0][seed.1] == t && t != replacement
    ensures FillResult(g, height, width, seed, replacement, ng)
  {
    ng := g;
    var queue := [seed];
    StartInvariant(g, height, width, t, replacement, seed);
    while |queue| > 0
      invariant WellFormed(ng, height, width)
      invariant Progress(g, ng, height, width, t, replacement, seed, queue)
      decreases TargetCells(ng, height, width, t), |queue|
    {
      var current := queue[0];
      var r, c := current.0, current.1;
      if r < 0 || r >= height || c < 0 || c >= width || ng[r][c] != t {
        SkipKeepsInvariant(g, ng, height, width, t, replacement, seed, queue);
        queue := queue[1..];
        continue;
      }
      WriteKeepsInvariant(g, ng, height, width, t, replacement, seed, queue);
      TargetCellsShrink(ng, height, width, t, current, replacement);
      ng := Set(ng, current, replacement);
      queue := queue[1..] + Neighbours(current);
    }
    DoneIsFillResult(g, ng, height, width, t, replacement, seed);
  }

  /** The cell is on the grid and the working copy no longer has its original colour. */
  predicate Repainted(g: Grid, ng: Grid, height: nat, width: nat, cell: Cell)
    requires WellFormed(g, height, width) && WellFormed(ng, height, width)
  {
    InBounds(cell, height, width) && ng[cell.0][cell.1] != g[cell.0][cell.1]
  }

  /** Neighbour `n` of a repainted cell is off the grid, not of the target colour, repainted, or queued. */
  predicate Settled(g: Grid, ng: Grid, height: nat, width: nat, t: Color, queue: seq<Cell>, n: Cell)
    requires WellFormed(g, height, width) && WellFormed(ng, height, width)
  {
    !InBounds(n, height, width) || g[n.0][n.1] != t || Repainted(g, ng, height, width, n) || n in queue
  }

  /** All four neighbours of `p` are settled. */
  predicate Closed(g: Grid, ng: Grid, height: nat, width: nat, t: Color, queue: seq<Cell>, p: Cell)
    requires WellFormed(g, height, width) && WellFormed(ng, height, width)
  {
    Settled(g, ng, height, width, t, queue, (p.0 + 1, p.1)) &&
    Settled(g, ng, height, width, t, queue, (p.0 - 1, p.1)) &&
    Settled(g, ng, height, width, t, queue, (p.0, p.1 + 1)) &&
    Settled(g, ng, height, width, t, queue, (p.0, p.1 - 1))
  }

  /**
   * The loop invariant of the queue loop: only region cells have been repainted, and with
   * the replacement; every queued target cell is in the region; every repainted cell has
   * its neighbours settled; the seed is repainted or still queued.
   */
  ghost predicate Progress(g: Grid, ng: Grid, height: nat, width: nat, t: Color, replacement: Color, seed: Cell, queue: seq<Cell>)
    requires WellFormed(g, height, width) && WellFormed(ng, height, width)
  {
    t != replacement &&
    InBounds(seed, height, width) && g[seed.0][seed.1] == t &&
    (forall cell :: Repainted(g, ng, height, width, cell) ==>
      g[cell.0][cell.1] == t && ng[cell.0][cell.1] == replacement && Connected(g, t, seed, cell)) &&
    (forall k :: 0 <= k < |queue| && InBounds(queue[k], height, width) && g[queue[k].0][queue[k].1] == t ==>
      Connected(g, t, seed, queue[k])) &&
    (forall cell :: Repainted(g, ng, height, width, cell) ==> Closed(g, ng, height, width, t, queue, cell)) &&
    (Repainted(g, ng, height, width, seed) || seed in queue)
  }

  lemma StartInvariant(g: Grid, height: nat, width: nat, t: Color, replacement: Color, seed: Cell)
    requires WellFormed(g, height, width) && InBounds(seed, height, width)
    requires g[seed.0][seed.1] == t && t != replacement
    ensures Progress(g, g, height, width, t, replacement, seed, [seed])
  {
    assert IsPath(g, t, [seed]);
  }

  /** Dropping a queued cell that is off the grid or not of the target colour keeps the invariant. */
  lemma SkipKeepsInvariant(g: Grid, ng: Grid, height: nat, width: nat, t: Color, replacement: Color, seed: Cell, queue: seq<Cell>)
    requires WellFormed(g, height, width) && WellFormed(ng, height, width)
    requires Progress(g, ng, height, width, t, replacement, seed, queue) && |queue| > 0
    requires !InBounds(queue[0], height, width) || ng[queue[0].0][queue[0].1] != t
    ensures Progress(g, ng, height, width, t, replacement, seed, queue[1..])
  {
    var q := queue[0];
    forall cell | Repainted(g, ng, height, width, cell)
      ensures Closed(g, ng, height, width, t, queue[1..], cell)
    {
      assert Closed(g, ng, height, width, t, queue, cell);
      forall n | n in queue
        ensures Settled(g, ng, height, width, t, queue[1..], n)
      {
        if n != q {
          assert n in queue[1..];
        }
      }
    }
    forall k | 0 <= k < |queue[1..]| && InBounds(queue[1..][k], height, width) && g[queue[1..][k].0][queue[1..][k].1] == t
      ensures Connected(g, t, seed, queue[1..][k])
    {
      assert queue[1..][k] == queue[k + 1];
    }
    if !Repainted(g, ng, height, width, seed) {
      assert seed in queue;
      if seed != q {
        assert seed in queue[1..];
      }
    }
  }

  /** Repainting a queued target cell and queueing its four neighbours keeps the invariant. */
  lemma WriteKeepsInvariant(g: Grid, ng: Grid, height: nat, width: nat, t: Color, replacement: Color, seed: Cell, queue: seq<Cell>)
    requires WellFormed(g, height, width) && WellFormed(ng, height, width)
    requires Progress(g, ng, height, width, t, replacement, seed, queue) && |queue| > 0
    requires InBounds(queue[0], height, width) && ng[queue[0].0][queue[0].1] == t
    ensures var q := queue[0];
      Progress(g, Set(ng, q, replacement), height, width, t, replacement, seed,
        queue[1..] + Neighbours(q))
  {
    var q := queue[0];
    var ng' := Set(ng, q, replacement);
    var queue' := queue[1..] + Neighbours(q);
    WriteRepaints(g, ng, height, width, t, replacement, seed, queue);
    assert !Repainted(g, ng, height, width, q);
    WriteQueuesRegion(g, height, width, t, seed, queue);
    WriteKeepsClosed(g, ng, height, width, t, replacement, queue);
    assert Repainted(g, ng', height, width, q);
    if !Repainted(g, ng, height, width, seed) && seed != q {
      assert seed in queue[1..];
      assert seed in queue';
    }
  }

  /** Which cells are repainted after the write at `q`: the earlier ones and `q`. */
  lemma WriteRepaints(g: Grid, ng: Grid, height: nat, width: nat, t: Color, replacement: Color, seed: Cell, queue: seq<Cell>)
    requires WellFormed(g, height, width) && WellFormed(ng, height, width)
    requires Progress(g, ng, height, width, t, replacement, seed, queue) && |queue| > 0
    requires InBounds(queue[0], height, width) && ng[queue[0].0][queue[0].1] == t
    ensures var ng' := Set(ng, queue[0], replacement);
      forall cell :: Repainted(g, ng', height, width, cell) <==>
        Repainted(g, ng, height, width, cell) || cell == queue[0]
    ensures var ng' := Set(ng, queue[0], replacement);
      forall cell :: Repainted(g, ng', height, width, cell) ==>
        g[cell.0][cell.1] == t && ng'[cell.0][cell.1] == replacement && Connected(g, t, seed, cell)
  {
    var q := queue[0];
    assert !Repainted(g, ng, height, width, q);
    assert Connected(g, t, seed, q);
  }

  /** The queued neighbours of a region cell that have the target colour are in the region. */
  lemma WriteQueuesRegion(g: Grid, height: nat, width: nat, t: Color, seed: Cell, queue: seq<Cell>)
    requires WellFormed(g, height, width) && |queue| > 0
    requires forall k :: 0 <= k < |queue| && InBounds(queue[k], height, width) && g[queue[k].0][queue[k].1] == t ==>
      Connected(g, t, seed, queue[k])
    requires InBounds(queue[0], height, width) && g[queue[0].0][queue[0].1] == t
    ensures var q := queue[0];
      var queue' := queue[1..] + Neighbours(q);
      forall k :: 0 <= k < |queue'| && InBounds(queue'[k], height, width) && g[queue'[k].0][queue'[k].1] == t ==>
        Connected(g, t, seed, queue'[k])
  {
    var q := queue[0];
    var queue' := queue[1..] + Neighbours(q);
    assert Connected(g, t, seed, q);
    forall k | 0 <= k < |queue'| && InBounds(queue'[k], height, width) && g[queue'[k].0][queue'[k].1] == t
      ensures Connected(g, t, seed, queue'[k])
    {
      if k < |queue| - 1 {
        assert queue'[k] == queue[k + 1];
      } else {
        assert queue'[k] == Neighbours(q)[k - (|queue| - 1)];
        StepConnected(g, t, seed, q, queue'[k]);
      }
    }
  }

  /** After the write at `q` and the queueing of its neighbours, every repainted cell is still closed. */
  lemma WriteKeepsClosed(g: Grid, ng: Grid, height: nat, width: nat, t: Color, replacement: Color, queue: seq<Cell>)
    requires WellFormed(g, height, width) && WellFormed(ng, height, width) && |queue| > 0
    requires forall cell :: Repainted(g, ng, height, width, cell) ==> Closed(g, ng, height, width, t, queue, cell)
    requires InBounds(queue[0], height, width) && ng[queue[0].0][queue[0].1] == g[queue[0].0][queue[0].1]
    requires replacement != g[queue[0].0][queue[0].1]
    ensures var q := queue[0];
      var ng' := Set(ng, q, replacement);
      var queue' := queue[1..] + Neighbours(q);
      forall cell :: Repainted(g, ng', height, width, cell) ==> Closed(g, ng', height, width, t, queue', cell)
  {
    var q := queue[0];
    var ng' := Set(ng, q, replacement);
    var queue' := queue[1..] + Neighbours(q);
    forall cell | Repainted(g, ng', height, width, cell)
      ensures Closed(g, ng', height, width, t, queue', cell)
    {
      if cell == q {
        QueuedIsClosed(g, ng', height, width, t, queue[1..], q);
      } else {
        assert ng'[cell.0][cell.1] == ng[cell.0][cell.1];
        OtherStaysClosed(g, ng, height, width, t, replacement, queue, cell);
      }
    }
  }

  /** A closed cell other than the front of the queue stays closed after the write there. */
  lemma OtherStaysClosed(g: Grid, ng: Grid, height: nat, width: nat, t: Color, replacement: Color, queue: seq<Cell>, cell: Cell)
    requires WellFormed(g, height, width) && WellFormed(ng, height, width) && |queue| > 0
    requires InBounds(queue[0], height, width) && ng[queue[0].0][queue[0].1] == g[queue[0].0][queue[0].1]
    requires replacement != g[queue[0].0][queue[0].1]
    requires Closed(g, ng, height, width, t, queue, cell)
    ensures Closed(g, Set(ng, queue[0], replacement), height, width, t, queue[1..] + Neighbours(queue[0]), cell)
  {
    SettledAfterWrite(g, ng, height, width, t, replacement, queue, (cell.0 + 1, cell.1));
    SettledAfterWrite(g, ng, height, width, t, replacement, queue, (cell.0 - 1, cell.1));
    SettledAfterWrite(g, ng, height, width, t, replacement, queue, (cell.0, cell.1 + 1));
    SettledAfterWrite(g, ng, height, width, t, replacement, queue, (cell.0, cell.1 - 1));
  }

  /** A cell whose four neighbours were just queued is closed. */
  lemma QueuedIsClosed(g: Grid, ng: Grid, height: nat, width: nat, t: Color, rest: seq<Cell>, p: Cell)
    requires WellFormed(g, height, width) && WellFormed(ng, height, width)
    ensures Closed(g, ng, height, width, t, rest + Neighbours(p), p)
  {
    var tail := Neighbours(p);
    assert (rest + tail)[|rest|] == (p.0 + 1, p.1);
    assert (rest + tail)[|rest| + 1] == (p.0 - 1, p.1);
    assert (rest + tail)[|rest| + 2] == (p.0, p.1 + 1);
    assert (rest + tail)[|rest| + 3] == (p.0, p.1 - 1);
  }

  /** A settled cell stays settled when the front of the queue is repainted and its neighbours queued. */
  lemma SettledAfterWrite(g: Grid, ng: Grid, height: nat, width: nat, t: Color, replacement: Color, queue: seq<Cell>, n: Cell)
    requires WellFormed(g, height, width) && WellFormed(ng, height, width) && |queue| > 0
    requires InBounds(queue[0], height, width) && ng[queue[0].0][queue[0].1] == g[queue[0].0][queue[0].1]
    requires replacement != g[queue[0].0][queue[0].1]
    requires Settled(g, ng, height, width, t, queue, n)
    ensures var q := queue[0];
      Settled(g, Set(ng, q, replacement), height, width, t,
        queue[1..] + Neighbours(q), n)
  {
    var q := queue[0];
    var ng' := Set(ng, q, replacement);
    if InBounds(n, height, width) {
      if n == q {
        assert ng'[n.0][n.1] == replacement;
      } else {
        assert ng'[n.0][n.1] == ng[n.0][n.1];
        if n in queue {
          assert n in queue[1..];
        }
      }
    }
  }

  /** With the queue empty, the invariant says the working copy is the fill result. */
  lemma DoneIsFillResult(g: Grid, ng: Grid, height: nat, width: nat, t: Color, replacement: Color, seed: Cell)
    requires WellFormed(g, height, width) && WellFormed(ng, height, width)
    requires Progress(g, ng, height, width, t, replacement, seed, [])
    ensures FillResult(g, height, width, seed, replacement, ng)
  {
    forall r, c | 0 <= r < height && 0 <= c < width
      ensures ng[r][c] == if Connected(g, t, seed, (r, c)) then replacement else g[r][c]
    {
      if Connected(g, t, seed, (r, c)) {
        var p :| IsPath(g, t, p) && p[0] == seed && p[|p| - 1] == (r, c);
        RegionIsFilled(g, ng, height, width, t, p);
      } else {
        assert !Repainted(g, ng, height, width, (r, c));
      }
    }
  }

  /** The in-bounds cells of colour `t`; each write of the loop removes one of them. */
  ghost function TargetCells(g: Grid, height: nat, width: nat, t: Color): set<Cell>
    requires WellFormed(g, height, width)
  {
    set r, c | 0 <= r < height && 0 <= c < width && g[r][c] == t :: (r, c)
  }

  lemma TargetCellsShrink(g: Grid, height: nat, width: nat, t: Color, cell: Cell, replacement: Color)
    requires WellFormed(g, height, width) && InBounds(cell, height, width)
    requires g[cell.0][cell.1] == t && replacement != t
    ensures TargetCells(Set(g, cell, replacement), height, width, t) < TargetCells(g, height, width, t)
  {
    var after := TargetCells(Set(g, cell, replacement), height, width, t);
    var before := TargetCells(g, height, width, t);
    assert cell in before && cell !in after;
    forall x | x in after ensures x in before {
    }
  }

  /** A target-coloured in-grid neighbour of a connected cell is connected. */
  lemma StepConnected(g: Grid, t: Color, seed: Cell, cell: Cell, n: Cell)
    requires Connected(g, t, seed, cell) && Adjacent(cell, n)
    ensures InGrid(g, n) && At(g, n) == t ==> Connected(g, t, seed, n)
  {
    if InGrid(g, n) && At(g, n) == t {
      var p :| IsPath(g, t, p) && p[0] == seed && p[|p| - 1] == cell;
      var q := p + [n];
      assert IsPath(g, t, q) && q[0] == seed && q[|q| - 1] == n;
    }
  }

  /**
   * When no neighbour of a repainted cell is still waiting, every cell on a target path
   * starting at a repainted cell is repainted as well.
   */
  lemma {:induction false} RegionIsFilled(g: Grid, ng: Grid, height: nat, width: nat, t: Color, p: seq<Cell>)
    requires WellFormed(g, height, width) && WellFormed(ng, height, width)
    requires IsPath(g, t, p) && Repainted(g, ng, height, width, p[0])
    requires forall cell :: Repainted(g, ng, height, width, cell) ==> Closed(g, ng, height, width, t, [], cell)
    ensures Repainted(g, ng, height, width, p[|p| - 1])
    decreases |p|
  {
    if |p| > 1 {
      var init := p[..|p| - 1];
      assert IsPath(g, t, init);
      RegionIsFilled(g, ng, height, width, t, init);
      var a, b := p[|p| - 2], p[|p| - 1];
      assert Closed(g, ng, height, width, t, [], a);
      assert Adjacent(a, b) && InGrid(g, b) && At(g, b) == t;
      if b == (a.0 + 1, a.1) {
        assert Settled(g, ng, height, width, t, [], (a.0 + 1, a.1));
      } else if b == (a.0 - 1, a.1) {
        assert Settled(g, ng, height, width, t, [], (a.0 - 1, a.1));
      } else if b == (a.0, a.1 + 1) {
        assert Settled(g, ng, height, width, t, [], (a.0, a.1 + 1));
      } else {
        assert Settled(g, ng, height, width, t, [], (a.0, a.1 - 1));
      }
    }
  }
}
