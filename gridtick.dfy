/**
 * The row lifecycle and the scroll of update_kill_bubbles: the bottom row is
 * retired once it is below the screen, a new top row is added once the top
 * row has moved far enough down, and every cell moves down by the frame's
 * delta, sixteen times faster while fast rows remain.
 */
module GridTick {
  import opened Settings
  import opened Cells

  /** The bottom row (row 0) is retired once its first cell is past the retire line. */
  predicate RetiresBottom(cfg: Config, g: Grid)
    requires Rectangular(g, cfg.boardWidth) && cfg.Valid()
  {
    |g| > 0 && g[0][0].y > cfg.RetireLine()
  }

  /** A new top row is needed when the grid is empty or its top row has reached the spawn line. */
  predicate NeedsTopRow(cfg: Config, g: Grid)
    requires Rectangular(g, cfg.boardWidth) && cfg.Valid()
  {
    |g| == 0 || g[|g| - 1][0].y >= cfg.SpawnLine()
  }

  /** The rows and fast-row count after the retire and add steps. */
  datatype RowTick = RowTick(grid: Grid, speedRows: nat)

  /**
   * Retire, then add: the result is the old rows, less the bottom one when
   * it retired, with newRow on top when one was needed; each added row uses
   * up one fast row while any remain.
   */
  function CycleRows(cfg: Config, g: Grid, newRow: seq<Cell>, speedRows: nat): (r: RowTick)
    requires Rectangular(g, cfg.boardWidth) && cfg.Valid() && |newRow| == cfg.boardWidth
    ensures Rectangular(r.grid, cfg.boardWidth)
    ensures var kept := if RetiresBottom(cfg, g) then g[1..] else g;
      && |kept| <= |r.grid| <= |kept| + 1
      && r.grid[..|kept|] == kept
      && (|r.grid| == |kept| + 1 <==> NeedsTopRow(cfg, kept))
      && (|r.grid| == |kept| + 1 ==> r.grid[|kept|] == newRow)
    ensures r.speedRows <= speedRows <= r.speedRows + 1
    ensures r.speedRows < speedRows <==> speedRows > 0 && NeedsTopRow(cfg, if RetiresBottom(cfg, g) then g[1..] else g)
  {
    var kept := if RetiresBottom(cfg, g) then g[1..] else g;
    if NeedsTopRow(cfg, kept) then
      RowTick(kept + [newRow], if speedRows > 0 then speedRows - 1 else 0)
    else
      RowTick(kept, speedRows)
  }

  /** How far every cell moves this frame: velocity * dt, times FAST_ROW_FACTOR while fast rows remain. */
  function TickDelta(velocity: int, dt: int, speedRows: nat): (r: int)
    ensures speedRows == 0 ==> r == velocity * dt
    ensures speedRows > 0 ==> r == FAST_ROW_FACTOR * (velocity * dt)
  {
    var dy := velocity * dt;
    if speedRows > 0 then dy * FAST_ROW_FACTOR else dy
  }

  /** A row with every cell moved down by dy. */
  function ShiftRow(row: seq<Cell>, dy: int): (r: seq<Cell>)
    ensures |r| == |row|
    ensures forall j :: 0 <= j < |row| ==> r[j] == row[j].(y := row[j].y + dy)
    decreases |row|
  {
    if row == [] then []
    else
      var j := |row| - 1;
      ShiftRow(row[..j], dy) + [row[j].(y := row[j].y + dy)]
  }

  /** g with every cell moved down by dy. */
  function Shifted(g: Grid, dy: int): (r: Grid)
    ensures SameShape(r, g)
    ensures forall p {:trigger At(r, p)} :: InGrid(g, p) ==> At(r, p) == At(g, p).(y := At(g, p).y + dy)
    decreases |g|
  {
    if g == [] then []
    else
      var i := |g| - 1;
      var front := Shifted(g[..i], dy);
      var r := front + [ShiftRow(g[i], dy)];
      assert forall p {:trigger At(r, p)} :: InGrid(g, p) ==> At(r, p) == At(g, p).(y := At(g, p).y + dy) by {
        forall p | InGrid(g, p)
          ensures At(r, p) == At(g, p).(y := At(g, p).y + dy)
        {
          if p.row < i {
            assert InGrid(g[..i], p) && At(r, p) == At(front, p);
          }
        }
      }
      r
  }

  /**
   * What drop_loose_bubbles (a bubble.py method) leaves: the grid with the
   * bubbles cut off from the top row emptied, and those bubbles as droppers.
   */
  datatype Loosened<D> = Loosened(grid: Grid, fallers: seq<D>)

  /** Some occupied cell of g is struck by the ship, judged before the move. */
  ghost predicate AnyHit(g: Grid, hitShip: (int, int) -> bool) {
    exists p :: InGrid(g, p) && At(g, p).Occupied() && hitShip(At(g, p).x, At(g, p).y)
  }

  /**
   * The nested loop of update_kill_bubbles: every cell's y grows by dy and
   * nothing else changes; `hit` reports whether any occupied cell touched the
   * ship at its old position.
   */
  method ShiftRows(g: Grid, dy: int, hitShip: (int, int) -> bool) returns (g': Grid, hit: bool)
    ensures SameShape(g', g)
    ensures forall p {:trigger At(g', p)} :: InGrid(g, p) ==> At(g', p) == At(g, p).(y := At(g, p).y + dy)
    ensures g' == Shifted(g, dy)
    ensures hit <==> AnyHit(g, hitShip)
  {
    g', hit := g, false;
    var i := 0;
    while i < |g'|
      invariant 0 <= i <= |g'| && SameShape(g', g)
      invariant forall p {:trigger At(g', p)} :: InGrid(g, p) ==>
        At(g', p) == if p.row < i then At(g, p).(y := At(g, p).y + dy) else At(g, p)
      invariant hit <==> exists p :: InGrid(g, p) && p.row < i && At(g, p).Occupied() && hitShip(At(g, p).x, At(g, p).y)
    {
      var j := 0;
      while j < |g[i]|
        invariant 0 <= i < |g'| && 0 <= j <= |g[i]| && SameShape(g', g)
        invariant forall p {:trigger At(g', p)} :: InGrid(g, p) ==>
          At(g', p) == if p.row < i || (p.row == i && p.col < j) then At(g, p).(y := At(g, p).y + dy) else At(g, p)
        invariant hit <==> exists p :: InGrid(g, p) && (p.row < i || (p.row == i && p.col < j))
                                       && At(g, p).Occupied() && hitShip(At(g, p).x, At(g, p).y)
      {
        var b := At(g', Pos(i, j));
        if b.color.Rgb? && hitShip(b.x, b.y) {
          hit := true;
        }
        g' := SetCell(g', Pos(i, j), b.(y := b.y + dy));
        j := j + 1;
      }
      i := i + 1;
    }
    GridExtensionality(g', Shifted(g, dy));
  }
}
