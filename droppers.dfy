/**
 * update_droppers as a specification. Each falling bubble, in list order, is
 * tried against four outcomes in turn: below the screen (reward, removed),
 * striking the ship (the ship grows, removed), landing on the grid (the grid
 * cell above the stopping row takes its colour, removed), or else it falls on
 * (y moves by the old speed, then gravity raises the speed) and stays.
 *
 * A landing whose stopping row is the top row raises an IndexError in
 * ring_leader.py. The model records it as `crashed`: that dropper and the
 * ones after it are left untouched and nothing else happens.
 *
 * The ship-hit test belongs to ship.py and is the parameter `hitShip`, asked
 * with a bubble's position; `dt` is the frame's time step.
 */
module Droppers {
  import opened Settings
  import opened Cells
  import opened Landing
  import opened Sweeps

  /** A bubble falling free of the grid: position, colour, vertical speed and its grid column. */
  datatype Dropper = Dropper(x: int, y: int, color: Color, vely: int, column: int)

  datatype DropperFate = FellOff | StruckShip | Landed | Falling

  /**
   * The state the sweep threads: grid, score, the ship's final radius, the
   * droppers kept so far, the droppers handled so far with one fate each,
   * whether the landing test crashed, and the droppers a crash left unhandled.
   */
  datatype DropState = DropState(grid: Grid, score: int, radius: int, kept: seq<Dropper>,
                                 handled: seq<Dropper>, fates: seq<DropperFate>,
                                 crashed: bool, pending: seq<Dropper>)

  /** A dropper one time step further down: position first, with the old speed; then the speed. */
  function Advance(cfg: Config, dt: int, d: Dropper): (r: Dropper)
    ensures r.y - d.y == d.vely * dt && r.vely - d.vely == cfg.gravity * dt
    ensures r.x == d.x && r.color == d.color && r.column == d.column
  {
    d.(y := d.y + d.vely * dt, vely := d.vely + cfg.gravity * dt)
  }

  /** Every dropper of ds advanced by one time step. */
  function AdvanceAll(cfg: Config, dt: int, ds: seq<Dropper>): (r: seq<Dropper>)
    ensures |r| == |ds|
    ensures forall k :: 0 <= k < |ds| ==> r[k] == Advance(cfg, dt, ds[k])
  {
    if ds == [] then [] else AdvanceAll(cfg, dt, ds[..|ds| - 1]) + [Advance(cfg, dt, ds[|ds| - 1])]
  }

  lemma AdvanceAllSnoc(cfg: Config, dt: int, ds: seq<Dropper>, d: Dropper)
    ensures AdvanceAll(cfg, dt, ds + [d]) == AdvanceAll(cfg, dt, ds) + [Advance(cfg, dt, d)]
  {
    assert (ds + [d])[..|ds|] == ds;
  }

  /**
   * Every dropper's column is one of the board's columns. Stated one
   * dropper at a time, so that it unfolds only as far as a proof asks.
   */
  predicate ColumnsBelow(ds: seq<Dropper>, width: int)
    decreases |ds|
  {
    ds == [] || (0 <= ds[|ds| - 1].column < width && ColumnsBelow(ds[..|ds| - 1], width))
  }

  /** ColumnsBelow says the same as a statement about every index. */
  lemma {:induction false} ColumnsBelowAll(ds: seq<Dropper>, width: int)
    ensures ColumnsBelow(ds, width) <==> forall k :: 0 <= k < |ds| ==> 0 <= ds[k].column < width
    decreases |ds|
  {
    if ds != [] {
      var n := |ds| - 1;
      ColumnsBelowAll(ds[..n], width);
      if ColumnsBelow(ds, width) {
        forall k | 0 <= k < |ds|
          ensures 0 <= ds[k].column < width
        {
          if k < n {
            assert ds[k] == ds[..n][k];
          }
        }
      }
    }
  }

  /** The droppers of two lists fit the board exactly when those of both lists do. */
  lemma ColumnsBelowAppend(a: seq<Dropper>, b: seq<Dropper>, width: int)
    ensures ColumnsBelow(a + b, width) <==> ColumnsBelow(a, width) && ColumnsBelow(b, width)
  {
    ColumnsBelowAll(a, width);
    ColumnsBelowAll(b, width);
    ColumnsBelowAll(a + b, width);
    if ColumnsBelow(a, width) && ColumnsBelow(b, width) {
      forall k | 0 <= k < |a + b|
        ensures 0 <= (a + b)[k].column < width
      {
        if k >= |a| {
          assert (a + b)[k] == b[k - |a|];
        }
      }
    }
    if ColumnsBelow(a + b, width) {
      forall k | 0 <= k < |a|
        ensures 0 <= a[k].column < width
      {
        assert (a + b)[k] == a[k];
      }
      forall k | 0 <= k < |b|
        ensures 0 <= b[k].column < width
      {
        assert (a + b)[|a| + k] == b[k];
      }
    }
  }

  /** A list extended by one dropper fits the board when the list and that dropper do. */
  lemma ColumnsBelowSnoc(ds: seq<Dropper>, d: Dropper, width: int)
    ensures ColumnsBelow(ds + [d], width) <==> ColumnsBelow(ds, width) && 0 <= d.column < width
  {
    assert (ds + [d])[..|ds|] == ds;
  }

  /** Each dropper of a list that fits the board is in one of its columns. */
  lemma ColumnBelowAt(ds: seq<Dropper>, width: int, k: int)
    requires ColumnsBelow(ds, width) && 0 <= k < |ds|
    ensures 0 <= ds[k].column < width
  {
    ColumnsBelowAll(ds, width);
  }

  /** A prefix of a list that fits the board fits it too. */
  lemma ColumnsBelowTake(ds: seq<Dropper>, width: int, k: int)
    requires ColumnsBelow(ds, width) && 0 <= k <= |ds|
    ensures ColumnsBelow(ds[..k], width)
  {
    ColumnsBelowAll(ds, width);
    ColumnsBelowAll(ds[..k], width);
  }

  /** The grid is rectangular at the board's width and every dropper is in one of its columns. */
  predicate OnBoard(cfg: Config, g: Grid, ds: seq<Dropper>) {
    Rectangular(g, cfg.boardWidth) && ColumnsBelow(ds, cfg.boardWidth)
  }

  /** The last dropper's column is a column of every grid shaped like the board. */
  lemma OnBoardLast(cfg: Config, g: Grid, g': Grid, ds: seq<Dropper>)
    requires OnBoard(cfg, g, ds) && ds != [] && SameShape(g', g)
    ensures OnBoard(cfg, g, ds[..|ds| - 1]) && ColumnInGrid(g', ds[|ds| - 1].column)
  {
    SameShapeRectangular(g', g, cfg.boardWidth);
  }

  /**
   * Which branch of the loop body dropper d takes, tried in the source's
   * order; None is the IndexError of a landing past the top row.
   */
  function Judge(cfg: Config, hitShip: (int, int) -> bool, g: Grid, d: Dropper): Option<DropperFate>
    requires ColumnInGrid(g, d.column)
  {
    if d.y > cfg.Height() then Some(FellOff)
    else if hitShip(d.x, d.y) then Some(StruckShip)
    else match LandingOf(g, d.column, d.y, cfg.LandingReach())
      case Missed => Some(Falling)
      case LandsAt(_) => Some(Landed)
      case PastTopRow => None
  }

  /**
   * The branches of the loop body, in the source's order: off the bottom of
   * the screen first, then the ship, then the landing test, whose IndexError
   * is the only way to get no fate.
   */
  lemma JudgeCases(cfg: Config, hitShip: (int, int) -> bool, g: Grid, d: Dropper)
    requires ColumnInGrid(g, d.column)
    ensures var r := Judge(cfg, hitShip, g, d);
      var l := LandingOf(g, d.column, d.y, cfg.LandingReach());
      && (r == Some(FellOff) <==> d.y > cfg.Height())
      && (r == Some(StruckShip) <==> d.y <= cfg.Height() && hitShip(d.x, d.y))
      && (r == Some(Landed) <==> d.y <= cfg.Height() && !hitShip(d.x, d.y) && l.LandsAt?)
      && (r == Some(Falling) <==> d.y <= cfg.Height() && !hitShip(d.x, d.y) && l.Missed?)
      && (r.None? <==> d.y <= cfg.Height() && !hitShip(d.x, d.y) && l.PastTopRow?)
  {
  }

  /** The effect of a branch: a reward, ship growth, a painted grid cell, or one step of falling. */
  function Record(cfg: Config, dt: int, st: DropState, d: Dropper, fate: DropperFate): (r: DropState)
    requires ColumnInGrid(st.grid, d.column)
    ensures SameShape(r.grid, st.grid)
  {
    st.(grid := if fate == Landed then Land(st.grid, d.column, d.y, cfg.LandingReach(), d.color) else st.grid,
        score := st.score + (if fate == FellOff then cfg.fallingBubblePoints else 0),
        radius := st.radius + (if fate == StruckShip then cfg.HitGrow() else 0),
        kept := st.kept + (if fate == Falling then [Advance(cfg, dt, d)] else []),
        handled := st.handled + [d],
        fates := st.fates + [fate])
  }

  /** One turn of the loop for dropper d; after a crash nothing more happens. */
  function DropStep(cfg: Config, dt: int, hitShip: (int, int) -> bool, st: DropState, d: Dropper): (r: DropState)
    requires ColumnInGrid(st.grid, d.column)
    ensures SameShape(r.grid, st.grid)
  {
    if st.crashed then st.(pending := st.pending + [d])
    else match Judge(cfg, hitShip, st.grid, d)
      case None => st.(crashed := true, pending := [d])
      case Some(fate) => Record(cfg, dt, st, d, fate)
  }

  /** A turn whose branch is known: the crash, or that branch's effect. */
  lemma DropStepJudged(cfg: Config, dt: int, hitShip: (int, int) -> bool, st: DropState, d: Dropper,
                       f: Option<DropperFate>)
    requires ColumnInGrid(st.grid, d.column) && !st.crashed && f == Judge(cfg, hitShip, st.grid, d)
    ensures DropStep(cfg, dt, hitShip, st, d)
         == if f.None? then st.(crashed := true, pending := [d]) else Record(cfg, dt, st, d, f.value)
  {
  }

  /**
   * The bookkeeping of one turn: the fate it records, if any, and what that
   * fate adds to the score and to the ship's radius.
   */
  lemma DropStepTally(cfg: Config, dt: int, hitShip: (int, int) -> bool, st: DropState, d: Dropper)
    requires ColumnInGrid(st.grid, d.column)
    ensures var r := DropStep(cfg, dt, hitShip, st, d);
      var f := if st.crashed then None else Judge(cfg, hitShip, st.grid, d);
      && r.fates == st.fates + (if f.Some? then [f.value] else [])
      && r.handled == st.handled + (if f.Some? then [d] else [])
      && r.kept == st.kept + (if f == Some(Falling) then [Advance(cfg, dt, d)] else [])
      && r.score == st.score + (if f == Some(FellOff) then cfg.fallingBubblePoints else 0)
      && r.radius == st.radius + (if f == Some(StruckShip) then cfg.HitGrow() else 0)
  {
  }

  /** The state after the loop has handled the droppers in order. */
  function DropSweep(cfg: Config, dt: int, hitShip: (int, int) -> bool, st: DropState, ds: seq<Dropper>): (r: DropState)
    requires OnBoard(cfg, st.grid, ds)
    ensures SameShape(r.grid, st.grid)
    decreases |ds|
  {
    if ds == [] then st
    else
      var n := |ds| - 1;
      var prev := DropSweep(cfg, dt, hitShip, st, ds[..n]);
      OnBoardLast(cfg, st.grid, prev.grid, ds);
      DropStep(cfg, dt, hitShip, prev, ds[n])
  }

  /** Handling one more dropper is one more loop turn. */
  lemma DropSweepSnoc(cfg: Config, dt: int, hitShip: (int, int) -> bool, st: DropState, ds: seq<Dropper>, k: int)
    requires OnBoard(cfg, st.grid, ds) && 0 <= k < |ds|
    ensures OnBoard(cfg, st.grid, ds[..k]) && OnBoard(cfg, st.grid, ds[..k + 1])
    ensures var prev := DropSweep(cfg, dt, hitShip, st, ds[..k]);
      ColumnInGrid(prev.grid, ds[k].column) &&
      DropSweep(cfg, dt, hitShip, st, ds[..k + 1]) == DropStep(cfg, dt, hitShip, prev, ds[k])
  {
    assert ds[..k + 1][..k] == ds[..k];
    ColumnsBelowTake(ds, cfg.boardWidth, k + 1);
    OnBoardLast(cfg, st.grid, DropSweep(cfg, dt, hitShip, st, ds[..k]).grid, ds[..k + 1]);
  }

  /** After a crash, one more dropper only joins the pending ones. */
  lemma CrashedStep(cfg: Config, dt: int, hitShip: (int, int) -> bool, st: DropState, ds: seq<Dropper>, k: int)
    requires OnBoard(cfg, st.grid, ds) && 0 <= k < |ds|
    requires OnBoard(cfg, st.grid, ds[..k]) && OnBoard(cfg, st.grid, ds[..k + 1])
    requires DropSweep(cfg, dt, hitShip, st, ds[..k]).crashed
    ensures var prev := DropSweep(cfg, dt, hitShip, st, ds[..k]);
      DropSweep(cfg, dt, hitShip, st, ds[..k + 1]) == prev.(pending := prev.pending + [ds[k]])
  {
    DropSweepSnoc(cfg, dt, hitShip, st, ds, k);
  }

  /** Once the landing test has crashed, the rest of the droppers are only queued as pending. */
  lemma {:induction false} DropSweepCrashed(cfg: Config, dt: int, hitShip: (int, int) -> bool, st: DropState, ds: seq<Dropper>, k: int)
    requires OnBoard(cfg, st.grid, ds) && 0 <= k <= |ds| && OnBoard(cfg, st.grid, ds[..k])
    requires DropSweep(cfg, dt, hitShip, st, ds[..k]).crashed
    ensures var prev := DropSweep(cfg, dt, hitShip, st, ds[..k]);
      DropSweep(cfg, dt, hitShip, st, ds) == prev.(pending := prev.pending + ds[k..])
    decreases |ds| - k
  {
    var prev := DropSweep(cfg, dt, hitShip, st, ds[..k]);
    if k == |ds| {
      assert ds[..k] == ds;
      assert ds[k..] == [];
    } else {
      ColumnsBelowTake(ds, cfg.boardWidth, k + 1);
      CrashedStep(cfg, dt, hitShip, st, ds, k);
      DropSweepCrashed(cfg, dt, hitShip, st, ds, k + 1);
      assert ds[k..] == [ds[k]] + ds[k + 1..];
      assert prev.pending + ds[k..] == (prev.pending + [ds[k]]) + ds[k + 1..];
    }
  }

  /** The state a sweep starts from: nothing kept, nothing handled, no crash. */
  predicate Fresh(st: DropState) {
    st.kept == [] && st.handled == [] && st.fates == [] && !st.crashed && st.pending == []
  }

  /**
   * From a fresh state, the droppers split into those handled, each with
   * exactly one fate, followed by those a crash left pending, the crashing
   * one first.
   */
  lemma {:induction false} DropSweepSplits(cfg: Config, dt: int, hitShip: (int, int) -> bool, st: DropState, ds: seq<Dropper>)
    requires OnBoard(cfg, st.grid, ds) && Fresh(st)
    ensures var r := DropSweep(cfg, dt, hitShip, st, ds);
      && r.handled + r.pending == ds
      && |r.fates| == |r.handled|
      && (r.crashed <==> r.pending != [])
    decreases |ds|
  {
    if ds != [] {
      var n := |ds| - 1;
      var prev := DropSweep(cfg, dt, hitShip, st, ds[..n]);
      DropSweepSplits(cfg, dt, hitShip, st, ds[..n]);
      OnBoardLast(cfg, st.grid, prev.grid, ds);
      LastSplit(ds);
    }
  }

  /** From a fresh state, the list keeps exactly the advanced handled droppers that fall on, in their order. */
  lemma {:induction false} DropSweepKeeps(cfg: Config, dt: int, hitShip: (int, int) -> bool, st: DropState, ds: seq<Dropper>)
    requires OnBoard(cfg, st.grid, ds) && Fresh(st)
    ensures var r := DropSweep(cfg, dt, hitShip, st, ds);
      |r.handled| == |r.fates| && r.kept == Select(AdvanceAll(cfg, dt, r.handled), r.fates, Falling)
    decreases |ds|
  {
    if ds != [] {
      var n := |ds| - 1;
      var prev := DropSweep(cfg, dt, hitShip, st, ds[..n]);
      DropSweepKeeps(cfg, dt, hitShip, st, ds[..n]);
      OnBoardLast(cfg, st.grid, prev.grid, ds);
      DropStepTally(cfg, dt, hitShip, prev, ds[n]);
      var f := if prev.crashed then None else Judge(cfg, hitShip, prev.grid, ds[n]);
      if f.Some? {
        AdvanceAllSnoc(cfg, dt, prev.handled, ds[n]);
        SelectSnoc(AdvanceAll(cfg, dt, prev.handled), prev.fates, Advance(cfg, dt, ds[n]), f.value, Falling);
      }
    }
  }

  /** From a fresh state, the score gains the reward once per dropper that fell off the screen. */
  lemma {:induction false} DropSweepScore(cfg: Config, dt: int, hitShip: (int, int) -> bool, st: DropState, ds: seq<Dropper>)
    requires OnBoard(cfg, st.grid, ds) && Fresh(st)
    ensures var r := DropSweep(cfg, dt, hitShip, st, ds);
      r.score == st.score + cfg.fallingBubblePoints * Count(r.fates, FellOff)
    decreases |ds|
  {
    if ds != [] {
      var n := |ds| - 1;
      var prev := DropSweep(cfg, dt, hitShip, st, ds[..n]);
      DropSweepScore(cfg, dt, hitShip, st, ds[..n]);
      OnBoardLast(cfg, st.grid, prev.grid, ds);
      DropStepTally(cfg, dt, hitShip, prev, ds[n]);
      var f := if prev.crashed then None else Judge(cfg, hitShip, prev.grid, ds[n]);
      var r := DropStep(cfg, dt, hitShip, prev, ds[n]);
      if f.Some? {
        CountSnoc(prev.fates, f.value, FellOff);
      }
      Accrue(st.score, cfg.fallingBubblePoints, prev.score, r.score,
             Count(prev.fates, FellOff), Count(r.fates, FellOff), f == Some(FellOff));
    }
  }

  /** From a fresh state, the ship's final radius grows by HIT_GROW once per dropper that struck it. */
  lemma {:induction false} DropSweepGrowth(cfg: Config, dt: int, hitShip: (int, int) -> bool, st: DropState, ds: seq<Dropper>)
    requires OnBoard(cfg, st.grid, ds) && Fresh(st)
    ensures var r := DropSweep(cfg, dt, hitShip, st, ds);
      r.radius == st.radius + cfg.HitGrow() * Count(r.fates, StruckShip)
    decreases |ds|
  {
    if ds != [] {
      var n := |ds| - 1;
      var prev := DropSweep(cfg, dt, hitShip, st, ds[..n]);
      DropSweepGrowth(cfg, dt, hitShip, st, ds[..n]);
      OnBoardLast(cfg, st.grid, prev.grid, ds);
      DropStepTally(cfg, dt, hitShip, prev, ds[n]);
      var f := if prev.crashed then None else Judge(cfg, hitShip, prev.grid, ds[n]);
      var r := DropStep(cfg, dt, hitShip, prev, ds[n]);
      if f.Some? {
        CountSnoc(prev.fates, f.value, StruckShip);
      }
      Accrue(st.radius, cfg.HitGrow(), prev.radius, r.radius,
             Count(prev.fates, StruckShip), Count(r.fates, StruckShip), f == Some(StruckShip));
    }
  }

  /**
   * A sweep keeps each dropper's column: the droppers left in the list, those
   * falling on and those a crash left pending, fit the board when the
   * original ones did.
   */
  lemma {:induction false} DropSweepColumns(cfg: Config, dt: int, hitShip: (int, int) -> bool, st: DropState,
                                            ds: seq<Dropper>)
    requires OnBoard(cfg, st.grid, ds) && Fresh(st)
    ensures var r := DropSweep(cfg, dt, hitShip, st, ds);
      ColumnsBelow(r.kept, cfg.boardWidth) && ColumnsBelow(r.pending, cfg.boardWidth)
    decreases |ds|
  {
    if ds != [] {
      var n := |ds| - 1;
      var prev := DropSweep(cfg, dt, hitShip, st, ds[..n]);
      DropSweepColumns(cfg, dt, hitShip, st, ds[..n]);
      OnBoardLast(cfg, st.grid, prev.grid, ds);
      var r := DropStep(cfg, dt, hitShip, prev, ds[n]);
      ColumnsBelowSnoc(prev.kept, Advance(cfg, dt, ds[n]), cfg.boardWidth);
      ColumnsBelowSnoc(prev.pending, ds[n], cfg.boardWidth);
      ColumnsBelowSnoc([], ds[n], cfg.boardWidth);
      if prev.crashed {
        assert r.kept == prev.kept && r.pending == prev.pending + [ds[n]];
      } else if Judge(cfg, hitShip, prev.grid, ds[n]).None? {
        assert r.kept == prev.kept && r.pending == [ds[n]];
      } else {
        var fate := Judge(cfg, hitShip, prev.grid, ds[n]).value;
        assert r.kept == prev.kept + (if fate == Falling then [Advance(cfg, dt, ds[n])] else []);
        assert r.pending == prev.pending;
        assert prev.kept + [] == prev.kept;
      }
    }
  }

  /**
   * From a fresh state on a rectangular grid, a sweep leaves the grid
   * rectangular, never lowers the score, and leaves only droppers that fit
   * the board in the list.
   */
  lemma DropSweepFits(cfg: Config, dt: int, hitShip: (int, int) -> bool, st: DropState, ds: seq<Dropper>)
    requires cfg.Valid() && OnBoard(cfg, st.grid, ds) && Fresh(st)
    ensures var r := DropSweep(cfg, dt, hitShip, st, ds);
      && Rectangular(r.grid, cfg.boardWidth) && r.score >= st.score
      && ColumnsBelow(r.kept + r.pending, cfg.boardWidth)
  {
    var r := DropSweep(cfg, dt, hitShip, st, ds);
    SameShapeRectangular(r.grid, st.grid, cfg.boardWidth);
    DropSweepScore(cfg, dt, hitShip, st, ds);
    DropSweepColumns(cfg, dt, hitShip, st, ds);
    ColumnsBelowAppend(r.kept, r.pending, cfg.boardWidth);
  }

  /**
   * A sweep stopped after k droppers, either by a crash or at the end of the
   * list, is the whole sweep: the list holds the kept droppers followed by
   * the pending ones, and these fit the board.
   */
  lemma DropSweepEnds(cfg: Config, dt: int, hitShip: (int, int) -> bool, st: DropState, ds: seq<Dropper>, k: int)
    requires cfg.Valid() && OnBoard(cfg, st.grid, ds) && Fresh(st)
    requires 0 <= k <= |ds| && OnBoard(cfg, st.grid, ds[..k])
    requires DropSweep(cfg, dt, hitShip, st, ds[..k]).crashed || k == |ds|
    ensures var prev, r := DropSweep(cfg, dt, hitShip, st, ds[..k]), DropSweep(cfg, dt, hitShip, st, ds);
      && r.grid == prev.grid && r.score == prev.score && r.radius == prev.radius && r.crashed == prev.crashed
      && r.kept + r.pending == prev.kept + prev.pending + ds[k..]
      && Rectangular(r.grid, cfg.boardWidth) && r.score >= st.score
      && ColumnsBelow(r.kept + r.pending, cfg.boardWidth)
  {
    var prev := DropSweep(cfg, dt, hitShip, st, ds[..k]);
    if prev.crashed {
      DropSweepCrashed(cfg, dt, hitShip, st, ds, k);
      assert prev.kept + (prev.pending + ds[k..]) == prev.kept + prev.pending + ds[k..];
    } else {
      assert ds[..k] == ds && ds[k..] == [];
    }
    DropSweepFits(cfg, dt, hitShip, st, ds);
  }

  /** Distributing a product over a successor. */
  lemma MulSucc(k: int, n: nat)
    ensures k * (n + 1) == k * n + k
  {
  }

  /** A total of n units, plus one more unit exactly when the count grows to n + 1, is a total of m units. */
  lemma Accrue(base: int, unit: int, before: int, after: int, n: nat, m: nat, more: bool)
    requires before == base + unit * n
    requires m == n + (if more then 1 else 0)
    requires after == before + if more then unit else 0
    ensures after == base + unit * m
  {
    MulSucc(unit, n);
  }

  /**
   * The sweep writes only colours into the grid: every cell keeps its
   * position and its bullet flag, and a cell whose colour changed took the
   * colour of one of the droppers.
   */
  lemma {:induction false} DropSweepOnlyPaints(cfg: Config, dt: int, hitShip: (int, int) -> bool, st: DropState,
                                               ds: seq<Dropper>, p: Pos)
    requires OnBoard(cfg, st.grid, ds) && InGrid(st.grid, p)
    ensures var c := At(DropSweep(cfg, dt, hitShip, st, ds).grid, p);
      && c.x == At(st.grid, p).x && c.y == At(st.grid, p).y && c.bulletFlag == At(st.grid, p).bulletFlag
      && (c.color == At(st.grid, p).color || exists k :: 0 <= k < |ds| && c.color == ds[k].color)
    decreases |ds|
  {
    if ds != [] {
      var n := |ds| - 1;
      var prev := DropSweep(cfg, dt, hitShip, st, ds[..n]);
      DropSweepOnlyPaints(cfg, dt, hitShip, st, ds[..n], p);
      OnBoardLast(cfg, st.grid, prev.grid, ds);
      var r := DropStep(cfg, dt, hitShip, prev, ds[n]);
      var c0, c := At(prev.grid, p), At(r.grid, p);
      if c0.color != At(st.grid, p).color {
        var k :| 0 <= k < n && c0.color == ds[..n][k].color;
        assert ds[k] == ds[..n][k];
      }
      if !prev.crashed && Judge(cfg, hitShip, prev.grid, ds[n]) == Some(Landed) {
        assert r.grid == Land(prev.grid, ds[n].column, ds[n].y, cfg.LandingReach(), ds[n].color);
        assert c == c0 || c == c0.(color := ds[n].color);
      } else {
        assert r.grid == prev.grid;
      }
    }
  }
}
