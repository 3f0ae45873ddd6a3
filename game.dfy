/**
 * The global state of ring_leader.py and the procedures that update it in
 * place, one method per procedure. Each method is proved against the
 * specification function of its module: the new state is exactly what the
 * function computes from the old one, and the class invariant Valid() is kept.
 *
 * The collaborators from bubble.py and ship.py (bullet motion, the grid
 * collision, the ship-hit test, the match finder, the new top row, loose
 * bubble detection, the hull reset) are parameters.
 */
module Game {
  import opened Settings
  import opened Cells
  import opened Flood
  import opened Scoring
  import opened Matches
  import opened Landing
  import opened Sweeps
  import opened Bullets
  import opened Droppers
  import opened GridTick

  /** Dropping loose bubbles keeps the grid rectangular and gives droppers in its columns. */
  ghost predicate LoosenFits(dropLoose: Grid -> Loosened<Dropper>, width: nat) {
    forall g :: Rectangular(g, width) ==>
      && Rectangular(dropLoose(g).grid, width)
      && ColumnsBelow(dropLoose(g).fallers, width)
  }

  class Game {
    const cfg: Config
    var grid: Grid
    var velocity: int
    var bullets: seq<Bullet>
    var droppers: seq<Dropper>
    var score: int
    var comboBullets: nat
    var comboBubbles: nat
    /** 1 normal play, 0 game over, 3 paused, 5 instruction screen. */
    var gameState: int
    var level: int
    var nextLevelPoints: int
    var speedRows: nat
    var shipFinalRadius: int

    /**
     * The grid is rectangular, every dropper's column is a column of it, the
     * score is never negative, and the level threshold is the one of the
     * current level.
     */
    ghost predicate Valid()
      reads this
    {
      && cfg.Valid()
      && Rectangular(grid, cfg.boardWidth)
      && ColumnsBelow(droppers, cfg.boardWidth)
      && score >= 0
      && level >= 1
      && nextLevelPoints == Threshold(level)
    }

    /** initalize_game: a fresh grid, no bullets or droppers, level 1 with 500 points to reach. */
    constructor (cfg: Config, grid0: Grid, velocity0: int, hullRadius: int)
      requires cfg.Valid() && Rectangular(grid0, cfg.boardWidth)
      ensures Valid()
      ensures this.cfg == cfg
      ensures grid == grid0 && velocity == velocity0 && bullets == [] && droppers == []
      ensures score == 0 && comboBullets == 0 && comboBubbles == 0 && gameState == 1
      ensures level == 1 && nextLevelPoints == FIRST_LEVEL_POINTS && speedRows == MATCH_LENGTH
      ensures shipFinalRadius == hullRadius
    {
      this.cfg := cfg;
      grid := grid0;
      velocity := velocity0;
      bullets := [];
      droppers := [];
      score := 0;
      comboBullets, comboBubbles := 0, 0;
      gameState := 1;
      level := 1;
      nextLevelPoints := 500;
      speedRows := MATCH_LENGTH;
      shipFinalRadius := hullRadius;
    }

    /**
     * rec_erase: the seed's same-colour region is emptied, and the combo
     * counters grow by the bullet-made and the grid-made cells it held.
     */
    method RecErase(seed: Pos)
      requires Valid() && InGrid(grid, seed)
      modifies this`grid, this`comboBullets, this`comboBubbles
      ensures Valid()
      ensures grid == EraseResult(old(grid), seed)
      ensures comboBullets == old(comboBullets) + |BulletCells(old(grid), Erased(old(grid), seed))|
      ensures comboBubbles == old(comboBubbles) + |GridCells(old(grid), Erased(old(grid), seed))|
    {
      var g', bullets', bubbles' := Erase(grid, seed);
      SameShapeRectangular(g', grid, cfg.boardWidth);
      grid := g';
      comboBullets := comboBullets + bullets';
      comboBubbles := comboBubbles + bubbles';
    }

    /**
     * One turn of delete_bubble_matches' loop: reset the combo counters, erase
     * from the seed, and pay 2 ** bubbles when the erase cleared both kinds of
     * cell, without passing the level threshold.
     */
    method EraseMatch(seed: Pos)
      requires Valid() && InGrid(grid, seed)
      modifies this`grid, this`score, this`comboBullets, this`comboBubbles
      ensures Valid()
      ensures PassState(grid, score, comboBullets, comboBubbles)
           == SeedStep(PassState(old(grid), old(score), old(comboBullets), old(comboBubbles)), nextLevelPoints, seed)
    {
      ghost var prev := PassState(grid, score, comboBullets, comboBubbles);
      comboBullets, comboBubbles := 0, 0;
      RecErase(seed);
      if comboBullets > 0 && comboBubbles > 0 {
        var bonus := Pow2(comboBubbles);
        var scoreDiff := nextLevelPoints - score;
        if bonus > scoreDiff {
          bonus := scoreDiff;
        }
        score := score + bonus;
      }
      assert score == ComboScore(prev.score, nextLevelPoints, comboBullets, comboBubbles);
      SeedStepIs(prev, nextLevelPoints, seed, grid, score, comboBullets, comboBubbles);
    }

    /**
     * delete_bubble_matches: on a non-empty grid, each seed the match finder
     * reports is erased in turn and its combo bonus paid.
     */
    method DeleteBubbleMatches(getMatches: Grid -> seq<Pos>)
      requires Valid() && SoundMatches(getMatches)
      modifies this`grid, this`score, this`comboBullets, this`comboBubbles
      ensures Valid()
      ensures PassState(grid, score, comboBullets, comboBubbles)
           == DeleteMatches(PassState(old(grid), old(score), old(comboBullets), old(comboBubbles)),
                            nextLevelPoints, getMatches(old(grid)))
      ensures |old(grid)| == 0 ==>
        grid == old(grid) && score == old(score) && comboBullets == old(comboBullets) && comboBubbles == old(comboBubbles)
    {
      if |grid| == 0 {
        return;
      }
      var matches := getMatches(grid);
      ghost var st0 := PassState(grid, score, comboBullets, comboBubbles);
      var k := 0;
      while k < |matches|
        invariant 0 <= k <= |matches| && SeedsInGrid(st0.grid, matches) && Valid()
        invariant MatchPass(st0, nextLevelPoints, matches[..k]) == PassState(grid, score, comboBullets, comboBubbles)
      {
        MatchPassSnoc(st0, nextLevelPoints, matches, k);
        EraseMatch(matches[k]);
        k := k + 1;
      }
      assert matches[..k] == matches;
    }

    /**
     * falling_bubble_lands: scan the faller's column from the bottom row up;
     * at the first row that stops it, paint the cell one row further up.
     * `crashed` is the IndexError raised when that row is the top row.
     */
    method FallingBubbleLands(fb: Dropper) returns (landed: bool, crashed: bool)
      requires Valid() && 0 <= fb.column < cfg.boardWidth
      modifies this`grid
      ensures Valid()
      ensures var l := LandingOf(old(grid), fb.column, fb.y, cfg.LandingReach());
        (landed <==> l.LandsAt?) && (crashed <==> l.PastTopRow?)
      ensures grid == Land(old(grid), fb.column, fb.y, cfg.LandingReach(), fb.color)
    {
      var j, d := fb.column, cfg.LandingReach();
      var i := 0;
      while i < |grid|
        invariant 0 <= i <= |grid|
        invariant forall r :: 0 <= r < i ==> !Stops(grid, j, r, fb.y, d)
      {
        var b := At(grid, Pos(i, j));
        if b.color.Rgb? && Abs(b.y - fb.y) <= d {
          assert Stops(grid, j, i, fb.y, d);
          if i + 1 == |grid| {
            return false, true;
          }
          var g' := Paint(grid, Pos(i + 1, j), fb.color);
          SameShapeRectangular(g', grid, cfg.boardWidth);
          grid := g';
          return true, false;
        }
        i := i + 1;
      }
      return false, false;
    }

    /**
     * update_bullets: each bullet moves; one off screen is deleted at the cost
     * of the clamped penalty, one that strikes the grid is deleted, and the
     * others stay in order.
     */
    method UpdateBullets(move: Bullet -> Bullet, offScreen: Bullet -> bool, collide: (Grid, Bullet) -> Option<Grid>)
      requires Valid() && KeepsShape(collide)
      modifies this`grid, this`score, this`bullets
      ensures Valid()
      ensures var r := BulletSweep(BulletState(old(grid), old(score), [], []), old(bullets),
                                   move, offScreen, collide, cfg.lostBulletPenalty);
        grid == r.grid && score == r.score && bullets == r.kept
    {
      ghost var bs := bullets;
      ghost var st0 := BulletState(grid, score, [], []);
      ghost var k := 0;
      var list, cnt := bullets, 0;
      while cnt < |list|
        invariant 0 <= k <= |bs|
        invariant var r := BulletSweep(st0, bs[..k], move, offScreen, collide, cfg.lostBulletPenalty);
          grid == r.grid && score == r.score && list == r.kept + bs[k..] && cnt == |r.kept|
        decreases |bs| - k
      {
        ghost var r := BulletSweep(st0, bs[..k], move, offScreen, collide, cfg.lostBulletPenalty);
        BulletSweepSnoc(st0, bs, k, move, offScreen, collide, cfg.lostBulletPenalty);
        assert bs[k..][0] == bs[k] && bs[k..][1..] == bs[k + 1..];
        list, cnt := BulletTurn(move, offScreen, collide, list, cnt, r, bs[k..]);
        k := k + 1;
      }
      assert bs[..k] == bs;
      bullets := list;
      BulletScoreBounds(st0, bs, move, offScreen, collide, cfg.lostBulletPenalty);
      SameShapeRectangular(grid, st0.grid, cfg.boardWidth);
    }

    /**
     * One turn of update_bullets' loop, on the list seen as the bullets kept
     * so far followed by the rest: the current bullet, the first of the rest,
     * moves and is deleted or kept in place.
     */
    method BulletTurn(move: Bullet -> Bullet, offScreen: Bullet -> bool, collide: (Grid, Bullet) -> Option<Grid>,
                      list: seq<Bullet>, cnt: nat, ghost r: BulletState, ghost rest: seq<Bullet>)
      returns (list': seq<Bullet>, cnt': nat)
      requires rest != [] && grid == r.grid && score == r.score
      requires list == r.kept + rest && cnt == |r.kept|
      modifies this`grid, this`score
      ensures var r' := BulletStep(r, rest[0], move, offScreen, collide, cfg.lostBulletPenalty);
        grid == r'.grid && score == r'.score && list' == r'.kept + rest[1..] && cnt' == |r'.kept|
    {
      ghost var r' := BulletStep(r, rest[0], move, offScreen, collide, cfg.lostBulletPenalty);
      DeleteCurrent(r.kept, rest);
      var b := list[cnt];
      var m := move(b);
      if offScreen(m) {
        score := score + cfg.lostBulletPenalty;
        if score < 0 {
          score := 0;
        }
        list', cnt' := list[..cnt] + list[cnt + 1..], cnt;
        assert r' == r.(score := score, fates := r.fates + [Lost]);
      } else {
        match collide(grid, m)
        case Some(g') =>
          grid := g';
          list', cnt' := list[..cnt] + list[cnt + 1..], cnt;
          assert r' == r.(grid := grid, fates := r.fates + [Struck]);
        case None =>
          ReplaceCurrent(r.kept, rest, m);
          list', cnt' := list[cnt := m], cnt + 1;
          assert r' == r.(kept := r.kept + [m], fates := r.fates + [Flying]);
      }
    }

    /**
     * update_droppers: each falling bubble in turn falls off the screen (the
     * reward is paid), strikes the ship (the ship grows), lands on the grid,
     * or falls on; `crashed` reports the IndexError of a landing at the top
     * row, which ends the loop with that bubble and the rest untouched.
     */
    method UpdateDroppers(dt: int, hitShip: (int, int) -> bool) returns (crashed: bool)
      requires Valid()
      modifies this`grid, this`score, this`shipFinalRadius, this`droppers
      ensures Valid()
      ensures var r := DropSweep(cfg, dt, hitShip, DropState(old(grid), old(score), old(shipFinalRadius), [], [], [], false, []),
                                 old(droppers));
        && crashed == r.crashed && grid == r.grid && score == r.score && shipFinalRadius == r.radius
        && droppers == r.kept + r.pending
    {
      ghost var ds := droppers;
      ghost var st0 := DropState(grid, score, shipFinalRadius, [], [], [], false, []);
      ghost var k := 0;
      var list, cnt := droppers, 0;
      crashed := false;
      while cnt < |list| && !crashed
        invariant 0 <= k <= |ds| && OnBoard(cfg, st0.grid, ds) && OnBoard(cfg, st0.grid, ds[..k])
        invariant Valid() && droppers == ds
        invariant var r := DropSweep(cfg, dt, hitShip, st0, ds[..k]);
          && grid == r.grid && score == r.score && shipFinalRadius == r.radius && crashed == r.crashed
          && (!crashed ==> r.pending == []) && list == r.kept + r.pending + ds[k..] && cnt == |r.kept|
        decreases |ds| - k
      {
        list, cnt, crashed := DropNext(dt, hitShip, list, cnt, st0, ds, k);
        k := k + 1;
      }
      assert crashed || k == |ds|;
      DropSweepEnds(cfg, dt, hitShip, st0, ds, k);
      droppers := list;
    }

    /**
     * Turn k of update_droppers' loop, stated against the sweep over the
     * first k droppers and the first k + 1.
     */
    method DropNext(dt: int, hitShip: (int, int) -> bool, list: seq<Dropper>, cnt: nat,
                    ghost st0: DropState, ghost ds: seq<Dropper>, ghost k: nat)
      returns (list': seq<Dropper>, cnt': nat, crashed: bool)
      requires Valid() && k < |ds| && OnBoard(cfg, st0.grid, ds) && OnBoard(cfg, st0.grid, ds[..k])
      requires var r := DropSweep(cfg, dt, hitShip, st0, ds[..k]);
        && grid == r.grid && score == r.score && shipFinalRadius == r.radius && !r.crashed
        && r.pending == [] && list == r.kept + r.pending + ds[k..] && cnt == |r.kept|
      modifies this`grid, this`score, this`shipFinalRadius
      ensures Valid() && OnBoard(cfg, st0.grid, ds[..k + 1])
      ensures var r := DropSweep(cfg, dt, hitShip, st0, ds[..k + 1]);
        && grid == r.grid && score == r.score && shipFinalRadius == r.radius && crashed == r.crashed
        && (!crashed ==> r.pending == []) && list' == r.kept + r.pending + ds[k + 1..] && cnt' == |r.kept|
    {
      ghost var r := DropSweep(cfg, dt, hitShip, st0, ds[..k]);
      DropSweepSnoc(cfg, dt, hitShip, st0, ds, k);
      ColumnBelowAt(ds, cfg.boardWidth, k);
      assert ds[k..][0] == ds[k] && ds[k..][1..] == ds[k + 1..];
      list', cnt', crashed := DropTurn(dt, hitShip, list, cnt, r, ds[k..]);
    }

    /**
     * One turn of update_droppers' loop, on the list seen as the droppers
     * kept so far followed by the rest: the current dropper, the first of the
     * rest, meets its fate; the list then loses it, holds it advanced in
     * place, or, on a crash, stays as it was.
     */
    method DropTurn(dt: int, hitShip: (int, int) -> bool, list: seq<Dropper>, cnt: nat,
                    ghost r: DropState, ghost rest: seq<Dropper>) returns (list': seq<Dropper>, cnt': nat, crashed: bool)
      requires Valid() && rest != [] && 0 <= rest[0].column < cfg.boardWidth
      requires ColumnInGrid(r.grid, rest[0].column) && !r.crashed && r.pending == []
      requires grid == r.grid && score == r.score && shipFinalRadius == r.radius
      requires list == r.kept + rest && cnt == |r.kept|
      modifies this`grid, this`score, this`shipFinalRadius
      ensures Valid()
      ensures var r' := DropStep(cfg, dt, hitShip, r, rest[0]);
        && grid == r'.grid && score == r'.score && shipFinalRadius == r'.radius && crashed == r'.crashed
        && (!crashed ==> r'.pending == []) && list' == r'.kept + r'.pending + rest[1..] && cnt' == |r'.kept|
    {
      ghost var r' := DropStep(cfg, dt, hitShip, r, rest[0]);
      DeleteCurrent(r.kept, rest);
      var fb := list[cnt];
      var fate := DropOne(dt, hitShip, fb);
      DropStepJudged(cfg, dt, hitShip, r, fb, fate);
      match fate
      case None =>
        return list, cnt, true;
      case Some(f) =>
        list', cnt' := Settle(dt, list, cnt, f, r.kept, rest);
        return list', cnt', false;
    }

    /**
     * The list edit that ends a loop turn of update_droppers: a falling
     * bubble is advanced in place and the cursor moves past it; any other
     * fate deletes it from the list.
     */
    method Settle(dt: int, list: seq<Dropper>, cnt: nat, fate: DropperFate, ghost kept: seq<Dropper>,
                  ghost rest: seq<Dropper>) returns (list': seq<Dropper>, cnt': nat)
      requires rest != [] && list == kept + rest && cnt == |kept|
      ensures list' == kept + (if fate == Falling then [Advance(cfg, dt, rest[0])] else []) + rest[1..]
      ensures cnt' == |kept| + (if fate == Falling then 1 else 0)
    {
      DeleteCurrent(kept, rest);
      if fate == Falling {
        ReplaceCurrent(kept, rest, Advance(cfg, dt, list[cnt]));
        list', cnt' := list[cnt := Advance(cfg, dt, list[cnt])], cnt + 1;
      } else {
        list', cnt' := list[..cnt] + list[cnt + 1..], cnt;
      }
    }

    /**
     * The branches of update_droppers' loop body for one falling bubble: past
     * the screen bottom it pays the reward, on the ship it grows the ship,
     * and otherwise falling_bubble_lands is asked; `fate` says which branch
     * ran, None being the IndexError of a landing past the top row.
     */
    method DropOne(dt: int, hitShip: (int, int) -> bool, fb: Dropper) returns (fate: Option<DropperFate>)
      requires Valid() && 0 <= fb.column < cfg.boardWidth
      modifies this`grid, this`score, this`shipFinalRadius
      ensures Valid()
      ensures ColumnInGrid(old(grid), fb.column) && fate == Judge(cfg, hitShip, old(grid), fb)
      ensures grid == if fate == Some(Landed) then Land(old(grid), fb.column, fb.y, cfg.LandingReach(), fb.color) else old(grid)
      ensures score == old(score) + if fate == Some(FellOff) then cfg.fallingBubblePoints else 0
      ensures shipFinalRadius == old(shipFinalRadius) + if fate == Some(StruckShip) then cfg.HitGrow() else 0
    {
      if fb.y > cfg.Height() {
        score := score + cfg.fallingBubblePoints;
        return Some(FellOff);
      } else if hitShip(fb.x, fb.y) {
        shipFinalRadius := shipFinalRadius + cfg.HitGrow();
        return Some(StruckShip);
      }
      var landed, crash := FallingBubbleLands(fb);
      if crash {
        return None;
      } else if landed {
        return Some(Landed);
      }
      return Some(Falling);
    }

    /**
     * update_kill_bubbles: retire the bottom row, add a top row (using up a
     * fast row), move every cell down (game over if an occupied cell struck
     * the ship), delete the matches, and drop the loose bubbles.
     */
    method UpdateKillBubbles(dt: int, newRow: seq<Cell>, hitShip: (int, int) -> bool,
                             getMatches: Grid -> seq<Pos>, dropLoose: Grid -> Loosened<Dropper>)
      requires Valid() && |newRow| == cfg.boardWidth
      requires SoundMatches(getMatches) && LoosenFits(dropLoose, cfg.boardWidth)
      modifies this`grid, this`speedRows, this`gameState, this`score, this`comboBullets, this`comboBubbles, this`droppers
      ensures Valid()
      ensures var rows := CycleRows(cfg, old(grid), newRow, old(speedRows));
        var shifted := Shifted(rows.grid, TickDelta(old(velocity), dt, rows.speedRows));
        var m := DeleteMatches(PassState(shifted, old(score), old(comboBullets), old(comboBubbles)),
                               old(nextLevelPoints), getMatches(shifted));
        var loose := dropLoose(m.grid);
        && grid == loose.grid && droppers == old(droppers) + loose.fallers
        && speedRows == rows.speedRows
        && gameState == (if AnyHit(rows.grid, hitShip) then 0 else old(gameState))
        && score == m.score && comboBullets == m.comboBullets && comboBubbles == m.comboBubbles
    {
      AdvanceGrid(dt, newRow, hitShip);
      ClearGrid(getMatches, dropLoose);
    }

    /**
     * The first half of update_kill_bubbles, the part written out in its
     * body: the row lifecycle, then the scroll and the ship-hit test.
     */
    method AdvanceGrid(dt: int, newRow: seq<Cell>, hitShip: (int, int) -> bool)
      requires Valid() && |newRow| == cfg.boardWidth
      modifies this`grid, this`speedRows, this`gameState
      ensures Valid()
      ensures var rows := CycleRows(cfg, old(grid), newRow, old(speedRows));
        && grid == Shifted(rows.grid, TickDelta(old(velocity), dt, rows.speedRows))
        && speedRows == rows.speedRows
        && gameState == (if AnyHit(rows.grid, hitShip) then 0 else old(gameState))
    {
      CycleGridRows(newRow);
      ScrollGrid(dt, hitShip);
    }

    /**
     * The second half of update_kill_bubbles: the calls to
     * delete_bubble_matches and drop_loose_bubbles.
     */
    method ClearGrid(getMatches: Grid -> seq<Pos>, dropLoose: Grid -> Loosened<Dropper>)
      requires Valid() && SoundMatches(getMatches) && LoosenFits(dropLoose, cfg.boardWidth)
      modifies this`grid, this`score, this`comboBullets, this`comboBubbles, this`droppers
      ensures Valid()
      ensures var m := DeleteMatches(PassState(old(grid), old(score), old(comboBullets), old(comboBubbles)),
                                     old(nextLevelPoints), getMatches(old(grid)));
        var loose := dropLoose(m.grid);
        && grid == loose.grid && droppers == old(droppers) + loose.fallers
        && score == m.score && comboBullets == m.comboBullets && comboBubbles == m.comboBubbles
    {
      DeleteBubbleMatches(getMatches);
      DropLooseBubbles(dropLoose);
    }

    /**
     * The last step of update_kill_bubbles: the bubbles cut off from the top
     * row leave the grid and join the falling bubbles.
     */
    method DropLooseBubbles(dropLoose: Grid -> Loosened<Dropper>)
      requires Valid() && LoosenFits(dropLoose, cfg.boardWidth)
      modifies this`grid, this`droppers
      ensures Valid()
      ensures grid == dropLoose(old(grid)).grid && droppers == old(droppers) + dropLoose(old(grid)).fallers
    {
      var loose := dropLoose(grid);
      grid := loose.grid;
      ColumnsBelowAppend(droppers, loose.fallers, cfg.boardWidth);
      droppers := droppers + loose.fallers;
    }

    /**
     * The row lifecycle of update_kill_bubbles: the bottom row is retired
     * once it is below the screen, and a new top row is added (using up a
     * fast row) once the top row has come down far enough.
     */
    method CycleGridRows(newRow: seq<Cell>)
      requires Valid() && |newRow| == cfg.boardWidth
      modifies this`grid, this`speedRows
      ensures Valid()
      ensures RowTick(grid, speedRows) == CycleRows(cfg, old(grid), newRow, old(speedRows))
    {
      if |grid| > 0 && grid[0][0].y > cfg.RetireLine() {
        grid := grid[1..];
      }
      if |grid| == 0 || grid[|grid| - 1][0].y >= cfg.SpawnLine() {
        if speedRows > 0 {
          speedRows := speedRows - 1;
        }
        grid := grid + [newRow];
      }
    }

    /**
     * The scroll of update_kill_bubbles: every cell moves down by the
     * frame's delta, sixteen times faster while fast rows remain, and the
     * game is over when an occupied cell struck the ship.
     */
    method ScrollGrid(dt: int, hitShip: (int, int) -> bool)
      requires Valid()
      modifies this`grid, this`gameState
      ensures Valid()
      ensures grid == Shifted(old(grid), TickDelta(velocity, dt, speedRows))
      ensures gameState == if AnyHit(old(grid), hitShip) then 0 else old(gameState)
    {
      var dy := velocity * dt;
      if speedRows > 0 {
        dy := dy * FAST_ROW_FACTOR;
      }
      var g', hit := ShiftRows(grid, dy, hitShip);
      SameShapeRectangular(g', grid, cfg.boardWidth);
      grid := g';
      if hit {
        gameState := 0;
      }
    }

    /**
     * The counter updates of next_level: droppers and bullets cleared, the
     * hull reset, one level up, the fast rows restored, the threshold raised
     * by 250 times the new level, and a new grid whose velocity the caller
     * supplies.
     */
    method NextLevel(freshGrid: Grid, newVelocity: int, hullRadius: int)
      requires Valid() && Rectangular(freshGrid, cfg.boardWidth)
      modifies this`droppers, this`bullets, this`shipFinalRadius, this`level, this`speedRows,
               this`nextLevelPoints, this`grid, this`velocity
      ensures Valid()
      ensures droppers == [] && bullets == [] && shipFinalRadius == hullRadius
      ensures level == old(level) + 1 && speedRows == MATCH_LENGTH
      ensures nextLevelPoints == old(nextLevelPoints) + LEVEL_STEP * level
      ensures grid == freshGrid && velocity == newVelocity
    {
      droppers := [];
      bullets := [];
      shipFinalRadius := hullRadius;
      level := level + 1;
      speedRows := MATCH_LENGTH;
      nextLevelPoints := nextLevelPoints + 250 * level;
      grid := freshGrid;
      velocity := newVelocity;
    }
  }
}
