/**
 * update_bullets as a specification. Every bullet moves one step; then it is
 * lost off screen (costing the clamped penalty), or it strikes the grid (the
 * collision test settles it into the grid), or it flies on and stays in the
 * list.
 *
 * The bullet's motion, the off-screen test and the grid collision belong to
 * bubble.py and are parameters: `move`, `offScreen`, and `collide`. `collide`
 * gives the grid after the strike, or None when the bullet misses.
 */
module Bullets {
  import opened Cells
  import opened Scoring
  import opened Sweeps

  /** A player's bullet: position, colour, and its direction of flight as an opaque number. */
  datatype Bullet = Bullet(x: int, y: int, color: Color, heading: int)

  datatype BulletFate = Lost | Struck | Flying

  /** The state the sweep threads: the grid, the score, the bullets kept so far and one fate per bullet handled. */
  datatype BulletState = BulletState(grid: Grid, score: int, kept: seq<Bullet>, fates: seq<BulletFate>)

  /** A collision that strikes leaves a grid of the same shape. */
  ghost predicate KeepsShape(collide: (Grid, Bullet) -> Option<Grid>) {
    forall g, b :: collide(g, b).Some? ==> SameShape(collide(g, b).value, g)
  }

  /**
   * One turn of the loop for bullet b: it records b's fate, and only that
   * fate's branch has an effect (the penalty, the struck grid, or keeping
   * the moved bullet).
   */
  function BulletStep(st: BulletState, b: Bullet, move: Bullet -> Bullet, offScreen: Bullet -> bool,
                      collide: (Grid, Bullet) -> Option<Grid>, penalty: int): (r: BulletState)
    ensures var f := FateOf(st, b, move, offScreen, collide);
      && r.fates == st.fates + [f]
      && r.score == (if f == Lost then Penalize(st.score, penalty) else st.score)
      && r.grid == (if f == Struck then collide(st.grid, move(b)).value else st.grid)
      && r.kept == st.kept + (if f == Flying then [move(b)] else [])
  {
    var m := move(b);
    if offScreen(m) then
      st.(score := Penalize(st.score, penalty), fates := st.fates + [Lost])
    else match collide(st.grid, m)
      case Some(g') => st.(grid := g', fates := st.fates + [Struck])
      case None => st.(kept := st.kept + [m], fates := st.fates + [Flying])
  }

  /** The state after the loop has handled the bullets in order. */
  function BulletSweep(st: BulletState, bs: seq<Bullet>, move: Bullet -> Bullet, offScreen: Bullet -> bool,
                       collide: (Grid, Bullet) -> Option<Grid>, penalty: int): (r: BulletState)
    requires KeepsShape(collide)
    ensures SameShape(r.grid, st.grid)
    decreases |bs|
  {
    if bs == [] then st
    else
      var prev := BulletSweep(st, bs[..|bs| - 1], move, offScreen, collide, penalty);
      BulletStep(prev, bs[|bs| - 1], move, offScreen, collide, penalty)
  }

  /** Handling one more bullet is one more loop turn. */
  lemma BulletSweepSnoc(st: BulletState, bs: seq<Bullet>, k: int, move: Bullet -> Bullet, offScreen: Bullet -> bool,
                        collide: (Grid, Bullet) -> Option<Grid>, penalty: int)
    requires KeepsShape(collide) && 0 <= k < |bs|
    ensures BulletSweep(st, bs[..k + 1], move, offScreen, collide, penalty)
         == BulletStep(BulletSweep(st, bs[..k], move, offScreen, collide, penalty), bs[k], move, offScreen, collide, penalty)
  {
    assert bs[..k + 1][..k] == bs[..k];
  }

  /**
   * The fate of bullet b after its move: lost exactly when off screen,
   * struck exactly when on screen and the collision test settles it,
   * flying exactly when neither.
   */
  function FateOf(st: BulletState, b: Bullet, move: Bullet -> Bullet, offScreen: Bullet -> bool,
                  collide: (Grid, Bullet) -> Option<Grid>): (r: BulletFate)
    ensures r == Lost <==> offScreen(move(b))
    ensures r == Struck <==> !offScreen(move(b)) && collide(st.grid, move(b)).Some?
    ensures r == Flying <==> !offScreen(move(b)) && collide(st.grid, move(b)).None?
  {
    var m := move(b);
    if offScreen(m) then Lost else if collide(st.grid, m).Some? then Struck else Flying
  }

  /** The sweep records one fate per bullet. */
  lemma {:induction false} BulletSweepLength(st: BulletState, bs: seq<Bullet>, move: Bullet -> Bullet,
                                             offScreen: Bullet -> bool, collide: (Grid, Bullet) -> Option<Grid>,
                                             penalty: int)
    requires KeepsShape(collide)
    ensures |BulletSweep(st, bs, move, offScreen, collide, penalty).fates| == |st.fates| + |bs|
    decreases |bs|
  {
    if bs != [] {
      BulletSweepLength(st, bs[..|bs| - 1], move, offScreen, collide, penalty);
    }
  }

  /** The fate recorded for bullet k is judged against the state the bullets before it left. */
  lemma {:induction false} BulletSweepFateAt(st: BulletState, bs: seq<Bullet>, k: int, move: Bullet -> Bullet,
                                             offScreen: Bullet -> bool, collide: (Grid, Bullet) -> Option<Grid>,
                                             penalty: int)
    requires KeepsShape(collide) && st.fates == [] && 0 <= k < |bs|
    ensures |BulletSweep(st, bs, move, offScreen, collide, penalty).fates| == |bs|
    ensures BulletSweep(st, bs, move, offScreen, collide, penalty).fates[k]
         == FateOf(BulletSweep(st, bs[..k], move, offScreen, collide, penalty), bs[k], move, offScreen, collide)
    decreases |bs|
  {
    var n := |bs| - 1;
    var front := bs[..n];
    var prev := BulletSweep(st, front, move, offScreen, collide, penalty);
    BulletSweepLength(st, bs, move, offScreen, collide, penalty);
    BulletSweepLength(st, front, move, offScreen, collide, penalty);
    if k < n {
      BulletSweepFateAt(st, front, k, move, offScreen, collide, penalty);
      assert front[..k] == bs[..k] && front[k] == bs[k];
    } else {
      assert bs[..k] == front;
    }
  }

  /**
   * The k-th fate the sweep records is the fate of bullet k, judged against
   * the state the earlier bullets left: off screen, struck, or flying on.
   */
  lemma BulletSweepFates(st: BulletState, bs: seq<Bullet>, move: Bullet -> Bullet,
                         offScreen: Bullet -> bool, collide: (Grid, Bullet) -> Option<Grid>, penalty: int)
    requires KeepsShape(collide) && st.fates == []
    ensures var r := BulletSweep(st, bs, move, offScreen, collide, penalty);
      && |r.fates| == |bs|
      && forall k :: 0 <= k < |bs| ==>
           r.fates[k] == FateOf(BulletSweep(st, bs[..k], move, offScreen, collide, penalty), bs[k], move, offScreen, collide)
  {
    BulletSweepLength(st, bs, move, offScreen, collide, penalty);
    forall k | 0 <= k < |bs|
      ensures BulletSweep(st, bs, move, offScreen, collide, penalty).fates[k]
           == FateOf(BulletSweep(st, bs[..k], move, offScreen, collide, penalty), bs[k], move, offScreen, collide)
    {
      BulletSweepFateAt(st, bs, k, move, offScreen, collide, penalty);
    }
  }

  /**
   * Starting from an empty kept list, every bullet gets exactly one fate and
   * the list keeps exactly the moved bullets that fly on, in their order.
   */
  lemma {:induction false} BulletSweepKeeps(st: BulletState, bs: seq<Bullet>, move: Bullet -> Bullet,
                                            offScreen: Bullet -> bool, collide: (Grid, Bullet) -> Option<Grid>,
                                            penalty: int)
    requires KeepsShape(collide) && st.kept == [] && st.fates == []
    ensures var r := BulletSweep(st, bs, move, offScreen, collide, penalty);
      |r.fates| == |bs| && r.kept == Select(Map(move, bs), r.fates, Flying)
    decreases |bs|
  {
    if bs != [] {
      var n := |bs| - 1;
      var prev := BulletSweep(st, bs[..n], move, offScreen, collide, penalty);
      BulletSweepKeeps(st, bs[..n], move, offScreen, collide, penalty);
      var fate := FateOf(prev, bs[n], move, offScreen, collide);
      var r := BulletStep(prev, bs[n], move, offScreen, collide, penalty);
      assert r.fates == prev.fates + [fate];
      assert r.kept == prev.kept + (if fate == Flying then [move(bs[n])] else []);
      LastSplit(bs);
      MapSnoc(move, bs[..n], bs[n]);
      SelectSnoc(Map(move, bs[..n]), prev.fates, move(bs[n]), fate, Flying);
    }
  }

  /** The score is the old score after one clamped penalty per lost bullet. */
  lemma {:induction false} BulletSweepScore(st: BulletState, bs: seq<Bullet>, move: Bullet -> Bullet,
                                            offScreen: Bullet -> bool, collide: (Grid, Bullet) -> Option<Grid>,
                                            penalty: int)
    requires KeepsShape(collide) && st.fates == []
    ensures var r := BulletSweep(st, bs, move, offScreen, collide, penalty);
      r.score == Penalized(st.score, penalty, Count(r.fates, Lost))
    decreases |bs|
  {
    if bs != [] {
      var n := |bs| - 1;
      var prev := BulletSweep(st, bs[..n], move, offScreen, collide, penalty);
      BulletSweepScore(st, bs[..n], move, offScreen, collide, penalty);
      var fate := FateOf(prev, bs[n], move, offScreen, collide);
      var r := BulletStep(prev, bs[n], move, offScreen, collide, penalty);
      assert r.fates == prev.fates + [fate];
      assert r.score == if fate == Lost then Penalize(prev.score, penalty) else prev.score;
      CountSnoc(prev.fates, fate, Lost);
    }
  }

  /**
   * Starting from an empty kept list: every bullet is either lost, or struck
   * the grid, or is still in the list.
   */
  lemma BulletSweepAccounts(st: BulletState, bs: seq<Bullet>, move: Bullet -> Bullet,
                            offScreen: Bullet -> bool, collide: (Grid, Bullet) -> Option<Grid>, penalty: int)
    requires KeepsShape(collide) && st.kept == [] && st.fates == []
    ensures var r := BulletSweep(st, bs, move, offScreen, collide, penalty);
      |r.kept| + Count(r.fates, Lost) + Count(r.fates, Struck) == |bs|
  {
    BulletSweepKeeps(st, bs, move, offScreen, collide, penalty);
    FatesPartition(BulletSweep(st, bs, move, offScreen, collide, penalty).fates);
  }

  /** Every fate is one of the three. */
  lemma {:induction false} FatesPartition(fates: seq<BulletFate>)
    ensures Count(fates, Lost) + Count(fates, Struck) + Count(fates, Flying) == |fates|
  {
    if fates != [] {
      var n := |fates| - 1;
      FatesPartition(fates[..n]);
      assert fates == fates[..n] + [fates[n]];
      CountSnoc(fates[..n], fates[n], Lost);
      CountSnoc(fates[..n], fates[n], Struck);
      CountSnoc(fates[..n], fates[n], Flying);
      assert fates[n].Lost? || fates[n].Struck? || fates[n].Flying?;
    }
  }

  /**
   * update_bullets never leaves the score negative, however many bullets are
   * lost, and when the penalty is a cost the score is the old score less one
   * penalty per lost bullet, cut off at zero.
   */
  lemma BulletScoreBounds(st: BulletState, bs: seq<Bullet>, move: Bullet -> Bullet, offScreen: Bullet -> bool,
                          collide: (Grid, Bullet) -> Option<Grid>, penalty: int)
    requires KeepsShape(collide) && st.fates == [] && st.score >= 0
    ensures var r := BulletSweep(st, bs, move, offScreen, collide, penalty);
      && r.score >= 0
      && (penalty <= 0 ==> r.score == Max(0, st.score + Count(r.fates, Lost) * penalty))
  {
    BulletSweepScore(st, bs, move, offScreen, collide, penalty);
    var r := BulletSweep(st, bs, move, offScreen, collide, penalty);
    if penalty <= 0 {
      PenaltiesClosedForm(st.score, penalty, Count(r.fates, Lost));
    }
  }
}
