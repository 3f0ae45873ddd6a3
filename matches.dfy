/**
 * delete_bubble_matches as a specification: for each seed of the match list
 * in turn, the flood erase runs from it, the combo counters are reset to what
 * that erase cleared, and the combo bonus is paid.
 */
module Matches {
  import opened Cells
  import opened Flood
  import opened Scoring

  /** The globals delete_bubble_matches reads and writes. */
  datatype PassState = PassState(grid: Grid, score: int, comboBullets: nat, comboBubbles: nat)

  /** Every seed names a cell of g. */
  predicate SeedsInGrid(g: Grid, seeds: seq<Pos>) {
    forall k :: 0 <= k < |seeds| ==> InGrid(g, seeds[k])
  }

  /** Same-shaped grids have the same cells. */
  lemma SameShapeInGrid(a: Grid, b: Grid, p: Pos)
    requires SameShape(a, b)
    ensures InGrid(a, p) <==> InGrid(b, p)
  {
    if 0 <= p.row < |a| {
      assert |a[p.row]| == |b[p.row]|;
    }
  }

  /** The body of the loop for one seed. */
  ghost function SeedStep(st: PassState, next: int, seed: Pos): (r: PassState)
    requires InGrid(st.grid, seed)
    ensures SameShape(r.grid, st.grid)
  {
    var e := Erased(st.grid, seed);
    var bullets := |BulletCells(st.grid, e)|;
    var bubbles := |GridCells(st.grid, e)|;
    PassState(EraseResult(st.grid, seed), ComboScore(st.score, next, bullets, bubbles), bullets, bubbles)
  }

  /** A state that holds the erase's grid and counts and the paid bonus is the step's result. */
  lemma SeedStepIs(prev: PassState, next: int, seed: Pos, g: Grid, score: int, bullets: nat, bubbles: nat)
    requires InGrid(prev.grid, seed) && g == EraseResult(prev.grid, seed)
    requires bullets == |BulletCells(prev.grid, Erased(prev.grid, seed))|
    requires bubbles == |GridCells(prev.grid, Erased(prev.grid, seed))|
    requires score == ComboScore(prev.score, next, bullets, bubbles)
    ensures SeedStep(prev, next, seed) == PassState(g, score, bullets, bubbles)
  {
  }

  /** The state after the loop has handled the seeds in order. */
  ghost function MatchPass(st: PassState, next: int, seeds: seq<Pos>): (r: PassState)
    requires SeedsInGrid(st.grid, seeds)
    ensures SameShape(r.grid, st.grid)
    decreases |seeds|
  {
    if seeds == [] then st
    else
      var prev := MatchPass(st, next, seeds[..|seeds| - 1]);
      var seed := seeds[|seeds| - 1];
      SameShapeInGrid(prev.grid, st.grid, seed);
      SeedStep(prev, next, seed)
  }

  /** Handling one more seed is one more loop turn. */
  lemma MatchPassSnoc(st: PassState, next: int, seeds: seq<Pos>, k: int)
    requires SeedsInGrid(st.grid, seeds) && 0 <= k < |seeds|
    ensures SeedsInGrid(st.grid, seeds[..k]) && SeedsInGrid(st.grid, seeds[..k + 1])
    ensures var prev := MatchPass(st, next, seeds[..k]);
      InGrid(prev.grid, seeds[k]) && MatchPass(st, next, seeds[..k + 1]) == SeedStep(prev, next, seeds[k])
  {
    assert seeds[..k + 1][..k] == seeds[..k];
    SameShapeInGrid(MatchPass(st, next, seeds[..k]).grid, st.grid, seeds[k]);
  }

  /** The match finder only reports cells of the grid it was given. */
  ghost predicate SoundMatches(getMatches: Grid -> seq<Pos>) {
    forall g :: SeedsInGrid(g, getMatches(g))
  }

  /**
   * delete_bubble_matches: nothing at all happens on an empty grid; otherwise
   * the pass keeps the grid's shape and keeps a score that starts at or below
   * the threshold between where it began and the threshold.
   */
  ghost function DeleteMatches(st: PassState, next: int, seeds: seq<Pos>): (r: PassState)
    requires |st.grid| > 0 ==> SeedsInGrid(st.grid, seeds)
    ensures |st.grid| == 0 ==> r == st
    ensures SameShape(r.grid, st.grid)
    ensures st.score <= next ==> st.score <= r.score <= next
    ensures Min(st.score, next) <= r.score <= Max(st.score, next)
  {
    if |st.grid| == 0 then st
    else
      MatchPassScore(st, next, seeds);
      MatchPass(st, next, seeds)
  }

  /**
   * Starting at or below the threshold, the combos of one pass never lower
   * the score and never lift it past the threshold; starting above it, the
   * score ends between the threshold and where it began.
   */
  lemma {:induction false} MatchPassScore(st: PassState, next: int, seeds: seq<Pos>)
    requires SeedsInGrid(st.grid, seeds)
    ensures st.score <= next ==> st.score <= MatchPass(st, next, seeds).score <= next
    ensures Min(st.score, next) <= MatchPass(st, next, seeds).score <= Max(st.score, next)
    decreases |seeds|
  {
    if seeds != [] {
      MatchPassScore(st, next, seeds[..|seeds| - 1]);
    }
  }

  /** A pass only ever empties cells: every cell keeps its place, flag and position. */
  lemma {:induction false} MatchPassOnlyClears(st: PassState, next: int, seeds: seq<Pos>, p: Pos)
    requires SeedsInGrid(st.grid, seeds) && InGrid(st.grid, p)
    ensures var c := At(MatchPass(st, next, seeds).grid, p);
      c == At(st.grid, p) || c == At(st.grid, p).(color := NoColor)
    decreases |seeds|
  {
    if seeds != [] {
      var prev := MatchPass(st, next, seeds[..|seeds| - 1]);
      MatchPassOnlyClears(st, next, seeds[..|seeds| - 1], p);
      var seed := seeds[|seeds| - 1];
      SameShapeInGrid(prev.grid, st.grid, seed);
      SameShapeInGrid(prev.grid, st.grid, p);
      EraseResultCells(prev.grid, seed);
    }
  }

  /** After a pass, every seed's cell is empty: a seed is always in what its own erase clears. */
  lemma {:induction false} MatchPassEmptiesSeeds(st: PassState, next: int, seeds: seq<Pos>, k: int)
    requires SeedsInGrid(st.grid, seeds) && 0 <= k < |seeds|
    ensures !At(MatchPass(st, next, seeds).grid, seeds[k]).Occupied()
    decreases |seeds|
  {
    var prev := MatchPass(st, next, seeds[..|seeds| - 1]);
    var seed := seeds[|seeds| - 1];
    SameShapeInGrid(prev.grid, st.grid, seed);
    SameShapeInGrid(prev.grid, st.grid, seeds[k]);
    EraseResultCells(prev.grid, seed);
    if k < |seeds| - 1 {
      MatchPassEmptiesSeeds(st, next, seeds[..|seeds| - 1], k);
    } else if At(prev.grid, seed).Occupied() {
      SeedInRegion(prev.grid, seed);
    }
  }
}
