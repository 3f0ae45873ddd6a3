/**
 * The flood erase of rec_erase: from a seed cell, clear the whole
 * 4-connected region of cells sharing the seed's colour, counting the cleared
 * cells that a bullet made and those the grid spawned.
 *
 * The source recurses once per cleared cell; here the same traversal runs
 * over an explicit stack of pending cells. The erased set is proved equal to
 * the order-free same-colour region of the seed, and both counts are counts of
 * that region's cells.
 */
module Flood {
  import opened Cells

  /** A walk through in-grid cells of colour c, each step to one of the four neighbours. */
  ghost predicate IsPath(g: Grid, c: Color, path: seq<Pos>) {
    && |path| > 0
    && (forall k :: 0 <= k < |path| ==> InGrid(g, path[k]) && At(g, path[k]).color == c)
    && (forall k :: 0 <= k < |path| - 1 ==> Adjacent(path[k], path[k + 1]))
  }

  ghost predicate Connected(g: Grid, c: Color, s: Pos, t: Pos) {
    exists path {:trigger IsPath(g, c, path)} :: IsPath(g, c, path) && path[0] == s && path[|path| - 1] == t
  }

  /** The cells reachable from seed through cells of the seed's colour. */
  ghost function Region(g: Grid, seed: Pos): set<Pos>
    requires InGrid(g, seed)
  {
    set i, j | 0 <= i < |g| && 0 <= j < |g[i]| && Connected(g, At(g, seed).color, seed, Pos(i, j)) :: Pos(i, j)
  }

  /** What rec_erase clears: nothing from an empty cell, otherwise the seed's region. */
  ghost function Erased(g: Grid, seed: Pos): set<Pos>
    requires InGrid(g, seed)
  {
    if At(g, seed).Occupied() then Region(g, seed) else {}
  }

  /** The cells of E that a player's bullet created. */
  ghost function BulletCells(g: Grid, e: set<Pos>): set<Pos> {
    set p | p in e && InGrid(g, p) && At(g, p).bulletFlag
  }

  /** The cells of E that the grid spawned. */
  ghost function GridCells(g: Grid, e: set<Pos>): set<Pos> {
    set p | p in e && InGrid(g, p) && !At(g, p).bulletFlag
  }

  /** Row i of a grid with the colour of each of its cells in e cleared. */
  function ClearRow(row: seq<Cell>, i: int, e: set<Pos>): (r: seq<Cell>)
    ensures |r| == |row|
    ensures forall j :: 0 <= j < |row| ==> r[j] == if Pos(i, j) in e then row[j].(color := NoColor) else row[j]
    decreases |row|
  {
    if row == [] then []
    else
      var j := |row| - 1;
      ClearRow(row[..j], i, e) + [if Pos(i, j) in e then row[j].(color := NoColor) else row[j]]
  }

  /** g with the colour of each of its cells in e cleared. */
  function ClearCells(g: Grid, e: set<Pos>): (r: Grid)
    ensures SameShape(r, g)
    ensures forall p {:trigger At(r, p)} :: InGrid(g, p) ==>
      At(r, p) == if p in e then At(g, p).(color := NoColor) else At(g, p)
    decreases |g|
  {
    if g == [] then []
    else
      var i := |g| - 1;
      var front := ClearCells(g[..i], e);
      var r := front + [ClearRow(g[i], i, e)];
      assert forall p {:trigger At(r, p)} :: InGrid(g, p) ==>
        At(r, p) == if p in e then At(g, p).(color := NoColor) else At(g, p) by {
        forall p | InGrid(g, p)
          ensures At(r, p) == if p in e then At(g, p).(color := NoColor) else At(g, p)
        {
          if p.row < i {
            assert InGrid(g[..i], p) && At(r, p) == At(front, p);
          }
        }
      }
      r
  }

  /** The grid after rec_erase(seed): the erased cells lose their colour, nothing else changes. */
  ghost function EraseResult(g: Grid, seed: Pos): (r: Grid)
    requires InGrid(g, seed)
    ensures SameShape(r, g)
  {
    ClearCells(g, Erased(g, seed))
  }

  /** No cell of colour c next to a cell of E lies outside E. */
  ghost predicate ClosedUnder(g: Grid, c: Color, e: set<Pos>) {
    forall p, q {:trigger Adjacent(p, q)} ::
      p in e && Adjacent(p, q) && InGrid(g, q) && At(g, q).color == c ==> q in e
  }

  lemma RegionMembers(g: Grid, seed: Pos, p: Pos)
    requires InGrid(g, seed)
    ensures p in Region(g, seed) <==> InGrid(g, p) && Connected(g, At(g, seed).color, seed, p)
  {
  }

  /** The seed belongs to its own region. */
  lemma SeedInRegion(g: Grid, seed: Pos)
    requires InGrid(g, seed)
    ensures seed in Region(g, seed)
  {
    var c := At(g, seed).color;
    assert IsPath(g, c, [seed]);
    RegionMembers(g, seed, seed);
  }

  /** Every cell of the region has the seed's colour. */
  lemma RegionIsOneColour(g: Grid, seed: Pos, p: Pos)
    requires InGrid(g, seed) && p in Region(g, seed)
    ensures InGrid(g, p) && At(g, p).color == At(g, seed).color
  {
    var c := At(g, seed).color;
    RegionMembers(g, seed, p);
    var path :| IsPath(g, c, path) && path[0] == seed && path[|path| - 1] == p;
  }

  /** A same-coloured neighbour of a region cell is in the region. */
  lemma RegionStep(g: Grid, seed: Pos, p: Pos, q: Pos)
    requires InGrid(g, seed) && p in Region(g, seed)
    requires Adjacent(p, q) && InGrid(g, q) && At(g, q).color == At(g, seed).color
    ensures q in Region(g, seed)
  {
    var c := At(g, seed).color;
    RegionMembers(g, seed, p);
    var path :| IsPath(g, c, path) && path[0] == seed && path[|path| - 1] == p;
    var longer := path + [q];
    assert IsPath(g, c, longer);
    RegionMembers(g, seed, q);
  }

  /** A set closed under same-colour steps that holds a path's first cell holds its last. */
  lemma {:induction false} PathStaysIn(g: Grid, c: Color, path: seq<Pos>, e: set<Pos>)
    requires IsPath(g, c, path) && path[0] in e && ClosedUnder(g, c, e)
    ensures path[|path| - 1] in e
  {
    if |path| > 1 {
      var prefix := path[..|path| - 1];
      assert IsPath(g, c, prefix);
      PathStaysIn(g, c, prefix, e);
      assert Adjacent(path[|path| - 2], path[|path| - 1]);
    }
  }

  /** A closed set that holds the seed holds the seed's whole region. */
  lemma ClosedHoldsRegion(g: Grid, seed: Pos, e: set<Pos>)
    requires InGrid(g, seed) && seed in e && ClosedUnder(g, At(g, seed).color, e)
    ensures Region(g, seed) <= e
  {
    var c := At(g, seed).color;
    forall t | t in Region(g, seed)
      ensures t in e
    {
      RegionMembers(g, seed, t);
      var path :| IsPath(g, c, path) && path[0] == seed && path[|path| - 1] == t;
      PathStaysIn(g, c, path, e);
    }
  }

  lemma SubsetSize(a: set<Pos>, b: set<Pos>)
    requires a <= b
    ensures |a| <= |b|
  {
    assert b == a + (b - a);
  }

  /** Splitting a set of in-grid cells by their bullet flag accounts for all of them. */
  lemma {:induction false} CountsPartition(g: Grid, e: set<Pos>)
    requires forall p :: p in e ==> InGrid(g, p)
    ensures |BulletCells(g, e)| + |GridCells(g, e)| == |e|
  {
    var b, s := BulletCells(g, e), GridCells(g, e);
    assert b + s == e;
    assert b * s == {};
  }

  /** Adding one new cell to E adds it to exactly one of the two counts. */
  lemma CountStep(g: Grid, e: set<Pos>, p: Pos)
    requires InGrid(g, p) && p !in e
    ensures |BulletCells(g, e + {p})| == |BulletCells(g, e)| + (if At(g, p).bulletFlag then 1 else 0)
    ensures |GridCells(g, e + {p})| == |GridCells(g, e)| + (if At(g, p).bulletFlag then 0 else 1)
  {
    if At(g, p).bulletFlag {
      assert BulletCells(g, e + {p}) == BulletCells(g, e) + {p};
      assert GridCells(g, e + {p}) == GridCells(g, e);
    } else {
      assert BulletCells(g, e + {p}) == BulletCells(g, e);
      assert GridCells(g, e + {p}) == GridCells(g, e) + {p};
    }
  }

  /** What `region` must satisfy for the traversal: the seed's region, described by its properties. */
  ghost predicate RegionLike(g: Grid, seed: Pos, c: Color, region: set<Pos>) {
    && c != NoColor
    && seed in region
    && (forall p {:trigger p in region} :: p in region ==> InGrid(g, p) && At(g, p).color == c)
    && ClosedUnder(g, c, region)
  }

  /**
   * The state of the traversal part-way: `cur` is g with the cells of
   * `erased` emptied, every pending cell lies in the region, and every
   * same-colour neighbour of an erased cell is erased or pending.
   */
  ghost predicate Traversal(g: Grid, seed: Pos, c: Color, region: set<Pos>,
                            cur: Grid, bullets: nat, bubbles: nat, erased: set<Pos>, stack: seq<Pos>)
  {
    && SameShape(cur, g)
    && erased <= region
    && |erased| <= |region|
    && (forall p {:trigger At(cur, p)} :: InGrid(g, p) ==>
          At(cur, p) == if p in erased then At(g, p).(color := NoColor) else At(g, p))
    && (forall p {:trigger p in stack} :: p in stack ==> p in region)
    && (seed in erased || seed in stack)
    && (forall p, q {:trigger Adjacent(p, q)} ::
          p in erased && Adjacent(p, q) && InGrid(g, q) && At(g, q).color == c ==> q in erased || q in stack)
    && bullets == |BulletCells(g, erased)|
    && bubbles == |GridCells(g, erased)|
  }

  /** Popping a cell that is already erased keeps the traversal state valid. */
  lemma SkipKeepsTraversal(g: Grid, seed: Pos, c: Color, region: set<Pos>,
                           cur: Grid, bullets: nat, bubbles: nat, erased: set<Pos>, popped: seq<Pos>, p: Pos)
    requires Traversal(g, seed, c, region, cur, bullets, bubbles, erased, popped + [p])
    requires p in erased
    ensures Traversal(g, seed, c, region, cur, bullets, bubbles, erased, popped)
  {
    var stack := popped + [p];
    forall q {:trigger q in popped} | q in popped
      ensures q in region
    {
      assert q in stack;
    }
    forall x, q {:trigger Adjacent(x, q)} | x in erased && Adjacent(x, q) && InGrid(g, q) && At(g, q).color == c
      ensures q in erased || q in popped
    {
      assert q in erased || q in stack;
    }
  }

  /** After erasing p, the pending cells, old and newly pushed, still lie in the region. */
  lemma PendingAfterErase(g: Grid, seed: Pos, c: Color, region: set<Pos>,
                          cur: Grid, bullets: nat, bubbles: nat, erased: set<Pos>, popped: seq<Pos>, p: Pos)
    requires RegionLike(g, seed, c, region)
    requires Traversal(g, seed, c, region, cur, bullets, bubbles, erased, popped + [p])
    requires InGrid(cur, p) && At(cur, p).color == c
    ensures var cur' := Paint(cur, p, NoColor);
      forall q {:trigger q in popped + SameColourNeighbours(cur', p, c)} ::
        q in popped + SameColourNeighbours(cur', p, c) ==> q in region
  {
    var stack := popped + [p];
    assert p in stack;
    var cur' := Paint(cur, p, NoColor);
    var pushed := SameColourNeighbours(cur', p, c);
    forall q {:trigger q in popped + pushed} | q in popped + pushed
      ensures q in region
    {
      if q in pushed {
        assert At(cur', q) == At(cur, q);
      } else {
        assert q in popped && q in stack;
      }
    }
  }

  /** After erasing p, every same-colour neighbour of an erased cell is still erased or pending. */
  lemma ClosureAfterErase(g: Grid, seed: Pos, c: Color, region: set<Pos>,
                          cur: Grid, bullets: nat, bubbles: nat, erased: set<Pos>, popped: seq<Pos>, p: Pos)
    requires RegionLike(g, seed, c, region)
    requires Traversal(g, seed, c, region, cur, bullets, bubbles, erased, popped + [p])
    requires InGrid(cur, p) && At(cur, p).color == c
    ensures var cur' := Paint(cur, p, NoColor);
      var stack' := popped + SameColourNeighbours(cur', p, c);
      forall x, q {:trigger Adjacent(x, q)} ::
        x in erased + {p} && Adjacent(x, q) && InGrid(g, q) && At(g, q).color == c ==> q in erased + {p} || q in stack'
  {
    var stack := popped + [p];
    var cur' := Paint(cur, p, NoColor);
    var stack' := popped + SameColourNeighbours(cur', p, c);
    forall x, q {:trigger Adjacent(x, q)} | x in erased + {p} && Adjacent(x, q) && InGrid(g, q) && At(g, q).color == c
      ensures q in erased + {p} || q in stack'
    {
      if x in erased {
        assert q in erased || q in stack;
      } else if q !in erased {
        assert At(cur', q) == At(cur, q);
      }
    }
  }

  /** Erasing a popped cell of colour c and pushing its same-colour neighbours keeps the state valid. */
  lemma EraseKeepsTraversal(g: Grid, seed: Pos, c: Color, region: set<Pos>,
                            cur: Grid, bullets: nat, bubbles: nat, erased: set<Pos>, popped: seq<Pos>, p: Pos)
    requires RegionLike(g, seed, c, region)
    requires Traversal(g, seed, c, region, cur, bullets, bubbles, erased, popped + [p])
    requires InGrid(cur, p) && At(cur, p).color == c
    ensures p !in erased
    ensures var cur' := Paint(cur, p, NoColor);
      Traversal(g, seed, c, region, cur',
                if At(cur, p).bulletFlag then bullets + 1 else bullets,
                if At(cur, p).bulletFlag then bubbles else bubbles + 1,
                erased + {p}, popped + SameColourNeighbours(cur', p, c))
  {
    assert p in popped + [p];
    CountStep(g, erased, p);
    SubsetSize(erased + {p}, region);
    PendingAfterErase(g, seed, c, region, cur, bullets, bubbles, erased, popped, p);
    ClosureAfterErase(g, seed, c, region, cur, bullets, bubbles, erased, popped, p);
  }

  /**
   * One call of rec_erase's body: take the next pending cell; if it still
   * has colour c, count it, empty it and make its same-colour neighbours pending.
   */
  method Visit(g: Grid, seed: Pos, c: Color, ghost region: set<Pos>,
               cur: Grid, bullets: nat, bubbles: nat, ghost erased: set<Pos>, stack: seq<Pos>)
    returns (cur': Grid, bullets': nat, bubbles': nat, ghost erased': set<Pos>, stack': seq<Pos>)
    requires RegionLike(g, seed, c, region)
    requires Traversal(g, seed, c, region, cur, bullets, bubbles, erased, stack)
    requires stack != []
    ensures Traversal(g, seed, c, region, cur', bullets', bubbles', erased', stack')
    ensures |erased'| > |erased| || (erased' == erased && |stack'| < |stack|)
  {
    var p := stack[|stack| - 1];
    var popped := stack[..|stack| - 1];
    assert stack == popped + [p];
    assert p in stack;
    if At(cur, p).color == c {
      EraseKeepsTraversal(g, seed, c, region, cur, bullets, bubbles, erased, popped, p);
      if At(cur, p).bulletFlag {
        bullets', bubbles' := bullets + 1, bubbles;
      } else {
        bullets', bubbles' := bullets, bubbles + 1;
      }
      cur' := Paint(cur, p, NoColor);
      erased' := erased + {p};
      stack' := popped + SameColourNeighbours(cur', p, c);
    } else {
      SkipKeepsTraversal(g, seed, c, region, cur, bullets, bubbles, erased, popped, p);
      cur', bullets', bubbles', erased', stack' := cur, bullets, bubbles, erased, popped;
    }
  }

  /**
   * The stack-driven traversal behind Erase: visits pending cells until none
   * is left. It ends with `erased` closed under same-colour steps.
   */
  method Fill(g: Grid, seed: Pos, c: Color, ghost region: set<Pos>)
    returns (g': Grid, bullets: nat, bubbles: nat, ghost erased: set<Pos>)
    requires RegionLike(g, seed, c, region)
    ensures SameShape(g', g)
    ensures seed in erased && erased <= region && ClosedUnder(g, c, erased)
    ensures forall p :: InGrid(g, p) ==>
      At(g', p) == if p in erased then At(g, p).(color := NoColor) else At(g, p)
    ensures bullets == |BulletCells(g, erased)| && bubbles == |GridCells(g, erased)|
  {
    g', bullets, bubbles, erased := g, 0, 0, {};
    var stack := [seed];
    while stack != []
      invariant Traversal(g, seed, c, region, g', bullets, bubbles, erased, stack)
      decreases |region| - |erased|, |stack|
    {
      g', bullets, bubbles, erased, stack := Visit(g, seed, c, region, g', bullets, bubbles, erased, stack);
    }
  }

  /** The seed's region satisfies what Fill asks of `region`. */
  lemma RegionFitsFill(g: Grid, seed: Pos)
    requires InGrid(g, seed) && At(g, seed).Occupied()
    ensures RegionLike(g, seed, At(g, seed).color, Region(g, seed))
  {
    SeedInRegion(g, seed);
    forall p | p in Region(g, seed)
      ensures InGrid(g, p) && At(g, p).color == At(g, seed).color
    {
      RegionIsOneColour(g, seed, p);
    }
    forall p, q | p in Region(g, seed) && Adjacent(p, q) && InGrid(g, q) && At(g, q).color == At(g, seed).color
      ensures q in Region(g, seed)
    {
      RegionStep(g, seed, p, q);
    }
  }

  /**
   * rec_erase(seed) on a grid value: returns the grid with the seed's
   * same-colour region emptied, and how many of the emptied cells a bullet
   * made (combo_bullets) and the grid spawned (combo_bubbles).
   */
  method Erase(g: Grid, seed: Pos) returns (g': Grid, bullets: nat, bubbles: nat)
    requires InGrid(g, seed)
    ensures SameShape(g', g)
    ensures forall p :: InGrid(g, p) ==>
      At(g', p) == if p in Erased(g, seed) then At(g, p).(color := NoColor) else At(g, p)
    ensures g' == EraseResult(g, seed)
    ensures bullets == |BulletCells(g, Erased(g, seed))|
    ensures bubbles == |GridCells(g, Erased(g, seed))|
    ensures bullets + bubbles == |Erased(g, seed)|
  {
    var c := At(g, seed).color;
    if c == NoColor {
      g', bullets, bubbles := g, 0, 0;
    } else {
      ghost var region := Region(g, seed);
      RegionFitsFill(g, seed);
      ghost var erased;
      g', bullets, bubbles, erased := Fill(g, seed, c, region);
      ClosedHoldsRegion(g, seed, erased);
      assert erased == Erased(g, seed);
    }
    CountsPartition(g, Erased(g, seed));
    MatchesEraseResult(g, seed, g');
  }

  /** A grid of g's shape that empties exactly the erased cells is EraseResult(g, seed). */
  lemma MatchesEraseResult(g: Grid, seed: Pos, g': Grid)
    requires InGrid(g, seed) && SameShape(g', g)
    requires forall p :: InGrid(g, p) ==>
      At(g', p) == if p in Erased(g, seed) then At(g, p).(color := NoColor) else At(g, p)
    ensures g' == EraseResult(g, seed)
  {
    EraseResultCells(g, seed);
    GridExtensionality(g', EraseResult(g, seed));
  }

  /** Cell by cell, EraseResult empties exactly the erased cells. */
  lemma EraseResultCells(g: Grid, seed: Pos)
    requires InGrid(g, seed)
    ensures forall p {:trigger At(EraseResult(g, seed), p)} :: InGrid(g, p) ==>
      At(EraseResult(g, seed), p) == if p in Erased(g, seed) then At(g, p).(color := NoColor) else At(g, p)
  {
  }

  /**
   * The erase is maximal: once the seed's region is emptied, no cell of the
   * seed's colour is left next to any emptied cell.
   */
  lemma EraseIsMaximal(g: Grid, seed: Pos, p: Pos, q: Pos)
    requires InGrid(g, seed) && At(g, seed).Occupied()
    requires p in Erased(g, seed) && Adjacent(p, q) && InGrid(g, q)
    ensures At(EraseResult(g, seed), q).color != At(g, seed).color
  {
    EraseResultCells(g, seed);
    if At(g, q).color == At(g, seed).color {
      RegionStep(g, seed, p, q);
    }
  }

  /** From an empty cell rec_erase clears nothing and counts nothing. */
  lemma EraseEmptyCell(g: Grid, seed: Pos)
    requires InGrid(g, seed) && !At(g, seed).Occupied()
    ensures EraseResult(g, seed) == g
    ensures |BulletCells(g, Erased(g, seed))| == 0 && |GridCells(g, Erased(g, seed))| == 0
  {
    EraseResultCells(g, seed);
    GridExtensionality(EraseResult(g, seed), g);
  }

  /** The neighbours of p that are in the grid and have colour c, in rec_erase's order. */
  function SameColourNeighbours(g: Grid, p: Pos, c: Color): (r: seq<Pos>)
    ensures forall q {:trigger q in r} :: q in r <==> Adjacent(p, q) && InGrid(g, q) && At(g, q).color == c
  {
    var r := SameColour(g, Neighbours(p), c);
    assert forall q :: Adjacent(p, q) <==> q in Neighbours(p) by {
      forall q ensures Adjacent(p, q) <==> q in Neighbours(p) {
        AdjacentIsNeighbour(p, q);
      }
    }
    r
  }

  /** The cells of ns that are in the grid and have colour c, in order. */
  function SameColour(g: Grid, ns: seq<Pos>, c: Color): (r: seq<Pos>)
    ensures forall q {:trigger q in r} :: q in r <==> q in ns && InGrid(g, q) && At(g, q).color == c
  {
    if ns == [] then []
    else (if InGrid(g, ns[0]) && At(g, ns[0]).color == c then [ns[0]] else []) + SameColour(g, ns[1..], c)
  }
}
