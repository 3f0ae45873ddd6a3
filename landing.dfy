/**
 * falling_bubble_lands: a falling bubble in column j lands on the first row,
 * counting from the bottom (row 0), whose cell in column j is occupied and
 * lies within `reach` of the faller vertically. The faller's colour is then
 * written into the cell one row further up the list, row i + 1.
 */
module Landing {
  import opened Cells

  function Abs(n: int): nat {
    if n < 0 then -n else n
  }

  /** Row i stops a faller at height y: its cell in column j is occupied and close enough. */
  predicate Stops(g: Grid, j: int, i: int, y: int, reach: int)
    requires ColumnInGrid(g, j) && 0 <= i < |g|
  {
    var b := At(g, Pos(i, j));
    b.color.Rgb? && Abs(b.y - y) <= reach
  }

  /** The lowest row at or above `from` that stops the faller, if any. */
  function FirstStop(g: Grid, j: int, y: int, reach: int, from: nat): (r: Option<nat>)
    requires ColumnInGrid(g, j) && from <= |g|
    ensures r.Some? ==> from <= r.value < |g| && Stops(g, j, r.value, y, reach)
    ensures r.Some? ==> forall i :: from <= i < r.value ==> !Stops(g, j, i, y, reach)
    ensures r.None? <==> forall i :: from <= i < |g| ==> !Stops(g, j, i, y, reach)
    decreases |g| - from
  {
    if from == |g| then None
    else if Stops(g, j, from, y, reach) then Some(from)
    else FirstStop(g, j, y, reach, from + 1)
  }

  /** How a landing test ends; PastTopRow is the IndexError raised when the stopping row is the top one. */
  datatype Landing = Missed | LandsAt(row: nat) | PastTopRow

  /** The outcome of falling_bubble_lands for a faller in column j at height y. */
  function LandingOf(g: Grid, j: int, y: int, reach: int): (r: Landing)
    requires ColumnInGrid(g, j)
    ensures r.Missed? <==> forall i :: 0 <= i < |g| ==> !Stops(g, j, i, y, reach)
    ensures r.LandsAt? ==> 1 <= r.row < |g| && Stops(g, j, r.row - 1, y, reach)
    ensures r.LandsAt? ==> forall i :: 0 <= i < r.row - 1 ==> !Stops(g, j, i, y, reach)
    ensures r.PastTopRow? <==> |g| > 0 && Stops(g, j, |g| - 1, y, reach)
                               && forall i :: 0 <= i < |g| - 1 ==> !Stops(g, j, i, y, reach)
  {
    match FirstStop(g, j, y, reach, 0)
    case None => Missed
    case Some(i) => if i + 1 < |g| then LandsAt(i + 1) else PastTopRow
  }

  /** The grid after the test: only a landing writes, and only the colour of one cell. */
  function Land(g: Grid, j: int, y: int, reach: int, c: Color): (g': Grid)
    requires ColumnInGrid(g, j)
    ensures SameShape(g', g)
    ensures LandingOf(g, j, y, reach).LandsAt? ==>
      var p := Pos(LandingOf(g, j, y, reach).row, j);
      At(g', p) == At(g, p).(color := c) &&
      forall q {:trigger At(g', q)} :: InGrid(g, q) && q != p ==> At(g', q) == At(g, q)
    ensures !LandingOf(g, j, y, reach).LandsAt? ==> g' == g
  {
    var l := LandingOf(g, j, y, reach);
    if l.LandsAt? then Paint(g, Pos(l.row, j), c) else g
  }
}
