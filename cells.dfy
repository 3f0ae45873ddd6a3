/**
 * The kill-bubble grid: a sequence of rows, row 0 at the bottom (oldest),
 * the last row at the top (newest); each row a sequence of cells.
 */
module Cells {
  /** A bubble colour; NoColor is the empty slot (Python's None colour). */
  datatype Color = NoColor | Rgb(red: int, green: int, blue: int)

  /** One grid slot: its pixel position, its colour, and whether a player's bullet made it. */
  datatype Cell = Cell(x: int, y: int, color: Color, bulletFlag: bool)
  {
    /** Only bubbles with a colour exist. */
    predicate Occupied() {
      color.Rgb?
    }
  }

  /** A grid coordinate: row index and column index. */
  datatype Pos = Pos(row: int, col: int)

  datatype Option<T> = None | Some(value: T)

  type Grid = seq<seq<Cell>>

  /** Every row is exactly `width` cells wide. */
  predicate Rectangular(g: Grid, width: nat) {
    forall i :: 0 <= i < |g| ==> |g[i]| == width
  }

  /** Two grids with the same number of rows and the same row lengths. */
  predicate SameShape(a: Grid, b: Grid) {
    |a| == |b| && forall i :: 0 <= i < |a| ==> |a[i]| == |b[i]|
  }

  predicate InGrid(g: Grid, p: Pos) {
    0 <= p.row < |g| && 0 <= p.col < |g[p.row]|
  }

  /** Column j is a column index, present in every row. */
  predicate ColumnInGrid(g: Grid, j: int) {
    0 <= j && forall i :: 0 <= i < |g| ==> j < |g[i]|
  }

  function At(g: Grid, p: Pos): Cell
    requires InGrid(g, p)
  {
    g[p.row][p.col]
  }

  /** The four neighbours, in the order rec_erase tries them. */
  function Neighbours(p: Pos): seq<Pos> {
    [Pos(p.row + 1, p.col), Pos(p.row - 1, p.col), Pos(p.row, p.col + 1), Pos(p.row, p.col - 1)]
  }

  /** q is one of the four neighbours of p (diagonals never count). */
  predicate Adjacent(p: Pos, q: Pos) {
    || (p.col == q.col && (q.row == p.row + 1 || q.row == p.row - 1))
    || (p.row == q.row && (q.col == p.col + 1 || q.col == p.col - 1))
  }

  /** Neighbours lists exactly the adjacent positions. */
  lemma AdjacentIsNeighbour(p: Pos, q: Pos)
    ensures Adjacent(p, q) <==> q in Neighbours(p)
  {
  }

  /** The grid with the cell at p replaced by c. */
  function SetCell(g: Grid, p: Pos, c: Cell): (r: Grid)
    requires InGrid(g, p)
    ensures SameShape(r, g)
    ensures At(r, p) == c
    ensures forall q {:trigger At(r, q)} :: InGrid(g, q) && q != p ==> At(r, q) == At(g, q)
  {
    g[p.row := g[p.row][p.col := c]]
  }

  /** The grid with only the colour of the cell at p changed to c. */
  function Paint(g: Grid, p: Pos, c: Color): (r: Grid)
    requires InGrid(g, p)
    ensures SameShape(r, g)
    ensures At(r, p) == At(g, p).(color := c)
    ensures forall q {:trigger At(r, q)} :: InGrid(g, q) && q != p ==> At(r, q) == At(g, q)
  {
    SetCell(g, p, At(g, p).(color := c))
  }

  /** A grid shaped like a rectangular grid is rectangular. */
  lemma SameShapeRectangular(a: Grid, b: Grid, width: nat)
    requires SameShape(a, b) && Rectangular(b, width)
    ensures Rectangular(a, width)
  {
    forall i | 0 <= i < |a|
      ensures |a[i]| == width
    {
      assert |a[i]| == |b[i]|;
    }
  }

  /** Grids of the same shape that agree on every cell are equal. */
  lemma {:induction false} GridExtensionality(a: Grid, b: Grid)
    requires SameShape(a, b)
    requires forall p :: InGrid(a, p) ==> At(a, p) == At(b, p)
    ensures a == b
  {
    forall i | 0 <= i < |a|
      ensures a[i] == b[i]
    {
      forall j | 0 <= j < |a[i]|
        ensures a[i][j] == b[i][j]
      {
        assert At(a, Pos(i, j)) == At(b, Pos(i, j));
      }
    }
  }
}
