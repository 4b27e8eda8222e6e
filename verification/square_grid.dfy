/** The integer part of the square grid (Runtime/SquareGrid.cs,
    `SquareGrid<T>`): cells addressed directly by their array index. */
module SquareGrid {
  import opened SquareAlgebra
  import Grid
  import HexAlgebra
  import HexGrid

  /** `GetCell(Vector2Int)`: the unchecked indexer at `(c.x, c.y)`. Unlike the
      hex grid there is no default fallback, so the index must be valid. */
  function GetCell<T>(g: Grid.Grid<T>, c: Vec2): (r: T)
    requires Grid.WellFormed(g) && Grid.IsValid(g, c.x, c.y)
  {
    Grid.Get(g, c.x, c.y)
  }

  /** A square grid and a hex grid over the same array read the same cell
      at `c` and at the axial coordinate of offset `c`. */
  lemma GetCellAgreesWithHex<T>(g: Grid.Grid<T>, c: Vec2, dflt: T)
    requires Grid.WellFormed(g) && Grid.IsValid(g, c.x, c.y)
    ensures GetCell(g, c) == HexGrid.GetCell(g, HexAlgebra.FromSquareCoord(c.x, c.y), dflt)
  {
  }

  /** Writing cell `c` through the indexer is what `GetCell(c)` reads back;
      every other cell reads as before. */
  lemma GetCellAfterSet<T>(g: Grid.Grid<T>, c: Vec2, v: T, other: Vec2)
    requires Grid.WellFormed(g) && Grid.IsValid(g, c.x, c.y) && Grid.IsValid(g, other.x, other.y)
    ensures GetCell(Grid.Set(g, c.x, c.y, v), c) == v
    ensures other != c ==> GetCell(Grid.Set(g, c.x, c.y, v), other) == GetCell(g, other)
  {
  }
}
