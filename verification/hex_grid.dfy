/** The integer part of the hex grid (Runtime/HexGrid.cs, `HexGrid<T>`):
    cells addressed by axial coordinates, stored in a rectangular grid at
    their offset coordinates, and the repair step that makes a rounded cube
    coordinate sum to zero. */
module HexGrid {
  import opened IntMath
  import opened HexAlgebra
  import Grid

  /** `IsValid(HexCoord)`: the bounds check of the offset cell
      `(X + Z / 2, Z)`. */
  predicate IsValid<T>(g: Grid.Grid<T>, c: HexCoord)
  {
    Grid.IsValid(g, c.x + TruncDiv(c.z, 2), c.z)
  }

  /** `GetCell(HexCoord)`: the payload stored at the offset cell of `c`, or
      `dflt` (the runtime's `default(T)`) when that cell is out of range or
      the array is null. Never faults. */
  function GetCell<T>(g: Grid.Grid<T>, c: HexCoord, dflt: T): (r: T)
    requires Grid.WellFormed(g)
    ensures IsValid(g, c) ==> r == Grid.Get(g, ToSquareCoord(c).0, ToSquareCoord(c).1)
    ensures !IsValid(g, c) ==> r == dflt
  {
    if !Grid.IsValid(g, c.x + TruncDiv(c.z, 2), c.z) then dflt
    else Grid.Get(g, c.x + TruncDiv(c.z, 2), c.z)
  }

  /** Hex validity agrees with the grid's own bounds check through the offset
      conversion, in both directions. */
  lemma IsValidMatchesSquare<T>(g: Grid.Grid<T>, c: HexCoord, x: int, z: int)
    ensures IsValid(g, FromSquareCoord(x, z)) == Grid.IsValid(g, x, z)
    ensures IsValid(g, c) == Grid.IsValid(g, ToSquareCoord(c).0, ToSquareCoord(c).1)
  {
  }

  /** Only rows `Z >= 0` are ever in range, and there truncating and
      Euclidean division agree: validity and lookup would be the same with
      Dafny's own `/`. */
  lemma DivisionIrrelevantInGrid<T>(g: Grid.Grid<T>, c: HexCoord, dflt: T)
    requires Grid.WellFormed(g)
    ensures IsValid(g, c) == Grid.IsValid(g, c.x + c.z / 2, c.z)
    ensures IsValid(g, c) ==> GetCell(g, c, dflt) == Grid.Get(g, c.x + c.z / 2, c.z)
  {
    if c.z >= 0 {
      TruncDivNonNegative(c.z, 2);
    }
  }

  /** Every stored cell can be read back through its axial coordinate. */
  lemma GetCellFromSquareCoord<T>(g: Grid.Grid<T>, x: int, z: int, dflt: T)
    requires Grid.WellFormed(g) && Grid.IsValid(g, x, z)
    ensures GetCell(g, FromSquareCoord(x, z), dflt) == Grid.Get(g, x, z)
  {
  }

  /** Storing through the offset cell of `c` is what `GetCell(c)` then reads. */
  lemma GetCellAfterSet<T>(g: Grid.Grid<T>, c: HexCoord, v: T, dflt: T)
    requires Grid.WellFormed(g) && IsValid(g, c)
    ensures GetCell(Grid.Set(g, ToSquareCoord(c).0, ToSquareCoord(c).1, v), c, dflt) == v
  {
  }

  // ---------------------------------------------------------------------------
  // Cube rounding, repair step

  /** The last step of `FromPos`. `iX, iY, iZ` are the three cube components
      rounded independently, `dX, dY, dZ` the magnitudes of their rounding
      errors; the floating-point computation that produces them is not
      modelled. If the rounded components do not sum to zero, the one with
      the largest error is recomputed from the other two. */
  function Repair(iX: int, iY: int, iZ: int, dX: real, dY: real, dZ: real): (r: HexCoord)
    ensures iX + iY + iZ == 0 ==> r == HexCoord(iX, iZ)
    ensures iX + iY + iZ != 0 && dX > dY && dX > dZ ==>
      r.x == -iY - iZ && Y(r) == iY && r.z == iZ
    ensures iX + iY + iZ != 0 && !(dX > dY && dX > dZ) && dZ > dY ==>
      r.x == iX && Y(r) == iY && r.z == -iX - iY
    ensures iX + iY + iZ != 0 && !(dX > dY && dX > dZ) && !(dZ > dY) ==>
      r.x == iX && Y(r) == -iX - iZ && r.z == iZ
  {
    if iX + iY + iZ == 0 then HexCoord(iX, iZ)
    else if dX > dY && dX > dZ then HexCoord(-iY - iZ, iZ)
    else if dZ > dY then HexCoord(iX, -iX - iY)
    else HexCoord(iX, iZ)
  }

  /** Number of cube components in which `r` differs from `(iX, iY, iZ)`. */
  function Changed(r: HexCoord, iX: int, iY: int, iZ: int): nat
  {
    (if r.x != iX then 1 else 0) + (if Y(r) != iY then 1 else 0) + (if r.z != iZ then 1 else 0)
  }

  /** The repair keeps a zero-sum rounding as it is, and otherwise changes
      exactly one component: one whose rounding error is at least as large as
      each of the other two. */
  lemma RepairChangesLeastConfident(iX: int, iY: int, iZ: int, dX: real, dY: real, dZ: real)
    ensures var r := Repair(iX, iY, iZ, dX, dY, dZ);
      && (iX + iY + iZ == 0 <==> Changed(r, iX, iY, iZ) == 0)
      && (iX + iY + iZ != 0 ==> Changed(r, iX, iY, iZ) == 1)
      && (r.x != iX ==> dX >= dY && dX >= dZ)
      && (Y(r) != iY ==> dY >= dX && dY >= dZ)
      && (r.z != iZ ==> dZ >= dX && dZ >= dY)
  {
  }
}
