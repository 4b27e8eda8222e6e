# Generic grid package: coordinate and direction algebra

A Dafny model of the discrete core of a generic 2D grid library for a game
engine. It covers:

- `Grid<T>`, a fixed-size dense 2D array whose backing store may be null. It
  offers bounds and border checks, an unchecked indexer, `Fill`, a row-major
  `Iterate` and a bracketed text dump.
- The hex algebra. `HexDir` has six directions with `Opposite`, `Next`,
  `Previous` and unit offsets. `HexCoord` is an axial/cube coordinate whose
  third component is derived. It has arithmetic, neighbours, equality and
  hashing, and a conversion from offset ("square") coordinates.
- The integer part of `HexGrid<T>`: bounds checks and cell lookup through the
  offset layout, and the repair step of cube rounding.
- The square algebra. `SquareDir` has eight directions with offsets, 3D steps,
  `Opposite` and the reverse lookup `GetDir`. `SquareGrid.GetCell` is the
  unchecked lookup.

Layout, one module per component:

| file | module | models |
|---|---|---|
| `wrappers.dfy` | `Wrappers` | `Option` for a nullable reference; `Result`/`Fault` for an exception |
| `int_math.dfy` | `IntMath` | the library's `/` on `int`, which truncates toward zero |
| `grid.dfy` | `Grid` | `Grid<T>` |
| `hex_algebra.dfy` | `HexAlgebra` | `HexDir`, `HexDirExtensions`, `HexCoord` |
| `hex_grid.dfy` | `HexGrid` | `HexGrid<T>.IsValid`/`GetCell`, the repair step of `FromPos` |
| `square_algebra.dfy` | `SquareAlgebra` | `SquareDir`, `SquareDirExtension` |
| `square_grid.dfy` | `SquareGrid` | `SquareGrid<T>.GetCell` |

Modelling choices:

- The backing `T[,]` is `Array2(width, height, cols)` with `cols[x][y]` the
  cell `Data[x, y]`. The dimensions are stored explicitly, so a `0 × h` array
  still reports height `h`.
- A grid is `Grid(data: Option<Array2<T>>)`, where `None` is a null array. The
  `Grid(T[,] d)` constructor is the datatype constructor itself.
- The grid is an immutable value. The indexer's setter (`Set`) and `Fill`
  return the updated grid.
- `default(T)` cannot be named generically, so it is passed in as `dflt`. This
  applies to `Create`, the model of `new T[x, y]`, and to `HexGrid.GetCell`.
- The unchecked operations require what the runtime would otherwise fault on.
  These are the indexer, `Width`, `Height` and `SquareGrid.GetCell`.
- `IsBoarder` and `GetDir` return a `Result`, because callers can reach their
  fault paths. `IsBoarder` short-circuits: on a null array a zero coordinate
  still answers `true` and any other query faults. `GetDir` throws
  `KeyNotFound` for any offset outside the eight.
- The library's `/` truncates toward zero, while Dafny's is Euclidean. The
  offset conversions therefore go through `IntMath.TruncDiv`. This matters
  only for the values `FromSquareCoord` and `ToSquareCoord` give in negative
  rows: `FromSquareCoord(0, -1)` is `(0, -1)`, where a Euclidean quotient gives
  `(1, -1)`. No grid holds a negative row, so hex validity and lookup would be
  the same with either division (`HexGrid.DivisionIrrelevantInGrid`).
- `Iterate`'s callback is abstracted away. The method returns the sequence of
  `(x, y)` pairs the callback would receive. `Fill` is the fold of the
  indexer's setter over exactly that sequence, as `Fill` in the library calls
  `Iterate`.
- The cell rendering inside `ToString` is a parameter `show: T -> string`.
  `HashCode.Combine` is a parameter `combine: (int, int) -> int`.
- The cube-rounding repair takes the three independently rounded integers and
  the three rounding-error magnitudes. The errors are `real`s; the float
  arithmetic that produces them is not modelled.
- `SquareDir.ToVector3` returns vectors whose components are all in
  {-1, 0, 1}. They are modelled exactly as integer triples.

Two behaviours of the code worth knowing:

- `IsBoarder` checks no bounds, and faults on a null array unless a
  coordinate is 0.
- `HexCoord.Equals` compares `X` and `Y`; `HexAlgebra.Equals` proves this is
  equality of `(X, Z)`.

## Model

| member | source | states |
|---|---|---|
| `IntMath.TruncDiv` | Runtime/HexGrid.cs:95 | the quotient leaves a remainder smaller than the divisor that has the sign of the dividend (truncation toward zero) |
| `IntMath.TruncDivNeg` | Runtime/HexGrid.cs:95 | truncating division is symmetric about zero: `(-a) / b == -(a / b)` |
| `IntMath.TruncDivNonNegative` | Runtime/HexGrid.cs:95 | on a non-negative dividend and positive divisor, truncating and Euclidean division agree |
| `Grid.Create` | Runtime/Grid.cs:8-11 | a new grid is non-null, has the requested width and height, and every cell holds the default value |
| `Grid.CreateFilled` | Runtime/Grid.cs:13-17 | the constructor with a value gives a non-null grid of the requested size in which every cell holds that value |
| `Grid.Width` | Runtime/Grid.cs:25-28 | the array's first dimension length; requires a non-null array, since the library faults on a null one |
| `Grid.Height` | Runtime/Grid.cs:30-33 | the array's second dimension length; requires a non-null array, since the library faults on a null one |
| `Grid.IsValid` | Runtime/Grid.cs:41-44 | `0 <= x < Width` and `0 <= y < Height` on a non-null array; false on a null array and never faults |
| `Grid.Get` | Runtime/Grid.cs:46-48 | the unchecked indexer getter: the cell `Data[x, y]`; requires a valid index on a well-formed array |
| `Grid.IsBoarder` | Runtime/Grid.cs:35-38 | on a non-null array: border iff `x == 0`, `y == 0`, `x == Width-1` or `y == Height-1`; on a null array it answers `true` iff a coordinate is zero, otherwise it faults |
| `Grid.BorderMeansOpenSide` | Runtime/Grid.cs:35-44 | an in-range cell is on the border exactly when one of its four axis neighbours is out of range |
| `Grid.BorderOutsideGrid` | Runtime/Grid.cs:35-44 | the border test does not check bounds: `(Width-1, 100)` counts as border although it is out of range |
| `Grid.VisitsAreValid` | Runtime/Grid.cs:41-44 | `IsValid(x, y)` holds exactly for the pairs `Iterate` visits: `0 <= x < Width`, `0 <= y < Height`, never on a null array |
| `Grid.Set` | Runtime/Grid.cs:46-50 | writing a valid cell keeps the dimensions, stores the value there, and leaves every other cell unchanged |
| `Grid.Fill` | Runtime/Grid.cs:53-56 | after `Fill(v)` every cell holds `v`; nullness and dimensions are unchanged |
| `Grid.SetAll` | Runtime/Grid.cs:55 | storing along a sequence of valid pairs keeps nullness and dimensions |
| `Grid.SetAllEffect` | Runtime/Grid.cs:55 | after storing `v` along a sequence of pairs, a cell holds `v` if it was in the sequence and its old value otherwise |
| `Grid.Iterate` | Runtime/Grid.cs:58-72 | the nested loops (y outer, x inner) produce exactly the row-major visit sequence, empty for a null array |
| `Grid.RowMajorIndex` | Runtime/Grid.cs:65-71 | there are `Width * Height` visits and the k-th is `(k mod Width, k div Width)` |
| `Grid.RowMajorMembers` | Runtime/Grid.cs:65-71 | the row-major sweep contains a pair iff it lies in `[0, Width) × [0, Height)` |
| `Grid.RowMajorDistinct` | Runtime/Grid.cs:65-71 | no pair is visited twice |
| `Grid.VisitsDistinct` | Runtime/Grid.cs:58-72 | `Iterate` hands each pair to its callback at most once |
| `Grid.ToString` | Runtime/Grid.cs:76-96 | the string built cell by cell is `"null"` for a null array; otherwise one `"[" + " s " per cell + "]\n"` line per row `y`, cells in increasing `x` |
| `Grid.RenderLines` | Runtime/Grid.cs:84-93 | when no cell renders a newline, the dump of a non-null grid has exactly `Height` lines |
| `HexAlgebra.Each` | Runtime/HexGrid.cs:43-46 | six directions; entry `k` has ordinal `k`, so each direction sits at its own ordinal |
| `HexAlgebra.IndexingMapWraps` | Runtime/HexGrid.cs:28-34 | every key from -1 to 8 is in the table and names the direction with ordinal `key mod 6` |
| `HexAlgebra.Opposite` | Runtime/HexGrid.cs:53-56 | the lookup never misses and yields ordinal `(d + 3) mod 6` |
| `HexAlgebra.Previous` | Runtime/HexGrid.cs:58-61 | the lookup never misses and yields ordinal `(d - 1) mod 6` |
| `HexAlgebra.Next` | Runtime/HexGrid.cs:63-66 | the lookup never misses and yields ordinal `(d + 1) mod 6` |
| `HexAlgebra.OppositeInvolutive` | Runtime/HexGrid.cs:53-56 | `Opposite` is an involution without fixed points |
| `HexAlgebra.NextPreviousInverse` | Runtime/HexGrid.cs:58-66 | `Next` and `Previous` are mutual inverses |
| `HexAlgebra.OppositeIsThreeSteps` | Runtime/HexGrid.cs:53-66 | `Opposite` is three `Next` steps |
| `HexAlgebra.Y` | Runtime/HexGrid.cs:85 | every coordinate satisfies the cube invariant `X + Y + Z == 0` |
| `HexAlgebra.Neg` | Runtime/HexGrid.cs:99 | unary minus negates every cube component |
| `HexAlgebra.Add` | Runtime/HexGrid.cs:101-102 | addition is componentwise on all three cube components |
| `HexAlgebra.AddCommutative` | Runtime/HexGrid.cs:101-102 | addition commutes |
| `HexAlgebra.Sub` | Runtime/HexGrid.cs:104-105 | `a + (-b)` is componentwise subtraction |
| `HexAlgebra.SubAddCancel` | Runtime/HexGrid.cs:101-105 | `(a - b) + b == a` and `(a + b) - b == a` |
| `HexAlgebra.Equals` | Runtime/HexGrid.cs:133-137 | comparing `X` and `Y` is the same as equality of the stored `(X, Z)` |
| `HexAlgebra.HashCode` | Runtime/HexGrid.cs:128-131 | the runtime's combiner applied to `(X, Z)` in that order |
| `HexAlgebra.HashRespectsEquals` | Runtime/HexGrid.cs:128-137 | equal coordinates have equal hashes, whatever the combining function |
| `HexAlgebra.FromSquareCoord` | Runtime/HexGrid.cs:93-96 | the result has `Z == z` and `X + trunc(Z / 2) == x` |
| `HexAlgebra.SquareCoordRoundTrip` | Runtime/HexGrid.cs:93-96 | offset to axial and axial to offset `(X + Z / 2, Z)` are inverse bijections |
| `HexAlgebra.MirroredRowsShiftOpposite` | Runtime/HexGrid.cs:93-96 | rows `z` and `-z` shift `X` by opposite amounts, because the row shift truncates toward zero |
| `HexAlgebra.SouthWestOfOrigin` | Runtime/HexGrid.cs:95 | the south-west neighbour of the origin converts to offset `(0, -1)`: the row shift of a negative row is truncated toward zero |
| `HexAlgebra.ToCoord` | Runtime/HexGrid.cs:48-51 | the `_coordMap` lookup for the direction; the table is total, so it never misses |
| `HexAlgebra.ToCoordIsUnit` | Runtime/HexGrid.cs:36-51 | the offset table lookup never misses and every offset lies at hex distance 1 from the origin |
| `HexAlgebra.ToCoordInjective` | Runtime/HexGrid.cs:36-41 | distinct directions have distinct offsets |
| `HexAlgebra.UnitOffsetsAreDirections` | Runtime/HexGrid.cs:36-41 | every hex at distance 1 is the offset of some direction |
| `HexAlgebra.OppositeNegates` | Runtime/HexGrid.cs:36-56 | `ToCoord(Opposite(d)) == -ToCoord(d)` for all six directions |
| `HexAlgebra.Neighbour` | Runtime/HexGrid.cs:123-126 | the neighbour minus the cell is exactly the direction's offset |
| `HexAlgebra.NeighbourIsAdjacent` | Runtime/HexGrid.cs:123-126 | every neighbour lies at hex distance 1 from the cell |
| `HexAlgebra.Neighbours` | Runtime/HexGrid.cs:112-121 | six entries; entry `(int) d` is `Neighbour(d)`; pairwise distinct; each at hex distance 1 |
| `HexGrid.IsValid` | Runtime/HexGrid.cs:201-204 | the grid bounds check of the offset cell `(X + trunc(Z / 2), Z)`; never faults, false on a null array |
| `HexGrid.GetCell` | Runtime/HexGrid.cs:192-195 | never faults; the cell at `(X + trunc(Z / 2), Z)` when that is in range, `default` otherwise (including a null array) |
| `HexGrid.IsValidMatchesSquare` | Runtime/HexGrid.cs:201-204 | `IsValid(FromSquareCoord(x, z)) == Grid.IsValid(x, z)`, and hex validity is the grid bounds check of the offset cell |
| `HexGrid.DivisionIrrelevantInGrid` | Runtime/HexGrid.cs:192-204 | hex validity and `GetCell` are the same whether `Z / 2` truncates or is Euclidean, since only rows `Z >= 0` are in range |
| `HexGrid.GetCellFromSquareCoord` | Runtime/HexGrid.cs:192-195 | every stored cell `(x, z)` reads back through `FromSquareCoord(x, z)` |
| `HexGrid.GetCellAfterSet` | Runtime/HexGrid.cs:192-195 | a value written at a hex's offset cell is what `GetCell` then returns for that hex |
| `HexGrid.Repair` | Runtime/HexGrid.cs:176-190 | zero-sum rounding is kept; otherwise `X` is recomputed if `dX` is strictly largest, else `Z` if `dZ > dY`, else `Y`, the other two components staying as rounded |
| `HexGrid.RepairChangesLeastConfident` | Runtime/HexGrid.cs:176-190 | a non-zero-sum rounding has exactly one component changed, and its rounding error is at least each of the other two |
| `SquareAlgebra.ToCoord` | Runtime/SquareGrid.cs:34-48 | every offset has both components in {-1, 0, 1} and is not `(0, 0)` |
| `SquareAlgebra.ToCoordInjective` | Runtime/SquareGrid.cs:34-48 | distinct directions have distinct offsets, so the eight offsets are pairwise distinct |
| `SquareAlgebra.ToVector3` | Runtime/SquareGrid.cs:50-64 | `ToVector3(d) == (ToCoord(d).x, 0, ToCoord(d).y)` |
| `SquareAlgebra.Opposite` | Runtime/SquareGrid.cs:66-80 | the result has ordinal `(d + 4) mod 8` |
| `SquareAlgebra.OppositeInvolutive` | Runtime/SquareGrid.cs:66-80 | `Opposite` is an involution without fixed points |
| `SquareAlgebra.OppositeNegates` | Runtime/SquareGrid.cs:34-80 | `ToCoord(Opposite(d)) == -ToCoord(d)` for all eight directions |
| `SquareAlgebra.DirCoordToEnumAgrees` | Runtime/SquareGrid.cs:21-32 | the reverse table maps `ToCoord(d)` to `d` for every direction |
| `SquareAlgebra.DirCoordToEnumKeys` | Runtime/SquareGrid.cs:21-32 | every entry of the reverse table maps an offset to the direction with that offset |
| `SquareAlgebra.GetDir` | Runtime/SquareGrid.cs:82-85 | succeeds iff the offset is one of the eight unit offsets, returning the direction with that offset; otherwise `KeyNotFound` |
| `SquareAlgebra.GetDirToCoord` | Runtime/SquareGrid.cs:82-85 | `GetDir(ToCoord(d)) == d` for every direction |
| `SquareAlgebra.GetDirRejects` | Runtime/SquareGrid.cs:82-85 | `(0, 0)` and `(2, 0)` throw `KeyNotFound` |
| `SquareGrid.GetCell` | Runtime/SquareGrid.cs:109-112 | the unchecked indexer at `(c.x, c.y)`; requires a valid index, with no default fallback |
| `SquareGrid.GetCellAgreesWithHex` | Runtime/SquareGrid.cs:109-112 | the unchecked lookup at a valid `c` reads the same cell as the hex lookup at `FromSquareCoord(c)` |
| `SquareGrid.GetCellAfterSet` | Runtime/SquareGrid.cs:109-112 | after writing cell `c`, `GetCell(c)` returns the value and every other valid cell reads as before |

## Left out

- World-space geometry is not modelled. This covers `HexGrid.GetPos` and the
  float part of `FromPos`, `HexUtil.InnerRadius` and `CellSize`,
  `SquareGrid.GetPos` and `FromPos`, all of `SquareGrid2D`,
  `SpatialGrid.HalfCellSize`, and both `GetCell(Vector3)` overloads. They are
  floating-point `Vector3`/`Mathf` arithmetic, and only the integer repair step
  of hex rounding is modelled.
- `SpatialGrid` is not modelled. It only stores the float anchor and cell size
  and declares the members the concrete grids implement.
- `SquareGrid.IsValid(Vector2Int)` is not modelled. It throws "not implemented"
  and has no behaviour to model.
- `HexCoord.ToString` is not modelled. It is plain integer formatting.
- The unary `+` on `HexCoord` is not modelled. It is the identity.
- The concrete `HashCode.Combine` value is not modelled. The hash is stated
  only as a function of `(X, Z)`.
- `Iterate`'s callback is not modelled as an arbitrary effect. Only its
  argument sequence is, which is all `Fill` uses.
- Enum values outside the declared members are not modelled. In the library a
  cast can make `HexDir` or `SquareDir` hold any integer. Here the directions
  are datatypes, so the `KeyNotFound` from `Opposite`/`Next`/`Previous` and the
  `ArgumentOutOfRangeException` from the square `switch`es cannot arise.
- A negative array dimension is not modelled. The runtime throws on it, and
  `Create` takes `nat` dimensions.
- Mutation in place is not modelled. The indexer's setter and `Fill` return a
  new grid value, and aliasing of the backing array between grid objects is
  out of scope.
- `HexAlgebra.Each`: the shared, writable `_each` array that `Each()` returns
  by reference is modelled as an immutable sequence. A caller that writes into
  it would change every later `Each()` and `Neighbours()` result; that
  aliasing is out of scope.
- `HexAlgebra.Y`, `HexAlgebra.Add`, `HexAlgebra.Neg`, `HexAlgebra.Sub`,
  `HexAlgebra.FromSquareCoord`, `HexAlgebra.ToSquareCoord`, `HexAlgebra.Neighbour`,
  `HexGrid.IsValid` and `HexGrid.GetCell`: the library's `int` arithmetic
  wraps at 32 bits, while the model uses unbounded integers. For example,
  `(int.MaxValue, 0)` plus the `E` offset has `X == int.MinValue` in the
  library, and `-(int.MinValue, 0)` is its own negation. The proved identities
  (`SubAddCancel`, `OppositeNegates`, the distinctness in `Neighbours`) still
  hold modulo 2^32; the bounds and distance facts hold only away from
  overflow.
- `Grid.ToString`: cell rendering is the total parameter `show`, but the
  library calls `Data[i, j].ToString()`, which throws `NullReferenceException`
  on a null cell. A fresh grid of a reference type (all cells null) therefore
  throws there and not in the model.
