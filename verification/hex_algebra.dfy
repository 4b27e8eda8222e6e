/** Hex direction and axial-coordinate algebra (Runtime/HexGrid.cs, the
    `HexDir`, `HexDirExtensions` and `HexCoord` part). */
module HexAlgebra {
  import opened IntMath

  /** The six neighbour directions of a pointy-top hex, in ordinal order:
      NW and NE above, W and E beside, SW and SE below. */
  datatype HexDir = NE | E | SE | SW | W | NW

  /** The enum's underlying value, `(int) direction`. */
  function Ordinal(d: HexDir): (n: nat)
    ensures n < 6
  {
    match d
    case NE => 0
    case E => 1
    case SE => 2
    case SW => 3
    case W => 4
    case NW => 5
  }

  lemma OrdinalInjective(a: HexDir, b: HexDir)
    ensures Ordinal(a) == Ordinal(b) ==> a == b
  {
  }

  /** `Each()`: all six directions, in ordinal order. */
  function Each(): (ds: seq<HexDir>)
    ensures |ds| == 6
    ensures forall k :: 0 <= k < |ds| ==> Ordinal(ds[k]) == k
    ensures forall d :: ds[Ordinal(d)] == d
  {
    [NE, E, SE, SW, W, NW]
  }

  // ---------------------------------------------------------------------------
  // Cyclic stepping

  /** The lookup table behind `Opposite`, `Previous` and `Next`: direction by
      ordinal, for the keys -1 .. 8 the shifted ordinals can reach. */
  const IndexingMap: map<int, HexDir> :=
    map[-1 := NW, 0 := NE, 1 := E, 2 := SE, 3 := SW, 4 := W, 5 := NW, 6 := NE, 7 := E, 8 := SE]

  /** Every key from -1 to 8 is present and names the direction whose
      ordinal is the key modulo 6. */
  lemma IndexingMapWraps(k: int)
    requires -1 <= k <= 8
    ensures k in IndexingMap && Ordinal(IndexingMap[k]) == k % 6
  {
    if k < 2 {
      if k == -1 {} else if k == 0 {} else {}
    } else if k < 5 {
      if k == 2 {} else if k == 3 {} else {}
    } else {
      if k == 5 {} else if k == 6 {} else if k == 7 {} else {}
    }
  }

  /** The direction three steps round: the lookup at `ordinal + 3` never misses. */
  function Opposite(d: HexDir): (r: HexDir)
    ensures Ordinal(r) == (Ordinal(d) + 3) % 6
  {
    IndexingMapWraps(Ordinal(d) + 3);
    IndexingMap[Ordinal(d) + 3]
  }

  /** One step back round the cycle: the lookup at `ordinal - 1` never misses. */
  function Previous(d: HexDir): (r: HexDir)
    ensures Ordinal(r) == (Ordinal(d) + 5) % 6
  {
    IndexingMapWraps(Ordinal(d) - 1);
    IndexingMap[Ordinal(d) - 1]
  }

  /** One step forward round the cycle: the lookup at `ordinal + 1` never misses. */
  function Next(d: HexDir): (r: HexDir)
    ensures Ordinal(r) == (Ordinal(d) + 1) % 6
  {
    IndexingMapWraps(Ordinal(d) + 1);
    IndexingMap[Ordinal(d) + 1]
  }

  lemma OppositeInvolutive(d: HexDir)
    ensures Opposite(Opposite(d)) == d
    ensures Opposite(d) != d
  {
    OrdinalInjective(Opposite(Opposite(d)), d);
  }

  lemma NextPreviousInverse(d: HexDir)
    ensures Previous(Next(d)) == d
    ensures Next(Previous(d)) == d
  {
    var o := Ordinal(d);
    assert Ordinal(Previous(Next(d))) == o by {
      assert Ordinal(Next(d)) == (o + 1) % 6;
      if o == 5 {} else {}
    }
    assert Ordinal(Next(Previous(d))) == o by {
      assert Ordinal(Previous(d)) == (o + 5) % 6;
      if o == 0 {} else {}
    }
    OrdinalInjective(Previous(Next(d)), d);
    OrdinalInjective(Next(Previous(d)), d);
  }

  /** The opposite direction is three `Next` steps away. */
  lemma OppositeIsThreeSteps(d: HexDir)
    ensures Opposite(d) == Next(Next(Next(d)))
  {
    var o := Ordinal(d);
    assert Ordinal(Next(Next(Next(d)))) == (o + 3) % 6 by {
      assert Ordinal(Next(d)) == (o + 1) % 6;
      assert Ordinal(Next(Next(d))) == (o + 2) % 6;
    }
    OrdinalInjective(Opposite(d), Next(Next(Next(d))));
  }

  // ---------------------------------------------------------------------------
  // Axial coordinates

  /** A cube coordinate of which only `x` and `z` are stored. */
  datatype HexCoord = HexCoord(x: int, z: int)

  /** The derived third cube component. */
  function Y(c: HexCoord): (y: int)
    ensures c.x + y + c.z == 0
  {
    -c.x - c.z
  }

  function Add(a: HexCoord, b: HexCoord): (r: HexCoord)
    ensures r.x == a.x + b.x && Y(r) == Y(a) + Y(b) && r.z == a.z + b.z
  {
    HexCoord(a.x + b.x, a.z + b.z)
  }

  function Neg(a: HexCoord): (r: HexCoord)
    ensures r.x == -a.x && Y(r) == -Y(a) && r.z == -a.z
  {
    HexCoord(-a.x, -a.z)
  }

  /** Binary minus, written in the library as `a + (-b)`. */
  function Sub(a: HexCoord, b: HexCoord): (r: HexCoord)
    ensures r.x == a.x - b.x && Y(r) == Y(a) - Y(b) && r.z == a.z - b.z
  {
    Add(a, Neg(b))
  }

  lemma SubAddCancel(a: HexCoord, b: HexCoord)
    ensures Add(Sub(a, b), b) == a
    ensures Sub(Add(a, b), b) == a
  {
  }

  lemma AddCommutative(a: HexCoord, b: HexCoord)
    ensures Add(a, b) == Add(b, a)
  {
  }

  /** `Equals` compares `X` and the derived `Y`; that is the same as
      comparing the stored `X` and `Z`. */
  function Equals(a: HexCoord, b: HexCoord): (r: bool)
    ensures r <==> a == b
  {
    a.x == b.x && Y(a) == Y(b)
  }

  /** `GetHashCode` combines `X` and `Z`; the combining function of the
      runtime is the parameter `combine`. */
  function HashCode(c: HexCoord, combine: (int, int) -> int): int
  {
    combine(c.x, c.z)
  }

  /** Equal coordinates hash alike, whatever the combining function. */
  lemma HashRespectsEquals(a: HexCoord, b: HexCoord, combine: (int, int) -> int)
    requires Equals(a, b)
    ensures HashCode(a, combine) == HashCode(b, combine)
  {
  }

  // ---------------------------------------------------------------------------
  // Offset ("square") coordinates

  /** The axial coordinate of offset cell `(x, z)`: every row `z` is shifted
      by `z / 2`, the quotient truncated toward zero. */
  function FromSquareCoord(x: int, z: int): (c: HexCoord)
    ensures c.z == z && c.x + TruncDiv(z, 2) == x
  {
    HexCoord(x - TruncDiv(z, 2), z)
  }

  /** The offset cell `(X + Z / 2, Z)` at which a hex grid stores `c`. */
  function ToSquareCoord(c: HexCoord): (int, int)
  {
    (c.x + TruncDiv(c.z, 2), c.z)
  }

  /** The two coordinate systems are in bijection. */
  lemma SquareCoordRoundTrip(c: HexCoord, x: int, z: int)
    ensures FromSquareCoord(ToSquareCoord(c).0, ToSquareCoord(c).1) == c
    ensures ToSquareCoord(FromSquareCoord(x, z)) == (x, z)
  {
  }

  /** Rows `z` and `-z` are shifted by mirrored amounts: the conversion of a
      cell in row `-z` moves `X` as far as row `z` does, the other way. */
  lemma MirroredRowsShiftOpposite(x: int, z: int)
    ensures FromSquareCoord(x, -z).x - x == -(FromSquareCoord(x, z).x - x)
  {
    TruncDivNeg(z, 2);
  }

  /** With truncating division the south-west neighbour of the origin, in
      row -1, converts to offset column 0, where a Euclidean quotient would
      give column -1. No grid stores a negative row, so the choice of
      division shows only in the values of the conversion, never in which
      cell is read (`HexGrid.DivisionIrrelevantInGrid`). */
  lemma SouthWestOfOrigin()
    ensures ToSquareCoord(Neighbour(HexCoord(0, 0), SW)) == (0, -1)
  {
    ToCoordValues();
    assert TruncDiv(-1, 2) == 0;
  }

  // ---------------------------------------------------------------------------
  // Directions as offsets, neighbours

  /** Hex distance from the origin: the largest magnitude among the three
      cube components. */
  function Norm(c: HexCoord): nat
  {
    Max(Abs(c.x), Max(Abs(Y(c)), Abs(c.z)))
  }

  function Distance(a: HexCoord, b: HexCoord): nat
  {
    Norm(Sub(a, b))
  }

  /** The unit offset of each direction. */
  const CoordMap: map<HexDir, HexCoord> :=
    map[NE := HexCoord(0, 1), E := HexCoord(1, 0), SE := HexCoord(1, -1),
        SW := HexCoord(0, -1), W := HexCoord(-1, 0), NW := HexCoord(-1, 1)]

  lemma CoordMapTotal(d: HexDir)
    ensures d in CoordMap
  {
  }

  /** `ToCoord`: the offset of a direction, looked up in the table. */
  function ToCoord(d: HexDir): HexCoord
  {
    CoordMapTotal(d);
    CoordMap[d]
  }

  lemma ToCoordValues()
    ensures ToCoord(NE) == HexCoord(0, 1) && ToCoord(E) == HexCoord(1, 0)
    ensures ToCoord(SE) == HexCoord(1, -1) && ToCoord(SW) == HexCoord(0, -1)
    ensures ToCoord(W) == HexCoord(-1, 0) && ToCoord(NW) == HexCoord(-1, 1)
  {
  }

  /** Every offset is a cell at hex distance one from the origin ... */
  lemma ToCoordIsUnit(d: HexDir)
    ensures Norm(ToCoord(d)) == 1
  {
    ToCoordValues();
  }

  lemma ToCoordInjective(a: HexDir, b: HexDir)
    ensures ToCoord(a) == ToCoord(b) ==> a == b
  {
    ToCoordValues();
  }

  /** ... every hex at distance one is an offset ...: the six offsets are exactly
      the unit hexes. */
  lemma UnitOffsetsAreDirections(c: HexCoord)
    requires Norm(c) == 1
    ensures exists d :: ToCoord(d) == c
  {
    ToCoordValues();
    if c == HexCoord(0, 1) {
      assert ToCoord(NE) == c;
    } else if c == HexCoord(1, 0) {
      assert ToCoord(E) == c;
    } else if c == HexCoord(1, -1) {
      assert ToCoord(SE) == c;
    } else if c == HexCoord(0, -1) {
      assert ToCoord(SW) == c;
    } else if c == HexCoord(-1, 0) {
      assert ToCoord(W) == c;
    } else {
      assert c == HexCoord(-1, 1);
      assert ToCoord(NW) == c;
    }
  }

  /** Directions half a turn apart have opposite offsets. */
  lemma HalfTurnNegates(a: HexDir, b: HexDir)
    requires Ordinal(b) == (Ordinal(a) + 3) % 6
    ensures ToCoord(b).x == -ToCoord(a).x && ToCoord(b).z == -ToCoord(a).z
  {
    ToCoordValues();
    match a
    case NE => OrdinalInjective(b, SW);
    case E => OrdinalInjective(b, W);
    case SE => OrdinalInjective(b, NW);
    case SW => OrdinalInjective(b, NE);
    case W => OrdinalInjective(b, E);
    case NW => OrdinalInjective(b, SE);
  }

  /** Opposite directions have opposite offsets. */
  lemma OppositeNegates(d: HexDir)
    ensures ToCoord(Opposite(d)) == Neg(ToCoord(d))
  {
    HalfTurnNegates(d, Opposite(d));
  }

  /** The adjacent cell in direction `d`. */
  function Neighbour(c: HexCoord, d: HexDir): (r: HexCoord)
    ensures Sub(r, c) == ToCoord(d)
  {
    Add(c, ToCoord(d))
  }

  /** Each neighbour lies at hex distance one. */
  lemma NeighbourIsAdjacent(c: HexCoord, d: HexDir)
    ensures Distance(Neighbour(c, d), c) == 1
  {
    ToCoordIsUnit(d);
  }

  /** `Neighbours()`: a six-entry array, filled by walking `Each()` and
      storing each direction's neighbour at the direction's ordinal. */
  method Neighbours(c: HexCoord) returns (result: seq<HexCoord>)
    ensures |result| == 6
    ensures forall d :: result[Ordinal(d)] == Neighbour(c, d)
    ensures forall i, j :: 0 <= i < j < |result| ==> result[i] != result[j]
    ensures forall i :: 0 <= i < |result| ==> Distance(result[i], c) == 1
  {
    result := seq(6, _ => HexCoord(0, 0));
    var each := Each();
    for k := 0 to |each|
      invariant |result| == 6
      invariant forall m :: 0 <= m < k ==> result[m] == Neighbour(c, each[m])
    {
      var dir := each[k];
      result := result[Ordinal(dir) := Add(c, ToCoord(dir))];
    }
    forall i, j | 0 <= i < j < |result|
      ensures result[i] != result[j]
    {
      ToCoordInjective(each[i], each[j]);
    }
    forall i | 0 <= i < |result|
      ensures Distance(result[i], c) == 1
    {
      NeighbourIsAdjacent(c, each[i]);
    }
  }
}
