/** Square direction algebra (Runtime/SquareGrid.cs, `SquareDir` and
    `SquareDirExtension`): eight directions, clockwise from up. */
module SquareAlgebra {
  import opened Wrappers

  datatype SquareDir = Up | UpRight | Right | DownRight | Down | DownLeft | Left | UpLeft

  /** The enum's underlying value. */
  function Ordinal(d: SquareDir): (n: nat)
    ensures n < 8
  {
    match d
    case Up => 0
    case UpRight => 1
    case Right => 2
    case DownRight => 3
    case Down => 4
    case DownLeft => 5
    case Left => 6
    case UpLeft => 7
  }

  lemma OrdinalInjective(a: SquareDir, b: SquareDir)
    ensures Ordinal(a) == Ordinal(b) ==> a == b
  {
  }

  /** An integer pair, `Vector2Int`. */
  datatype Vec2 = Vec2(x: int, y: int)

  /** A 3-vector whose components are small integers, as every `Vector3`
      produced here is. */
  datatype Vec3 = Vec3(x: int, y: int, z: int)

  function Neg(v: Vec2): (r: Vec2)
    ensures r.x == -v.x && r.y == -v.y
  {
    Vec2(-v.x, -v.y)
  }

  /** One of the eight cells around the origin: both components in
      {-1, 0, 1}, not both zero. */
  predicate IsUnitOffset(v: Vec2)
  {
    -1 <= v.x <= 1 && -1 <= v.y <= 1 && v != Vec2(0, 0)
  }

  /** The offset of a direction; up is `+y`. */
  function ToCoord(d: SquareDir): (r: Vec2)
    ensures IsUnitOffset(r)
  {
    match d
    case Up => Vec2(0, 1)
    case UpRight => Vec2(1, 1)
    case Right => Vec2(1, 0)
    case DownRight => Vec2(1, -1)
    case Down => Vec2(0, -1)
    case DownLeft => Vec2(-1, -1)
    case Left => Vec2(-1, 0)
    case UpLeft => Vec2(-1, 1)
  }

  /** Distinct directions have distinct offsets. */
  lemma ToCoordInjective(a: SquareDir, b: SquareDir)
    ensures ToCoord(a) == ToCoord(b) ==> a == b
  {
  }

  /** The offset as a world-space step on the ground (XZ) plane. */
  function ToVector3(d: SquareDir): (r: Vec3)
    ensures r == Vec3(ToCoord(d).x, 0, ToCoord(d).y)
  {
    match d
    case Up => Vec3(0, 0, 1)
    case UpRight => Vec3(1, 0, 1)
    case Right => Vec3(1, 0, 0)
    case DownRight => Vec3(1, 0, -1)
    case Down => Vec3(0, 0, -1)
    case DownLeft => Vec3(-1, 0, -1)
    case Left => Vec3(-1, 0, 0)
    case UpLeft => Vec3(-1, 0, 1)
  }

  /** The direction four steps round the cycle of eight. */
  function Opposite(d: SquareDir): (r: SquareDir)
    ensures Ordinal(r) == (Ordinal(d) + 4) % 8
  {
    match d
    case Up => Down
    case UpRight => DownLeft
    case Right => Left
    case DownRight => UpLeft
    case Down => Up
    case DownLeft => UpRight
    case Left => Right
    case UpLeft => DownRight
  }

  lemma OppositeInvolutive(d: SquareDir)
    ensures Opposite(Opposite(d)) == d
    ensures Opposite(d) != d
  {
  }

  /** Opposite directions have opposite offsets. */
  lemma OppositeNegates(d: SquareDir)
    ensures ToCoord(Opposite(d)) == Neg(ToCoord(d))
  {
  }

  /** The reverse table `DirCoordToEnum`, offset to direction. */
  const DirCoordToEnum: map<Vec2, SquareDir> :=
    map[Vec2(0, 1) := Up, Vec2(1, 1) := UpRight, Vec2(1, 0) := Right, Vec2(1, -1) := DownRight,
        Vec2(0, -1) := Down, Vec2(-1, -1) := DownLeft, Vec2(-1, 0) := Left, Vec2(-1, 1) := UpLeft]

  /** The reverse table holds exactly the pairs `(ToCoord(d), d)`: every
      direction's entry ... */
  lemma DirCoordToEnumAgrees(d: SquareDir)
    ensures ToCoord(d) in DirCoordToEnum && DirCoordToEnum[ToCoord(d)] == d
  {
  }

  /** ... and no other key. */
  lemma DirCoordToEnumKeys(v: Vec2)
    ensures v in DirCoordToEnum ==> ToCoord(DirCoordToEnum[v]) == v
  {
  }

  /** `GetDir`: the direction whose offset is `v`; the dictionary lookup
      throws for every other pair. */
  function GetDir(v: Vec2): (r: Result<SquareDir>)
    ensures r.Ok? <==> IsUnitOffset(v)
    ensures r.Ok? ==> ToCoord(r.value) == v
    ensures r.Err? ==> r.fault == KeyNotFound
  {
    if v in DirCoordToEnum then Ok(DirCoordToEnum[v]) else Err(KeyNotFound)
  }

  /** `GetDir` inverts `ToCoord`. */
  lemma GetDirToCoord(d: SquareDir)
    ensures GetDir(ToCoord(d)) == Ok(d)
  {
    ToCoordInjective(GetDir(ToCoord(d)).value, d);
  }

  /** The origin and any step longer than one are not directions. */
  lemma GetDirRejects()
    ensures GetDir(Vec2(0, 0)) == Err(KeyNotFound)
    ensures GetDir(Vec2(2, 0)) == Err(KeyNotFound)
  {
  }
}
