/** Hexagon coordinate arithmetic of the background: odd-q offset (col, row)
    addresses, cube coordinates (x, z, y) with x + z + y = 0, the rounding of
    an interpolated cube point back onto the grid, and the eight direction
    steps the tree generator casts along. */
module HexCoords {

  /** Cube coordinates, in the order the source returns them: [x, z, y]. */
  datatype Cube = Cube(x: int, z: int, y: int)

  /** Offset coordinates: a cell's column and row. */
  datatype Offset = Offset(col: int, row: int)

  /** The cube invariant. */
  predicate OnPlane(c: Cube) { c.x + c.z + c.y == 0 }

  /** `n & 1`: the low bit of a two's-complement integer, which for negative
      `n` too is the Euclidean remainder of `n` by 2. */
  function LowBit(n: int): (b: int)
    ensures b == 0 || b == 1
    ensures (n - b) % 2 == 0
  {
    n % 2
  }

  /** toCubeCoordinates: an odd-q offset address to cube coordinates. The
      result lies on the cube plane and converts back to the same address. */
  function ToCube(col: int, row: int): (c: Cube)
    ensures OnPlane(c)
    ensures ToOffset(c) == Offset(col, row)
  {
    var x := col;
    var z := row - (col - LowBit(col)) / 2;
    Cube(x, z, -x - z)
  }

  /** toOffsetCoordinates: cube coordinates back to the odd-q address; the y
      coordinate is not consulted. */
  function ToOffset(c: Cube): (o: Offset)
    ensures o.col == c.x
  {
    Offset(c.x, c.z + (c.x - LowBit(c.x)) / 2)
  }

  /** The other round trip: every point of the cube plane is the image of
      its own offset address. */
  lemma CubeRoundTrip(c: Cube)
    requires OnPlane(c)
    ensures ToCube(ToOffset(c).col, ToOffset(c).row) == c
  {
  }

  /** Distinct addresses have distinct cube coordinates. */
  lemma ToCubeInjective(col1: int, row1: int, col2: int, row2: int)
    requires ToCube(col1, row1) == ToCube(col2, row2)
    ensures col1 == col2 && row1 == row2
  {
    assert Offset(col1, row1) == ToOffset(ToCube(col1, row1));
  }

  /** Math.round: the nearest integer, halves rounded up. */
  function Round(v: real): (n: int)
    ensures v - 0.5 < n as real <= v + 0.5
  {
    (v + 0.5).Floor
  }

  /** Math.abs on the real rounding errors of roundCubeCoordinates. */
  function Abs(v: real): (a: real)
    ensures 0.0 <= a && (a == v || a == -v)
  {
    if v < 0.0 then -v else v
  }

  /** roundCubeCoordinates: round each axis, then recompute the axis whose
      rounding moved it furthest from the sum of the other two. The result is
      always on the cube plane; the two axes with the smaller errors keep
      their nearest-integer values. */
  function RoundCube(x: real, z: real, y: real): (r: Cube)
    ensures OnPlane(r)
    ensures var dx, dz, dy := Abs(Round(x) as real - x), Abs(Round(z) as real - z), Abs(Round(y) as real - y);
      || (r.z == Round(z) && r.y == Round(y) && dx >= dz && dx >= dy)
      || (r.x == Round(x) && r.z == Round(z) && dy >= dx && dy >= dz)
      || (r.x == Round(x) && r.y == Round(y) && dz >= dx && dz >= dy)
  {
    var rx, rz, ry := Round(x), Round(z), Round(y);
    var xDiff, zDiff, yDiff := Abs(rx as real - x), Abs(rz as real - z), Abs(ry as real - y);
    if xDiff > yDiff && xDiff > zDiff then Cube(-ry - rz, rz, ry)
    else if yDiff > zDiff then Cube(rx, rz, -rx - rz)
    else Cube(rx, -rx - ry, ry)
  }

  /** Rounding a point of the plane moves no axis by more than one cell. */
  lemma RoundCubeNear(x: real, z: real, y: real)
    requires x + z + y == 0.0
    ensures var r := RoundCube(x, z, y);
      && Abs(r.x as real - x) <= 1.0
      && Abs(r.z as real - z) <= 1.0
      && Abs(r.y as real - y) <= 1.0
  {
    var r := RoundCube(x, z, y);
    var rx, rz, ry := Round(x), Round(z), Round(y);
    if r.x != rx {
      assert r.x as real - x == -(ry as real - y) - (rz as real - z);
    } else if r.y != ry {
      assert r.y as real - y == -(rx as real - x) - (rz as real - z);
    } else if r.z != rz {
      assert r.z as real - z == -(rx as real - x) - (ry as real - y);
    }
  }

  /** A point that already is a cell of the plane rounds to itself. */
  lemma RoundCubeOfCell(c: Cube)
    requires OnPlane(c)
    ensures RoundCube(c.x as real, c.z as real, c.y as real) == c
  {
    assert Round(c.x as real) == c.x;
    assert Round(c.z as real) == c.z;
    assert Round(c.y as real) == c.y;
  }

  /** The hex-grid distance between two cube points. */
  function Distance(a: Cube, b: Cube): nat
  {
    var dx, dz, dy := Dist1(a.x, b.x), Dist1(a.z, b.z), Dist1(a.y, b.y);
    if dx >= dz && dx >= dy then dx else if dz >= dy then dz else dy
  }

  function Dist1(a: int, b: int): nat { if a <= b then b - a else a - b }

  /** The entries of `directions`, 0 (right top), 1 (right), 2 (right
      bottom), 3 (bottom), 4 (left bottom), 5 (left), 6 (left top), 7 (top):
      the cube point `distance` cells from `c`. The slanted directions move
      half the distance on two axes, so they keep the cube invariant exactly
      when the distance is even; the vertical ones keep it for any distance.
      Where the invariant is kept the step lands `distance` cells away. */
  function Step(direction: int, c: Cube, distance: int): (r: Cube)
    requires 0 <= direction < 8
    ensures OnPlane(c) ==>
              (OnPlane(r) <==> distance % 2 == 0 || direction == 3 || direction == 7)
    ensures 0 <= distance && (distance % 2 == 0 || direction == 3 || direction == 7) ==>
              Distance(c, r) == distance
  {
    var half := distance / 2;  // Math.floor(distance / 2)
    match direction
    case 0 => Cube(c.x + half, c.z - distance, c.y + half)
    case 1 => Cube(c.x + distance, c.z - half, c.y - half)
    case 2 => Cube(c.x + half, c.z + half, c.y - distance)
    case 3 => Cube(c.x, c.z + distance, c.y - distance)
    case 4 => Cube(c.x - half, c.z + distance, c.y - half)
    case 5 => Cube(c.x - distance, c.z + half, c.y + half)
    case 6 => Cube(c.x - half, c.z - half, c.y + distance)
    case 7 => Cube(c.x, c.z - distance, c.y + distance)
  }
}
