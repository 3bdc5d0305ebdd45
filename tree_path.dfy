/** The tree generator (buildTreePath and its inner `tree`): from a random
    root cell it casts a branch along a direction chosen for the root's zone
    of the grid, schedules the cells along the branch with rising
    activation times, and recursively grows two shorter branches from its end,
    turned one step to either side. */
module TreePath {
  import opened HexCoords
  import opened Lookup
  import opened Grid
  import opened Schedule
  import opened Random

  /** getPos: which third of the grid a percentage falls in. */
  function GetPos(val: real): (p: int)
    ensures 0 <= p <= 2
  {
    if val <= 33.34 then 0
    else if val > 33.34 && val < 66.67 then 1
    else 2
  }

  /** A larger percentage never lies in an earlier third. */
  lemma GetPosMonotone(a: real, b: real)
    requires a <= b
    ensures GetPos(a) <= GetPos(b)
  {
  }

  /** Math.ceil. */
  function Ceil(v: real): (n: int)
    ensures v <= n as real < v + 1.0
  {
    -((-v).Floor)
  }

  /** The zone coordinate of position `k` among `n`: getPos of the rounded-up
      percentage k·100/n. */
  function ZonePos(k: int, n: int): (p: int)
    requires n > 0
    ensures 0 <= p <= 2
  {
    GetPos(Ceil((k * 100) as real / n as real) as real)
  }

  /** posMatrix[posY][posX]: the directions a root in that zone may take. */
  const PosMatrix: seq<seq<seq<int>>> := [
    [[2], [2, 3, 4], [4]],
    [[0, 1, 2], [0, 1, 2, 3, 4, 5, 6, 7], [4, 5, 6]],
    [[0], [0, 7, 6], [6]]
  ]

  /** Every zone permits at least one direction, and every permitted
      direction indexes `directions`. */
  lemma PosMatrixDirections(posY: int, posX: int)
    requires 0 <= posY < 3 && 0 <= posX < 3
    ensures |PosMatrix[posY][posX]| > 0
    ensures forall j :: 0 <= j < |PosMatrix[posY][posX]| ==> 0 <= PosMatrix[posY][posX][j] < 8
  {
  }

  /** Moving the floor of half an abscissa by k cells moves it by 0 to k. */
  lemma HalfShift(x: int, k: int)
    requires k >= 0
    ensures 0 <= (x + k - LowBit(x + k)) / 2 - (x - LowBit(x)) / 2 <= k
  {
  }

  /** Where an even step of each direction leads in offset terms: 2, 3 and
      4 go down the grid, 0, 6 and 7 up, 0, 1 and 2 right, 4, 5 and 6 left. */
  lemma StepMoves(d: int, c: Cube, n: int)
    requires 0 <= d < 8 && n > 0 && n % 2 == 0
    ensures var from, to := ToOffset(c), ToOffset(Step(d, c, n));
      && (d == 2 || d == 3 || d == 4 ==> to.row > from.row)
      && (d == 0 || d == 6 || d == 7 ==> to.row < from.row)
      && (d == 0 || d == 1 || d == 2 ==> to.col > from.col)
      && (d == 4 || d == 5 || d == 6 ==> to.col < from.col)
  {
    var h := n / 2;
    if d == 0 || d == 2 {
      HalfShift(c.x, h);
    } else if d == 4 || d == 6 {
      HalfShift(c.x - h, h);
      assert c.x - h + h == c.x;
    }
  }

  /** The zone table steers branches away from the near edges: from a top
      zone every permitted direction leads down the grid, from a bottom zone
      up, from a left zone right and from a right zone left, for any even
      branch length. */
  lemma ZoneDirectionsPointInward(posY: int, posX: int, d: int, c: Cube, n: int)
    requires 0 <= posY < 3 && 0 <= posX < 3 && d in PosMatrix[posY][posX]
    requires n > 0 && n % 2 == 0
    ensures var from, to := ToOffset(c), ToOffset(Step(d, c, n));
      && (posY == 0 ==> to.row > from.row)
      && (posY == 2 ==> to.row < from.row)
      && (posX == 0 ==> to.col > from.col)
      && (posX == 2 ==> to.col < from.col)
  {
    assert 0 <= d < 8;
    StepMoves(d, c, n);
  }

  /** `x % n` as the source's `%` computes it: the sign follows the dividend. */
  function JsRem(a: int, n: int): (r: int)
    requires n > 0
    ensures -n < r < n && (a >= 0 ==> r >= 0) && (a < 0 ==> r <= 0)
    ensures (a - r) % n == 0
  {
    TruncRemMultiple(a, n);
    if a >= 0 then a % n else -((-a) % n)
  }

  /** Taking off the remainder, rounded toward zero, leaves a multiple of n. */
  lemma TruncRemMultiple(a: int, n: int)
    requires n > 0
    ensures a >= 0 ==> (a - a % n) % n == 0
    ensures a < 0 ==> (a + (-a) % n) % n == 0
  {
    if a >= 0 {
      DivUnique(a - a % n, n, a / n);
    } else {
      var q := (-a) / n;
      assert a + (-a) % n == -(n * q);
      assert -(n * q) == (-q) * n;
      DivUnique(a + (-a) % n, n, -q);
    }
  }

  /** Math.abs on the integer remainder of a child's direction; kept apart
      from HexCoords.Abs, which is over reals, so the direction stays an int. */
  function AbsInt(n: int): nat { if n < 0 then -n else n }

  /** How far child i turns from its parent's direction: ⌊i/2⌋, at least 1. */
  function ChildDelta(i: nat): (delta: nat)
    ensures delta >= 1
  {
    if i / 2 == 0 then 1 else i / 2
  }

  /** The direction of child i as the source computes it: even children turn
      counter-clockwise and odd ones clockwise by ChildDelta(i), wrapping
      with the sign-following `%` and then Math.abs. */
  function ChildDirectionAsWritten(direction: int, i: nat): (dir: int)
    requires 0 <= direction < 8
    ensures 0 <= dir < 8
  {
    var delta := ChildDelta(i);
    var dir := if direction + delta >= 8 then JsRem(delta - (8 - direction), 8) else direction + delta;
    var dir := if i % 2 == 0 then
                 (if direction - delta < 0 then JsRem(delta - (8 - direction), 8) else direction - delta)
               else dir;
    AbsInt(dir)
  }

  /** The intended rotation: child i turns ChildDelta(i) steps
      counter-clockwise when i is even and clockwise when i is odd, modulo 8. */
  function ChildDirection(direction: int, i: nat): (dir: int)
    requires 0 <= direction < 8
    ensures 0 <= dir < 8
    ensures i % 2 == 0 ==> (dir + ChildDelta(i) - direction) % 8 == 0
    ensures i % 2 == 1 ==> (dir - ChildDelta(i) - direction) % 8 == 0
  {
    if i % 2 == 0 then (direction - ChildDelta(i)) % 8 else (direction + ChildDelta(i)) % 8
  }

  /** For the first four children, the only ones `tree` ever spawns, the code
      as written turns exactly as intended; with two children they are the
      neighbours (direction - 1) mod 8 and (direction + 1) mod 8. */
  lemma ChildDirectionAgrees(direction: int, i: nat)
    requires 0 <= direction < 8 && i < 4
    ensures ChildDirectionAsWritten(direction, i) == ChildDirection(direction, i)
    ensures i == 0 ==> ChildDirection(direction, i) == (direction + 7) % 8
    ensures i == 1 ==> ChildDirection(direction, i) == (direction + 1) % 8
  {
    assert ChildDelta(i) == 1;
    if i % 2 == 0 && direction == 0 {
      assert ChildDirectionAsWritten(direction, i) == 7;
    }
  }

  /** From the fifth child on, the wrap-around of a counter-clockwise turn
      mirrors instead of rotating: child 4 of direction 1 should turn two
      steps to direction 7 but is given direction 5. */
  lemma ChildDirectionAsWrittenMirrors()
    ensures ChildDirectionAsWritten(1, 4) == 5
    ensures ChildDirection(1, 4) == 7
  {
  }

  /** The length a branch is cast to: the distance, made even by adding 1
      when it is odd. */
  function TargetDistance(distance: int): (td: int)
    ensures td % 2 == 0 && distance <= td <= distance + 1
    ensures td == distance <==> distance % 2 == 0
  {
    if distance % 2 == 0 then distance else distance + 1
  }

  /** Linear interpolation of one axis: a + (b - a)·t. */
  function Lerp(a: int, b: int, t: real): (v: real)
    ensures t == 0.0 ==> v == a as real
    ensures t == 1.0 ==> v == b as real
  {
    a as real + (b - a) as real * t
  }

  /** A point interpolated between two cells of the plane lies on the plane,
      so rounding it moves no axis by more than one cell. */
  lemma LerpOnPlane(a: Cube, b: Cube, t: real)
    requires OnPlane(a) && OnPlane(b)
    ensures Lerp(a.x, b.x, t) + Lerp(a.z, b.z, t) + Lerp(a.y, b.y, t) == 0.0
  {
    assert (b.x - a.x) as real * t + (b.z - a.z) as real * t + (b.y - a.y) as real * t
        == ((b.x - a.x) + (b.z - a.z) + (b.y - a.y)) as real * t;
  }

  /** The cell step i of a branch from `root` towards `target`, `td` cells
      away, is drawn on: the point at fraction 1/td·i of the way, rounded. */
  function BranchPoint(root: Cube, target: Cube, td: int, i: int): (p: Cube)
    requires td > 0
    ensures OnPlane(p)
  {
    var t := 1.0 / td as real * i as real;
    RoundCube(Lerp(root.x, target.x, t), Lerp(root.z, target.z, t), Lerp(root.y, target.y, t))
  }

  /** The last step of a branch of even length lands exactly on its target. */
  lemma EvenBranchEndsOnTarget(a: Cube, b: Cube, td: int)
    requires OnPlane(b) && td > 0
    ensures BranchPoint(a, b, td, td) == b
  {
    var t := 1.0 / td as real * td as real;
    assert t == 1.0;
    RoundCubeOfCell(b);
  }

  /** The cube lookup of `tree`: the first cell with the given cube
      coordinates, or -1. */
  function FindCube(grid: seq<Cell>, c: Cube): (k: int)
    ensures -1 <= k < |grid|
    ensures k == -1 <==> forall j :: 0 <= j < |grid| ==> grid[j].cube != c
    ensures k != -1 ==> grid[k].cube == c && forall j :: 0 <= j < k ==> grid[j].cube != c
  {
    FindIndex(grid, (hex: Cell) => hex.cube == c)
  }

  /** The cells a branch of `n` steps from `root` towards `target` draws, in
      step order: the lookup of the point at each step 1..n, skipping the
      points that fall off the grid. */
  function BranchCells(grid: seq<Cell>, root: Cube, target: Cube, td: int, n: int): (cells: seq<int>)
    requires td > 0
    ensures |cells| <= if n > 0 then n else 0
    ensures forall j :: 0 <= j < |cells| ==> 0 <= cells[j] < |grid|
    decreases n
  {
    if n <= 0 then []
    else
      var k := FindCube(grid, BranchPoint(root, target, td, n));
      BranchCells(grid, root, target, td, n - 1) + if k == -1 then [] else [k]
  }

  /** The cell numbers a list of entries names, in order. */
  function Indices(s: seq<Entry>): seq<int>
  {
    seq(|s|, j requires 0 <= j < |s| => s[j].index)
  }

  /** The cell numbers of two lists one after the other. */
  lemma IndicesAppend(s: seq<Entry>, t: seq<Entry>)
    ensures Indices(s + t) == Indices(s) + Indices(t)
  {
  }

  /** Appending what step n of a branch schedules to the entries of steps
      1..n-1 gives the entries of steps 1..n. */
  lemma BranchCellsStep(grid: seq<Cell>, root: Cube, target: Cube, td: int, n: int,
                        s: seq<Entry>, tail: seq<Entry>)
    requires td > 0 && n > 0
    requires Indices(s) == BranchCells(grid, root, target, td, n - 1)
    requires var k := FindCube(grid, BranchPoint(root, target, td, n));
      if k == -1 then tail == [] else |tail| == 1 && tail[0].index == k
    ensures Indices(s + tail) == BranchCells(grid, root, target, td, n)
  {
    IndicesAppend(s, tail);
  }

  /** The distance `tree` ends up casting from `c` along `direction`: a
      target off the grid retries one cell shorter, and 0 means no branch. */
  ghost function CastDist(grid: seq<Cell>, c: Cube, direction: int, d: int): (n: int)
    requires 0 <= direction < 8
    ensures 0 <= n <= (if d > 0 then d else 0)
    ensures n > 0 ==> FindCube(grid, Step(direction, c, TargetDistance(n))) != -1
    decreases d
  {
    if d <= 0 then 0
    else if FindCube(grid, Step(direction, c, TargetDistance(d))) == -1 then CastDist(grid, c, direction, d - 1)
    else d
  }

  /** The cells a branch of `d` steps from `c` along `direction` schedules:
      its interpolated cells, then its target when `d` is even. */
  ghost function OwnCells(grid: seq<Cell>, c: Cube, direction: int, d: int): seq<int>
    requires 0 <= direction < 8 && d > 0
  {
    var td := TargetDistance(d);
    var target := Step(direction, c, td);
    BranchCells(grid, c, target, td, d) + if d % 2 == 0 then [FindCube(grid, target)] else []
  }

  /** As written, an even branch schedules its target twice: its last step
      rounds exactly onto the target, and the target is then pushed again. */
  lemma EvenBranchRepeatsTarget(grid: seq<Cell>, c: Cube, direction: int, d: int)
    requires 0 <= direction < 8 && d > 0 && d % 2 == 0 && OnPlane(c)
    requires FindCube(grid, Step(direction, c, d)) != -1
    ensures var o := OwnCells(grid, c, direction, d);
      |o| >= 2 && o[|o| - 1] == o[|o| - 2] == FindCube(grid, Step(direction, c, d))
  {
    var target := Step(direction, c, d);
    EvenBranchEndsOnTarget(c, target, d);
    assert BranchCells(grid, c, target, d, d)
        == BranchCells(grid, c, target, d, d - 1) + [FindCube(grid, target)];
  }

  /** The state `tree` shares with buildTreePath: the grid, the colour of the
      whole tree, the random source, and the list `hexs` it appends to. */
  class TreeBuilder {
    const grid: seq<Cell>
    const hexColor: Color
    const rng: Rng
    var hexs: seq<Entry>

    constructor (grid: seq<Cell>, hexColor: Color, rng: Rng, hexs: seq<Entry>)
      ensures this.grid == grid && this.hexColor == hexColor && this.rng == rng && this.hexs == hexs
    {
      this.grid, this.hexColor, this.rng := grid, hexColor, rng;
      this.hexs := hexs;
    }

    /** An entry of this tree scheduled after `after`: it names a cell of the
        grid and carries the tree's colour. */
    predicate Emitted(e: Entry, after: int)
    {
      0 <= e.index < |grid| && e.color == hexColor && e.time > after
    }

    /** Entries of this tree due one after the other, all after `after` and
        none after `upTo`. */
    ghost predicate Rising(s: seq<Entry>, after: int, upTo: int)
    {
      && (forall j :: 0 <= j < |s| ==> Emitted(s[j], after) && s[j].time <= upTo)
      && (forall a, b :: 0 <= a < b < |s| ==> s[a].time < s[b].time)
    }

    /** A rising list stays rising when an entry due later is appended, or
        when its bound is moved later. */
    lemma RisingAppend(s: seq<Entry>, after: int, upTo: int, later: int, tail: seq<Entry>)
      requires Rising(s, after, upTo) && upTo <= later
      requires tail == [] || (|tail| == 1 && Emitted(tail[0], after) && upTo < tail[0].time == later)
      ensures Rising(s + tail, after, later)
    {
    }

    /** A rising segment read by position in the whole list. */
    lemma RisingFrom(s: seq<Entry>, start: int, after: int, upTo: int)
      requires 0 <= start <= |s| && Rising(s[start..], after, upTo)
      ensures forall j :: start <= j < |s| ==> Emitted(s[j], after)
      ensures forall a, b :: start <= a < b < |s| ==> s[a].time < s[b].time
    {
      assert forall j :: start <= j < |s| ==> s[j] == s[start..][j - start];
    }

    /** One pass of the `for` loop of `tree`: wait a further 25 to 45 ms,
        round the point at step i to a cell and, when the grid has that
        cell, schedule it at the new time. When the entries from `start` on
        were the branch's first i - 1 steps, due one after the other, they
        now are its first i steps. */
    method CastStep(root: Cube, target: Cube, targetDistance: int, i: int, prevTime: int,
                    ghost start: int, ghost after: int)
      returns (curTime: int, hexIndex: int)
      requires rng.Valid() && targetDistance > 0 && i > 0
      requires 0 <= start <= |hexs| && after <= prevTime
      requires Indices(hexs[start..]) == BranchCells(grid, root, target, targetDistance, i - 1)
      requires Rising(hexs[start..], after, prevTime)
      modifies this, rng
      ensures prevTime + 25 <= curTime <= prevTime + 45
      ensures hexIndex == FindCube(grid, BranchPoint(root, target, targetDistance, i))
      ensures hexs == old(hexs) + if hexIndex == -1 then [] else [Entry(hexIndex, hexColor, curTime)]
      ensures hexs[..start] == old(hexs)[..start]
      ensures Indices(hexs[start..]) == BranchCells(grid, root, target, targetDistance, i)
      ensures Rising(hexs[start..], after, curTime)
    {
      var jitter := rng.Random(25, 45);
      curTime := prevTime + jitter;
      hexIndex := FindCube(grid, BranchPoint(root, target, targetDistance, i));
      var tail := if hexIndex == -1 then [] else [Entry(hexIndex, hexColor, curTime)];
      ghost var seg := hexs[start..];
      hexs := hexs + tail;
      assert hexs[start..] == seg + tail;
      assert hexs[..start] == old(hexs)[..start];
      RisingAppend(seg, after, prevTime, curTime, tail);
      BranchCellsStep(grid, root, target, targetDistance, i, seg, tail);
    }

    /** The `for` loop of `tree`: step i of `distance` interpolates between
        the root and the target `targetDistance` cells away, rounds to a cell
        and, when the grid has that cell, schedules it after a further 25 to
        45 ms. The new entries are exactly the branch's cells in step order
        (BranchCells), have the tree's colour and are due one after the
        other, all after `time` and none after the returned time. The
        returned index is the cell drawn at the last step, or -1. */
    method CastBranch(root: Cube, target: Cube, distance: int, targetDistance: int, time: int)
      returns (curTime: int, lastIndex: int)
      requires rng.Valid() && 0 < distance <= targetDistance
      modifies this, rng
      ensures time <= curTime && -1 <= lastIndex < |grid|
      ensures lastIndex == FindCube(grid, BranchPoint(root, target, targetDistance, distance))
      ensures |old(hexs)| <= |hexs| <= |old(hexs)| + distance
      ensures hexs[..|old(hexs)|] == old(hexs)
      ensures Indices(hexs[|old(hexs)|..]) == BranchCells(grid, root, target, targetDistance, distance)
      ensures Rising(hexs[|old(hexs)|..], time, curTime)
    {
      ghost var start := |hexs|;
      curTime := time;
      lastIndex := -1;
      var i := 1;
      ghost var done := 0;  // the steps taken so far
      while i < distance + 1
        invariant 1 <= i <= distance + 1 && done == i - 1
        invariant time <= curTime
        invariant lastIndex == if i > distance then FindCube(grid, BranchPoint(root, target, targetDistance, distance)) else -1
        invariant start <= |hexs| && hexs[..start] == old(hexs)
        invariant Indices(hexs[start..]) == BranchCells(grid, root, target, targetDistance, done)
        invariant Rising(hexs[start..], time, curTime)
      {
        var hexIndex;
        curTime, hexIndex := CastStep(root, target, targetDistance, i, curTime, start, time);
        if i == distance {
          // the cell drawn at the last step, if any
          lastIndex := hexIndex;
        }
        done := i;
        i := i + 1;
      }
      assert |Indices(hexs[start..])| == |hexs| - start;
    }

    /** The branch itself: the interpolated cells, then, for an even
        distance, the target scheduled 25 to 45 ms after the last of them.
        The branch ends on the target (even distance) or on the cell drawn
        at the last step, if any (odd distance); children grow from there. */
    method OwnBranch(root: Cube, target: Cube, targetHexIndex: int, distance: int, targetDistance: int, time: int)
      returns (curTime: int, targetHex: Cell?)
      requires rng.Valid() && 0 < distance <= targetDistance && 0 <= targetHexIndex < |grid|
      modifies this, rng
      ensures time <= curTime
      ensures distance % 2 == 0 ==>
                && targetHex == grid[targetHexIndex]
                && |hexs| > |old(hexs)| && hexs[|hexs| - 1].index == targetHexIndex
      ensures distance % 2 == 1 ==>
                var l := FindCube(grid, BranchPoint(root, target, targetDistance, distance));
                targetHex == if l == -1 then null else grid[l]
      ensures |old(hexs)| <= |hexs| <= |old(hexs)| + distance + 1
      ensures hexs[..|old(hexs)|] == old(hexs)
      ensures Indices(hexs[|old(hexs)|..]) == BranchCells(grid, root, target, targetDistance, distance)
                                             + if distance % 2 == 0 then [targetHexIndex] else []
      ensures forall j :: |old(hexs)| <= j < |hexs| ==> Emitted(hexs[j], time)
      ensures forall a, b :: |old(hexs)| <= a < b < |hexs| ==> hexs[a].time < hexs[b].time
    {
      ghost var start := |hexs|;
      var includeTarget := distance % 2 == 0;
      var lastIndex;
      curTime, lastIndex := CastBranch(root, target, distance, targetDistance, time);
      // an odd branch ends on the last cell it drew, if there was one
      targetHex := if !includeTarget && lastIndex != -1 then grid[lastIndex] else null;
      ghost var seg, upTo := hexs[start..], curTime;

      // an even branch ends on its target, scheduled after the last step
      if includeTarget {
        targetHex := grid[targetHexIndex];
        var jitter := rng.Random(25, 45);
        var e := Entry(targetHexIndex, hexColor, curTime + jitter);
        RisingAppend(seg, time, curTime, curTime + jitter, [e]);
        IndicesAppend(seg, [e]);
        hexs := hexs + [e];
        assert hexs[start..] == seg + [e];
        assert Indices(hexs[start..]) == Indices(seg) + [targetHexIndex];
        upTo := curTime + jitter;
      } else {
        assert Indices(hexs[start..]) == Indices(seg) + [];
      }
      RisingFrom(hexs, start, time, upTo);
    }

    /** tree: grow one branch of `distance` cells from `rootHex` along
        `direction` and then its children. Every entry it appends names a
        grid cell, has the tree's colour and is due after `time`; the entries
        of the branch itself (up to `ownEnd`) number at most distance + 1 and
        are due one after the other. */
    method Tree(rootHex: Cell?, distance: int, time: int, direction: int, children: int) returns (ghost ownEnd: nat)
      requires rng.Valid()
      requires 0 <= direction < 8
      modifies this, rng
      decreases distance, 1
      ensures |old(hexs)| <= ownEnd <= |hexs| && hexs[..|old(hexs)|] == old(hexs)
      ensures forall j :: |old(hexs)| <= j < |hexs| ==> Emitted(hexs[j], time)
      ensures forall a, b :: |old(hexs)| <= a < b < ownEnd ==> hexs[a].time < hexs[b].time
      ensures ownEnd - |old(hexs)| <= if distance > 0 then distance + 1 else 0
      ensures distance <= 0 || rootHex == null ==> hexs == old(hexs)
      ensures rootHex != null ==>
                var d := CastDist(grid, rootHex.cube, direction, distance);
                && (d == 0 ==> hexs == old(hexs))
                && (d > 0 ==> Indices(hexs[|old(hexs)|..ownEnd]) == OwnCells(grid, rootHex.cube, direction, d))
    {
      ghost var start := |hexs|;
      if distance <= 0 || rootHex == null {
        return start;
      }

      var targetDistance := TargetDistance(distance);

      // the cell `targetDistance` cells from the root along `direction`
      var target := Step(direction, rootHex.cube, targetDistance);
      var targetHexIndex := FindCube(grid, target);
      if targetHexIndex == -1 {
        // off the grid: retry one cell shorter
        ownEnd := Tree(rootHex, distance - 1, time, direction, children);
        return;
      }
      ownEnd := Grow(rootHex, distance, time, direction, children, targetDistance, target, targetHexIndex);
    }

    /** The branch of `tree` once its target is on the grid: the branch
        itself (up to `ownEnd`, exactly OwnCells) and then, when the
        distance left is positive, the children grown from its end. */
    method Grow(rootHex: Cell, distance: int, time: int, direction: int, children: int,
                targetDistance: int, target: Cube, targetHexIndex: int) returns (ghost ownEnd: nat)
      requires rng.Valid() && 0 <= direction < 8 && distance > 0
      requires targetDistance == TargetDistance(distance)
      requires target == Step(direction, rootHex.cube, targetDistance)
      requires targetHexIndex == FindCube(grid, target) && targetHexIndex != -1
      modifies this, rng
      decreases distance, 0
      ensures |old(hexs)| <= ownEnd <= |hexs| && hexs[..|old(hexs)|] == old(hexs)
      ensures forall j :: |old(hexs)| <= j < |hexs| ==> Emitted(hexs[j], time)
      ensures forall a, b :: |old(hexs)| <= a < b < ownEnd ==> hexs[a].time < hexs[b].time
      ensures ownEnd - |old(hexs)| <= distance + 1
      ensures Indices(hexs[|old(hexs)|..ownEnd]) == OwnCells(grid, rootHex.cube, direction, distance)
    {
      ghost var start := |hexs|;
      var curTime, targetHex := OwnBranch(rootHex.cube, target, targetHexIndex, distance, targetDistance, time);
      ownEnd := |hexs|;
      ghost var own := hexs;
      assert own[start..ownEnd] == own[start..];

      var childDistance := distance - 2;
      if childDistance <= 0 {
        return;
      }
      Children(targetHex, childDistance, curTime, direction, children);
      assert forall j :: start <= j < |own| ==> hexs[j] == own[j];
      assert hexs[start..ownEnd] == own[start..ownEnd];
    }

    /** The children of a branch: `children` branches of `childDistance`
        cells grown from `targetHex`, child k turned by
        ChildDirection(direction, k) and given two children of its own. Every
        entry they append names a grid cell, has the tree's colour and is due
        after `time`. */
    method Children(targetHex: Cell?, childDistance: int, time: int, direction: int, children: int)
      requires rng.Valid() && 0 <= direction < 8 && childDistance > 0
      modifies this, rng
      decreases childDistance + 1, 0
      ensures |old(hexs)| <= |hexs| && hexs[..|old(hexs)|] == old(hexs)
      ensures forall j :: |old(hexs)| <= j < |hexs| ==> Emitted(hexs[j], time)
    {
      var k := 0;
      while k < children
        invariant |old(hexs)| <= |hexs| && hexs[..|old(hexs)|] == old(hexs)
        invariant forall j :: |old(hexs)| <= j < |hexs| ==> Emitted(hexs[j], time)
      {
        var dir := ChildDirection(direction, k);
        ghost var childEnd := Tree(targetHex, childDistance, time, dir, 2);
        k := k + 1;
      }
    }
  }

  /** buildTreePath: schedule a random root cell, pick a `direction` its zone
      permits, and grow a tree of `length` cells from it. The root entry is
      due 10 to 20 ms after `timeDelta`, every later entry after the root,
      and every entry names a grid cell and has the tree's colour. The
      entries after the root, up to `ownEnd`, are the root's own branch. */
  method BuildTreePath(grid: seq<Cell>, length: int, timeDelta: int, hexColor: Color, rng: Rng)
    returns (hexs: seq<Entry>, ghost direction: int, ghost ownEnd: nat)
    requires |grid| > 0 && rng.Valid()
    requires forall k :: 0 <= k < |grid| ==> grid[k].cols > 0 && grid[k].rows > 0
    modifies rng
    ensures 1 <= ownEnd <= |hexs| && 0 <= direction < 8
    ensures forall j :: 0 <= j < |hexs| ==> 0 <= hexs[j].index < |grid| && hexs[j].color == hexColor
    ensures timeDelta + 10 <= hexs[0].time <= timeDelta + 20
    ensures forall j :: 1 <= j < |hexs| ==> hexs[j].time > hexs[0].time
    ensures var root := grid[hexs[0].index];
            && direction in PosMatrix[ZonePos(root.row, root.rows)][ZonePos(root.col, root.cols)]
            && var d := CastDist(grid, root.cube, direction, length);
            && (d == 0 ==> |hexs| == 1)
            && (d > 0 ==> Indices(hexs[1..ownEnd]) == OwnCells(grid, root.cube, direction, d))
  {
    var jitter := rng.Random(10, 20);
    var curTime := timeDelta + jitter;

    var rootIndex := rng.Random(0, |grid| - 1);
    var root := grid[rootIndex];

    var posX := ZonePos(root.col, root.cols);
    var posY := ZonePos(root.row, root.rows);
    var directionsMap := PosMatrix[posY][posX];
    PosMatrixDirections(posY, posX);
    var choice := rng.Random(0, |directionsMap| - 1);

    var builder := new TreeBuilder(grid, hexColor, rng, [Entry(rootIndex, hexColor, curTime)]);
    var dir := directionsMap[choice];
    direction := dir;
    ownEnd := builder.Tree(root, length, curTime, dir, 2);
    hexs := builder.hexs;
    assert hexs[..1] == [Entry(rootIndex, hexColor, curTime)];
    assert hexs[0] == hexs[..1][0];
  }
}
