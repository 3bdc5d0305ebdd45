/** The legacy random walk (buildRandomPath): from a random root cell, step
    to a not yet visited cell found by up to six random tries of the
    `nsearches` offsets (hex-adjacent only from even columns),
    stamping each visited cell with the root's colour and a rising time. */
module RandomPath {
  import opened Wrappers
  import opened HexCoords
  import opened Lookup
  import opened Grid
  import opened Random

  /** nsearches: the six offset steps the walk tries. They are the
      neighbours of a cell in an even column; the table does not depend on
      the column, so from an odd column two of them are not neighbours. */
  function Neighbour(pick: int, col: int, row: int): (o: Offset)
    requires 0 <= pick < 6
    ensures o != Offset(col, row)
  {
    match pick
    case 0 => Offset(col, row - 1)
    case 1 => Offset(col + 1, row - 1)
    case 2 => Offset(col + 1, row)
    case 3 => Offset(col, row + 1)
    case 4 => Offset(col - 1, row)
    case 5 => Offset(col - 1, row - 1)
  }

  /** From an even column every offset of `nsearches` is a neighbouring cell
      of the odd-q grid. */
  lemma NeighbourAdjacentFromEvenColumn(pick: int, col: int, row: int)
    requires 0 <= pick < 6 && col % 2 == 0
    ensures var o := Neighbour(pick, col, row);
      Distance(ToCube(col, row), ToCube(o.col, o.row)) == 1
  {
    var c, o := ToCube(col, row), Neighbour(pick, col, row);
    var n := ToCube(o.col, o.row);
    assert (col + 1 - LowBit(col + 1)) / 2 == col / 2;
    assert (col - 1 - LowBit(col - 1)) / 2 == col / 2 - 1;
    match pick
    case 0 => assert n == Cube(c.x, c.z - 1, c.y + 1);
    case 1 => assert n == Cube(c.x + 1, c.z - 1, c.y);
    case 2 => assert n == Cube(c.x + 1, c.z, c.y - 1);
    case 3 => assert n == Cube(c.x, c.z + 1, c.y - 1);
    case 4 => assert n == Cube(c.x - 1, c.z + 1, c.y);
    case 5 => assert n == Cube(c.x - 1, c.z, c.y + 1);
  }

  /** From an odd column the table is the even-column one: offsets 1 and 5
      lie two cells away, and the neighbour (col + 1, row + 1) is never
      tried. */
  lemma NeighbourNotAdjacentFromOddColumn(col: int, row: int)
    requires col % 2 == 1
    ensures Neighbour(1, col, row) == Offset(col + 1, row - 1)
    ensures Neighbour(5, col, row) == Offset(col - 1, row - 1)
    ensures Distance(ToCube(col, row), ToCube(col + 1, row - 1)) == 2
    ensures Distance(ToCube(col, row), ToCube(col - 1, row - 1)) == 2
    ensures Distance(ToCube(col, row), ToCube(col + 1, row + 1)) == 1
    ensures forall pick :: 0 <= pick < 6 ==> Neighbour(pick, col, row) != Offset(col + 1, row + 1)
  {
    assert (col - LowBit(col)) / 2 == (col - 1) / 2;
    assert (col + 1 - LowBit(col + 1)) / 2 == (col - 1) / 2 + 1;
    assert (col - 1 - LowBit(col - 1)) / 2 == (col - 1) / 2;
  }

  /** `to` is at one of the `nsearches` offsets of `from`. */
  predicate NsearchesStep(from: Cell, to: Cell)
  {
    exists pick :: 0 <= pick < 6 && Offset(to.col, to.row) == Neighbour(pick, from.col, from.row)
  }

  /** `_.findIndex(grid, {row, col})`: the first cell at that address, or -1. */
  function FindOffset(grid: seq<Cell>, o: Offset): (k: int)
    ensures -1 <= k < |grid|
    ensures k == -1 <==> forall j :: 0 <= j < |grid| ==> !(grid[j].col == o.col && grid[j].row == o.row)
    ensures k != -1 ==> grid[k].col == o.col && grid[k].row == o.row
  {
    FindIndex(grid, (hex: Cell) => hex.row == o.row && hex.col == o.col)
  }

  predicate NoDuplicates(s: seq<int>)
  {
    forall a, b :: 0 <= a < b < |s| ==> s[a] != s[b]
  }

  /** Draw `n` of the oracle, taken as an `nsearches` pick from (col, row),
      misses: the offset it picks is off the grid or already visited. */
  predicate MissedAt(grid: seq<Cell>, hexs: seq<int>, col: int, row: int, draw: (int, int, nat) -> int, n: nat)
  {
    var pick := draw(0, 5, n);
    0 <= pick < 6 &&
    var k := FindOffset(grid, Neighbour(pick, col, row));
    k == -1 || k in hexs
  }

  /** The walk stopped early: the six draws before draw `calls` all missed
      from the last visited cell. */
  predicate SixMisses(grid: seq<Cell>, hexs: seq<int>, draw: (int, int, nat) -> int, calls: nat)
  {
    && 0 < |hexs| && 0 <= hexs[|hexs| - 1] < |grid| && 6 <= calls
    && var last := grid[hexs[|hexs| - 1]];
       forall n :: calls - 6 <= n < calls ==> MissedAt(grid, hexs, last.col, last.row, draw, n)
  }

  /** getNeighbour: up to six random tries for a grid cell at one of the
      `nsearches` offsets from `hex` that the walk has not visited; a hit is
      appended to `hexs`, and a miss means all six draws missed. */
  method GetNeighbour(grid: seq<Cell>, hex: Cell, hexs: seq<int>, rng: Rng)
    returns (next: Cell?, visited: seq<int>, tries: nat)
    requires rng.Valid()
    modifies rng
    ensures 1 <= tries <= 6 && rng.calls == old(rng.calls) + tries
    ensures next == null ==> visited == hexs && tries == 6
    ensures next == null ==>
              forall n :: old(rng.calls) <= n < rng.calls ==> MissedAt(grid, hexs, hex.col, hex.row, rng.draw, n)
    ensures next != null ==>
              && |visited| == |hexs| + 1 && visited[..|hexs|] == hexs
              && 0 <= visited[|hexs|] < |grid| && visited[|hexs|] !in hexs
              && next == grid[visited[|hexs|]]
              && NsearchesStep(hex, next)
    ensures next != null ==>
              && Offset(next.col, next.row) == Neighbour(rng.draw(0, 5, rng.calls - 1), hex.col, hex.row)
              && forall n :: old(rng.calls) <= n < rng.calls - 1 ==> MissedAt(grid, hexs, hex.col, hex.row, rng.draw, n)
  {
    tries := 0;
    next := null;
    visited := hexs;
    while true
      invariant 0 <= tries < 6 && rng.calls == old(rng.calls) + tries
      invariant next == null && visited == hexs
      invariant forall n :: old(rng.calls) <= n < rng.calls ==> MissedAt(grid, hexs, hex.col, hex.row, rng.draw, n)
      decreases 6 - tries
    {
      tries := tries + 1;
      var pick := rng.Random(0, 5);
      var nextId := FindOffset(grid, Neighbour(pick, hex.col, hex.row));
      if nextId != -1 && nextId !in hexs {
        next := grid[nextId];
        visited := hexs + [nextId];
        break;
      }
      if tries == 6 {
        break;
      }
    }
  }

  /** The walk's effect on the grid so far: every visited cell has the
      walk's colour and an activation time, and the times rise along the
      walk. */
  ghost predicate Stamped(grid: seq<Cell>, hexs: seq<int>, color: Color)
    reads grid
  {
    && (forall j :: 0 <= j < |hexs| ==> 0 <= hexs[j] < |grid|)
    && (forall j :: 0 <= j < |hexs| ==> grid[hexs[j]].color == color && grid[hexs[j]].time.Some?)
    && (forall a, b :: 0 <= a < b < |hexs| ==> grid[hexs[a]].time.value < grid[hexs[b]].time.value)
  }

  /** No visited cell's time is later than `curTime`. */
  ghost predicate NotAfter(grid: seq<Cell>, hexs: seq<int>, curTime: int)
    reads grid
  {
    forall j :: 0 <= j < |hexs| && 0 <= hexs[j] < |grid| && grid[hexs[j]].time.Some? ==>
      grid[hexs[j]].time.value <= curTime
  }

  /** Step j of the walk: the j-th visited cell is at an `nsearches` offset
      of the cell visited before it. */
  predicate StepAt(grid: seq<Cell>, hexs: seq<int>, j: int)
  {
    && 1 <= j < |hexs| && 0 <= hexs[j - 1] < |grid| && 0 <= hexs[j] < |grid|
    && NsearchesStep(grid[hexs[j - 1]], grid[hexs[j]])
  }

  /** Every step of the walk lands on an `nsearches` offset of the cell before. */
  predicate Stepped(grid: seq<Cell>, hexs: seq<int>)
  {
    forall j :: 1 <= j < |hexs| ==> StepAt(grid, hexs, j)
  }

  /** A cell at an `nsearches` offset of the walk's last cell extends a
      stepped walk. */
  lemma SteppedAppend(grid: seq<Cell>, hexs: seq<int>, id: int, pick: int)
    requires Stepped(grid, hexs) && |hexs| > 0
    requires 0 <= hexs[|hexs| - 1] < |grid| && 0 <= id < |grid| && 0 <= pick < 6
    requires Offset(grid[id].col, grid[id].row) == Neighbour(pick, grid[hexs[|hexs| - 1]].col, grid[hexs[|hexs| - 1]].row)
    ensures Stepped(grid, hexs + [id])
  {
    var s := hexs + [id];
    forall j | 1 <= j < |s|
      ensures StepAt(grid, s, j)
    {
      if j < |hexs| {
        assert StepAt(grid, hexs, j);
        assert s[j - 1] == hexs[j - 1] && s[j] == hexs[j];
      } else {
        assert s[j - 1] == hexs[|hexs| - 1] && s[j] == id;
      }
    }
  }

  /** Stamping one more, not yet visited, cell with a later time extends
      the stamped walk by that cell and changes no other cell. */
  method Visit(grid: seq<Cell>, hexs: seq<int>, id: int, color: Color, ghost prev: int, t: int)
    requires Stamped(grid, hexs, color) && NotAfter(grid, hexs, prev) && prev < t
    requires Distinct(grid) && 0 <= id < |grid| && id !in hexs
    modifies grid[id]
    ensures Stamped(grid, hexs + [id], color) && NotAfter(grid, hexs + [id], t)
    ensures grid[id].color == color && grid[id].time == Some(t) && grid[id].clean == old(grid[id].clean)
    ensures grid[id].index == old(grid[id].index)
  {
    grid[id].time := Some(t);
    grid[id].color := color;
    var s := hexs + [id];
    forall j | 0 <= j < |hexs|
      ensures s[j] == hexs[j] && s[j] != id && grid[s[j]] != grid[id]
    {
    }
  }

  /** One step of the walk: advance the time `prev` by 15 to 25 ms to `t`,
      look for an unvisited cell at an `nsearches` offset of `hex` and, when there is one, stamp
      it with `color` and time `t`. Only that cell's colour and time change.
      `pick` is the offset of the last draw, the one that found the cell. */
  method Advance(grid: seq<Cell>, hexs: seq<int>, hex: Cell, color: Color, prev: int, rng: Rng)
    returns (next: Cell?, visited: seq<int>, t: int, ghost pick: int)
    requires rng.Valid() && Distinct(grid) && Stamped(grid, hexs, color) && NotAfter(grid, hexs, prev)
    modifies grid, rng
    ensures prev + 15 <= t <= prev + 25
    ensures rng.Valid() && Stamped(grid, visited, color) && NotAfter(grid, visited, t)
    ensures next == null ==> visited == hexs && rng.calls == old(rng.calls) + 7
    ensures next == null ==>
              forall n :: old(rng.calls) + 1 <= n < rng.calls ==> MissedAt(grid, hexs, hex.col, hex.row, rng.draw, n)
    ensures next != null ==>
              && |visited| == |hexs| + 1 && visited == hexs + [visited[|hexs|]]
              && 0 <= visited[|hexs|] < |grid| && visited[|hexs|] !in hexs
              && next == grid[visited[|hexs|]]
    ensures next != null ==> next.time == Some(t)
    ensures next != null ==> 0 <= pick < 6 && Offset(next.col, next.row) == Neighbour(pick, hex.col, hex.row)
    ensures forall k :: 0 <= k < |grid| ==>
              && grid[k].clean == old(grid[k].clean) && grid[k].index == old(grid[k].index)
              && ((next == null || k != visited[|hexs|]) ==> grid[k].color == old(grid[k].color) && grid[k].time == old(grid[k].time))
  {
    var step := rng.Random(15, 25);
    t := prev + step;
    var tries;
    next, visited, tries := GetNeighbour(grid, hex, hexs, rng);
    pick := rng.draw(0, 5, rng.calls - 1);
    if next != null {
      var id := visited[|hexs|];
      assert visited == hexs + [id];
      forall k | 0 <= k < |grid| && k != id
        ensures grid[k] != grid[id]
      {
      }
      Visit(grid, hexs, id, color, prev, t);
    }
  }

  /** The walk after the root: up to `length` steps. It stops early only
      when getNeighbour misses six times from the last cell. */
  method Walk(grid: seq<Cell>, hexs0: seq<int>, length: int, color: Color, time: int, rng: Rng)
    returns (hexs: seq<int>)
    requires rng.Valid() && Distinct(grid) && |hexs0| == 1 && Stamped(grid, hexs0, color) && NotAfter(grid, hexs0, time)
    modifies grid, rng
    ensures 1 <= |hexs| <= (if length > 0 then length else 0) + 1 && hexs[0] == hexs0[0]
    ensures NoDuplicates(hexs) && Stepped(grid, hexs)
    ensures Stamped(grid, hexs, color)
    ensures |hexs| < (if length > 0 then length else 0) + 1 ==> SixMisses(grid, hexs, rng.draw, rng.calls)
    ensures forall k :: 0 <= k < |grid| ==>
              && grid[k].clean == old(grid[k].clean) && grid[k].index == old(grid[k].index)
              && ((k == hexs0[0] || k !in hexs) ==> grid[k].color == old(grid[k].color) && grid[k].time == old(grid[k].time))
  {
    hexs := hexs0;
    var neighbour: Cell? := grid[hexs[0]];
    var curTime := time;
    var remaining := length;
    while remaining > 0
      invariant remaining <= length && (remaining >= 0 || remaining == length)
      invariant |hexs| == 1 + (if length > 0 then length else 0) - (if remaining > 0 then remaining else 0)
      invariant hexs[0] == hexs0[0]
      invariant NoDuplicates(hexs) && Stepped(grid, hexs)
      invariant rng.Valid() && Stamped(grid, hexs, color) && NotAfter(grid, hexs, curTime)
      invariant neighbour != null && neighbour == grid[hexs[|hexs| - 1]]
      invariant forall k :: 0 <= k < |grid| ==>
                  && grid[k].clean == old(grid[k].clean) && grid[k].index == old(grid[k].index)
                  && ((k == hexs0[0] || k !in hexs) ==> grid[k].color == old(grid[k].color) && grid[k].time == old(grid[k].time))
    {
      remaining := remaining - 1;
      // the source copies the root's colour, which is `color`
      var next, visited;
      ghost var pick;
      next, visited, curTime, pick := Advance(grid, hexs, neighbour, grid[hexs[0]].color, curTime, rng);
      if next == null {
        break;
      }
      SteppedAppend(grid, hexs, visited[|hexs|], pick);
      hexs, neighbour := visited, next;
    }
  }

  /** The root of the walk: dirty, with the walk's colour and time `t`;
      no other cell changes. */
  method PlantRoot(grid: seq<Cell>, first: int, color: Color, t: int)
    requires Distinct(grid) && 0 <= first < |grid|
    modifies grid[first]
    ensures Stamped(grid, [first], color) && NotAfter(grid, [first], t)
    ensures !grid[first].clean && grid[first].time == Some(t) && grid[first].index == old(grid[first].index)
  {
    var root := grid[first];
    forall k | 0 <= k < |grid| && k != first
      ensures grid[k] != root
    {
    }
    // the source sets the root's time, colour and clean flag in turn
    root.clean := false;
    Visit(grid, [], first, color, t - 1, t);
    assert [] + [first] == [first];
  }

  /** buildRandomPath: the visited cells, root first, with no cell twice and
      one per step of `length` besides the root, unless the last six draws
      all missed. */
  method BuildRandomPath(grid: seq<Cell>, length: int, now: int, color: Color, rng: Rng) returns (hexs: seq<int>)
    requires |grid| > 0 && Distinct(grid) && rng.Valid()
    modifies grid, rng
    ensures 1 <= |hexs| <= (if length > 0 then length else 0) + 1
    ensures NoDuplicates(hexs) && Stepped(grid, hexs)
    ensures Stamped(grid, hexs, color)
    ensures |hexs| < (if length > 0 then length else 0) + 1 ==> SixMisses(grid, hexs, rng.draw, rng.calls)
    ensures 0 <= hexs[0] < |grid| && !grid[hexs[0]].clean
    ensures 0 <= hexs[0] < |grid| && grid[hexs[0]].time.Some? && now + 10 <= grid[hexs[0]].time.value <= now + 20
    ensures forall k :: 0 <= k < |grid| && k !in hexs ==>
              grid[k].color == old(grid[k].color) && grid[k].time == old(grid[k].time)
    ensures forall k :: 0 <= k < |grid| && k != hexs[0] ==> grid[k].clean == old(grid[k].clean)
    ensures forall k :: 0 <= k < |grid| ==> grid[k].index == old(grid[k].index)
  {
    var first := rng.Random(0, |grid| - 1);
    var root := grid[first];
    var jitter := rng.Random(10, 20);
    var curTime := now + jitter;

    PlantRoot(grid, first, color, curTime);
    hexs := Walk(grid, [first], length, color, curTime, rng);
  }
}
