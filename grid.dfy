/** The hexagon grid: the cell records, their construction in row-major
    order (buildGrid), the pass that marks every cell dirty and numbers it
    (configureGrid), and the renderer's clean-flag logic (drawGrid). */
module Grid {
  import opened Wrappers
  import opened HexCoords
  import opened Lookup

  /** A colour, an HSL string the source treats as an opaque value. */
  type Color = string

  /** One hexagon of the grid. Its address, cube coordinates and the grid's
      dimensions are fixed when it is built; its colour, clean flag, number
      and activation time are updated in place. */
  class Cell {
    const col: int
    const row: int
    const cube: Cube
    const cols: int
    const rows: int
    var color: Color
    /** True once the current colour has been drawn. */
    var clean: bool
    /** The cell's position in the grid, unset until configureGrid. */
    var index: Option<nat>
    /** The activation time buildRandomPath gives it, unset until then. */
    var time: Option<int>

    constructor (col: int, row: int, cols: int, rows: int, color: Color)
      ensures this.col == col && this.row == row && cube == ToCube(col, row)
      ensures this.cols == cols && this.rows == rows
      ensures this.color == color && !clean && index == None && time == None
    {
      this.col, this.row := col, row;
      cube := ToCube(col, row);
      this.cols, this.rows := cols, rows;
      this.color := color;
      clean := false;
      index := None;
      time := None;
    }
  }

  /** No cell occurs twice in the grid. */
  predicate Distinct(grid: seq<Cell>)
  {
    forall i, j :: 0 <= i < j < |grid| ==> grid[i] != grid[j]
  }

  /** The layout buildGrid produces: cell k sits at row k div cols, column
      k mod cols, knows the grid's dimensions, and carries the cube
      coordinates of its address. */
  predicate RowMajor(grid: seq<Cell>, cols: int, rows: int)
  {
    forall k :: 0 <= k < |grid| ==>
      && grid[k].cols == cols && grid[k].rows == rows
      && 0 <= grid[k].col < cols && 0 <= grid[k].row < rows
      && grid[k].row * cols + grid[k].col == k
      && grid[k].cube == ToCube(grid[k].col, grid[k].row)
  }

  /** Math.ceil(a / b) on a non-negative numerator and a positive denominator. */
  function CeilDiv(a: nat, b: nat): (q: nat)
    requires b > 0
    ensures q * b >= a && (q == 0 || (q - 1) * b < a)
  {
    (a + b - 1) / b
  }

  /** The number of rows: one more than the hexagon diameters that fit in the height. */
  function Rows(height: nat, radius: nat): (rows: nat)
    requires radius > 0
    ensures rows >= 1 && (rows - 1) * (2 * radius) <= height < rows * (2 * radius)
  {
    height / (2 * radius) + 1
  }

  /** The number of columns: the diameters that fit in the width plus one,
      and half as many again (rounded up) to make up for the columns being
      pushed together by the hexagonal stagger. */
  function Cols(width: nat, radius: nat): (cols: nat)
    requires radius > 0
    ensures var c := width / (2 * radius) + 1; cols == c + (c + 1) / 2
  {
    var d := 2 * radius;
    var c := width / d + 1;
    CeilDivHalf(c, radius);
    c + CeilDiv(c * radius, d)
  }

  /** ⌈c·r / 2r⌉ is ⌈c / 2⌉. */
  lemma CeilDivHalf(c: nat, r: nat)
    requires r > 0
    ensures CeilDiv(c * r, 2 * r) == (c + 1) / 2
  {
    var q := (c + 1) / 2;
    var s := (c + 1) % 2;
    assert c == 2 * q + s - 1;
    assert c * r + 2 * r - 1 == q * (2 * r) + (s + 1) * r - 1 by {
      assert c * r == (2 * q + s - 1) * r;
    }
    DivUnique(c * r + 2 * r - 1, 2 * r, q);
  }

  lemma DivUnique(a: int, b: int, q: int)
    requires b > 0 && q * b <= a < q * b + b
    ensures a / b == q
  {
    var d := a / b - q;
    assert d * b == (a - a % b) - q * b by {
      assert (a / b - q) * b == (a / b) * b - q * b;
    }
    if d > 0 {
      MulAtLeast(d, b);
    } else if d < 0 {
      MulAtLeast(-d, b);
    }
  }

  lemma {:induction false} MulAtLeast(x: int, b: int)
    requires x >= 1 && b > 0
    ensures x * b >= b
  {
    if x > 1 {
      MulAtLeast(x - 1, b);
      assert x * b == (x - 1) * b + b;
    }
  }

  /** buildGrid: the cells of a `width` by `height` viewport for hexagons of
      the given radius, pushed row by row. Only the addresses and the fields
      the model keeps are built; the k-th colour is `pickColor(k)`, standing
      for the k-th call of nextColor. */
  method BuildGrid(width: nat, height: nat, radius: nat, pickColor: nat -> Color) returns (grid: seq<Cell>)
    requires radius > 0
    ensures |grid| == Rows(height, radius) * Cols(width, radius)
    ensures RowMajor(grid, Cols(width, radius), Rows(height, radius))
    ensures Distinct(grid)
    ensures forall k :: 0 <= k < |grid| ==> fresh(grid[k])
    ensures forall k :: 0 <= k < |grid| ==>
              grid[k].color == pickColor(k) && !grid[k].clean && grid[k].index == None && grid[k].time == None
  {
    var rows := Rows(height, radius);
    var cols := Cols(width, radius);
    grid := [];
    var ri := 0;
    while ri < rows
      invariant 0 <= ri <= rows
      invariant |grid| == ri * cols
      invariant RowMajor(grid, cols, rows) && Distinct(grid)
      invariant forall k :: 0 <= k < |grid| ==> fresh(grid[k])
      invariant forall k :: 0 <= k < |grid| ==>
                  grid[k].color == pickColor(k) && !grid[k].clean && grid[k].index == None && grid[k].time == None
    {
      var ci := 0;
      ghost var base := ri * cols;
      while ci < cols
        invariant 0 <= ci <= cols
        invariant |grid| == base + ci
        invariant RowMajor(grid, cols, rows) && Distinct(grid)
        invariant forall k :: 0 <= k < |grid| ==> fresh(grid[k])
        invariant forall k :: 0 <= k < |grid| ==>
                    grid[k].color == pickColor(k) && !grid[k].clean && grid[k].index == None && grid[k].time == None
      {
        var hex := new Cell(ci, ri, cols, rows, pickColor(|grid|));
        RowMajorPush(grid, hex, cols, rows);
        grid := grid + [hex];
        ci := ci + 1;
      }
      assert ri * cols + cols == (ri + 1) * cols;
      ri := ri + 1;
    }
  }

  /** A cell at the next row-major position extends a row-major grid. */
  lemma RowMajorPush(grid: seq<Cell>, hex: Cell, cols: int, rows: int)
    requires RowMajor(grid, cols, rows)
    requires hex.cols == cols && hex.rows == rows && 0 <= hex.col < cols && 0 <= hex.row < rows
    requires hex.row * cols + hex.col == |grid| && hex.cube == ToCube(hex.col, hex.row)
    ensures RowMajor(grid + [hex], cols, rows)
  {
  }

  /** In a row-major grid cell k has row k div cols and column k mod cols. */
  lemma RowMajorAddress(grid: seq<Cell>, cols: int, rows: int, k: int)
    requires RowMajor(grid, cols, rows) && 0 <= k < |grid|
    ensures grid[k].row == k / cols && grid[k].col == k % cols
  {
    DivUnique(k, cols, grid[k].row);
  }

  /** No two cells of a row-major grid share an address or cube coordinates. */
  lemma RowMajorUnique(grid: seq<Cell>, cols: int, rows: int, i: int, j: int)
    requires RowMajor(grid, cols, rows) && 0 <= i < j < |grid|
    ensures grid[i].col != grid[j].col || grid[i].row != grid[j].row
    ensures grid[i].cube != grid[j].cube
  {
    if grid[i].cube == grid[j].cube {
      ToCubeInjective(grid[i].col, grid[i].row, grid[j].col, grid[j].row);
    }
  }

  /** The 100 by 100 viewport with radius 10: 6 rows of 9 columns. */
  lemma SmallViewportSize()
    ensures Rows(100, 10) == 6 && Cols(100, 10) == 9
  {
  }

  /** configureGrid (the clean flag and the number): every cell becomes dirty
      and learns its position; nothing else the model keeps changes. */
  method ConfigureGrid(grid: seq<Cell>)
    requires Distinct(grid)
    modifies grid
    ensures forall k :: 0 <= k < |grid| ==> !grid[k].clean && grid[k].index == Some(k)
    ensures forall k :: 0 <= k < |grid| ==> grid[k].color == old(grid[k].color) && grid[k].time == old(grid[k].time)
  {
    for i := 0 to |grid|
      invariant forall k :: 0 <= k < i ==> !grid[k].clean && grid[k].index == Some(k)
      invariant forall k :: 0 <= k < |grid| ==> grid[k].color == old(grid[k].color) && grid[k].time == old(grid[k].time)
    {
      grid[i].clean := false;
      grid[i].index := Some(i);
    }
  }

  /** The drawing surface, reduced to the number of hexagon outlines stroked. */
  class Canvas {
    var strokes: nat

    constructor ()
      ensures strokes == 0
    {
      strokes := 0;
    }

    /** drawHex: one hexagon outline. */
    method DrawHex()
      modifies this
      ensures strokes == old(strokes) + 1
    {
      strokes := strokes + 1;
    }
  }

  /** The number of cells, among the grid's first n, still to be drawn. */
  ghost function DirtyCount(grid: seq<Cell>, n: nat): nat
    requires n <= |grid|
    reads grid
  {
    if n == 0 then 0 else DirtyCount(grid, n - 1) + (if grid[n - 1].clean then 0 else 1)
  }

  /** drawGrid: every dirty cell is drawn as two nested outlines and marked
      clean; clean cells are skipped. */
  method DrawGrid(grid: seq<Cell>, canvas: Canvas)
    requires Distinct(grid)
    modifies grid, canvas
    ensures forall k :: 0 <= k < |grid| ==> grid[k].clean
    ensures forall k :: 0 <= k < |grid| ==>
              grid[k].color == old(grid[k].color) && grid[k].index == old(grid[k].index) && grid[k].time == old(grid[k].time)
    ensures canvas.strokes == old(canvas.strokes) + 2 * old(DirtyCount(grid, |grid|))
  {
    for i := 0 to |grid|
      invariant forall k :: 0 <= k < i ==> grid[k].clean
      invariant forall k :: i <= k < |grid| ==> grid[k].clean == old(grid[k].clean)
      invariant forall k :: 0 <= k < |grid| ==>
                  grid[k].color == old(grid[k].color) && grid[k].index == old(grid[k].index) && grid[k].time == old(grid[k].time)
      invariant canvas.strokes == old(canvas.strokes) + 2 * old(DirtyCount(grid, i))
    {
      var hex := grid[i];
      if hex.clean {
        continue;
      }
      canvas.DrawHex();  // the main hexagon
      canvas.DrawHex();  // the nested hexagon
      hex.clean := true;
    }
  }
}
