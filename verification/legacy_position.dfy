/** The older Position.ts at the repository root. Its `createGrid` and
    `getGlobalNode` are the same code as in utilities/Position.ts (module
    Position); its `getRelativeNode` differs: it takes the local coordinates
    with JavaScript's `%` and counts the layer with two for-loops, with no
    separator depth. */
module LegacyPosition {
  import opened Results
  import opened Position
  import Arith

  /** The passes of `for (x = a - (a % step); x > 0; x -= step)`: a / step
      tiles for a non-negative start, none for a negative one. */
  lemma TilesBefore(a: int, step: int)
    requires step >= 1
    ensures CountDown(a - JsRem(a, step), step) == if a >= 0 then a / step else 0
  {
    if a >= 0 {
      var q := a / step;
      assert a == step * q + a % step;
      assert a - JsRem(a, step) == step * q;
      Arith.MulMonotone(step, 0, q);
      CountDownMultiple(q, step);
    }
  }

  /** The root `getRelativeNode`, its loops replaced by their pass counts:
      the local coordinates are JavaScript remainders, and the layer counts
      (column passes + 2) per row pass below the first tile row. */
  function LegacyRelativeNode(g: Node, dim: Dimension): (r: Node)
    requires PositiveDimension(dim)
    ensures r.x == JsRem(g.x, dim.width) && r.y == JsRem(g.y, dim.height)
    ensures r.z.Some? && r.z.value >= 0
  {
    var w, h := dim.width, dim.height;
    var relativeX := JsRem(g.x, w);
    var relativeY := JsRem(g.y, h);
    var columns := CountDown(g.x - relativeX, w);
    var z :=
      if g.y > h then
        var rows := CountDown(g.y - relativeY, h);
        Arith.MulMonotone(rows, 0, columns + 1);
        rows * (columns + 1) + rows
      else
        columns;
    Node(relativeX, relativeY, Some(z))
  }

  /** For non-negative coordinates the local node lies inside its tile. */
  lemma LegacyLocalInTile(g: Node, dim: Dimension)
    requires PositiveDimension(dim) && g.x >= 0 && g.y >= 0
    ensures var r := LegacyRelativeNode(g, dim);
            r.x == g.x % dim.width && 0 <= r.x < dim.width &&
            r.y == g.y % dim.height && 0 <= r.y < dim.height
  {
  }

  /** The layer of the root `getRelativeNode`: x / width on the first tile
      row (y <= height), (y / height) * (x / width + 2) below it, for x >= 0. */
  lemma LegacyLayer(g: Node, dim: Dimension)
    requires PositiveDimension(dim) && g.x >= 0
    ensures g.y <= dim.height ==> LegacyRelativeNode(g, dim).z == Some(g.x / dim.width)
    ensures g.y > dim.height ==>
              LegacyRelativeNode(g, dim).z == Some((g.y / dim.height) * (g.x / dim.width + 2))
  {
    var r := LegacyRelativeNode(g, dim);
    var columns := CountDown(g.x - JsRem(g.x, dim.width), dim.width);
    TilesBefore(g.x, dim.width);
    assert columns == g.x / dim.width;
    if g.y > dim.height {
      var rows := CountDown(g.y - JsRem(g.y, dim.height), dim.height);
      TilesBefore(g.y, dim.height);
      assert rows == g.y / dim.height;
      assert r.z == Some(rows * (columns + 1) + rows);
      Arith.MulSucc(columns + 1, rows);
      assert rows * (columns + 1) + rows == rows * (columns + 2);
    }
  }

  /** `for (v = start; v > 0; v -= step) count++`. */
  method CountPasses(start: int, step: int) returns (count: int)
    requires step >= 1
    ensures count == CountDown(start, step)
  {
    count := 0;
    var v := start;
    while v > 0
      invariant count + CountDown(v, step) == CountDown(start, step)
      decreases v
    {
      count := count + 1;
      v := v - step;
    }
  }

  /** The root `getRelativeNode` as written, with its two nested for-loops
      and the `columnDepth` counter added at the end. */
  method LegacyRelativeNodeLoops(g: Node, dim: Dimension) returns (r: Node)
    requires PositiveDimension(dim)
    ensures r == LegacyRelativeNode(g, dim)
  {
    var relativeX := JsRem(g.x, dim.width);
    var relativeY := JsRem(g.y, dim.height);
    var relativeZ := 0;
    if g.y > dim.height {
      relativeZ := LegacyLowerRowPasses(g.y - relativeY, g.x - relativeX, dim);
    } else {
      relativeZ := CountPasses(g.x - relativeX, dim.width);
    }
    r := Node(relativeX, relativeY, Some(relativeZ));
  }

  /** The nested for-loops of the root `getRelativeNode` below the first
      tile row, starting from the tile-aligned coordinates, and the final
      `relativeZ += columnDepth`. */
  method LegacyLowerRowPasses(yStart: int, xStart: int, dim: Dimension) returns (relativeZ: int)
    requires PositiveDimension(dim)
    ensures relativeZ == CountDown(yStart, dim.height) * (CountDown(xStart, dim.width) + 1) + CountDown(yStart, dim.height)
  {
    ghost var columns := CountDown(xStart, dim.width);
    ghost var rows := CountDown(yStart, dim.height);
    relativeZ := 0;
    var columnDepth := 0;
    var y := yStart;
    while y > 0
      invariant columnDepth + CountDown(y, dim.height) == rows
      invariant relativeZ == columnDepth * (columns + 1)
      decreases y
    {
      var passes := CountPasses(xStart, dim.width);
      relativeZ := relativeZ + passes;
      relativeZ := relativeZ + 1;
      Arith.MulSucc(columnDepth, columns + 1);
      columnDepth := columnDepth + 1;
      y := y - dim.height;
    }
    relativeZ := relativeZ + columnDepth;
  }

  /** Within the first tile row (0 <= y < height) and the grid's width,
      getGlobalNode undoes the root getRelativeNode. */
  lemma FirstRowRoundTrip(g: Node, dim: Dimension, grid: Grid)
    requires PositiveDimension(dim)
    requires 0 <= g.y < dim.height && 0 <= g.x < dim.width * grid.columns
    ensures GlobalNode(LegacyRelativeNode(g, dim), dim, grid) == Node(g.x, g.y, None)
  {
    var local := LegacyRelativeNode(g, dim);
    var z := g.x / dim.width;
    LegacyLayer(g, dim);
    LegacyLocalInTile(g, dim);
    assert local == Node(g.x % dim.width, g.y % dim.height, Some(z));
    assert dim.width * z + g.x % dim.width == g.x;
    Arith.DivUnique(g.y, dim.height, 0);
    assert local.y == g.y;
    if z >= grid.columns {
      Arith.MulMonotone(dim.width, grid.columns, z);
      assert false;
    }
    Arith.MulMonotone(grid.columns, 1, grid.rows);
    GlobalNodeTiling(local, dim, grid);
    Arith.DivUnique(z, grid.columns, 0);
  }

  /** The row test is `y > height`, so the first pixel row of the second
      tile row (y == height) still gets a first-row layer although its local
      y is 0: getGlobalNode then places it in the first tile row. */
  lemma SecondRowEdge(x: int, dim: Dimension, grid: Grid)
    requires PositiveDimension(dim) && 0 <= x < dim.width
    ensures LegacyRelativeNode(Node(x, dim.height, None), dim) == Node(x, 0, Some(0))
    ensures GlobalNode(LegacyRelativeNode(Node(x, dim.height, None), dim), dim, grid) != Node(x, dim.height, None)
  {
    Arith.DivUnique(x, dim.width, 0);
    Arith.DivUnique(dim.height, dim.height, 1);
    LegacyLayer(Node(x, dim.height, None), dim);
    LegacyLocalInTile(Node(x, dim.height, None), dim);
  }
}
