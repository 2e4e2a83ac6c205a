/** Tile coordinate mapping of utilities/Position.ts: nodes, tile dimensions,
    the grid of tiles packed into one image, and the conversions between a
    tile-local node (x, y, layer z) and a global pixel coordinate.

    JavaScript numbers are modelled as unbounded integers: every coordinate
    the program feeds these functions is a whole number. */
module Position {
  import opened Results
  import Arith

  /** A node. `z` is None when the JavaScript object has no `z` key at all
      (which matters to `equals`, see module Util). */
  datatype Node = Node(x: int, y: int, z: Option<int>)

  /** The pixel size of one tile. */
  datatype Dimension = Dimension(width: int, height: int)

  /** How many tiles the image holds across (columns) and down (rows). */
  datatype GridShape = GridShape(columns: int, rows: int)

  /** A grid shape that `createGrid` accepts. */
  type Grid = g: GridShape | g.columns >= 1 && g.rows >= 1 witness GridShape(1, 1)

  /** How many separator columns and rows lie to the left of and above a
      pixel; the decoder counts them while it scans. */
  datatype Depth = Depth(xDepth: int, yDepth: int)

  datatype PositionError = GridNotPositive

  /** A tile dimension the conversion loops terminate on. */
  predicate PositiveDimension(d: Dimension) {
    d.width >= 1 && d.height >= 1
  }

  /** `createNode`: the layer defaults to 0 and is always present. */
  function CreateNode(x: int, y: int, z: int := 0): (n: Node)
    ensures n.x == x && n.y == y && n.z.Some?
    ensures n.z.value == z
  {
    Node(x, y, Some(z))
  }

  /** `createGrid`: refuses a grid without at least one column and one row. */
  function CreateGrid(columns: int, rows: int): (r: Result<Grid, PositionError>)
    ensures r.Err? <==> columns < 1 || rows < 1
    ensures r.Ok? ==> r.value.columns == columns && r.value.rows == rows
  {
    if columns < 1 || rows < 1 then Err(GridNotPositive) else Ok(GridShape(columns, rows))
  }

  /** JavaScript's `a % b` for a positive divisor: the remainder of division
      truncated toward zero, so it takes the sign of `a`. */
  function JsRem(a: int, b: int): (r: int)
    requires b >= 1
    ensures -b < r < b
    ensures a >= 0 ==> 0 <= r <= a && r == a % b
    ensures a <= 0 ==> a <= r <= 0
    ensures (a - r) % b == 0
  {
    if a >= 0 then
      Arith.RemainderFacts(a, b);
      a % b
    else
      Arith.RemainderFacts(-a, b);
      assert a + (-a) % b == -((-a) - (-a) % b);
      Arith.NegatedMultiple(b, (-a) - (-a) % b);
      -((-a) % b)
  }

  /** The layer index of a node, `z ?? 0`. */
  function LayerOf(n: Node): int {
    if n.z.Some? then n.z.value else 0
  }

  /** Whether `getGlobalNode` moves a node down by whole tile rows: only when
      `z` is present, non-zero and between `columns` and `columns * rows`. */
  predicate ShiftsRows(n: Node, grid: Grid) {
    n.z.Some? && n.z.value != 0 && grid.columns <= n.z.value <= grid.columns * grid.rows
  }

  /** `getGlobalNode`: the global pixel of a tile-local node, shifted right
      by whole tiles for `z % columns` and down by whole tile rows only when
      ShiftsRows holds. The result has no `z` key. */
  function GlobalNode(n: Node, dim: Dimension, grid: Grid): (r: Node)
    ensures r.z.None?
    ensures LayerOf(n) == 0 ==> r.x == n.x && r.y == n.y
  {
    var column := JsRem(LayerOf(n), grid.columns);
    var row := if ShiftsRows(n, grid) then n.z.value / grid.columns else 0;
    Node(n.x + dim.width * column, n.y + dim.height * row, None)
  }

  /** Within the layer range 0 <= z < columns * rows, getGlobalNode is the
      row-major tiling: tile column z % columns, tile row z / columns (the
      row test only skips layers whose row is 0 anyway). */
  lemma GlobalNodeTiling(n: Node, dim: Dimension, grid: Grid)
    requires 0 <= LayerOf(n) < grid.columns * grid.rows
    ensures GlobalNode(n, dim, grid) ==
              Node(n.x + dim.width * (LayerOf(n) % grid.columns),
                   n.y + dim.height * (LayerOf(n) / grid.columns), None)
  {
    var z := LayerOf(n);
    if z < grid.columns {
      Arith.DivUnique(z, grid.columns, 0);
    }
  }

  /** Outside the layer range the row offset is not the tiling: layer
      columns * rows lands one full tile grid below the first tile, a larger
      layer and a negative layer get no row offset, and a negative layer is
      moved left by JavaScript's remainder. */
  lemma GlobalNodeOutsideLayers(n: Node, dim: Dimension, grid: Grid)
    ensures LayerOf(n) == grid.columns * grid.rows ==>
              GlobalNode(n, dim, grid) == Node(n.x, n.y + dim.height * grid.rows, None)
    ensures LayerOf(n) > grid.columns * grid.rows ==>
              GlobalNode(n, dim, grid) == Node(n.x + dim.width * (LayerOf(n) % grid.columns), n.y, None)
    ensures LayerOf(n) < 0 ==>
              GlobalNode(n, dim, grid) == Node(n.x - dim.width * ((-LayerOf(n)) % grid.columns), n.y, None)
  {
    Arith.DivMultiple(grid.columns, grid.rows);
    Arith.MulMonotone(grid.columns, 1, grid.rows);
  }

  /** For one layer, `getGlobalNode` shifts x and y by the same offset, so it
      tells nodes apart exactly when their coordinates differ. */
  lemma GlobalNodeInjective(a: Node, b: Node, dim: Dimension, grid: Grid)
    requires a.z == b.z
    ensures GlobalNode(a, dim, grid) == GlobalNode(b, dim, grid) <==> a.x == b.x && a.y == b.y
  {
  }

  /** The number of passes of `while (v > 0) { v -= step }`: the least n with
      v <= n * step, or 0 when the loop is not entered. */
  function CountDown(v: int, step: int): (n: nat)
    requires step >= 1
    ensures v <= 0 <==> n == 0
    decreases v
  {
    if v <= 0 then 0 else CountDown(v - step, step) + 1
  }

  /** The pass count is the least n with v <= n * step. */
  lemma {:induction false} CountDownBounds(v: int, step: int)
    requires step >= 1 && v > 0
    ensures var n := CountDown(v, step); (n - 1) * step < v <= n * step
    decreases v
  {
    var n := CountDown(v, step);
    if v - step > 0 {
      CountDownBounds(v - step, step);
      Arith.MulSucc(n - 1, step);
      Arith.MulSucc(n - 2, step);
    }
  }

  /** CountDown of an exact multiple is the multiplier. */
  lemma {:induction false} CountDownMultiple(q: nat, step: int)
    requires step >= 1
    ensures CountDown(step * q, step) == q
  {
    if q > 0 {
      assert step * q - step == step * (q - 1);
      CountDownMultiple(q - 1, step);
    }
  }

  /** Counting down from v - step: the passes are (v - 1) / step, which is
      how `getRelativeNode` starts its loops one tile in. */
  lemma CountDownShifted(v: int, step: int)
    requires step >= 1 && v > step
    ensures CountDown(v - step, step) == (v - 1) / step
  {
    var n := CountDown(v - step, step);
    CountDownBounds(v, step);
    Arith.MulSucc(n, step);
    Arith.DivUnique(v - 1, step, n);
  }

  /** `getRelativeNode` of utilities/Position.ts, with its loops replaced by
      the pass counts they perform. `depth` holds the separator columns and
      rows counted by the decoder. */
  function RelativeNode(g: Node, depth: Depth, dim: Dimension): (r: Node)
    requires PositiveDimension(dim)
    ensures r.z.Some? && r.z.value >= 0
    ensures g.x <= dim.width && g.y <= dim.height ==> r == Node(g.x, g.y, Some(0))
    ensures !(g.x <= dim.width && g.y <= dim.height) ==>
              r.x == g.x - (dim.width + 1) * depth.xDepth &&
              r.y == g.y - (dim.height + 1) * depth.yDepth
    ensures g.x > dim.width && g.y <= dim.height ==> r.z == Some(g.x / dim.width) && g.x / dim.width >= 1
    ensures g.y > dim.height ==>
              r.z == Some(((g.y - 1) / dim.height) * (ColumnPasses(g.x, dim.width) + 1) + g.y / dim.height)
  {
    var w := dim.width;
    var h := dim.height;
    if g.x <= w && g.y <= h then Node(g.x, g.y, Some(0))
    else
      var z := if g.y > h then RowLayer(g, dim) else g.x / w;
      PositiveQuotient(g.x, w);
      assert g.x - w * depth.xDepth - depth.xDepth == g.x - (w + 1) * depth.xDepth;
      assert g.y - h * depth.yDepth - depth.yDepth == g.y - (h + 1) * depth.yDepth;
      Node(g.x - w * depth.xDepth - depth.xDepth, g.y - h * depth.yDepth - depth.yDepth, Some(z))
  }

  /** The layer the nested loops of `getRelativeNode` produce below the first
      tile row: (outer passes) * (inner passes + 1) + y / height. */
  function RowLayer(g: Node, dim: Dimension): (z: int)
    requires PositiveDimension(dim) && g.y > dim.height
    ensures z == ((g.y - 1) / dim.height) * (ColumnPasses(g.x, dim.width) + 1) + g.y / dim.height
    ensures z >= 1
  {
    var rows := CountDown(g.y - dim.height, dim.height);
    var columns := CountDown(g.x - dim.width, dim.width);
    CountDownShifted(g.y, dim.height);
    ColumnPassesCount(g.x, dim.width);
    Arith.MulMonotone(rows, 0, columns + 1);
    PositiveQuotient(g.y, dim.height);
    rows * (columns + 1) + g.y / dim.height
  }

  /** The passes of the inner x loop of `getRelativeNode`: tiles strictly to
      the right of the first one, rounded up. */
  function ColumnPasses(x: int, width: int): int
    requires width >= 1
  {
    if x > width then (x - 1) / width else 0
  }

  lemma ColumnPassesCount(x: int, width: int)
    requires width >= 1
    ensures CountDown(x - width, width) == ColumnPasses(x, width)
  {
    if x > width {
      CountDownShifted(x, width);
    }
  }

  lemma PositiveQuotient(x: int, width: int)
    requires width >= 1
    ensures x >= width ==> x / width >= 1
  {
    if x >= width {
      Arith.DivMonotone(width, x, width);
      Arith.DivUnique(width, width, 1);
    }
  }

  /** `getRelativeNode` as written, with its early return and its nested
      counting loops; it computes the same node as RelativeNode. */
  method RelativeNodeLoops(g: Node, depth: Depth, dim: Dimension) returns (r: Node)
    requires PositiveDimension(dim)
    ensures r == RelativeNode(g, depth, dim)
  {
    var width, height := dim.width, dim.height;
    if g.x <= width && g.y <= height {
      return Node(g.x, g.y, Some(0));
    }
    var relativeZ := 0;
    if g.y > height {
      relativeZ := LowerRowPasses(g, dim);
      relativeZ := relativeZ + g.y / height;
    } else {
      relativeZ := relativeZ + g.x / width;
    }
    r := Node(g.x - width * depth.xDepth - depth.xDepth, g.y - height * depth.yDepth - depth.yDepth, Some(relativeZ));
  }

  /** The nested loops `getRelativeNode` runs below the first tile row: one
      inner x count-down per outer y pass, plus one for the pass itself. */
  method LowerRowPasses(g: Node, dim: Dimension) returns (relativeZ: int)
    requires PositiveDimension(dim) && g.y > dim.height
    ensures relativeZ == CountDown(g.y - dim.height, dim.height) * (CountDown(g.x - dim.width, dim.width) + 1)
  {
    var width, height := dim.width, dim.height;
    relativeZ := 0;
    var y := g.y - height;
    var x := g.x - width;
    ghost var inner := CountDown(g.x - width, width);
    ghost var total := CountDown(g.y - height, height);
    ghost var passes := 0;
    while y > 0
      invariant x == g.x - width
      invariant passes + CountDown(y, height) == total
      invariant relativeZ == passes * (inner + 1)
      decreases y
    {
      ghost var before := relativeZ;
      while x > 0
        invariant relativeZ - before + CountDown(x, width) == inner
        decreases x
      {
        relativeZ := relativeZ + 1;
        x := x - width;
      }
      Arith.MulSucc(passes, inner + 1);
      y := y - height;
      x := g.x - width;
      relativeZ := relativeZ + 1;
      passes := passes + 1;
    }
  }

  /** A pixel inside (or on the far edge of) the first tile maps back to
      itself: the early return hands out layer 0, which getGlobalNode leaves
      unshifted. */
  lemma FirstTileRoundTrip(g: Node, depth: Depth, dim: Dimension, grid: Grid)
    requires PositiveDimension(dim)
    requires g.x <= dim.width && g.y <= dim.height
    ensures GlobalNode(RelativeNode(g, depth, dim), dim, grid) == Node(g.x, g.y, None)
  {
  }
}
