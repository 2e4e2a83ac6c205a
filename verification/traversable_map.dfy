/** core/TraversableMap.ts: decoding an RGBA pixel buffer into the local
    nodes of each tile, splitting them into one layer per tile, and the
    point query `getNode`. Reading and writing PNG files is not modelled:
    the decoder starts from the already decoded buffer. */
module TraversableMap {
  import opened Results
  import opened Position
  import opened Util
  import Arith

  type Byte = v: int | 0 <= v < 256

  /** One RGBA pixel of the decoded buffer. */
  datatype Pixel = Pixel(red: Byte, green: Byte, blue: Byte, alpha: Byte)

  /** A decoded image as rows of pixels: pixel (x, y) is `rows[y][x]`, the
      four bytes the decoder reads at offset (width * y + x) * 4. */
  datatype Image = Image(width: int, height: int, rows: seq<seq<Pixel>>)

  predicate ValidImage(img: Image) {
    img.width >= 1 && img.height >= 1 && |img.rows| == img.height &&
    forall y :: 0 <= y < |img.rows| ==> |img.rows[y]| == img.width
  }

  /** Where row y starts in a flat buffer of rows `width` pixels long. */
  function RowStart(width: int, y: nat): int {
    if y == 0 then 0 else RowStart(width, y - 1) + width
  }

  /** The row start is width * y: pixel (x, y) is buffer entry width * y + x. */
  lemma {:induction false} RowStartIsProduct(width: int, y: nat)
    ensures RowStart(width, y) == width * y
  {
    if y > 0 {
      RowStartIsProduct(width, y - 1);
      Arith.MulSucc(y - 1, width);
    }
  }

  lemma RowInBuffer(width: int, height: int, y: nat)
    requires width >= 1 && y < height
    ensures 0 <= RowStart(width, y) && RowStart(width, y) + width <= width * height
  {
    RowStartIsProduct(width, y);
    Arith.MulMonotone(width, 0, y);
    Arith.MulMonotone(width, y + 1, height);
    assert width * (y + 1) == width * y + width;
  }

  /** Row y of a flat pixel buffer. */
  function BufferRow(width: int, height: int, data: seq<Pixel>, y: nat): (row: seq<Pixel>)
    requires width >= 1 && y < height && |data| == width * height
    ensures |row| == width
    ensures forall x :: 0 <= x < width ==> 0 <= RowStart(width, y) + x < |data| && row[x] == data[RowStart(width, y) + x]
  {
    RowInBuffer(width, height, y);
    data[RowStart(width, y) .. RowStart(width, y) + width]
  }

  /** The decoded buffer as rows: row y is the slice of `width` pixels
      starting at RowStart(width, y). */
  function ImageOfBuffer(width: int, height: int, data: seq<Pixel>): (img: Image)
    requires width >= 1 && height >= 1 && |data| == width * height
    ensures ValidImage(img) && img.width == width && img.height == height
  {
    Image(width, height, seq(height, y requires 0 <= y < height => BufferRow(width, height, data, y)))
  }

  /** Pixel (x, y) of the rows view is the (width * y + x)-th pixel of the
      buffer, the four bytes the decoder reads at offset (width * y + x) * 4. */
  lemma BufferPixel(width: int, height: int, data: seq<Pixel>, x: int, y: nat)
    requires width >= 1 && height >= 1 && |data| == width * height
    requires 0 <= x < width && y < height
    ensures width * y + x < |data|
    ensures ImageOfBuffer(width, height, data).rows[y][x] == data[width * y + x]
  {
    RowInBuffer(width, height, y);
    RowStartIsProduct(width, y);
    assert ImageOfBuffer(width, height, data).rows[y] == BufferRow(width, height, data, y);
  }

  /** A palette colour. `equals(paletteColour, pixelColour)` compares the
      four channels of the palette entry. */
  datatype Color = Color(red: int, green: int, blue: int, alpha: int)

  const MapBackground := Color(255, 255, 255, 255)
  const MapBorder := Color(23, 23, 23, 255)
  const MapObstacles := Color(0, 0, 0, 255)
  const MapOrigin := Color(255, 0, 0, 255)
  const MapEnd := Color(0, 255, 0, 255)

  /** The colour the decoder compares: the pixel's channels with alpha
      replaced by 255, so only red, green and blue decide. */
  function PixelColor(p: Pixel): Color {
    Color(p.red, p.green, p.blue, 255)
  }

  datatype PixelClass = Background | OriginMarker | EndMarker | ObstacleMarker | Unmatched

  /** The decoder's if-chain: background, then origin, then end, then
      obstacle; any other colour is dropped. */
  function Classify(p: Pixel): (c: PixelClass)
    ensures c == Background <==> p.red == 255 && p.green == 255 && p.blue == 255
    ensures c == OriginMarker <==> p.red == 255 && p.green == 0 && p.blue == 0
    ensures c == EndMarker <==> p.red == 0 && p.green == 255 && p.blue == 0
    ensures c == ObstacleMarker <==> p.red == 0 && p.green == 0 && p.blue == 0
  {
    var color := PixelColor(p);
    if color == MapBackground then Background
    else if color == MapOrigin then OriginMarker
    else if color == MapEnd then EndMarker
    else if color == MapObstacles then ObstacleMarker
    else Unmatched
  }

  /** Separator pixels match no palette entry, so a separator row that the
      decoder does scan leaves nothing behind. */
  lemma SeparatorColourIsDropped(p: Pixel)
    requires PixelColor(p) == MapBorder
    ensures Classify(p) == Unmatched
  {
  }

  /** What one scan has filed so far. The fixed nodes start as the sentinel
      `{x: -1, y: -1}`, which has no z key. */
  datatype Scan = Scan(traversable: seq<Node>, obstacles: seq<Node>, origin: Node, end: Node)

  const Sentinel := Node(-1, -1, None)

  const EmptyScan := Scan([], [], Sentinel, Sentinel)

  /** The columns the decoder skips: x == width * (k + 1) + k for some k >= 0,
      the one-pixel separator after each tile. */
  predicate SeparatorColumn(x: int, tile: Dimension)
    requires PositiveDimension(tile)
  {
    x % (tile.width + 1) == tile.width
  }

  /** The local node the decoder files for pixel (x, y): getRelativeNode
      with the separator columns and rows to the left of and above it. */
  function LocalNode(x: int, y: int, tile: Dimension): Node
    requires PositiveDimension(tile)
  {
    RelativeNode(Node(x, y, None), Depth(x / (tile.width + 1), y / (tile.height + 1)), tile)
  }

  /** Files one classified node: appended to the traversable or obstacle
      list, or overwriting the origin or end. */
  function FilePixel(s: Scan, c: PixelClass, node: Node): Scan {
    match c
    case Background => s.(traversable := s.traversable + [node])
    case OriginMarker => s.(origin := node)
    case EndMarker => s.(end := node)
    case ObstacleMarker => s.(obstacles := s.obstacles + [node])
    case Unmatched => s
  }

  /** Pixel (x, y) lies inside the image. */
  predicate InImage(img: Image, x: int, y: int) {
    ValidImage(img) && 0 <= x < img.width && 0 <= y < img.height
  }

  /** (px, py) comes before (x, y) in row-major order. */
  predicate Before(px: int, py: int, x: int, y: int) {
    py < y || (py == y && px < x)
  }

  /** A scan position: the next pixel is (x, y), or (0, height) at the end. */
  predicate ScanPosition(img: Image, x: int, y: int) {
    ValidImage(img) && 0 <= y <= img.height && 0 <= x <= img.width && (y == img.height ==> x == 0)
  }

  /** The state after every pixel before (x, y) in row-major order, with
      the separator depths in closed form: the reference the decoding loop
      is proved against. */
  function ScanUpTo(img: Image, tile: Dimension, x: int, y: int): Scan
    requires ScanPosition(img, x, y) && PositiveDimension(tile)
    decreases y, x
  {
    if x == 0 then
      if y == 0 then EmptyScan else ScanUpTo(img, tile, img.width, y - 1)
    else
      var s := ScanUpTo(img, tile, x - 1, y);
      if SeparatorColumn(x - 1, tile) then s
      else FilePixel(s, Classify(img.rows[y][x - 1]), LocalNode(x - 1, y, tile))
  }

  function Decode(img: Image, tile: Dimension): Scan
    requires ValidImage(img) && PositiveDimension(tile)
  {
    ScanUpTo(img, tile, 0, img.height)
  }

  /** Pixel (x, y) is filed with class c: it is not in a separator column
      and its colour classifies as c. */
  predicate FiledAt(img: Image, tile: Dimension, x: int, y: int, c: PixelClass)
    requires PositiveDimension(tile)
  {
    InImage(img, x, y) && !SeparatorColumn(x, tile) && Classify(img.rows[y][x]) == c
  }

  // ---------------------------------------------------------------------
  // The separator depth counters

  /** The column counter: before pixel x of a row it holds x / (width + 1),
      the border test hits exactly the separator columns, and afterwards it
      holds (x + 1) / (width + 1). */
  lemma ColumnCounterStep(x: int, width: int, xDepth: int)
    requires width >= 1 && x >= 0 && xDepth == x / (width + 1)
    ensures (x == width * (xDepth + 1) + xDepth) <==> x % (width + 1) == width
    ensures xDepth + (if x == width * (xDepth + 1) + xDepth then 1 else 0) == (x + 1) / (width + 1)
  {
    var m := x % (width + 1);
    assert x == (width + 1) * xDepth + m;
    assert width * (xDepth + 1) + xDepth == (width + 1) * xDepth + width;
    if m == width {
      assert x + 1 == (width + 1) * (xDepth + 1);
      Arith.DivUnique(x + 1, width + 1, xDepth + 1);
    } else {
      Arith.DivUnique(x + 1, width + 1, xDepth);
    }
  }

  /** The row counter: entering row y it holds (y - 1) / (height + 1) (0 on
      the first row), and the test `y > yBorder` raises it to
      y / (height + 1). */
  lemma RowCounterStep(y: int, height: int, yDepth: int)
    requires height >= 1 && y >= 0
    requires yDepth == if y == 0 then 0 else (y - 1) / (height + 1)
    ensures yDepth + (if y > height * (yDepth + 1) + yDepth then 1 else 0) == y / (height + 1)
  {
    if y == 0 {
      Arith.DivUnique(0, height + 1, 0);
    } else {
      var m := (y - 1) % (height + 1);
      assert y - 1 == (height + 1) * yDepth + m;
      assert height * (yDepth + 1) + yDepth == (height + 1) * yDepth + height;
      if m == height {
        Arith.DivUnique(y, height + 1, yDepth + 1);
      } else {
        Arith.DivUnique(y, height + 1, yDepth);
      }
    }
  }

  /** The body of the decoder's inner loop for pixel (x, y): the column
      counter update, the border test, and filing by colour. */
  method ScanPixel(img: Image, tile: Dimension, x: int, y: int, xDepth: int, yDepth: int, s: Scan)
    returns (next: Scan, nextDepth: int)
    requires ValidImage(img) && PositiveDimension(tile)
    requires 0 <= x < img.width && 0 <= y < img.height
    requires xDepth == x / (tile.width + 1) && yDepth == y / (tile.height + 1)
    requires s == ScanUpTo(img, tile, x, y)
    ensures nextDepth == (x + 1) / (tile.width + 1)
    ensures next == ScanUpTo(img, tile, x + 1, y)
  {
    var xBorder := tile.width * (xDepth + 1) + xDepth;
    ColumnCounterStep(x, tile.width, xDepth);
    nextDepth := xDepth + (if x == xBorder then 1 else 0);
    next := s;
    if x != xBorder {
      var relativeNode := RelativeNodeLoops(Node(x, y, None), Depth(nextDepth, yDepth), tile);
      next := FileByColor(s, img.rows[y][x], relativeNode);
    }
  }

  /** The colour chain of the decoder's inner loop. */
  method FileByColor(s: Scan, p: Pixel, relativeNode: Node) returns (next: Scan)
    ensures next == FilePixel(s, Classify(p), relativeNode)
  {
    var pixelColor := PixelColor(p);
    next := s;
    if pixelColor == MapBackground {
      next := next.(traversable := next.traversable + [relativeNode]);
    } else if pixelColor == MapOrigin {
      next := next.(origin := relativeNode);
    } else if pixelColor == MapEnd {
      next := next.(end := relativeNode);
    } else if pixelColor == MapObstacles {
      next := next.(obstacles := next.obstacles + [relativeNode]);
    }
  }

  /** The decoder's inner loop over one pixel row. */
  method ScanRow(img: Image, tile: Dimension, y: int, yDepth: int, s: Scan) returns (next: Scan)
    requires ValidImage(img) && PositiveDimension(tile) && 0 <= y < img.height
    requires yDepth == y / (tile.height + 1)
    requires s == ScanUpTo(img, tile, 0, y)
    ensures next == ScanUpTo(img, tile, 0, y + 1)
  {
    var xDepth := 0;
    next := s;
    var x := 0;
    while x < img.width
      invariant 0 <= x <= img.width
      invariant xDepth == x / (tile.width + 1)
      invariant next == ScanUpTo(img, tile, x, y)
    {
      next, xDepth := ScanPixel(img, tile, x, y, xDepth, yDepth, next);
      x := x + 1;
    }
  }

  /** The decoding loop of `load` as written: a row-major pass that keeps
      the separator counters `xDepth` and `yDepth`, skips the border columns
      and files every other pixel by colour. */
  method ScanImage(img: Image, tile: Dimension) returns (s: Scan)
    requires ValidImage(img) && PositiveDimension(tile)
    ensures s == Decode(img, tile)
  {
    s := EmptyScan;
    var yDepth := 0;
    var y := 0;
    while y < img.height
      invariant 0 <= y <= img.height
      invariant yDepth == if y == 0 then 0 else (y - 1) / (tile.height + 1)
      invariant s == ScanUpTo(img, tile, 0, y)
    {
      var yBorder := tile.height * (yDepth + 1) + yDepth;
      RowCounterStep(y, tile.height, yDepth);
      yDepth := yDepth + (if y > yBorder then 1 else 0);
      s := ScanRow(img, tile, y, yDepth, s);
      y := y + 1;
    }
  }

  // ---------------------------------------------------------------------
  // What the scan files

  /** Where a scan keeps the nodes of class c: the traversable list for the
      background colour, the obstacle list for the obstacle colour. */
  function FiledList(s: Scan, c: PixelClass): seq<Node> {
    match c
    case Background => s.traversable
    case ObstacleMarker => s.obstacles
    case _ => []
  }

  /** Where a scan keeps the fixed node of class c. */
  function FixedOf(s: Scan, c: PixelClass): Node {
    if c == OriginMarker then s.origin else s.end
  }

  /** Scanning pixel (x - 1, y) appends its local node to the list of its
      class, or makes it the origin or end, exactly when it is filed. */
  lemma ScanStep(img: Image, tile: Dimension, x: int, y: int, c: PixelClass)
    requires ScanPosition(img, x, y) && PositiveDimension(tile) && x > 0
    ensures c == Background || c == ObstacleMarker ==>
              FiledList(ScanUpTo(img, tile, x, y), c) ==
              FiledList(ScanUpTo(img, tile, x - 1, y), c) + (if FiledAt(img, tile, x - 1, y, c) then [LocalNode(x - 1, y, tile)] else [])
    ensures c == OriginMarker || c == EndMarker ==>
              FixedOf(ScanUpTo(img, tile, x, y), c) ==
              if FiledAt(img, tile, x - 1, y, c) then LocalNode(x - 1, y, tile) else FixedOf(ScanUpTo(img, tile, x - 1, y), c)
  {
  }

  /** A node is in the traversable (obstacle) list after the scan reaches
      (x, y) exactly when some earlier non-separator pixel of the background
      (obstacle) colour has it as its local node. */
  lemma {:induction false} ScanMembership(img: Image, tile: Dimension, x: int, y: int, c: PixelClass, node: Node)
    requires ScanPosition(img, x, y) && PositiveDimension(tile)
    requires c == Background || c == ObstacleMarker
    ensures node in FiledList(ScanUpTo(img, tile, x, y), c) <==>
            exists px, py :: Before(px, py, x, y) && FiledAt(img, tile, px, py, c) && LocalNode(px, py, tile) == node
    decreases y, x
  {
    if x == 0 {
      if y > 0 {
        ScanMembership(img, tile, img.width, y - 1, c, node);
        forall px, py | FiledAt(img, tile, px, py, c)
          ensures Before(px, py, 0, y) <==> Before(px, py, img.width, y - 1)
        {
        }
      }
    } else {
      ScanMembership(img, tile, x - 1, y, c, node);
      ScanStep(img, tile, x, y, c);
    }
  }

  /** t has only appended to the lists of s. */
  predicate Extends(s: Scan, t: Scan) {
    s.traversable <= t.traversable && s.obstacles <= t.obstacles
  }

  lemma ExtendsTransitive(s: Scan, t: Scan, u: Scan)
    requires Extends(s, t) && Extends(t, u)
    ensures Extends(s, u)
  {
  }

  /** The lists only grow as the scan advances: what an earlier position has
      filed is a prefix of what a later one has, so both lists are in
      row-major pixel order. */
  lemma {:induction false} ScanGrows(img: Image, tile: Dimension, x1: int, y1: int, x2: int, y2: int)
    requires ScanPosition(img, x1, y1) && ScanPosition(img, x2, y2) && PositiveDimension(tile)
    requires y1 < y2 || (y1 == y2 && x1 <= x2)
    ensures Extends(ScanUpTo(img, tile, x1, y1), ScanUpTo(img, tile, x2, y2))
    decreases y2, x2
  {
    if x1 == x2 && y1 == y2 {
    } else if x2 == 0 {
      ScanGrows(img, tile, x1, y1, img.width, y2 - 1);
    } else {
      ScanGrows(img, tile, x1, y1, x2 - 1, y2);
      ScanStepGrows(img, tile, x2, y2);
      ExtendsTransitive(ScanUpTo(img, tile, x1, y1), ScanUpTo(img, tile, x2 - 1, y2), ScanUpTo(img, tile, x2, y2));
    }
  }

  /** Scanning one more pixel only appends to the lists. */
  lemma ScanStepGrows(img: Image, tile: Dimension, x: int, y: int)
    requires ScanPosition(img, x, y) && PositiveDimension(tile) && x > 0
    ensures Extends(ScanUpTo(img, tile, x - 1, y), ScanUpTo(img, tile, x, y))
  {
    ScanStep(img, tile, x, y, Background);
    ScanStep(img, tile, x, y, ObstacleMarker);
  }

  /** Pixel (px, py) is the last pixel before (x, y) filed with class c. */
  ghost predicate LastFiled(img: Image, tile: Dimension, c: PixelClass, x: int, y: int, px: int, py: int)
    requires PositiveDimension(tile)
  {
    Before(px, py, x, y) && FiledAt(img, tile, px, py, c) &&
    forall qx, qy :: Before(px, py, qx, qy) && Before(qx, qy, x, y) ==> !FiledAt(img, tile, qx, qy, c)
  }

  /** Some pixel before (x, y) is filed with class c. */
  ghost predicate AnyFiled(img: Image, tile: Dimension, c: PixelClass, x: int, y: int)
    requires PositiveDimension(tile)
  {
    exists px, py :: Before(px, py, x, y) && FiledAt(img, tile, px, py, c)
  }

  /** The fixed node of class c after the scan reaches (x, y) is the local
      node of the last pixel of that colour, or the sentinel when there is
      none. */
  ghost predicate FixedNodeIsLast(img: Image, tile: Dimension, c: PixelClass, x: int, y: int)
    requires ScanPosition(img, x, y) && PositiveDimension(tile)
  {
    (AnyFiled(img, tile, c, x, y) ==>
       exists px, py :: LastFiled(img, tile, c, x, y, px, py) &&
                        FixedOf(ScanUpTo(img, tile, x, y), c) == LocalNode(px, py, tile)) &&
    (!AnyFiled(img, tile, c, x, y) ==> FixedOf(ScanUpTo(img, tile, x, y), c) == Sentinel)
  }

  /** The last origin (end) pixel wins: the fixed node is the local node of
      the last pixel of that colour, and stays the sentinel when there is
      none. */
  lemma {:induction false} ScanFixedNode(img: Image, tile: Dimension, x: int, y: int, c: PixelClass)
    requires ScanPosition(img, x, y) && PositiveDimension(tile)
    requires c == OriginMarker || c == EndMarker
    ensures FixedNodeIsLast(img, tile, c, x, y)
    decreases y, x
  {
    if x == 0 {
      if y > 0 {
        ScanFixedNode(img, tile, img.width, y - 1, c);
        FixedNodeNewRow(img, tile, c, y);
      }
    } else {
      ScanFixedNode(img, tile, x - 1, y, c);
      FixedNodeNextPixel(img, tile, c, x, y);
    }
  }

  /** Moving from the end of row y - 1 to the start of row y. */
  lemma FixedNodeNewRow(img: Image, tile: Dimension, c: PixelClass, y: int)
    requires ValidImage(img) && PositiveDimension(tile) && 0 < y <= img.height
    requires FixedNodeIsLast(img, tile, c, img.width, y - 1)
    ensures FixedNodeIsLast(img, tile, c, 0, y)
  {
    var fixed := FixedOf(ScanUpTo(img, tile, 0, y), c);
    forall px, py | FiledAt(img, tile, px, py, c)
      ensures Before(px, py, 0, y) <==> Before(px, py, img.width, y - 1)
    {
    }
    if AnyFiled(img, tile, c, 0, y) {
      var px, py :| Before(px, py, 0, y) && FiledAt(img, tile, px, py, c);
      assert Before(px, py, img.width, y - 1);
      var lx, ly :| LastFiled(img, tile, c, img.width, y - 1, lx, ly) && fixed == LocalNode(lx, ly, tile);
      assert LastFiled(img, tile, c, 0, y, lx, ly);
    }
  }

  /** Moving past pixel (x - 1, y). */
  lemma FixedNodeNextPixel(img: Image, tile: Dimension, c: PixelClass, x: int, y: int)
    requires ScanPosition(img, x, y) && PositiveDimension(tile) && x > 0
    requires c == OriginMarker || c == EndMarker
    requires FixedNodeIsLast(img, tile, c, x - 1, y)
    ensures FixedNodeIsLast(img, tile, c, x, y)
  {
    var fixed := FixedOf(ScanUpTo(img, tile, x, y), c);
    ScanStep(img, tile, x, y, c);
    if FiledAt(img, tile, x - 1, y, c) {
      assert LastFiled(img, tile, c, x, y, x - 1, y);
    } else {
      if AnyFiled(img, tile, c, x, y) {
        var px, py :| Before(px, py, x, y) && FiledAt(img, tile, px, py, c);
        assert Before(px, py, x - 1, y);
        var lx, ly :| LastFiled(img, tile, c, x - 1, y, lx, ly) && fixed == LocalNode(lx, ly, tile);
        assert LastFiled(img, tile, c, x, y, lx, ly);
      }
    }
  }

  /** A filed pixel's local node lies in its tile: x is the column within
      the tile (never the separator), y the row within the tile or the
      separator row below it; and it always carries a layer. */
  lemma LocalNodeCoordinates(x: int, y: int, tile: Dimension)
    requires PositiveDimension(tile) && x >= 0 && y >= 0 && !SeparatorColumn(x, tile)
    ensures LocalNode(x, y, tile).x == x % (tile.width + 1) && 0 <= LocalNode(x, y, tile).x < tile.width
    ensures LocalNode(x, y, tile).y == y % (tile.height + 1)
    ensures LocalNode(x, y, tile).z.Some?
  {
    var w, h := tile.width, tile.height;
    var r := LocalNode(x, y, tile);
    assert r == RelativeNode(Node(x, y, None), Depth(x / (w + 1), y / (h + 1)), tile);
    if x <= w && y <= h {
      assert r.x == x && r.y == y;
      Arith.DivUnique(x, w + 1, 0);
      Arith.DivUnique(y, h + 1, 0);
    } else {
      assert r.x == x - (w + 1) * (x / (w + 1)) && r.y == y - (h + 1) * (y / (h + 1));
      RemainderOf(x, w + 1);
      RemainderOf(y, h + 1);
    }
  }

  /** What the division leaves over is the remainder. */
  lemma RemainderOf(a: int, b: int)
    requires b >= 1
    ensures a - b * (a / b) == a % b
  {
  }


  /** With a single tile (a 1 x 1 grid) nothing is a separator and every
      pixel's local node is the pixel itself on layer 0. */
  lemma SingleTileLocalNode(img: Image, x: int, y: int)
    requires InImage(img, x, y)
    ensures !SeparatorColumn(x, Dimension(img.width, img.height))
    ensures LocalNode(x, y, Dimension(img.width, img.height)) == Node(x, y, Some(0))
  {
    Arith.DivUnique(x, img.width + 1, 0);
    Arith.DivUnique(y, img.height + 1, 0);
  }

  /** The layer is not the tile index in general: for tiles at least two
      pixels wide, pixel x = 2 * width of the first pixel row is the last
      column of the second tile, yet its layer is 2 * width / width = 2. */
  lemma WideTileLayer(tile: Dimension)
    requires PositiveDimension(tile) && tile.width >= 2
    ensures !SeparatorColumn(2 * tile.width, tile)
    ensures LocalNode(2 * tile.width, 0, tile) == Node(tile.width - 1, 0, Some(2))
  {
    var w := tile.width;
    Arith.DivUnique(2 * w, w + 1, 1);
    Arith.DivUnique(2 * w, w, 2);
    Arith.DivUnique(0, tile.height + 1, 0);
  }

  // ---------------------------------------------------------------------
  // Layers

  /** One decoded layer. */
  datatype Layer = Layer(traversable: seq<Node>, obstacles: seq<Node>)

  /** The `forEach` filter `v.z === z`, keeping order. */
  function OnLayer(nodes: seq<Node>, z: int): (r: seq<Node>)
    ensures forall n :: n in r <==> n in nodes && n.z == Some(z)
    ensures |r| <= |nodes|
  {
    if |nodes| == 0 then []
    else (if nodes[0].z == Some(z) then [nodes[0]] else []) + OnLayer(nodes[1..], z)
  }

  /** One unfolding of the filter: the head, if it is on layer z, then the
      filtered tail. */
  lemma OnLayerUnfold(s: seq<Node>, z: int)
    requires |s| > 0
    ensures OnLayer(s, z) == (if s[0].z == Some(z) then [s[0]] else []) + OnLayer(s[1..], z)
  {
  }

  /** Filtering distributes over concatenation, so each layer keeps the
      scan order of its nodes. */
  lemma {:induction false} OnLayerAppend(a: seq<Node>, b: seq<Node>, z: int)
    ensures OnLayer(a + b, z) == OnLayer(a, z) + OnLayer(b, z)
  {
    if |a| == 0 {
      assert a + b == b;
    } else {
      var ab := a + b;
      var head := if a[0].z == Some(z) then [a[0]] else [];
      OnLayerAppend(a[1..], b, z);
      assert ab[0] == a[0];
      assert ab[1..] == a[1..] + b;
      calc {
        OnLayer(ab, z);
        == { OnLayerUnfold(ab, z); }
        head + OnLayer(a[1..] + b, z);
        ==
        head + (OnLayer(a[1..], z) + OnLayer(b, z));
        ==
        (head + OnLayer(a[1..], z)) + OnLayer(b, z);
        == { OnLayerUnfold(a, z); }
        OnLayer(a, z) + OnLayer(b, z);
      }
    }
  }


  /** Layers 0 .. count - 1, each holding the nodes filed with its z. */
  function SplitLayers(travers: seq<Node>, obstacle: seq<Node>, count: nat): (layers: seq<Layer>)
    ensures |layers| == count
    ensures forall z, n :: 0 <= z < count ==>
              (n in layers[z].traversable <==> n in travers && n.z == Some(z)) &&
              (n in layers[z].obstacles <==> n in obstacle && n.z == Some(z))
  {
    seq(count, z => Layer(OnLayer(travers, z), OnLayer(obstacle, z)))
  }

  /** One `forEach` of the split loop. */
  method FilterLayer(nodes: seq<Node>, z: int) returns (r: seq<Node>)
    ensures r == OnLayer(nodes, z)
  {
    r := [];
    var i := 0;
    while i < |nodes|
      invariant 0 <= i <= |nodes|
      invariant r == OnLayer(nodes[..i], z)
    {
      OnLayerAppend(nodes[..i], [nodes[i]], z);
      assert nodes[..i + 1] == nodes[..i] + [nodes[i]];
      if nodes[i].z == Some(z) {
        r := r + [nodes[i]];
      }
      i := i + 1;
    }
    assert nodes[..|nodes|] == nodes;
  }

  /** The split loop of `load` and the copy into `allNodes`: z runs from 0
      to (columns * rows - 2) + 1. */
  method SplitLayersLoops(travers: seq<Node>, obstacle: seq<Node>, count: nat) returns (layers: seq<Layer>)
    ensures layers == SplitLayers(travers, obstacle, count)
  {
    layers := [];
    var z := 0;
    while z <= (count - 2) + 1
      invariant 0 <= z <= count
      invariant layers == SplitLayers(travers, obstacle, z)
    {
      var layerObstacles := FilterLayer(obstacle, z);
      var layerTraversable := FilterLayer(travers, z);
      layers := layers + [Layer(layerTraversable, layerObstacles)];
      z := z + 1;
    }
  }

  // ---------------------------------------------------------------------
  // Loading

  /** A loaded map (what `get()` exposes, plus the tile dimension). */
  datatype TraversableMap = TraversableMap(
    width: int, height: int, grid: Grid, tile: Dimension,
    origin: Node, end: Node, layers: seq<Layer>)

  /** The two `InvalidMapException`s. */
  datatype LoadError = MapTooSmall | MissingFixedNodes

  /** `Math.floor(dimension / count)` per axis. */
  function TileDimension(width: int, height: int, grid: Grid): Dimension {
    Dimension(width / grid.columns, height / grid.rows)
  }

  /** Images the loader handles: at least one pixel per tile each way. */
  predicate Loadable(img: Image, grid: Grid) {
    ValidImage(img) && img.width >= grid.columns && img.height >= grid.rows
  }

  lemma TileDimensionPositive(img: Image, grid: Grid)
    requires Loadable(img, grid)
    ensures PositiveDimension(TileDimension(img.width, img.height, grid))
  {
    PositiveQuotient(img.width, grid.columns);
    PositiveQuotient(img.height, grid.rows);
  }

  /** The constructor and `load`: the size guard, the tile dimension, the
      scan, the sentinel check and the split into columns * rows layers. */
  function Load(img: Image, grid: Grid): (r: Result<TraversableMap, LoadError>)
    requires Loadable(img, grid)
    ensures r == Err(MapTooSmall) <==> img.width < 2 && img.height < 2
    ensures r.Ok? ==> |r.value.layers| == grid.columns * grid.rows
    ensures r.Ok? ==> r.value.tile == TileDimension(img.width, img.height, grid) && r.value.grid == grid
  {
    if img.width < 2 && img.height < 2 then Err(MapTooSmall)
    else
      var tile := TileDimension(img.width, img.height, grid);
      TileDimensionPositive(img, grid);
      var s := Decode(img, tile);
      if s.origin.x == -1 || s.origin.y == -1 || s.end.x == -1 || s.end.y == -1 then Err(MissingFixedNodes)
      else
        Arith.MulMonotone(grid.columns, 1, grid.rows);
        Ok(TraversableMap(img.width, img.height, grid, tile, s.origin, s.end,
                          SplitLayers(s.traversable, s.obstacles, grid.columns * grid.rows)))
  }

  /** The constructor as written, with its loops. */
  method LoadMap(img: Image, grid: Grid) returns (r: Result<TraversableMap, LoadError>)
    requires Loadable(img, grid)
    ensures r == Load(img, grid)
  {
    if img.width < 2 && img.height < 2 {
      return Err(MapTooSmall);
    }
    var tile := TileDimension(img.width, img.height, grid);
    TileDimensionPositive(img, grid);
    var s := ScanImage(img, tile);
    if s.origin.x == -1 || s.origin.y == -1 || s.end.x == -1 || s.end.y == -1 {
      return Err(MissingFixedNodes);
    }
    Arith.MulMonotone(grid.columns, 1, grid.rows);
    var layers := SplitLayersLoops(s.traversable, s.obstacles, grid.columns * grid.rows);
    r := Ok(TraversableMap(img.width, img.height, grid, tile, s.origin, s.end, layers));
  }

  /** The fixed node of class c found by a full scan is the sentinel exactly
      when no pixel has that colour outside the separator columns; otherwise
      its coordinates are non-negative. */
  lemma DecodedFixedNode(img: Image, tile: Dimension, c: PixelClass)
    requires ValidImage(img) && PositiveDimension(tile)
    requires c == OriginMarker || c == EndMarker
    ensures var n := FixedOf(Decode(img, tile), c);
            (n.x == -1 || n.y == -1) <==> !AnyFiled(img, tile, c, 0, img.height)
    ensures AnyFiled(img, tile, c, 0, img.height) ==> FixedOf(Decode(img, tile), c).z.Some?
  {
    ScanFixedNode(img, tile, 0, img.height, c);
    if AnyFiled(img, tile, c, 0, img.height) {
      var px, py :| LastFiled(img, tile, c, 0, img.height, px, py) &&
                    FixedOf(Decode(img, tile), c) == LocalNode(px, py, tile);
      LocalNodeCoordinates(px, py, tile);
    }
  }

  /** Loading fails for missing fixed nodes exactly when the image passes
      the size guard but has no origin pixel or no end pixel outside the
      separator columns. */
  lemma LoadMissingFixedNodes(img: Image, grid: Grid)
    requires Loadable(img, grid)
    ensures var tile := TileDimension(img.width, img.height, grid);
            PositiveDimension(tile) &&
            (Load(img, grid) == Err(MissingFixedNodes) <==>
               !(img.width < 2 && img.height < 2) &&
               (!AnyFiled(img, tile, OriginMarker, 0, img.height) || !AnyFiled(img, tile, EndMarker, 0, img.height)))
  {
    var tile := TileDimension(img.width, img.height, grid);
    TileDimensionPositive(img, grid);
    DecodedFixedNode(img, tile, OriginMarker);
    DecodedFixedNode(img, tile, EndMarker);
  }

  /** A loaded map's origin and end are the local nodes of the last origin
      and end pixels. */
  lemma LoadFixedNodes(img: Image, grid: Grid)
    requires Loadable(img, grid) && Load(img, grid).Ok?
    ensures var tile := TileDimension(img.width, img.height, grid);
            var m := Load(img, grid).value;
            PositiveDimension(tile) &&
            (exists px, py :: LastFiled(img, tile, OriginMarker, 0, img.height, px, py) && m.origin == LocalNode(px, py, tile)) &&
            (exists px, py :: LastFiled(img, tile, EndMarker, 0, img.height, px, py) && m.end == LocalNode(px, py, tile))
  {
    var tile := TileDimension(img.width, img.height, grid);
    TileDimensionPositive(img, grid);
    LoadMissingFixedNodes(img, grid);
    ScanFixedNode(img, tile, 0, img.height, OriginMarker);
    ScanFixedNode(img, tile, 0, img.height, EndMarker);
  }

  /** Layer z of a loaded map holds exactly the local nodes on layer z of
      the background (obstacle) pixels outside the separator columns. */
  lemma LoadLayerMembership(img: Image, grid: Grid, z: int, node: Node)
    requires Loadable(img, grid) && Load(img, grid).Ok?
    requires 0 <= z < grid.columns * grid.rows
    ensures var tile := TileDimension(img.width, img.height, grid);
            var m := Load(img, grid).value;
            PositiveDimension(tile) &&
            (node in m.layers[z].traversable <==>
               node.z == Some(z) &&
               exists px, py :: FiledAt(img, tile, px, py, Background) && LocalNode(px, py, tile) == node) &&
            (node in m.layers[z].obstacles <==>
               node.z == Some(z) &&
               exists px, py :: FiledAt(img, tile, px, py, ObstacleMarker) && LocalNode(px, py, tile) == node)
  {
    var tile := TileDimension(img.width, img.height, grid);
    TileDimensionPositive(img, grid);
    ScanMembership(img, tile, 0, img.height, Background, node);
    ScanMembership(img, tile, 0, img.height, ObstacleMarker, node);
  }

  /** Layer z of a loaded map is the scanned list filtered to layer z, so
      its nodes keep the order in which the scan filed them (OnLayerAppend,
      ScanStep). */
  lemma LoadLayerOrder(img: Image, grid: Grid, z: int)
    requires Loadable(img, grid) && Load(img, grid).Ok?
    requires 0 <= z < grid.columns * grid.rows
    ensures var tile := TileDimension(img.width, img.height, grid);
            var m := Load(img, grid).value;
            PositiveDimension(tile) &&
            m.layers[z].traversable == OnLayer(Decode(img, tile).traversable, z) &&
            m.layers[z].obstacles == OnLayer(Decode(img, tile).obstacles, z)
  {
    TileDimensionPositive(img, grid);
  }

  /** The decoded lists depend only on the red, green and blue of pixels
      outside the separator columns: alpha and separator pixels are
      ignored. */
  lemma {:induction false} ScanIgnoresAlphaAndSeparators(a: Image, b: Image, tile: Dimension, x: int, y: int)
    requires ScanPosition(a, x, y) && ValidImage(b) && PositiveDimension(tile)
    requires a.width == b.width && a.height == b.height
    requires forall px, py :: InImage(a, px, py) && !SeparatorColumn(px, tile) ==>
               a.rows[py][px].red == b.rows[py][px].red &&
               a.rows[py][px].green == b.rows[py][px].green &&
               a.rows[py][px].blue == b.rows[py][px].blue
    ensures ScanUpTo(a, tile, x, y) == ScanUpTo(b, tile, x, y)
    decreases y, x
  {
    if x == 0 {
      if y > 0 {
        ScanIgnoresAlphaAndSeparators(a, b, tile, a.width, y - 1);
      }
    } else {
      ScanIgnoresAlphaAndSeparators(a, b, tile, x - 1, y);
      if !SeparatorColumn(x - 1, tile) {
        assert InImage(a, x - 1, y);
        assert Classify(a.rows[y][x - 1]) == Classify(b.rows[y][x - 1]);
      }
    }
  }

  // ---------------------------------------------------------------------
  // Point queries

  datatype NodeKind = OriginNode | EndNode | TraversableNode | NonTraversableNode

  /** The result of `getNode`: `undefined` for a layer past the end, the
      TypeError of reading `allNodes[z]` for a negative layer that is
      neither fixed node, otherwise the kind and the node {x, y, z}. */
  datatype NodeQuery = OutOfRange | LayerFault | Classified(kind: NodeKind, node: Node)

  /** Some traversable node of layer z sits at the same global position as
      `node` (the `.some` of `getNode`). */
  predicate TraversableAt(m: TraversableMap, z: int, node: Node)
    requires 0 <= z < |m.layers|
  {
    exists t :: t in m.layers[z].traversable &&
      Equals(GlobalNode(t, m.tile, m.grid), GlobalNode(node, m.tile, m.grid))
  }

  /** `getNode(x, y, z)`: origin first, then end, then layer z's traversable
      nodes compared by global position, otherwise non-traversable. */
  function GetNode(m: TraversableMap, x: int, y: int, z: int): (q: NodeQuery)
    ensures q == OutOfRange <==> z >= |m.layers|
    ensures q.Classified? ==> q.node == Node(x, y, Some(z))
    ensures q.Classified? && q.kind == OriginNode <==> z < |m.layers| && Equals(m.origin, Node(x, y, Some(z)))
  {
    if z >= |m.layers| then OutOfRange
    else
      var node := Node(x, y, Some(z));
      if Equals(m.origin, node) then Classified(OriginNode, node)
      else if Equals(m.end, node) then Classified(EndNode, node)
      else if z < 0 then LayerFault
      else if TraversableAt(m, z, node) then Classified(TraversableNode, node)
      else Classified(NonTraversableNode, node)
  }

  /** Every node of layer z carries z, as `load` files them. */
  predicate LayersConfined(m: TraversableMap) {
    forall z, n :: 0 <= z < |m.layers| && n in m.layers[z].traversable ==> n.z == Some(z)
  }

  lemma LoadConfined(img: Image, grid: Grid)
    requires Loadable(img, grid) && Load(img, grid).Ok?
    ensures LayersConfined(Load(img, grid).value)
  {
  }

  /** On a map whose layers hold only their own z, the global-position test
      of `getNode` is plain membership of (x, y) in the layer: a cell is
      traversable exactly when it is not a fixed node and layer z holds a
      node at (x, y). A negative layer faults unless it is a fixed node. */
  lemma GetNodeKinds(m: TraversableMap, x: int, y: int, z: int)
    requires LayersConfined(m)
    ensures var node := Node(x, y, Some(z));
            var q := GetNode(m, x, y, z);
            (q == LayerFault <==> z < 0 && !Equals(m.origin, node) && !Equals(m.end, node)) &&
            (q == Classified(EndNode, node) <==>
               z < |m.layers| && !Equals(m.origin, node) && Equals(m.end, node)) &&
            (q == Classified(TraversableNode, node) <==>
               0 <= z < |m.layers| && !Equals(m.origin, node) && !Equals(m.end, node) &&
               exists t :: t in m.layers[z].traversable && t.x == x && t.y == y) &&
            (q == Classified(NonTraversableNode, node) <==>
               0 <= z < |m.layers| && !Equals(m.origin, node) && !Equals(m.end, node) &&
               forall t :: t in m.layers[z].traversable ==> !(t.x == x && t.y == y))
  {
    var node := Node(x, y, Some(z));
    if 0 <= z < |m.layers| {
      forall t | t in m.layers[z].traversable
        ensures Equals(GlobalNode(t, m.tile, m.grid), GlobalNode(node, m.tile, m.grid)) <==> t.x == x && t.y == y
      {
        GlobalNodeInjective(t, node, m.tile, m.grid);
      }
    }
  }
}
