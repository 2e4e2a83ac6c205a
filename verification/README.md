# Pathing-Algorithm in Dafny

This project models the core of Pathing-Algorithm, a TypeScript program with two parts.

- **The decoder** turns a tiled map image into a layered grid. The image is cut into `columns × rows` tiles. Tiles may be separated by one-pixel separator columns. Each pixel's colour says whether it is background (traversable), an obstacle, the origin or the end. Each pixel becomes a *relative node* `(x, y, z)` in its tile, where `z` is the layer.
- **The search** runs A* over layer 0 of that grid: from the origin to the end, inside the image bounds, avoiding the obstacles.

The modules follow the source files:

| module | file | what it holds |
|---|---|---|
| `Results`, `Arith` | — | the `Result`/`Option` wrappers and a few arithmetic lemmas |
| `Util` | `utilities/Util.ts` | `equals` (it compares only the keys of its first argument) and `limit` |
| `Position` | `utilities/Position.ts` | `createNode`, `createGrid`, `getGlobalNode`, and the counting-loop `getRelativeNode` the decoder calls |
| `LegacyPosition` | `Position.ts` (root) | the older, modular `getRelativeNode`. Its `createGrid` and `getGlobalNode` have the same text as those in `utilities/Position.ts`, so they are modelled once, in `Position`. |
| `TraversableMap` | `core/TraversableMap.ts` | the palette, the pixel scan of `load`, the split into layers, the constructor's checks, and `getNode` |
| `AStar` | `core/algorithm.ts` | `getAdjacentNodes`, the entries (`gNode`), the selection of the current entry, the relaxation, and one iteration of the `aStar` loop |
| `AStarInvariant` | `core/algorithm.ts` | the loop invariant of `aStar`, and that the loop terminates |
| `AStarSearch` | `core/algorithm.ts` | correctness of the whole search, the loops as written, `getBounds`, and `runAStar` |
| `AStarExample` | `tests/algorithm.test.ts` | the 3×3 example followed through `aStar` on layer-0 nodes, and the same map on the test's z-less nodes, where the search finds no path |

**Image and nodes.** The decoded PNG is modelled as a row-major image: `rows[y][x]` is a `Pixel`. `ImageOfBuffer` builds that image from the flat RGBA buffer. `BufferPixel` shows that `rows[y][x]` is buffer entry `width * y + x`, which is the entry `load` reads at byte offset `idx = (width * y + x) << 2` as long as that 32-bit shift does not wrap (fewer than 2^29 pixels). A node's `z` is an `Option`: `None` stands for a JavaScript object without a `z` key. Examples of such objects are the result of `getGlobalNode` and the sentinel `{ x: -1, y: -1 }`. `Equals` therefore is not symmetric.

**A\* arena.** Each `gNode` is an `Entry` with `g`, `h` and `f` as `real`s. Its parent is the position of the parent's entry in the closed list. A parent is always the entry being expanded, and the closed list never changes an entry afterwards. `Math.sqrt` is the parameter `root: nat -> real`. The model claims nothing about `root` beyond what the example needs.

**Behaviour of the code worth knowing.** The model follows the code as written:

- A pixel whose colour matches no palette entry is dropped: it is in no list, and it is not treated as an obstacle. The separator colour is such a colour, so separator rows are dropped too (`SeparatorColourIsDropped`).
- Only separator *columns* are skipped by position (`x === xBorder`). Separator rows are scanned like other rows.
- `getAdjacentNodes` returns up to nine cells, including the node itself, and not eight.
- The filter after `getAdjacentNodes` tests the *current* node against the bounds and obstacles, not the candidate (`Expandable`). A current node that lies on an obstacle expands to nothing. An obstacle cell can still be opened, closed and appear on a path.
- The size guard rejects an image only when it is both narrower than 2 and lower than 2 (`&&`).
- The layer `getRelativeNode` assigns is not always the row-major tile index. With tiles at least two pixels wide, the last pixel column of the second tile gets layer 2, not 1 (`WideTileLayer`). So `getGlobalNode` does not always invert it.
- `runAStar` searches with the obstacles of layer 0 only.

## Model

| member | source | states |
|---|---|---|
| Util.Equals | utilities/Util.ts:8-11 | a match forces equal x and y; if the first node has a layer, a match is full equality; if it has none, a match is equal x and y whatever the second node's layer |
| Util.EqualsReflexive | utilities/Util.ts:8-11 | every node equals itself |
| Util.EqualsTransitive | utilities/Util.ts:8-11 | equals is transitive |
| Util.EqualsAsymmetric | utilities/Util.ts:8-11 | a node without a layer equals the layer-0 node at the same cell, but not the other way round |
| Util.EqualsWithLayer | utilities/Util.ts:8-11 | when the first node has a layer, a match is symmetric and the nodes are identical |
| Util.Limit | utilities/Util.ts:22-30 | the result is the value, min or max; it lies in [min, max] when min <= max; an in-range value is returned unchanged; a value below min gives min; a value above max and not below min gives max |
| Util.LimitIdempotent | utilities/Util.ts:22-30 | limiting twice is the same as limiting once |
| Position.CreateNode | utilities/Position.ts:40-45 | the node keeps x and y and carries the given layer |
| Position.CreateGrid | utilities/Position.ts:64-69 | fails exactly when columns < 1 or rows < 1; otherwise keeps both counts |
| Position.JsRem | utilities/Position.ts:83 | JavaScript's `%`: strictly between -b and b, with the sign of a, and a minus it is a multiple of b |
| Position.GlobalNode | utilities/Position.ts:79-93 | the global node has no layer; layer 0 or no layer leaves x and y unchanged |
| Position.GlobalNodeTiling | utilities/Position.ts:82-92 | for a layer inside the grid, x is shifted by whole tiles by layer mod columns and y by layer div columns (row-major tiling) |
| Position.GlobalNodeOutsideLayers | utilities/Position.ts:82-92 | layer columns*rows lands a full grid below; larger layers get no row shift; negative layers shift left by JavaScript's remainder |
| Position.GlobalNodeInjective | utilities/Position.ts:89-92 | on one layer, two nodes map to the same global node exactly when their x and y agree |
| Position.CountDownBounds | utilities/Position.ts:113-117 | a `while (v > 0) v -= step` loop runs the least n with v <= n*step |
| Position.CountDownMultiple | utilities/Position.ts:113-117 | counting down from q*step takes q passes |
| Position.CountDownShifted | utilities/Position.ts:110-117 | counting down from v - step takes (v - 1) div step passes |
| Position.RelativeNode | utilities/Position.ts:102-134 | inside the first tile the node is returned on layer 0; otherwise x and y drop width+1 per column depth and height+1 per row depth; on the first tile row the layer is x div width (>= 1); below it, the layer is the closed form of the two nested loops; the layer is never negative |
| Position.RowLayer | utilities/Position.ts:109-124 | the layer below the first tile row is ((y-1) div h) * (column passes + 1) + y div h, and is at least 1 |
| Position.ColumnPassesCount | utilities/Position.ts:114-117 | the inner loop's pass count has the closed form used by RowLayer |
| Position.RelativeNodeLoops | utilities/Position.ts:102-134 | the nested while loops compute exactly RelativeNode |
| Position.LowerRowPasses | utilities/Position.ts:109-122 | the nested loops add (row passes) * (column passes + 1) |
| Position.FirstTileRoundTrip | utilities/Position.ts:79-106 | getGlobalNode undoes getRelativeNode on the first tile |
| LegacyPosition.TilesBefore | Position.ts:99-100 | counting down from a - a % step counts the whole steps in a, and none for negative a |
| LegacyPosition.LegacyRelativeNode | Position.ts:92-115 | x and y are JavaScript remainders by the tile size; the layer is never negative |
| LegacyPosition.LegacyLocalInTile | Position.ts:93-94 | for non-negative coordinates the local node lies inside the tile |
| LegacyPosition.LegacyLayer | Position.ts:98-112 | for x >= 0 the layer is x div w on the first tile row and (y div h) * (x div w + 2) below it |
| LegacyPosition.CountPasses | Position.ts:109-111 | the `for` loop counts the passes of a count-down |
| LegacyPosition.LegacyRelativeNodeLoops | Position.ts:92-115 | the loops compute exactly LegacyRelativeNode |
| LegacyPosition.LegacyLowerRowPasses | Position.ts:98-107 | the nested loops add rows * (columns + 1) + rows |
| LegacyPosition.FirstRowRoundTrip | Position.ts:70-115 | getGlobalNode undoes the root getRelativeNode on the first tile row |
| LegacyPosition.SecondRowEdge | Position.ts:98 | a pixel on row y = height is put on layer 0, row 0, so getGlobalNode does not return it to its place |
| TraversableMap.RowStartIsProduct | core/TraversableMap.ts:137 | the start of buffer row y is width * y |
| TraversableMap.BufferPixel | core/TraversableMap.ts:137-152 | the image pixel (x, y) is buffer entry width * y + x |
| TraversableMap.Classify | core/TraversableMap.ts:66-74 | each palette class is matched exactly by its RGB triple, ignoring alpha |
| TraversableMap.SeparatorColourIsDropped | core/TraversableMap.ts:163-171 | the separator colour matches no class |
| TraversableMap.ColumnCounterStep | core/TraversableMap.ts:139-145 | the xBorder test fires exactly on separator columns and keeps xDepth = x div (width + 1) |
| TraversableMap.RowCounterStep | core/TraversableMap.ts:128-133 | the yBorder update keeps yDepth = y div (height + 1) |
| TraversableMap.ScanPixel | core/TraversableMap.ts:136-171 | one inner iteration advances the scan by one pixel and keeps the column counter |
| TraversableMap.FileByColor | core/TraversableMap.ts:163-171 | the colour chain files the node by its class |
| TraversableMap.ScanRow | core/TraversableMap.ts:135-172 | the x loop scans one whole row |
| TraversableMap.ScanImage | core/TraversableMap.ts:128-173 | the y loop scans the whole image |
| TraversableMap.ScanStep | core/TraversableMap.ts:161-171 | one pixel appends its node to its own class's list, or replaces the origin or end |
| TraversableMap.ScanMembership | core/TraversableMap.ts:135-171 | a node is in the traversable (obstacle) list exactly when some earlier non-separator pixel of that colour has it as its relative node |
| TraversableMap.ScanGrows | core/TraversableMap.ts:164-170 | scanning further only appends to the lists |
| TraversableMap.ScanFixedNode | core/TraversableMap.ts:165-168 | the origin (end) is the relative node of the last origin (end) pixel, or the sentinel when there is none |
| TraversableMap.LocalNodeCoordinates | core/TraversableMap.ts:139-161 | off the separator columns, the relative x is x mod (width + 1) and inside the tile, and the relative y is y mod (height + 1) |
| TraversableMap.SingleTileLocalNode | core/TraversableMap.ts:139-161 | for a 1×1 grid every pixel maps to itself on layer 0 |
| TraversableMap.WideTileLayer | core/TraversableMap.ts:161 | the last pixel of the second tile of a row is put on layer 2, not on tile index 1 |
| TraversableMap.OnLayer | core/TraversableMap.ts:182-192 | the filtered list holds exactly the nodes on layer z |
| TraversableMap.OnLayerAppend | core/TraversableMap.ts:182-192 | filtering keeps the order: filtering a concatenation concatenates the filtered parts |
| TraversableMap.SplitLayers | core/TraversableMap.ts:179-194 | there are `count` layers; layer z holds exactly the scanned nodes on layer z |
| TraversableMap.FilterLayer | core/TraversableMap.ts:182-192 | the forEach loop computes OnLayer |
| TraversableMap.SplitLayersLoops | core/TraversableMap.ts:179-194 | the z loop, with the copy into allNodes, computes SplitLayers |
| TraversableMap.TileDimensionPositive | core/TraversableMap.ts:108-111 | a loadable image gives tiles at least one pixel wide and high |
| TraversableMap.Load | core/TraversableMap.ts:92-118 | fails with the size error exactly when width < 2 and height < 2; a loaded map has columns*rows layers and the floor-divided tile size |
| TraversableMap.LoadMap | core/TraversableMap.ts:92-118 | the constructor's steps compute Load |
| TraversableMap.DecodedFixedNode | core/TraversableMap.ts:165-177 | the origin (end) keeps the sentinel -1 exactly when no such pixel exists, and otherwise has a layer |
| TraversableMap.LoadMissingFixedNodes | core/TraversableMap.ts:175-177 | loading fails for missing fixed nodes exactly when the size guard passes and an origin or end pixel is missing |
| TraversableMap.LoadFixedNodes | core/TraversableMap.ts:165-168 | a loaded map's origin and end are the relative nodes of the last origin and end pixels |
| TraversableMap.LoadLayerMembership | core/TraversableMap.ts:179-194 | layer z holds exactly the layer-z relative nodes of background (obstacle) pixels |
| TraversableMap.LoadLayerOrder | core/TraversableMap.ts:179-194 | layer z is the scanned traversable (obstacle) list filtered to layer z, so it keeps the scan order (filtering distributes over concatenation, OnLayerAppend) |
| TraversableMap.ScanIgnoresAlphaAndSeparators | core/TraversableMap.ts:143-152 | two images that agree on RGB off the separator columns decode the same |
| TraversableMap.GetNode | core/TraversableMap.ts:207-227 | undefined exactly when z >= the layer count; the node returned is (x, y, z); origin exactly when the origin equals it |
| TraversableMap.LoadConfined | core/TraversableMap.ts:183-190 | every node of a loaded layer z lies on layer z |
| TraversableMap.GetNodeKinds | core/TraversableMap.ts:207-227 | each answer holds exactly in its case: fault for negative z, end, traversable when some node of layer z has that cell, non-traversable otherwise |
| AStar.ColumnCellsMembership | core/algorithm.ts:152-158 | the y loop yields exactly the in-bounds cells of one column around the node |
| AStar.GridCellsMembership | core/algorithm.ts:151-159 | the x loop yields exactly the in-bounds cells around the node |
| AStar.AdjacentNodes | core/algorithm.ts:149-161 | a node is adjacent exactly when it is a layer-0 cell within one step of the node (itself included) and inside the bounds |
| AStar.AdjacentNodesOrder | core/algorithm.ts:149-161 | the adjacent cells come column by column (increasing x), and within a column by increasing y, so no cell appears twice; this order decides ties between equally good entries |
| AStar.AdjacentNodesLoops | core/algorithm.ts:149-161 | the nested loops compute AdjacentNodes |
| AStar.ColumnLoop | core/algorithm.ts:152-158 | the inner loop computes one column |
| AStar.NeighbourEntry | core/algorithm.ts:98-110 | the entry's parent is the current entry; g adds root(1) or root(2); h is the root of the Manhattan distance; f = g + h |
| AStar.Neighbours | core/algorithm.ts:82-113 | entries exist only when the current node is expandable; then the i-th entry is the neighbour entry for the i-th node of AdjacentNodes, so every adjacent cell has exactly one entry, in getAdjacentNodes order |
| AStar.FirstMinimumUnique | core/algorithm.ts:56-63 | the first entry with least (f, h) is unique |
| AStar.SelectFrom | core/algorithm.ts:58-62 | the scan keeps the first entry with least (f, h) |
| AStar.SelectMin | core/algorithm.ts:56-63 | the selected entry is the first with least (f, h) |
| AStar.SelectCurrent | core/algorithm.ts:56-63 | the selection loop computes SelectMin |
| AStar.FindFrom | core/algorithm.ts:123 | `find` returns the first matching open entry, or none when no entry matches |
| AStar.RelaxOne | core/algorithm.ts:119-136 | a closed node is skipped; an unknown node is appended; when the candidate's node is already open at the first matching position i, the list keeps its length, every other entry is unchanged, and entry i takes the candidate's g, f and parent exactly when the candidate's g is strictly smaller; no entry's g ever grows; the candidate's node is then open |
| AStar.Chain | core/algorithm.ts:70-76 | the parent walk starts at the given entry |
| AStar.Reverse | core/algorithm.ts:78 | the path is reversed element by element |
| AStar.Remove | core/algorithm.ts:65 | `splice` removes one entry and keeps the order of the rest |
| AStar.Step | core/algorithm.ts:55-137 | a continuing iteration closes exactly one more entry and keeps every parent pointing into the closed list |
| AStarInvariant.InitValid | core/algorithm.ts:51-52 | the loop invariant holds initially |
| AStarInvariant.LinkedLayer | core/algorithm.ts:151-157 | a linked entry is a layer-0 cell inside the bounds |
| AStarInvariant.RelaxOneShaped | core/algorithm.ts:116-137 | relaxing one candidate keeps the open list linked, duplicate-free and apart from the closed list |
| AStarInvariant.RelaxAllShaped | core/algorithm.ts:116-137 | the same for the whole relaxation loop |
| AStarInvariant.StepValid | core/algorithm.ts:55-137 | one continuing iteration preserves the invariant |
| AStarInvariant.StepDecreases | core/algorithm.ts:55-66 | each continuing iteration closes a node not closed before |
| AStarInvariant.ValidInUniverse | core/algorithm.ts:149-161 | every node held is the start or a layer-0 cell of the bounds |
| AStarSearch.ChainPathShape | core/algorithm.ts:69-79 | the parent walk from the end, reversed, starts at the start entry, links step to step, and repeats no node (two entries may share x and y only when they differ in layer, as a start off layer 0 and an end on layer 0 can) |
| AStarSearch.DonePathShape | core/algorithm.ts:69-79 | a finished iteration returns such a path |
| AStarSearch.SearchPathShape | core/algorithm.ts:55-79 | any path the search returns has that shape |
| AStarSearch.SearchEmpty | core/algorithm.ts:55-140 | the empty result means no walk of expandable steps reaches the end |
| AStarSearch.PathReaches | core/algorithm.ts:69-79 | a returned path is a walk that reaches the end |
| AStarSearch.SearchCorrect | core/algorithm.ts:50-141 | the search returns a path exactly when the end is reachable, and the path has that shape |
| AStarSearch.IterationsBound | core/algorithm.ts:55-66 | closed entries plus remaining iterations never exceed the cells a search can hold |
| AStarSearch.SearchIterations | core/algorithm.ts:55-66 | the loop runs at most once per cell of the bounds, plus one |
| AStarSearch.ClosedSome | core/algorithm.ts:120 | the `some` loop decides membership in the closed list |
| AStarSearch.OpenFind | core/algorithm.ts:123 | the `find` loop computes FindOpen |
| AStarSearch.RelaxLoop | core/algorithm.ts:116-137 | the relaxation loop computes RelaxAll |
| AStarSearch.ObstacleSome | core/algorithm.ts:91 | the `some` loop decides whether an obstacle matches the cell |
| AStarSearch.NeighbourLoop | core/algorithm.ts:82-113 | the filter and construction loops compute Neighbours |
| AStarSearch.ReconstructPath | core/algorithm.ts:70-78 | the parent walk and reverse compute the path |
| AStarSearch.AStarLoops | core/algorithm.ts:50-141 | the loops compute the search; the result is non-empty exactly when the end is reachable, and then is a path |
| AStarSearch.GetBounds | core/algorithm.ts:35-38 | a cell is inside the bounds exactly when it is inside the image |
| AStarSearch.MapProblem | core/algorithm.ts:22-27 | the problem takes the map's origin, end and layer-0 obstacles |
| AStarSearch.RunAStar | core/algorithm.ts:22-28 | on a map with at least one layer the result is non-empty exactly when the end is reachable, and then is a path |
| AStarExample.ExampleSearch | tests/algorithm.test.ts:4-33 | on the 3×3 map the search returns the four-entry path for any square root close enough on 2 and 3 |
| AStarExample.ExamplePath | tests/algorithm.test.ts:26-32 | the path visits (0,0), (1,0), (2,1), (2,2) |
| AStarExample.LiteralSearchEmpty | tests/algorithm.test.ts:9-20 | on the test's own origin, end and obstacles, which have no z, the search returns no path: every node after the start is a layer-0 node, and `equals` on such a node against the z-less end compares 0 with a missing z |
| AStarExample.LiteralWalkMissesEnd | tests/algorithm.test.ts:9-20 | no node of any walk from the z-less origin equals the z-less end |

## Left out

- Reading the PNG file (`fs.readFileSync`, `PNGSync.read`) is left out: the model starts from the decoded pixels. The default `image.path` only matters for that file access.
- `drawPath`, `colorNode`, `printMaps`, `get`, `getMapDimensions` and `createDimension` are left out. They are output, accessors, or a plain record constructor.
- `limit` is modelled, but its only caller, `colorNode`, is not.
- The module-level `searchedNodes` variable is left out: it is debugging output.
- The `isNaN` check of `createNode` is left out: coordinates are integers here, so it cannot fire.
- Floating point is left out. Costs are exact reals, and `Math.sqrt` is an abstract `root`. Ties that IEEE rounding might break differently are not modelled.
- JavaScript numbers are unbounded integers here. Image coordinates are far below 2^53.
- `core/Algorithm3D.ts`, the root `algorithm.ts`, `maps.ts`, `TraversableMap.ts` and `maps.js`, `Test_alg.ts`, `Main.ts` and `test/maps.test.ts` are not part of this model.
- AStarSearch.SearchCorrect: does not claim that the path is shortest, which `runAStar`'s comment promises. The heuristic is the square root of the Manhattan distance, and the filter tests the current node rather than the candidate, so no optimality argument is established.
- AStarSearch.AStarLoops: the same weakening as SearchCorrect: reachability and path shape, not optimality.
- AStarSearch.RunAStar: the same weakening, and the map must have at least one layer; the source would throw on `allNodes[0]` otherwise.
- AStarExample.ExampleSearch: runs `aStar` on layer-0 copies of the test's nodes, not on the test's own nodes, and that substitution changes the outcome. On the literal z-less nodes, both the model and `aStar` return no path (LiteralSearchEmpty). The test as written could not pass anyway. Its `toEqual({ x: 1, y: 0 })` cannot match a node that carries `z: 0`. `runAStar` also calls `.get()` on the plain `allNodes` array. ExampleSearch shows the path the test evidently means. It proves that path only for roots exact on 0, 1 and 4, with root(2) in (1.41, 1.42) and root(3) in (1.73, 1.74).
- TraversableMap.Load: requires the image to be at least `columns` pixels wide and `rows` pixels high. With a zero tile width, every column counts as a separator and loading ends in the missing-fixed-nodes error. With a zero tile height, `getRelativeNode`'s row loop never ends once y > 0. Neither case is modelled.
- TraversableMap.LoadMap: the same requirement as Load.
- Position.RelativeNode: requires a positive tile size, for the same reason. The decoder only calls it with one.
- LegacyPosition.LegacyLayer: stated for x >= 0 only. For negative x, LegacyRelativeNode still gives the remainders and a non-negative layer.
- TraversableMap.BufferPixel: the source computes the byte offset `(width * y + x) << 2` with JavaScript's 32-bit shift. From 2^29 pixels on, the offset turns negative (the read gives `undefined` and the pixel is dropped) or wraps onto an earlier pixel. The model indexes the buffer exactly, so it agrees with the source only for images of fewer than 2^29 pixels.
- TraversableMap.GetNode: for a negative z that matches neither the origin nor the end, the source throws a `TypeError` on `allNodes[z].traversable`. The model answers `LayerFault` instead.
