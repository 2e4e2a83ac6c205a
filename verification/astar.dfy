/** core/algorithm.ts: one iteration of the A* search of `aStar` and the
    pieces it is built from. Costs are real numbers; `Math.sqrt` is the
    problem's `root` function, so the model holds for the exact square root
    and for any rounding of it alike. */
module AStar {
  import opened Results
  import opened Position
  import opened Util

  /** The two corners of the search area, `[createNode(0, 0),
      createNode(width - 1, height - 1)]` for a loaded map. */
  datatype Bounds = Bounds(lo: Node, hi: Node)

  predicate InBounds(b: Bounds, x: int, y: int) {
    b.lo.x <= x <= b.hi.x && b.lo.y <= y <= b.hi.y
  }

  /** The inputs of `aStar(start, end, obstacles, bounds)` and the square
      root its costs use. */
  datatype Problem = Problem(start: Node, end: Node, obstacles: seq<Node>, bounds: Bounds, root: nat -> real)

  // ---------------------------------------------------------------------
  // Neighbours

  /** The inner loop of getAdjacentNodes: column x from row y down to
      node.y + 1, keeping the cells inside the bounds. */
  function ColumnCells(b: Bounds, n: Node, x: int, y: int): seq<Node>
    decreases n.y + 2 - y
  {
    if y > n.y + 1 then []
    else (if InBounds(b, x, y) then [CreateNode(x, y)] else []) + ColumnCells(b, n, x, y + 1)
  }

  /** The outer loop of getAdjacentNodes: columns x .. node.x + 1. */
  function GridCells(b: Bounds, n: Node, x: int): seq<Node>
    decreases n.x + 2 - x
  {
    if x > n.x + 1 then []
    else ColumnCells(b, n, x, n.y - 1) + GridCells(b, n, x + 1)
  }

  /** m is one of the nine cells around n (n itself included). */
  predicate Around(m: Node, n: Node) {
    n.x - 1 <= m.x <= n.x + 1 && n.y - 1 <= m.y <= n.y + 1
  }

  lemma {:induction false} ColumnCellsMembership(b: Bounds, n: Node, x: int, y: int, m: Node)
    ensures m in ColumnCells(b, n, x, y) <==>
              m.z == Some(0) && m.x == x && y <= m.y <= n.y + 1 && InBounds(b, m.x, m.y)
    decreases n.y + 2 - y
  {
    if y <= n.y + 1 {
      ColumnCellsMembership(b, n, x, y + 1, m);
    }
  }

  lemma {:induction false} GridCellsMembership(b: Bounds, n: Node, x: int, m: Node)
    ensures m in GridCells(b, n, x) <==>
              m.z == Some(0) && x <= m.x <= n.x + 1 && n.y - 1 <= m.y <= n.y + 1 && InBounds(b, m.x, m.y)
    decreases n.x + 2 - x
  {
    if x <= n.x + 1 {
      ColumnCellsMembership(b, n, x, n.y - 1, m);
      GridCellsMembership(b, n, x + 1, m);
    }
  }

  /** `getAdjacentNodes(bounds, node)`: the cells around the node inside
      the bounds, the node's own cell included, as fresh nodes on layer 0
      (their order is AdjacentNodesOrder). */
  function AdjacentNodes(b: Bounds, n: Node): (r: seq<Node>)
    ensures forall m :: m in r <==> m.z == Some(0) && Around(m, n) && InBounds(b, m.x, m.y)
  {
    forall m ensures m in GridCells(b, n, n.x - 1) <==> m.z == Some(0) && Around(m, n) && InBounds(b, m.x, m.y) {
      GridCellsMembership(b, n, n.x - 1, m);
    }
    GridCells(b, n, n.x - 1)
  }

  /** m comes before k when the two loops of getAdjacentNodes are run:
      a smaller x, or the same x and a smaller y. */
  predicate ScanBefore(m: Node, k: Node) {
    m.x < k.x || (m.x == k.x && m.y < k.y)
  }

  /** Every node of s comes before every later one, so s repeats no cell. */
  predicate XMajor(s: seq<Node>) {
    forall i, j :: 0 <= i < j < |s| ==> ScanBefore(s[i], s[j])
  }

  lemma XMajorAppend(a: seq<Node>, c: seq<Node>)
    requires XMajor(a) && XMajor(c)
    requires forall m, k :: m in a && k in c ==> ScanBefore(m, k)
    ensures XMajor(a + c)
  {
  }

  lemma {:induction false} ColumnCellsXMajor(b: Bounds, n: Node, x: int, y: int)
    ensures XMajor(ColumnCells(b, n, x, y))
    decreases n.y + 2 - y
  {
    if y <= n.y + 1 {
      ColumnCellsXMajor(b, n, x, y + 1);
      var head := if InBounds(b, x, y) then [CreateNode(x, y)] else [];
      var rest := ColumnCells(b, n, x, y + 1);
      forall m, k | m in head && k in rest
        ensures ScanBefore(m, k)
      {
        ColumnCellsMembership(b, n, x, y + 1, k);
      }
      XMajorAppend(head, rest);
    }
  }

  lemma {:induction false} GridCellsXMajor(b: Bounds, n: Node, x: int)
    ensures XMajor(GridCells(b, n, x))
    decreases n.x + 2 - x
  {
    if x <= n.x + 1 {
      ColumnCellsXMajor(b, n, x, n.y - 1);
      GridCellsXMajor(b, n, x + 1);
      var column := ColumnCells(b, n, x, n.y - 1);
      var rest := GridCells(b, n, x + 1);
      forall m, k | m in column && k in rest
        ensures ScanBefore(m, k)
      {
        ColumnCellsMembership(b, n, x, n.y - 1, m);
        GridCellsMembership(b, n, x + 1, k);
      }
      XMajorAppend(column, rest);
    }
  }

  /** getAdjacentNodes lists its cells column by column, top to bottom,
      each once: the order in which the search meets cells of equal cost. */
  lemma AdjacentNodesOrder(b: Bounds, n: Node)
    ensures XMajor(AdjacentNodes(b, n))
    ensures forall i, j :: 0 <= i < j < |AdjacentNodes(b, n)| ==> AdjacentNodes(b, n)[i] != AdjacentNodes(b, n)[j]
  {
    GridCellsXMajor(b, n, n.x - 1);
  }

  /** getAdjacentNodes with its two for-loops; the inner loop is
      ColumnLoop. */
  method AdjacentNodesLoops(b: Bounds, n: Node) returns (adjacentNodes: seq<Node>)
    ensures adjacentNodes == AdjacentNodes(b, n)
  {
    adjacentNodes := [];
    var x := n.x - 1;
    while x <= n.x + 1
      invariant n.x - 1 <= x <= n.x + 2
      invariant adjacentNodes + GridCells(b, n, x) == GridCells(b, n, n.x - 1)
      decreases n.x + 2 - x
    {
      var column := ColumnLoop(b, n, x);
      assert adjacentNodes + GridCells(b, n, x) == (adjacentNodes + column) + GridCells(b, n, x + 1);
      adjacentNodes := adjacentNodes + column;
      x := x + 1;
    }
  }

  /** The inner for-loop of getAdjacentNodes over one column, with the
      `continue` for cells outside the bounds. */
  method ColumnLoop(b: Bounds, n: Node, x: int) returns (column: seq<Node>)
    ensures column == ColumnCells(b, n, x, n.y - 1)
  {
    column := [];
    var y := n.y - 1;
    while y <= n.y + 1
      invariant n.y - 1 <= y <= n.y + 2
      invariant column + ColumnCells(b, n, x, y) == ColumnCells(b, n, x, n.y - 1)
      decreases n.y + 2 - y
    {
      if !InBounds(b, x, y) {
        y := y + 1;
        continue;
      }
      assert column + ColumnCells(b, n, x, y) == (column + [CreateNode(x, y)]) + ColumnCells(b, n, x, y + 1);
      column := column + [CreateNode(x, y)];
      y := y + 1;
    }
  }

  /** The obstacle list holds a node matching `createNode(x, y)`. */
  predicate ObstacleAt(obstacles: seq<Node>, x: int, y: int) {
    exists o :: o in obstacles && Equals(o, CreateNode(x, y))
  }

  /** The filter of `aStar` tests the CURRENT node, not the candidate: a
      node's neighbours are all kept when it lies inside the bounds and on
      no obstacle, and all dropped otherwise. */
  predicate Expandable(p: Problem, n: Node) {
    InBounds(p.bounds, n.x, n.y) && !ObstacleAt(p.obstacles, n.x, n.y)
  }

  // ---------------------------------------------------------------------
  // Costs and entries

  function Abs(v: int): nat {
    if v < 0 then -v else v
  }

  /** `Math.sqrt(2 - (straight ? 1 : 0))`: root 1 for a move that keeps x
      or y, root 2 for a diagonal one. */
  function StepCost(p: Problem, from: Node, to: Node): real {
    p.root(if to.x == from.x || to.y == from.y then 1 else 2)
  }

  /** The root of the Manhattan distance to the end. */
  function Heuristic(p: Problem, n: Node): real {
    p.root(Abs(n.x - p.end.x) + Abs(n.y - p.end.y))
  }

  /** A `gNode`. Its parent is the position of the parent's entry in the
      closed list: a parent is always the node being expanded, which is
      already closed, and closed entries are never changed again. */
  datatype Entry = Entry(node: Node, g: real, h: real, f: real, parent: Option<nat>)

  function StartEntry(p: Problem): Entry {
    Entry(p.start, 0.0, 0.0, 0.0, None)
  }

  /** The entry built for neighbour n of the current entry, which is closed
      at position ci. */
  function NeighbourEntry(p: Problem, current: Entry, ci: nat, n: Node): (e: Entry)
    ensures e.node == n && e.parent == Some(ci)
    ensures e.g == current.g + StepCost(p, current.node, n)
    ensures e.h == Heuristic(p, n) && e.f == e.g + e.h
  {
    var g := current.g + StepCost(p, current.node, n);
    Entry(n, g, Heuristic(p, n), g + Heuristic(p, n), Some(ci))
  }

  /** The `adjacentNodes` of one iteration: an entry for every cell around
      the current node, in the order of getAdjacentNodes, or none when the
      current node is not expandable. */
  function Neighbours(p: Problem, current: Entry, ci: nat): (r: seq<Entry>)
    ensures forall i :: 0 <= i < |r| ==>
              Expandable(p, current.node) && r[i].node in AdjacentNodes(p.bounds, current.node) &&
              r[i] == NeighbourEntry(p, current, ci, r[i].node)
    ensures Expandable(p, current.node) ==>
              forall n :: n in AdjacentNodes(p.bounds, current.node) ==>
                exists i :: 0 <= i < |r| && r[i].node == n
    ensures Expandable(p, current.node) ==>
              |r| == |AdjacentNodes(p.bounds, current.node)| &&
              forall i :: 0 <= i < |r| ==> r[i].node == AdjacentNodes(p.bounds, current.node)[i]
  {
    if Expandable(p, current.node) then
      var adj := AdjacentNodes(p.bounds, current.node);
      var r := seq(|adj|, i requires 0 <= i < |adj| => NeighbourEntry(p, current, ci, adj[i]));
      assert forall n :: n in adj ==> exists i :: 0 <= i < |adj| && adj[i] == n && r[i].node == n;
      r
    else []
  }

  // ---------------------------------------------------------------------
  // Selecting the current entry

  /** a is strictly better than b: smaller f, or equal f and smaller h. */
  predicate Better(a: Entry, b: Entry) {
    b.f > a.f || (b.f == a.f && b.h > a.h)
  }

  /** k is the first entry with the least (f, h): none is better, and every
      earlier one is worse. */
  predicate FirstMinimum(open: seq<Entry>, k: int) {
    0 <= k < |open| &&
    (forall j :: 0 <= j < |open| ==> !Better(open[j], open[k])) &&
    (forall j :: 0 <= j < k ==> Better(open[k], open[j]))
  }

  /** At most one position is the first minimum. */
  lemma FirstMinimumUnique(open: seq<Entry>, k1: int, k2: int)
    requires FirstMinimum(open, k1) && FirstMinimum(open, k2)
    ensures k1 == k2
  {
    var e1, e2 := open[k1], open[k2];
    assert !Better(e1, e2) && !Better(e2, e1);
  }

  /** The scan of the selection loop from position i, best so far `best`. */
  function SelectFrom(open: seq<Entry>, best: nat, i: nat): (k: nat)
    requires best < i <= |open| && FirstMinimum(open[..i], best)
    ensures FirstMinimum(open, k)
    decreases |open| - i
  {
    if i == |open| then
      assert open[..i] == open;
      best
    else
      var next := if Better(open[i], open[best]) then i else best;
      assert open[..i + 1] == open[..i] + [open[i]];
      SelectFrom(open, next, i + 1)
  }

  /** The entry the selection loop picks: the first with the least (f, h). */
  function SelectMin(open: seq<Entry>): (k: nat)
    requires |open| > 0
    ensures FirstMinimum(open, k)
  {
    SelectFrom(open, 0, 1)
  }

  /** The selection loop of `aStar` as written. */
  method SelectCurrent(open: seq<Entry>) returns (k: nat)
    requires |open| > 0
    ensures k == SelectMin(open)
  {
    k := 0;
    var i := 1;
    while i < |open|
      invariant 1 <= i <= |open| && k < i
      invariant FirstMinimum(open[..i], k)
    {
      assert open[..i + 1] == open[..i] + [open[i]];
      if open[k].f > open[i].f || (open[k].f == open[i].f && open[k].h > open[i].h) {
        k := i;
      }
      i := i + 1;
    }
    assert open[..i] == open;
    FirstMinimumUnique(open, k, SelectMin(open));
  }

  // ---------------------------------------------------------------------
  // Relaxing the neighbours

  /** `closedList.some(node => equals(node.node, n))`. */
  predicate InClosed(closed: seq<Entry>, n: Node) {
    exists i :: 0 <= i < |closed| && Equals(closed[i].node, n)
  }

  /** `openList.find(node => equals(node.node, n))`, from position i on. */
  function FindFrom(open: seq<Entry>, n: Node, i: nat): (r: Option<nat>)
    requires i <= |open|
    ensures r.Some? ==> i <= r.value < |open| && Equals(open[r.value].node, n) &&
                        forall j :: i <= j < r.value ==> !Equals(open[j].node, n)
    ensures r.None? ==> forall j :: i <= j < |open| ==> !Equals(open[j].node, n)
    decreases |open| - i
  {
    if i == |open| then None
    else if Equals(open[i].node, n) then Some(i)
    else FindFrom(open, n, i + 1)
  }

  function FindOpen(open: seq<Entry>, n: Node): Option<nat> {
    FindFrom(open, n, 0)
  }

  /** One neighbour entry against the lists: skipped when closed; when
      already open, its g, f and parent are taken over only if strictly
      cheaper; otherwise appended. */
  function RelaxOne(closed: seq<Entry>, open: seq<Entry>, a: Entry): (r: seq<Entry>)
    ensures InClosed(closed, a.node) ==> r == open
    ensures !InClosed(closed, a.node) && FindOpen(open, a.node).None? ==> r == open + [a]
    ensures |r| == |open| || (|r| == |open| + 1 && r[|open|] == a)
    ensures forall j :: 0 <= j < |open| ==>
              r[j].node == open[j].node && r[j].h == open[j].h && r[j].g <= open[j].g &&
              (r[j] == open[j] || (open[j].g > a.g && r[j] == open[j].(g := a.g, f := a.f, parent := a.parent)))
    ensures !InClosed(closed, a.node) ==> exists j :: 0 <= j < |r| && Equals(r[j].node, a.node)
    ensures !InClosed(closed, a.node) && FindOpen(open, a.node).Some? ==>
              var i := FindOpen(open, a.node).value;
              i < |open| && |r| == |open| &&
              (forall j :: 0 <= j < |open| && j != i ==> r[j] == open[j]) &&
              r[i] == (if open[i].g > a.g then open[i].(g := a.g, f := a.f, parent := a.parent) else open[i])
  {
    if InClosed(closed, a.node) then open
    else
      match FindOpen(open, a.node)
      case Some(i) =>
        if open[i].g > a.g then open[i := open[i].(g := a.g, f := a.f, parent := a.parent)] else open
      case None =>
        EqualsReflexive(a.node);
        open + [a]
  }

  /** The loop over `adjacentNodes`, in order. */
  function RelaxAll(closed: seq<Entry>, open: seq<Entry>, adjacent: seq<Entry>): seq<Entry>
    decreases |adjacent|
  {
    if |adjacent| == 0 then open
    else RelaxAll(closed, RelaxOne(closed, open, adjacent[0]), adjacent[1..])
  }

  // ---------------------------------------------------------------------
  // One iteration

  datatype State = State(open: seq<Entry>, closed: seq<Entry>)

  function Init(p: Problem): State {
    State([StartEntry(p)], [])
  }

  /** Every parent points to an earlier closed entry. */
  predicate ParentsBelow(closed: seq<Entry>) {
    forall i :: 0 <= i < |closed| && closed[i].parent.Some? ==> closed[i].parent.value < i
  }

  /** Every parent in s points below `bound`. */
  predicate ParentsUnder(s: seq<Entry>, bound: nat) {
    forall j :: 0 <= j < |s| && s[j].parent.Some? ==> s[j].parent.value < bound
  }

  /** The arena is well formed: closed parents point backwards, open
      parents into the closed list. */
  predicate Arena(st: State) {
    ParentsBelow(st.closed) && ParentsUnder(st.open, |st.closed|)
  }

  /** The path from closed entry i back to the start, following parents. */
  function Chain(closed: seq<Entry>, i: nat): (r: seq<Entry>)
    requires ParentsBelow(closed) && i < |closed|
    ensures |r| >= 1 && r[0] == closed[i]
    decreases i
  {
    match closed[i].parent
    case None => [closed[i]]
    case Some(q) => [closed[i]] + Chain(closed, q)
  }

  function Reverse<T>(s: seq<T>): (r: seq<T>)
    ensures |r| == |s| && forall i :: 0 <= i < |s| ==> r[i] == s[|s| - 1 - i]
  {
    if |s| == 0 then [] else Reverse(s[1..]) + [s[0]]
  }

  /** `openList.splice(k, 1)`. */
  function Remove(s: seq<Entry>, k: nat): (r: seq<Entry>)
    requires k < |s|
    ensures |r| == |s| - 1
    ensures forall j :: 0 <= j < |r| ==> r[j] == if j < k then s[j] else s[j + 1]
  {
    s[..k] + s[k + 1..]
  }

  datatype StepResult = Done(path: seq<Entry>) | Continue(next: State)

  /** One iteration of the while loop: select, close, stop with the path
      if it is the end, otherwise relax its neighbours. */
  function Step(p: Problem, st: State): (r: StepResult)
    requires Arena(st) && |st.open| > 0
    ensures r.Continue? ==> Arena(r.next) && |r.next.closed| == |st.closed| + 1
  {
    var k := SelectMin(st.open);
    var current := st.open[k];
    var closed := st.closed + [current];
    var open := Remove(st.open, k);
    if Equals(current.node, p.end) then Done(Reverse(Chain(closed, |closed| - 1)))
    else
      var next := State(RelaxAll(closed, open, Neighbours(p, current, |st.closed|)), closed);
      RelaxAllArena(p, current, st.closed, open);
      Continue(next)
  }

  lemma RelaxAllArena(p: Problem, current: Entry, closed: seq<Entry>, open: seq<Entry>)
    requires ParentsBelow(closed) && (current.parent.Some? ==> current.parent.value < |closed|)
    requires ParentsUnder(open, |closed|)
    ensures var closed' := closed + [current];
            Arena(State(RelaxAll(closed', open, Neighbours(p, current, |closed|)), closed'))
  {
    var closed' := closed + [current];
    RelaxAllParents(closed', open, Neighbours(p, current, |closed|), |closed'|);
  }

  lemma {:induction false} RelaxAllParents(closed: seq<Entry>, open: seq<Entry>, adjacent: seq<Entry>, bound: nat)
    requires ParentsUnder(open, bound) && ParentsUnder(adjacent, bound)
    ensures ParentsUnder(RelaxAll(closed, open, adjacent), bound)
    decreases |adjacent|
  {
    if |adjacent| > 0 {
      var r := RelaxOne(closed, open, adjacent[0]);
      forall j | 0 <= j < |r| && r[j].parent.Some?
        ensures r[j].parent.value < bound
      {
        if j < |open| && r[j] != open[j] {
          assert r[j].parent == adjacent[0].parent;
        }
      }
      RelaxAllParents(closed, r, adjacent[1..], bound);
    }
  }
}
