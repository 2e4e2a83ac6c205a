/** core/algorithm.ts as a whole: `aStar` with its loops, what its result
    is, `getBounds` and `runAStar`. */
module AStarSearch {
  import opened Results
  import opened Position
  import opened Util
  import opened AStar
  import opened AStarInvariant
  import TraversableMap

  // ---------------------------------------------------------------------
  // The result

  /** A found path: it starts with the start entry, only its last node
      equals the end, each entry is linked from the one before (the earlier
      one is inside the bounds and on no obstacle, the later one is one of
      the cells around it, and g grows by one step cost), and no node
      repeats. */
  predicate PathShape(p: Problem, path: seq<Entry>) {
    |path| >= 1 && path[0] == StartEntry(p) && Equals(path[|path| - 1].node, p.end) &&
    (forall t :: 0 <= t < |path| - 1 ==> Linked(p, path[t], path[t + 1]) && !Equals(path[t].node, p.end)) &&
    DistinctNodes(path)
  }

  /** A walk from the start: every step leaves an expandable node for one
      of the cells around it. */
  predicate Walk(p: Problem, w: seq<Node>) {
    |w| >= 1 && w[0] == p.start &&
    forall i :: 0 <= i < |w| - 1 ==> Expandable(p, w[i]) && w[i + 1] in AdjacentNodes(p.bounds, w[i])
  }

  /** Some walk from the start meets a node that equals the end. */
  ghost predicate EndReachable(p: Problem) {
    exists w, i :: Walk(p, w) && 0 <= i < |w| && Equals(w[i], p.end)
  }

  lemma ClosedLinkedParents(p: Problem, closed: seq<Entry>)
    requires ClosedLinked(p, closed)
    ensures ParentsBelow(closed)
  {
  }

  /** Each entry of c was built by expanding the one after it. */
  predicate StepsLinked(p: Problem, c: seq<Entry>) {
    forall t :: 0 <= t < |c| - 1 ==> Linked(p, c[t + 1], c[t])
  }

  /** Every entry of c after the first is a closed entry below i. */
  ghost predicate ClosedBefore(c: seq<Entry>, closed: seq<Entry>, i: nat) {
    forall t :: 1 <= t < |c| ==> exists j :: 0 <= j < i && j < |closed| && c[t] == closed[j]
  }

  /** Following parents from closed entry i ends at the start entry. */
  lemma {:induction false} ChainStart(p: Problem, closed: seq<Entry>, i: nat)
    requires ClosedLinked(p, closed) && ParentsBelow(closed) && i < |closed|
    ensures var c := Chain(closed, i); c[|c| - 1] == StartEntry(p)
    decreases i
  {
    if closed[i].parent.Some? {
      ChainStart(p, closed, closed[i].parent.value);
    } else if i > 0 {
      assert false;
    }
  }

  /** Following parents walks through linked entries. */
  lemma {:induction false} ChainLinked(p: Problem, closed: seq<Entry>, i: nat)
    requires ClosedLinked(p, closed) && ParentsBelow(closed) && i < |closed|
    ensures StepsLinked(p, Chain(closed, i))
    decreases i
  {
    if closed[i].parent.Some? {
      var q := closed[i].parent.value;
      ChainLinked(p, closed, q);
      var c, rest := Chain(closed, i), Chain(closed, q);
      assert c == [closed[i]] + rest;
      if i > 0 {
        assert ParentLinked(p, closed, closed[i], i);
      }
      assert Linked(p, c[1], c[0]);
      forall t | 1 <= t < |c| - 1
        ensures Linked(p, c[t + 1], c[t])
      {
        assert c[t] == rest[t - 1] && c[t + 1] == rest[t];
      }
    }
  }

  /** Following parents only meets entries closed before the first. */
  lemma {:induction false} ChainBelow(closed: seq<Entry>, i: nat)
    requires ParentsBelow(closed) && i < |closed|
    ensures ClosedBefore(Chain(closed, i), closed, i)
    decreases i
  {
    var c := Chain(closed, i);
    if closed[i].parent.Some? {
      var q := closed[i].parent.value;
      var rest := Chain(closed, q);
      ChainBelow(closed, q);
      assert c == [closed[i]] + rest;
      forall t | 1 <= t < |c|
        ensures exists j :: 0 <= j < i && c[t] == closed[j]
      {
        if t == 1 {
          assert c[t] == closed[q];
        } else {
          var j :| 0 <= j < q && rest[t - 1] == closed[j];
          assert c[t] == closed[j];
        }
      }
    }
  }

  /** Following parents never repeats a node. */
  lemma {:induction false} ChainDistinct(closed: seq<Entry>, i: nat)
    requires DistinctNodes(closed) && ParentsBelow(closed) && i < |closed|
    ensures DistinctNodes(Chain(closed, i))
    decreases i
  {
    var c := Chain(closed, i);
    if closed[i].parent.Some? {
      var q := closed[i].parent.value;
      var rest := Chain(closed, q);
      ChainDistinct(closed, q);
      ChainBelow(closed, i);
      assert c == [closed[i]] + rest;
      forall a, b | 0 <= a < b < |c|
        ensures !Same(c[a].node, c[b].node)
      {
        if a > 0 {
          assert c[a] == rest[a - 1] && c[b] == rest[b - 1];
        } else {
          var j :| 0 <= j < i && c[b] == closed[j];
          assert !Same(closed[j].node, closed[i].node);
        }
      }
    }
  }

  /** The path of an iteration that closes the end has the path shape. */
  lemma DonePathShape(p: Problem, st: State)
    requires Valid(p, st) && |st.open| > 0
    requires (ValidArena(p, st); Step(p, st).Done?)
    ensures PathShape(p, Step(p, st).path)
  {
    ValidArena(p, st);
    var k := SelectMin(st.open);
    var closed := st.closed + [st.open[k]];
    StepClosed(p, st, k);
    ClosedLinkedParents(p, closed);
    assert Step(p, st).path == Reverse(Chain(closed, |closed| - 1));
    forall j | 0 <= j < |closed| - 1
      ensures !Equals(closed[j].node, p.end)
    {
      assert closed[j] == st.closed[j];
    }
    ChainPathShape(p, closed);
  }

  /** A linked closed list whose last entry alone is at the end: the
      reversed parent chain from that entry is a path. */
  lemma ChainPathShape(p: Problem, closed: seq<Entry>)
    requires ClosedLinked(p, closed) && DistinctNodes(closed) && |closed| >= 1
    requires Equals(closed[|closed| - 1].node, p.end)
    requires forall j :: 0 <= j < |closed| - 1 ==> !Equals(closed[j].node, p.end)
    ensures ParentsBelow(closed)
    ensures PathShape(p, Reverse(Chain(closed, |closed| - 1)))
  {
    ClosedLinkedParents(p, closed);
    var last := |closed| - 1;
    var c := Chain(closed, last);
    ChainStart(p, closed, last);
    ChainLinked(p, closed, last);
    ChainBelow(closed, last);
    ChainDistinct(closed, last);
    forall t | 1 <= t < |c|
      ensures !Equals(c[t].node, p.end)
    {
      var j :| 0 <= j < last && j < |closed| && c[t] == closed[j];
    }
    ReversedChain(p, c);
  }

  lemma ReversedLinked(p: Problem, c: seq<Entry>)
    requires StepsLinked(p, c)
    requires forall t :: 1 <= t < |c| ==> !Equals(c[t].node, p.end)
    ensures var path := Reverse(c);
            forall t :: 0 <= t < |path| - 1 ==> Linked(p, path[t], path[t + 1]) && !Equals(path[t].node, p.end)
  {
    var path := Reverse(c);
    var n := |c|;
    forall t | 0 <= t < n - 1
      ensures Linked(p, path[t], path[t + 1]) && !Equals(path[t].node, p.end)
    {
      assert path[t] == c[n - 1 - t] && path[t + 1] == c[n - 2 - t];
    }
  }

  /** Reversing keeps the nodes distinct. */
  lemma ReversedDistinct(c: seq<Entry>)
    requires DistinctNodes(c)
    ensures DistinctNodes(Reverse(c))
  {
    var path := Reverse(c);
    var n := |c|;
    forall a, b | 0 <= a < b < n
      ensures !Same(path[a].node, path[b].node)
    {
      assert path[a] == c[n - 1 - a] && path[b] == c[n - 1 - b];
    }
  }

  /** A chain from an entry at the end back to the start entry, reversed,
      has the path shape. */
  lemma ReversedChain(p: Problem, c: seq<Entry>)
    requires |c| >= 1 && c[|c| - 1] == StartEntry(p) && Equals(c[0].node, p.end)
    requires StepsLinked(p, c) && DistinctNodes(c)
    requires forall t :: 1 <= t < |c| ==> !Equals(c[t].node, p.end)
    ensures PathShape(p, Reverse(c))
  {
    ReversedLinked(p, c);
    ReversedDistinct(c);
  }

  /** A non-empty search result has the path shape. */
  lemma {:induction false} SearchPathShape(p: Problem, st: State)
    requires Valid(p, st)
    ensures Search(p, st) != [] ==> PathShape(p, Search(p, st))
    decreases Unclosed(p, st)
  {
    if |st.open| > 0 {
      ValidArena(p, st);
      match Step(p, st)
      case Done(path) =>
        DonePathShape(p, st);
      case Continue(next) =>
        StepValid(p, st);
        StepDecreases(p, st);
        SearchPathShape(p, next);
    }
  }

  /** With the open list empty, every node a walk visits equals some closed
      node. */
  lemma {:induction false} WalkClosed(p: Problem, st: State, w: seq<Node>, i: nat)
    requires Valid(p, st) && |st.open| == 0 && Walk(p, w) && i < |w|
    ensures exists c :: 0 <= c < |st.closed| && Equals(st.closed[c].node, w[i])
    decreases i
  {
    if i == 0 {
      assert st.closed[0].node == p.start;
      EqualsReflexive(p.start);
    } else {
      WalkClosed(p, st, w, i - 1);
      var c :| 0 <= c < |st.closed| && Equals(st.closed[c].node, w[i - 1]);
      var n := st.closed[c].node;
      assert Expandable(p, n) && w[i] in AdjacentNodes(p.bounds, n);
      assert Covered(st, w[i]);
    }
  }

  /** A search that ends with an empty open list has closed everything a
      walk from the start can reach, and none of it equals the end. */
  lemma {:induction false} SearchEmpty(p: Problem, st: State)
    requires Valid(p, st) && Search(p, st) == []
    ensures !EndReachable(p)
    decreases Unclosed(p, st)
  {
    if |st.open| == 0 {
      forall w, i | Walk(p, w) && 0 <= i < |w|
        ensures !Equals(w[i], p.end)
      {
        WalkClosed(p, st, w, i);
        var c :| 0 <= c < |st.closed| && Equals(st.closed[c].node, w[i]);
        if Equals(w[i], p.end) {
          EqualsTransitive(st.closed[c].node, w[i], p.end);
        }
      }
    } else {
      ValidArena(p, st);
      match Step(p, st)
      case Done(path) =>
        assert false;
      case Continue(next) =>
        StepValid(p, st);
        StepDecreases(p, st);
        SearchEmpty(p, next);
    }
  }

  /** `aStar` returns a path exactly when a walk from the start reaches a
      node equal to the end, and the path it returns has the path shape; an
      empty result means no such walk exists. */
  lemma SearchCorrect(p: Problem)
    ensures (InitValid(p); Search(p, Init(p)) != [] <==> EndReachable(p))
    ensures (InitValid(p); Search(p, Init(p)) != [] ==> PathShape(p, Search(p, Init(p))))
  {
    InitValid(p);
    var path := Search(p, Init(p));
    SearchPathShape(p, Init(p));
    if path == [] {
      SearchEmpty(p, Init(p));
    } else {
      PathReaches(p, path);
    }
  }

  /** The nodes of a path are a walk from the start to the end. */
  lemma PathReaches(p: Problem, path: seq<Entry>)
    requires PathShape(p, path)
    ensures EndReachable(p)
  {
    var w := seq(|path|, t requires 0 <= t < |path| => path[t].node);
    forall t | 0 <= t < |w| - 1
      ensures Expandable(p, w[t]) && w[t + 1] in AdjacentNodes(p.bounds, w[t])
    {
      assert Linked(p, path[t], path[t + 1]);
    }
    assert Walk(p, w);
    assert Equals(w[|w| - 1], p.end);
  }

  // ---------------------------------------------------------------------
  // How long it runs

  /** The number of iterations of the while loop. */
  ghost function Iterations(p: Problem, st: State): nat
    requires Valid(p, st)
    decreases Unclosed(p, st)
  {
    if |st.open| == 0 then 0
    else
      ValidArena(p, st);
      match Step(p, st)
      case Done(_) => 1
      case Continue(next) =>
        StepValid(p, st);
        StepDecreases(p, st);
        1 + Iterations(p, next)
  }

  /** Distinct entries have that many distinct nodes. */
  lemma {:induction false} DistinctCount(closed: seq<Entry>)
    requires DistinctNodes(closed)
    ensures |ClosedNodes(closed)| == |closed|
    decreases |closed|
  {
    if |closed| > 0 {
      var init := closed[..|closed| - 1];
      var e := closed[|closed| - 1];
      assert DistinctNodes(init);
      DistinctCount(init);
      assert closed == init + [e];
      ClosedNodesAppend(init, e);
      forall i | 0 <= i < |init|
        ensures init[i].node != e.node
      {
        assert !Same(closed[i].node, closed[|closed| - 1].node);
        EqualsReflexive(e.node);
      }
    }
  }

  /** Each iteration closes a new node of the universe, so the iterations
      still to come are bounded by the unclosed part of the universe. */
  lemma {:induction false} IterationsBound(p: Problem, st: State)
    requires Valid(p, st)
    ensures |st.closed| + Iterations(p, st) <= |Universe(p)|
    decreases Unclosed(p, st)
  {
    if |st.open| > 0 {
      ClosedRoom(p, st);
      ValidArena(p, st);
      match Step(p, st)
      case Done(_) =>
      case Continue(next) =>
        StepValid(p, st);
        StepDecreases(p, st);
        IterationsBound(p, next);
    } else {
      ValidInUniverse(p, st);
      DistinctCount(st.closed);
      SetSizeMonotone(ClosedNodes(st.closed), Universe(p));
    }
  }

  /** While the open list is not empty, the closed list is shorter than
      the grid: closing the selected entry adds a node of the grid it did
      not hold yet. */
  lemma ClosedRoom(p: Problem, st: State)
    requires Valid(p, st) && |st.open| > 0
    ensures |st.closed| < |Universe(p)|
  {
    ValidInUniverse(p, st);
    ValidArena(p, st);
    var k := SelectMin(st.open);
    var closed := st.closed + [st.open[k]];
    StepClosed(p, st, k);
    DistinctCount(closed);
    ClosedNodesAppend(st.closed, st.open[k]);
    assert ClosedNodes(closed) <= Universe(p);
    SetSizeMonotone(ClosedNodes(closed), Universe(p));
  }

  lemma SetSizeMonotone<T>(a: set<T>, b: set<T>)
    requires a <= b
    ensures |a| <= |b|
  {
    assert b == a + (b - a);
  }

  /** `aStar` runs at most one iteration per cell of the bounds, plus one
      for the start node. */
  lemma SearchIterations(p: Problem)
    ensures (InitValid(p); Iterations(p, Init(p)) <= |BoxNodes(p.bounds)| + 1)
  {
    InitValid(p);
    IterationsBound(p, Init(p));
    var box := BoxNodes(p.bounds);
    if p.start in box {
      assert Universe(p) == box;
    } else {
      assert |Universe(p)| == |box| + 1;
    }
  }

  // ---------------------------------------------------------------------
  // The loops of aStar

  /** `closedList.some(node => equals(node.node, n))`. */
  method ClosedSome(closed: seq<Entry>, n: Node) returns (found: bool)
    ensures found == InClosed(closed, n)
  {
    found := false;
    var i := 0;
    while i < |closed| && !found
      invariant 0 <= i <= |closed|
      invariant found ==> InClosed(closed, n)
      invariant !found ==> forall j :: 0 <= j < i ==> !Equals(closed[j].node, n)
    {
      found := Equals(closed[i].node, n);
      i := i + 1;
    }
  }

  /** `openList.find(node => equals(node.node, n))`, as a position. */
  method OpenFind(open: seq<Entry>, n: Node) returns (r: Option<nat>)
    ensures r == FindOpen(open, n)
  {
    var i := 0;
    while i < |open|
      invariant 0 <= i <= |open|
      invariant FindFrom(open, n, i) == FindOpen(open, n)
    {
      if Equals(open[i].node, n) {
        return Some(i);
      }
      i := i + 1;
    }
    return None;
  }

  /** The loop over `adjacentNodes` as written. */
  method RelaxLoop(closed: seq<Entry>, open: seq<Entry>, adjacentNodes: seq<Entry>) returns (openList: seq<Entry>)
    ensures openList == RelaxAll(closed, open, adjacentNodes)
  {
    openList := open;
    var i := 0;
    while i < |adjacentNodes|
      invariant 0 <= i <= |adjacentNodes|
      invariant RelaxAll(closed, openList, adjacentNodes[i..]) == RelaxAll(closed, open, adjacentNodes)
    {
      var adjacent := adjacentNodes[i];
      assert adjacentNodes[i..][0] == adjacent && adjacentNodes[i..][1..] == adjacentNodes[i + 1..];
      var inClosed := ClosedSome(closed, adjacent.node);
      if !inClosed {
        var openNode := OpenFind(openList, adjacent.node);
        if openNode.Some? {
          var j := openNode.value;
          if openList[j].g > adjacent.g {
            openList := openList[j := openList[j].(g := adjacent.g, f := adjacent.f, parent := adjacent.parent)];
          }
        } else {
          openList := openList + [adjacent];
        }
      }
      i := i + 1;
    }
  }

  /** `obstacles.some(obstacle => equals(obstacle, createNode(x, y)))`. */
  method ObstacleSome(obstacles: seq<Node>, x: int, y: int) returns (found: bool)
    ensures found == ObstacleAt(obstacles, x, y)
  {
    found := false;
    var i := 0;
    while i < |obstacles| && !found
      invariant 0 <= i <= |obstacles|
      invariant found ==> ObstacleAt(obstacles, x, y)
      invariant !found ==> forall j :: 0 <= j < i ==> !Equals(obstacles[j], CreateNode(x, y))
    {
      found := Equals(obstacles[i], CreateNode(x, y));
      i := i + 1;
    }
  }

  /** The neighbour coordinates, the filter on the current node and the
      construction of one entry per kept coordinate. */
  method NeighbourLoop(p: Problem, current: Entry, ci: nat) returns (adjacentNodes: seq<Entry>)
    ensures adjacentNodes == Neighbours(p, current, ci)
  {
    var coordinates := AdjacentNodesLoops(p.bounds, current.node);
    var kept: seq<Node> := [];
    var i := 0;
    while i < |coordinates|
      invariant 0 <= i <= |coordinates|
      invariant kept == if Expandable(p, current.node) then coordinates[..i] else []
    {
      var x, y := current.node.x, current.node.y;
      var blocked := ObstacleSome(p.obstacles, x, y);
      if InBounds(p.bounds, x, y) && !blocked {
        kept := kept + [coordinates[i]];
      }
      assert coordinates[..i + 1] == coordinates[..i] + [coordinates[i]];
      i := i + 1;
    }
    assert coordinates[..|coordinates|] == coordinates;
    adjacentNodes := [];
    i := 0;
    while i < |kept|
      invariant 0 <= i <= |kept|
      invariant |adjacentNodes| == i
      invariant forall j :: 0 <= j < i ==> adjacentNodes[j] == NeighbourEntry(p, current, ci, kept[j])
    {
      assert kept[i] in AdjacentNodes(p.bounds, current.node);
      var node := CreateNode(kept[i].x, kept[i].y);
      assert node == kept[i];
      adjacentNodes := adjacentNodes + [NeighbourEntry(p, current, ci, node)];
      i := i + 1;
    }
  }

  /** Following `parent` from the closed end entry, then reversing. */
  method ReconstructPath(closed: seq<Entry>, i: nat) returns (path: seq<Entry>)
    requires ParentsBelow(closed) && i < |closed|
    ensures path == Reverse(Chain(closed, i))
  {
    var reversed: seq<Entry> := [];
    var currentNode: Option<nat> := Some(i);
    while currentNode.Some?
      invariant currentNode.Some? ==>
                  currentNode.value < |closed| && reversed + Chain(closed, currentNode.value) == Chain(closed, i)
      invariant currentNode.None? ==> reversed == Chain(closed, i)
      decreases if currentNode.Some? then currentNode.value + 1 else 0
    {
      var q := currentNode.value;
      reversed := reversed + [closed[q]];
      currentNode := closed[q].parent;
    }
    path := Reverse(reversed);
  }

  /** `aStar(start, end, obstacles, bounds)` as written. */
  method AStarLoops(p: Problem) returns (path: seq<Entry>)
    ensures (InitValid(p); path == Search(p, Init(p)))
    ensures path != [] <==> EndReachable(p)
    ensures path != [] ==> PathShape(p, path)
  {
    var openList := [StartEntry(p)];
    var closedList: seq<Entry> := [];
    InitValid(p);
    SearchCorrect(p);
    while |openList| > 0
      invariant Valid(p, State(openList, closedList))
      invariant Search(p, State(openList, closedList)) == Search(p, Init(p))
      decreases Unclosed(p, State(openList, closedList))
    {
      ghost var st := State(openList, closedList);
      ValidArena(p, st);
      var k := SelectCurrent(openList);
      var current := openList[k];
      openList := Remove(openList, k);
      closedList := closedList + [current];
      if Equals(current.node, p.end) {
        StepClosed(p, st, k);
        ClosedLinkedParents(p, closedList);
        path := ReconstructPath(closedList, |closedList| - 1);
        return;
      }
      var adjacentNodes := NeighbourLoop(p, current, |closedList| - 1);
      openList := RelaxLoop(closedList, openList, adjacentNodes);
      assert Step(p, st) == Continue(State(openList, closedList));
      StepValid(p, st);
      StepDecreases(p, st);
    }
    path := [];
  }

  // ---------------------------------------------------------------------
  // runAStar

  /** `getBounds`: the image from (0, 0) to (width - 1, height - 1). */
  function GetBounds(m: TraversableMap.TraversableMap): (b: Bounds)
    ensures forall x, y :: InBounds(b, x, y) <==> 0 <= x < m.width && 0 <= y < m.height
  {
    Bounds(CreateNode(0, 0), CreateNode(m.width - 1, m.height - 1))
  }

  /** What `runAStar` hands to `aStar`: the fixed nodes, layer 0's
      obstacles and the image bounds. */
  function MapProblem(m: TraversableMap.TraversableMap, root: nat -> real): (p: Problem)
    requires |m.layers| >= 1
    ensures p.start == m.origin && p.end == m.end && p.obstacles == m.layers[0].obstacles
  {
    Problem(m.origin, m.end, m.layers[0].obstacles, GetBounds(m), root)
  }

  /** `runAStar(traversableMap)`: the search on layer 0 of a loaded map. */
  method RunAStar(m: TraversableMap.TraversableMap, root: nat -> real) returns (path: seq<Entry>)
    requires |m.layers| >= 1
    ensures path != [] <==> EndReachable(MapProblem(m, root))
    ensures path != [] ==> PathShape(MapProblem(m, root), path)
  {
    path := AStarLoops(MapProblem(m, root));
  }
}
