/** What every iteration of `aStar` keeps true of its two lists, why the
    loop ends, and the whole search as a function of the step. */
module AStarInvariant {
  import opened Results
  import opened Position
  import opened Util
  import opened AStar

  /** e was built by expanding par: par is expandable, e's cell is one of
      the cells around par's, and e's costs are par's g plus one step, the
      heuristic, and their sum. */
  predicate Linked(p: Problem, par: Entry, e: Entry) {
    Expandable(p, par.node) && e.node in AdjacentNodes(p.bounds, par.node) &&
    e.g == par.g + StepCost(p, par.node, e.node) && e.h == Heuristic(p, e.node) && e.f == e.g + e.h
  }

  /** e's parent is a closed entry below `bound` that e is linked from. */
  predicate ParentLinked(p: Problem, closed: seq<Entry>, e: Entry, bound: int) {
    e.parent.Some? && e.parent.value < bound && e.parent.value < |closed| &&
    Linked(p, closed[e.parent.value], e)
  }

  /** The closed list starts with the start entry and every later entry is
      linked from an earlier one. */
  predicate ClosedLinked(p: Problem, closed: seq<Entry>) {
    (|closed| > 0 ==> closed[0] == StartEntry(p)) &&
    forall k :: 0 < k < |closed| ==> ParentLinked(p, closed, closed[k], k)
  }

  /** Before the first iteration the open list is the start entry; after
      it, every open entry is linked from a closed one. */
  predicate OpenLinked(p: Problem, st: State) {
    (|st.closed| == 0 ==> st.open == [StartEntry(p)]) &&
    (|st.closed| > 0 ==> forall j :: 0 <= j < |st.open| ==> ParentLinked(p, st.closed, st.open[j], |st.closed|))
  }

  /** No two entries of s are at the same node, compared either way. */
  predicate DistinctNodes(s: seq<Entry>) {
    forall i, j :: 0 <= i < j < |s| ==> !Same(s[i].node, s[j].node)
  }

  /** No entry of a is at the node of an entry of b. */
  predicate Apart(a: seq<Entry>, b: seq<Entry>) {
    forall i, j :: 0 <= i < |a| && 0 <= j < |b| ==> !Same(a[i].node, b[j].node)
  }

  predicate EndNotClosed(p: Problem, closed: seq<Entry>) {
    forall i :: 0 <= i < |closed| ==> !Equals(closed[i].node, p.end)
  }

  /** Some closed or open entry's node equals n. */
  predicate Covered(st: State, n: Node) {
    InClosed(st.closed, n) || exists j :: 0 <= j < |st.open| && Equals(st.open[j].node, n)
  }

  /** Every cell around an expandable closed node has an entry. */
  predicate Covering(p: Problem, st: State) {
    forall k, n ::
      (0 <= k < |st.closed| && Expandable(p, st.closed[k].node) && n in AdjacentNodes(p.bounds, st.closed[k].node))
      ==> Covered(st, n)
  }

  /** The loop invariant of `aStar`. */
  predicate Valid(p: Problem, st: State) {
    ClosedLinked(p, st.closed) && OpenLinked(p, st) &&
    DistinctNodes(st.closed) && DistinctNodes(st.open) && Apart(st.closed, st.open) &&
    EndNotClosed(p, st.closed) && Covering(p, st)
  }

  lemma InitValid(p: Problem)
    ensures Valid(p, Init(p))
  {
  }

  lemma ValidArena(p: Problem, st: State)
    requires Valid(p, st)
    ensures Arena(st)
  {
  }

  // ---------------------------------------------------------------------
  // Relaxing keeps the open list in shape

  /** The open list during relaxation: every entry linked from the closed
      list, nodes distinct and apart from the closed ones. */
  predicate OpenShaped(p: Problem, closed: seq<Entry>, open: seq<Entry>) {
    (forall j :: 0 <= j < |open| ==> ParentLinked(p, closed, open[j], |closed|)) &&
    DistinctNodes(open) && Apart(closed, open)
  }

  /** Linked entries are fresh nodes on layer 0. */
  lemma LinkedLayer(p: Problem, par: Entry, e: Entry)
    requires Linked(p, par, e)
    ensures e.node.z == Some(0) && InBounds(p.bounds, e.node.x, e.node.y)
  {
  }

  /** Entries linked from the closed list are all on layer 0. */
  lemma OpenLayer(p: Problem, closed: seq<Entry>, open: seq<Entry>)
    requires forall j :: 0 <= j < |open| ==> ParentLinked(p, closed, open[j], |closed|)
    ensures forall j :: 0 <= j < |open| ==> open[j].node.z == Some(0)
  {
    forall j | 0 <= j < |open|
      ensures open[j].node.z == Some(0)
    {
      LinkedLayer(p, closed[open[j].parent.value], open[j]);
    }
  }

  /** Relaxing a linked entry keeps every open entry linked: a lowered
      entry takes over a's costs and parent, and a is at its node. */
  lemma RelaxOneLinked(p: Problem, closed: seq<Entry>, open: seq<Entry>, a: Entry)
    requires forall j :: 0 <= j < |open| ==> ParentLinked(p, closed, open[j], |closed|)
    requires ParentLinked(p, closed, a, |closed|)
    ensures var r := RelaxOne(closed, open, a);
            forall j :: 0 <= j < |r| ==> ParentLinked(p, closed, r[j], |closed|)
  {
    var r := RelaxOne(closed, open, a);
    LinkedLayer(p, closed[a.parent.value], a);
    OpenLayer(p, closed, open);
    forall j | 0 <= j < |r|
      ensures ParentLinked(p, closed, r[j], |closed|)
    {
      if j < |open| && r[j] != open[j] {
        var i := FindOpen(open, a.node);
        assert r[j].node == a.node;
        assert r[j] == a;
      }
    }
  }

  /** Relaxing a linked entry keeps the open nodes distinct: a is only
      appended when no open entry is at its node. */
  lemma RelaxOneDistinct(p: Problem, closed: seq<Entry>, open: seq<Entry>, a: Entry)
    requires OpenShaped(p, closed, open) && ParentLinked(p, closed, a, |closed|)
    ensures DistinctNodes(RelaxOne(closed, open, a))
  {
    var r := RelaxOne(closed, open, a);
    LinkedLayer(p, closed[a.parent.value], a);
    OpenLayer(p, closed, open);
    if |r| == |open| + 1 {
      forall i, j | 0 <= i < j < |r|
        ensures !Same(r[i].node, r[j].node)
      {
        assert r[i].node == open[i].node;
      }
    }
  }

  /** Relaxing keeps the open nodes apart from the closed ones: a is only
      appended when it is not closed. */
  lemma RelaxOneApart(p: Problem, closed: seq<Entry>, open: seq<Entry>, a: Entry)
    requires OpenShaped(p, closed, open) && ParentLinked(p, closed, a, |closed|)
    ensures Apart(closed, RelaxOne(closed, open, a))
  {
    var r := RelaxOne(closed, open, a);
    LinkedLayer(p, closed[a.parent.value], a);
    if |r| == |open| + 1 {
      forall i, j | 0 <= i < |closed| && 0 <= j < |r|
        ensures !Same(closed[i].node, r[j].node)
      {
        if j < |open| {
          assert r[j].node == open[j].node;
        }
      }
    }
  }

  lemma RelaxOneShaped(p: Problem, closed: seq<Entry>, open: seq<Entry>, a: Entry)
    requires OpenShaped(p, closed, open) && ParentLinked(p, closed, a, |closed|)
    ensures OpenShaped(p, closed, RelaxOne(closed, open, a))
  {
    RelaxOneLinked(p, closed, open, a);
    RelaxOneDistinct(p, closed, open, a);
    RelaxOneApart(p, closed, open, a);
  }

  lemma {:induction false} RelaxAllShaped(p: Problem, closed: seq<Entry>, open: seq<Entry>, adjacent: seq<Entry>)
    requires OpenShaped(p, closed, open)
    requires forall i :: 0 <= i < |adjacent| ==> ParentLinked(p, closed, adjacent[i], |closed|)
    ensures OpenShaped(p, closed, RelaxAll(closed, open, adjacent))
    decreases |adjacent|
  {
    if |adjacent| > 0 {
      RelaxOneShaped(p, closed, open, adjacent[0]);
      RelaxAllShaped(p, closed, RelaxOne(closed, open, adjacent[0]), adjacent[1..]);
    }
  }

  /** Relaxation never removes or moves an open node. */
  lemma {:induction false} RelaxAllKeeps(closed: seq<Entry>, open: seq<Entry>, adjacent: seq<Entry>)
    ensures |RelaxAll(closed, open, adjacent)| >= |open|
    ensures forall j :: 0 <= j < |open| ==> RelaxAll(closed, open, adjacent)[j].node == open[j].node
    decreases |adjacent|
  {
    if |adjacent| > 0 {
      RelaxAllKeeps(closed, RelaxOne(closed, open, adjacent[0]), adjacent[1..]);
    }
  }

  /** After relaxation every neighbour's node is closed or open. */
  lemma {:induction false} RelaxAllCovers(closed: seq<Entry>, open: seq<Entry>, adjacent: seq<Entry>, i: int)
    requires 0 <= i < |adjacent|
    ensures Covered(State(RelaxAll(closed, open, adjacent), closed), adjacent[i].node)
    decreases |adjacent|
  {
    var r := RelaxOne(closed, open, adjacent[0]);
    if i == 0 {
      RelaxAllKeeps(closed, r, adjacent[1..]);
      if !InClosed(closed, adjacent[0].node) {
        var j :| 0 <= j < |r| && Equals(r[j].node, adjacent[0].node);
        assert RelaxAll(closed, open, adjacent)[j].node == r[j].node;
      }
    } else {
      RelaxAllCovers(closed, r, adjacent[1..], i - 1);
    }
  }

  // ---------------------------------------------------------------------
  // One iteration keeps the invariant

  /** Closing the selected entry keeps the closed list linked and its
      nodes distinct. */
  lemma StepClosed(p: Problem, st: State, k: int)
    requires Valid(p, st) && 0 <= k < |st.open|
    ensures ClosedLinked(p, st.closed + [st.open[k]]) && DistinctNodes(st.closed + [st.open[k]])
  {
    var current := st.open[k];
    var closed := st.closed + [current];
    forall q | 0 < q < |closed|
      ensures ParentLinked(p, closed, closed[q], q)
    {
      if q < |st.closed| {
        assert ParentLinked(p, st.closed, st.closed[q], q);
      } else {
        assert ParentLinked(p, st.closed, current, |st.closed|);
      }
    }
    forall i, j | 0 <= i < j < |closed|
      ensures !Same(closed[i].node, closed[j].node)
    {
      if j == |st.closed| {
        assert !Same(st.closed[i].node, st.open[k].node);
      } else {
        assert !Same(st.closed[i].node, st.closed[j].node);
      }
    }
  }

  /** Removing the selected entry leaves an open list shaped against the
      new closed list. */
  lemma StepOpen(p: Problem, st: State, k: int)
    requires Valid(p, st) && 0 <= k < |st.open|
    ensures OpenShaped(p, st.closed + [st.open[k]], Remove(st.open, k))
  {
    RemoveLinked(p, st, k);
    RemoveDistinct(st.open, k);
    RemoveApart(st.closed, st.open, k);
  }

  lemma RemoveLinked(p: Problem, st: State, k: int)
    requires OpenLinked(p, st) && 0 <= k < |st.open|
    ensures var closed := st.closed + [st.open[k]];
            var open := Remove(st.open, k);
            forall j :: 0 <= j < |open| ==> ParentLinked(p, closed, open[j], |closed|)
  {
    var closed := st.closed + [st.open[k]];
    var open := Remove(st.open, k);
    if |st.closed| > 0 {
      forall j | 0 <= j < |open|
        ensures ParentLinked(p, closed, open[j], |closed|)
      {
        var j' := if j < k then j else j + 1;
        assert open[j] == st.open[j'];
        assert ParentLinked(p, st.closed, st.open[j'], |st.closed|);
        assert closed[open[j].parent.value] == st.closed[open[j].parent.value];
      }
    }
  }

  lemma RemoveDistinct(open: seq<Entry>, k: int)
    requires DistinctNodes(open) && 0 <= k < |open|
    ensures DistinctNodes(Remove(open, k))
  {
    var r := Remove(open, k);
    forall i, j | 0 <= i < j < |r|
      ensures !Same(r[i].node, r[j].node)
    {
      var i', j' := if i < k then i else i + 1, if j < k then j else j + 1;
      assert r[i] == open[i'] && r[j] == open[j'];
    }
  }

  lemma RemoveApart(closed: seq<Entry>, open: seq<Entry>, k: int)
    requires DistinctNodes(open) && Apart(closed, open) && 0 <= k < |open|
    ensures Apart(closed + [open[k]], Remove(open, k))
  {
    var c := closed + [open[k]];
    var r := Remove(open, k);
    forall i, j | 0 <= i < |c| && 0 <= j < |r|
      ensures !Same(c[i].node, r[j].node)
    {
      var j' := if j < k then j else j + 1;
      assert r[j] == open[j'];
      if i == |closed| {
        assert c[i] == open[k];
        if j' < k {
          assert !Same(open[j'].node, open[k].node);
        } else {
          assert !Same(open[k].node, open[j'].node);
        }
      } else {
        assert c[i] == closed[i];
      }
    }
  }

  /** The neighbour entries of the selected one are linked from it. */
  lemma StepNeighbours(p: Problem, st: State, k: int)
    requires 0 <= k < |st.open|
    ensures var closed := st.closed + [st.open[k]];
            var adj := Neighbours(p, st.open[k], |st.closed|);
            forall i :: 0 <= i < |adj| ==> ParentLinked(p, closed, adj[i], |closed|)
  {
    var closed := st.closed + [st.open[k]];
    assert closed[|st.closed|] == st.open[k];
  }

  /** Every cell around an expandable node has an entry in adj. */
  predicate AroundCovered(p: Problem, node: Node, adj: seq<Entry>) {
    Expandable(p, node) ==>
      forall n :: n in AdjacentNodes(p.bounds, node) ==> exists i :: 0 <= i < |adj| && adj[i].node == n
  }

  /** An iteration that does not stop keeps the loop invariant. */
  lemma StepValid(p: Problem, st: State)
    requires Valid(p, st) && |st.open| > 0
    requires (ValidArena(p, st); Step(p, st).Continue?)
    ensures Valid(p, Step(p, st).next)
  {
    ValidArena(p, st);
    var k := SelectMin(st.open);
    var current := st.open[k];
    var closed := st.closed + [current];
    var adj := Neighbours(p, current, |st.closed|);
    var next := State(RelaxAll(closed, Remove(st.open, k), adj), closed);
    assert Step(p, st).next == next;
    StepNeighbours(p, st, k);
    assert AroundCovered(p, current.node, adj);
    StepValidWith(p, st, k, adj, next);
  }

  /** StepValid for any neighbour list linked from the selected entry and
      covering the cells around it. */
  lemma StepValidWith(p: Problem, st: State, k: int, adj: seq<Entry>, next: State)
    requires Valid(p, st) && 0 <= k < |st.open| && !Equals(st.open[k].node, p.end)
    requires next.closed == st.closed + [st.open[k]]
    requires next.open == RelaxAll(next.closed, Remove(st.open, k), adj)
    requires forall i :: 0 <= i < |adj| ==> ParentLinked(p, next.closed, adj[i], |next.closed|)
    requires AroundCovered(p, st.open[k].node, adj)
    ensures Valid(p, next)
  {
    var open := Remove(st.open, k);
    StepClosed(p, st, k);
    StepOpen(p, st, k);
    RelaxAllShaped(p, next.closed, open, adj);
    StepCovering(p, st, k, adj, next);
  }

  /** After an iteration every cell around an expandable closed node still
      has an entry: the old ones keep theirs, the new closed one's are the
      neighbours just relaxed. */
  lemma StepCovering(p: Problem, st: State, k: int, adj: seq<Entry>, next: State)
    requires Covering(p, st) && 0 <= k < |st.open|
    requires next.closed == st.closed + [st.open[k]]
    requires next.open == RelaxAll(next.closed, Remove(st.open, k), adj)
    requires AroundCovered(p, st.open[k].node, adj)
    ensures Covering(p, next)
  {
    var closed, open := next.closed, Remove(st.open, k);
    RelaxAllKeeps(closed, open, adj);
    forall q, n | 0 <= q < |closed| && Expandable(p, closed[q].node) && n in AdjacentNodes(p.bounds, closed[q].node)
      ensures Covered(next, n)
    {
      if q == |st.closed| {
        var i :| 0 <= i < |adj| && adj[i].node == n;
        RelaxAllCovers(closed, open, adj, i);
      } else {
        assert closed[q] == st.closed[q];
        StepCoveredBefore(st, k, closed, open, next, n);
      }
    }
  }

  /** A node covered before the iteration is still covered after it. */
  lemma StepCoveredBefore(st: State, k: int, closed: seq<Entry>, open: seq<Entry>, next: State, n: Node)
    requires 0 <= k < |st.open| && closed == st.closed + [st.open[k]] && open == Remove(st.open, k)
    requires next.closed == closed && |next.open| >= |open|
    requires forall j :: 0 <= j < |open| ==> next.open[j].node == open[j].node
    requires Covered(st, n)
    ensures Covered(next, n)
  {
    if InClosed(st.closed, n) {
      var i :| 0 <= i < |st.closed| && Equals(st.closed[i].node, n);
      assert closed[i] == st.closed[i];
    } else {
      var j :| 0 <= j < |st.open| && Equals(st.open[j].node, n);
      if j == k {
        assert closed[|st.closed|] == st.open[k];
      } else {
        var j' := if j < k then j else j - 1;
        assert open[j'] == st.open[j];
        assert next.open[j'].node == st.open[j].node;
      }
    }
  }

  // ---------------------------------------------------------------------
  // Termination

  /** The fresh nodes a search can create: every cell of the bounds, on
      layer 0. */
  ghost function BoxNodes(b: Bounds): set<Node> {
    set x: int, y: int | b.lo.x <= x <= b.hi.x && b.lo.y <= y <= b.hi.y :: Node(x, y, Some(0))
  }

  /** Every node an entry can hold: the start, or a cell of the bounds. */
  ghost function Universe(p: Problem): set<Node> {
    BoxNodes(p.bounds) + {p.start}
  }

  ghost function ClosedNodes(closed: seq<Entry>): set<Node> {
    set i | 0 <= i < |closed| :: closed[i].node
  }

  lemma LinkedInUniverse(p: Problem, par: Entry, e: Entry)
    requires Linked(p, par, e)
    ensures e.node in Universe(p)
  {
    LinkedLayer(p, par, e);
    assert e.node == Node(e.node.x, e.node.y, Some(0));
  }

  /** Every node of a valid state is in the universe. */
  lemma ValidInUniverse(p: Problem, st: State)
    requires Valid(p, st)
    ensures ClosedNodes(st.closed) <= Universe(p)
    ensures forall j :: 0 <= j < |st.open| ==> st.open[j].node in Universe(p)
  {
    forall i | 0 <= i < |st.closed|
      ensures st.closed[i].node in Universe(p)
    {
      if i > 0 {
        LinkedInUniverse(p, st.closed[st.closed[i].parent.value], st.closed[i]);
      }
    }
    forall j | 0 <= j < |st.open|
      ensures st.open[j].node in Universe(p)
    {
      if |st.closed| > 0 {
        LinkedInUniverse(p, st.closed[st.open[j].parent.value], st.open[j]);
      }
    }
  }

  lemma ClosedNodesAppend(closed: seq<Entry>, e: Entry)
    ensures ClosedNodes(closed + [e]) == ClosedNodes(closed) + {e.node}
  {
    var s := closed + [e];
    assert s[|closed|] == e;
    forall n | n in ClosedNodes(closed)
      ensures n in ClosedNodes(s)
    {
      var i :| 0 <= i < |closed| && closed[i].node == n;
      assert s[i] == closed[i];
    }
  }

  /** The number of cells of the universe not yet closed. */
  ghost function Unclosed(p: Problem, st: State): nat {
    |Universe(p) - ClosedNodes(st.closed)|
  }

  /** Each continuing iteration closes a node of the universe that was not
      closed before. */
  lemma StepDecreases(p: Problem, st: State)
    requires Valid(p, st) && |st.open| > 0
    requires (ValidArena(p, st); Step(p, st).Continue?)
    ensures Unclosed(p, Step(p, st).next) < Unclosed(p, st)
  {
    ValidArena(p, st);
    var k := SelectMin(st.open);
    var current := st.open[k];
    var closed := st.closed + [current];
    ValidInUniverse(p, st);
    assert Step(p, st).next.closed == closed;
    assert current.node !in ClosedNodes(st.closed) by {
      forall i | 0 <= i < |st.closed|
        ensures st.closed[i].node != current.node
      {
        assert !Same(st.closed[i].node, st.open[k].node);
        EqualsReflexive(current.node);
      }
    }
    ClosedNodesAppend(st.closed, current);
    var u := Universe(p);
    assert u - ClosedNodes(closed) == (u - ClosedNodes(st.closed)) - {current.node};
  }

  /** `aStar` from a state: iterate until the open list is empty ([]) or
      the end is closed (the path). */
  function Search(p: Problem, st: State): seq<Entry>
    requires Valid(p, st)
    decreases Unclosed(p, st)
  {
    if |st.open| == 0 then []
    else
      ValidArena(p, st);
      match Step(p, st)
      case Done(path) => path
      case Continue(next) =>
        StepValid(p, st);
        StepDecreases(p, st);
        Search(p, next)
  }
}
