/** The 3×3 map of tests/algorithm.test.ts run through `aStar`: obstacles
    at (1, 1) and (1, 2), origin (0, 0), end (2, 2), all on layer 0. The
    search is followed iteration by iteration for any square root that is
    exact on 0, 1 and 4 and close enough on 2 and 3. On the test's own
    nodes, which have no z, the search finds no path (LiteralSearchEmpty). */
module AStarExample {
  import opened Results
  import opened Position
  import opened Util
  import opened AStar
  import opened AStarInvariant
  import opened AStarSearch

  function ExampleProblem(root: nat -> real): Problem {
    Problem(CreateNode(0, 0), CreateNode(2, 2), [CreateNode(1, 1), CreateNode(1, 2)],
            Bounds(CreateNode(0, 0), CreateNode(2, 2)), root)
  }

  /** What the example needs of `Math.sqrt`. */
  predicate RootFacts(root: nat -> real) {
    root(0) == 0.0 && root(1) == 1.0 && root(4) == 2.0 &&
    1.41 < root(2) < 1.42 && 1.73 < root(3) < 1.74
  }

  /** The two irrational roots the costs of the example use. */
  datatype Roots = Roots(two: real, three: real)

  predicate RootsOf(root: nat -> real, q: Roots) {
    root(0) == 0.0 && root(1) == 1.0 && root(2) == q.two && root(3) == q.three
  }

  /** The comparisons between costs that decide the example. */
  predicate Ordered(q: Roots) {
    1.0 < q.two < 2.0 && 1.0 + q.three < q.two + q.two && q.three < 1.0 + q.two
  }

  // The entries the search creates and keeps, in the order they appear.

  function Start(): Entry {
    Entry(CreateNode(0, 0), 0.0, 0.0, 0.0, None)
  }

  function E01(q: Roots): Entry {
    Entry(CreateNode(0, 1), 1.0, q.three, 1.0 + q.three, Some(0))
  }

  function E10(q: Roots): Entry {
    Entry(CreateNode(1, 0), 1.0, q.three, 1.0 + q.three, Some(0))
  }

  function E11(q: Roots): Entry {
    Entry(CreateNode(1, 1), q.two, q.two, q.two + q.two, Some(0))
  }

  function E02(q: Roots): Entry {
    Entry(CreateNode(0, 2), 2.0, q.two, 2.0 + q.two, Some(1))
  }

  function E12(q: Roots): Entry {
    Entry(CreateNode(1, 2), 1.0 + q.two, 1.0, 2.0 + q.two, Some(1))
  }

  function E20(q: Roots): Entry {
    Entry(CreateNode(2, 0), 2.0, q.two, 2.0 + q.two, Some(2))
  }

  function E21(q: Roots): Entry {
    Entry(CreateNode(2, 1), 1.0 + q.two, 1.0, 2.0 + q.two, Some(2))
  }

  function E22(q: Roots): Entry {
    Entry(CreateNode(2, 2), 2.0 + q.two, 0.0, 2.0 + q.two, Some(5))
  }

  // The lists at the head of each iteration.

  function S1(q: Roots): State {
    State([E01(q), E10(q), E11(q)], [Start()])
  }

  function S2(q: Roots): State {
    State([E10(q), E11(q), E02(q), E12(q)], [Start(), E01(q)])
  }

  function S3(q: Roots): State {
    State([E11(q), E02(q), E12(q), E20(q), E21(q)], [Start(), E01(q), E10(q)])
  }

  function S4(q: Roots): State {
    State([E02(q), E12(q), E20(q), E21(q)], [Start(), E01(q), E10(q), E11(q)])
  }

  function S5(q: Roots): State {
    State([E02(q), E20(q), E21(q)], [Start(), E01(q), E10(q), E11(q), E12(q)])
  }

  function S6(q: Roots): State {
    State([E02(q), E20(q), E22(q)], [Start(), E01(q), E10(q), E11(q), E12(q), E21(q)])
  }

  /** The path the search returns. */
  function ExamplePathEntries(q: Roots): seq<Entry> {
    [Start(), E10(q), E21(q), E22(q)]
  }

  // ---------------------------------------------------------------------
  // Reusable steps

  lemma SelectIs(open: seq<Entry>, k: nat)
    requires k < |open|
    requires forall e :: e in open ==> !Better(e, open[k])
    requires forall j :: 0 <= j < k ==> Better(open[k], open[j])
    ensures SelectMin(open) == k
  {
    assert FirstMinimum(open, k);
    FirstMinimumUnique(open, k, SelectMin(open));
  }

  lemma RelaxAllStep(closed: seq<Entry>, open: seq<Entry>, s: seq<Entry>, i: nat)
    requires i < |s|
    ensures RelaxAll(closed, open, s[i..]) == RelaxAll(closed, RelaxOne(closed, open, s[i]), s[i + 1..])
  {
    assert s[i..][0] == s[i];
    assert s[i..][1..] == s[i + 1..];
  }

  lemma RelaxAllEnd(closed: seq<Entry>, open: seq<Entry>, s: seq<Entry>)
    ensures RelaxAll(closed, open, s[|s|..]) == open
    ensures s[0..] == s
  {
    assert s[|s|..] == [];
  }

  /** The loop over four neighbours, one open list after each. */
  lemma RelaxChain4(closed: seq<Entry>, o0: seq<Entry>, s: seq<Entry>,
                    o1: seq<Entry>, o2: seq<Entry>, o3: seq<Entry>, o4: seq<Entry>)
    requires |s| == 4
    requires RelaxOne(closed, o0, s[0]) == o1 && RelaxOne(closed, o1, s[1]) == o2
    requires RelaxOne(closed, o2, s[2]) == o3 && RelaxOne(closed, o3, s[3]) == o4
    ensures RelaxAll(closed, o0, s) == o4
  {
    RelaxAllEnd(closed, o4, s);
    RelaxAllStep(closed, o0, s, 0);
    RelaxAllStep(closed, o1, s, 1);
    RelaxAllStep(closed, o2, s, 2);
    RelaxAllStep(closed, o3, s, 3);
  }

  /** The loop over six neighbours, one open list after each. */
  lemma RelaxChain6(closed: seq<Entry>, o0: seq<Entry>, s: seq<Entry>,
                    o1: seq<Entry>, o2: seq<Entry>, o3: seq<Entry>, o4: seq<Entry>, o5: seq<Entry>, o6: seq<Entry>)
    requires |s| == 6
    requires RelaxOne(closed, o0, s[0]) == o1 && RelaxOne(closed, o1, s[1]) == o2
    requires RelaxOne(closed, o2, s[2]) == o3 && RelaxOne(closed, o3, s[3]) == o4
    requires RelaxOne(closed, o4, s[4]) == o5 && RelaxOne(closed, o5, s[5]) == o6
    ensures RelaxAll(closed, o0, s) == o6
  {
    RelaxAllEnd(closed, o6, s);
    RelaxAllStep(closed, o0, s, 0);
    RelaxAllStep(closed, o1, s, 1);
    RelaxAllStep(closed, o2, s, 2);
    RelaxAllStep(closed, o3, s, 3);
    RelaxAllStep(closed, o4, s, 4);
    RelaxAllStep(closed, o5, s, 5);
  }

  /** A closed neighbour is skipped. */
  lemma SkipOne(closed: seq<Entry>, open: seq<Entry>, a: Entry, e: Entry)
    requires e in closed && Equals(e.node, a.node)
    ensures RelaxOne(closed, open, a) == open
  {
    var i :| 0 <= i < |closed| && closed[i] == e;
    assert InClosed(closed, a.node);
  }

  /** A neighbour neither closed nor open is appended. */
  lemma AppendOne(closed: seq<Entry>, open: seq<Entry>, a: Entry)
    requires forall e :: e in closed ==> !Equals(e.node, a.node)
    requires forall e :: e in open ==> !Equals(e.node, a.node)
    ensures RelaxOne(closed, open, a) == open + [a]
  {
    assert !InClosed(closed, a.node);
    assert FindOpen(open, a.node).None?;
  }

  /** An open neighbour that is not cheaper leaves the open list alone. */
  lemma NoGainOne(closed: seq<Entry>, open: seq<Entry>, a: Entry, j: nat)
    requires forall e :: e in closed ==> !Equals(e.node, a.node)
    requires j < |open| && Equals(open[j].node, a.node) && open[j].g <= a.g
    requires forall k :: 0 <= k < j ==> !Equals(open[k].node, a.node)
    ensures RelaxOne(closed, open, a) == open
  {
    assert !InClosed(closed, a.node);
    assert FindOpen(open, a.node) == Some(j);
  }

  /** The cells of getAdjacentNodes one at a time. */
  function Cell(b: Bounds, x: int, y: int): seq<Node> {
    if InBounds(b, x, y) then [CreateNode(x, y)] else []
  }

  lemma ColumnThree(b: Bounds, n: Node, x: int)
    ensures ColumnCells(b, n, x, n.y - 1) == Cell(b, x, n.y - 1) + Cell(b, x, n.y) + Cell(b, x, n.y + 1)
  {
    assert ColumnCells(b, n, x, n.y + 2) == [];
    assert ColumnCells(b, n, x, n.y + 1) == Cell(b, x, n.y + 1);
    assert ColumnCells(b, n, x, n.y) == Cell(b, x, n.y) + Cell(b, x, n.y + 1);
  }

  /** A column left or right of the bounds contributes nothing. */
  lemma ColumnOutside(b: Bounds, n: Node, x: int)
    requires x < b.lo.x || b.hi.x < x
    ensures ColumnCells(b, n, x, n.y - 1) == []
  {
    ColumnThree(b, n, x);
  }

  /** On the lower edge a column contributes the node's row and the next. */
  lemma ColumnLow(b: Bounds, n: Node, x: int)
    requires b.lo.x <= x <= b.hi.x && b.lo.y == n.y < b.hi.y
    ensures ColumnCells(b, n, x, n.y - 1) == [CreateNode(x, n.y), CreateNode(x, n.y + 1)]
  {
    ColumnThree(b, n, x);
  }

  /** Strictly inside, a column contributes all three rows. */
  lemma ColumnMiddle(b: Bounds, n: Node, x: int)
    requires b.lo.x <= x <= b.hi.x && b.lo.y < n.y < b.hi.y
    ensures ColumnCells(b, n, x, n.y - 1) == [CreateNode(x, n.y - 1), CreateNode(x, n.y), CreateNode(x, n.y + 1)]
  {
    ColumnThree(b, n, x);
  }

  lemma AdjacentColumns(b: Bounds, n: Node)
    ensures AdjacentNodes(b, n) ==
              ColumnCells(b, n, n.x - 1, n.y - 1) + ColumnCells(b, n, n.x, n.y - 1) + ColumnCells(b, n, n.x + 1, n.y - 1)
  {
    assert GridCells(b, n, n.x + 2) == [];
    assert GridCells(b, n, n.x + 1) == ColumnCells(b, n, n.x + 1, n.y - 1);
    assert GridCells(b, n, n.x) == ColumnCells(b, n, n.x, n.y - 1) + ColumnCells(b, n, n.x + 1, n.y - 1);
  }

  /** An entry for each of the cells adj around the current entry. */
  function Expand(p: Problem, current: Entry, ci: nat, adj: seq<Node>): seq<Entry> {
    seq(|adj|, i requires 0 <= i < |adj| => NeighbourEntry(p, current, ci, adj[i]))
  }

  lemma NeighboursAre(p: Problem, current: Entry, ci: nat, adj: seq<Node>)
    requires Expandable(p, current.node) && AdjacentNodes(p.bounds, current.node) == adj
    ensures Neighbours(p, current, ci) == Expand(p, current, ci, adj)
  {
  }

  /** The selection of one iteration: entry k of the open list, `current`,
      is picked, leaving `rest` open and `closed` closed. */
  predicate Picks(st: State, k: nat, current: Entry, rest: seq<Entry>, closed: seq<Entry>) {
    Arena(st) && 0 < |st.open| && k < |st.open| && SelectMin(st.open) == k && st.open[k] == current &&
    Remove(st.open, k) == rest && closed == st.closed + [current]
  }

  /** An iteration that does not close the end, assembled from its parts. */
  lemma StepIs(p: Problem, st: State, k: nat, current: Entry, s: seq<Entry>, rest: seq<Entry>, next: State)
    requires Picks(st, k, current, rest, next.closed) && !Equals(current.node, p.end)
    requires Neighbours(p, current, |st.closed|) == s && RelaxAll(next.closed, rest, s) == next.open
    ensures Arena(st) && |st.open| > 0 && Step(p, st) == Continue(next)
  {
  }

  /** An obstacle is closed without expanding anything. */
  lemma ObstacleIteration(p: Problem, st: State, k: nat, current: Entry, rest: seq<Entry>, next: State)
    requires Picks(st, k, current, rest, next.closed) && !Equals(current.node, p.end)
    requires current.node in p.obstacles && current.node.z == Some(0) && next.open == rest
    ensures Arena(st) && |st.open| > 0 && Step(p, st) == Continue(next)
  {
    var n := current.node;
    assert Equals(n, CreateNode(n.x, n.y));
    assert !Expandable(p, n);
  }

  /** A continuing iteration leaves the search result unchanged. */
  lemma Advance(p: Problem, st: State, next: State)
    requires Valid(p, st) && |st.open| > 0
    requires (ValidArena(p, st); Step(p, st) == Continue(next))
    ensures Valid(p, next) && Search(p, next) == Search(p, st)
  {
    ValidArena(p, st);
    StepValid(p, st);
  }

  lemma Finish(p: Problem, st: State, path: seq<Entry>)
    requires Valid(p, st) && |st.open| > 0
    requires (ValidArena(p, st); Step(p, st) == Done(path))
    ensures Search(p, st) == path
  {
  }

  // ---------------------------------------------------------------------
  // The arena of every state, and the open lists left after a removal

  lemma ArenaS1(q: Roots)
    ensures Arena(S1(q))
  {
  }

  lemma ArenaS2(q: Roots)
    ensures Arena(S2(q))
  {
  }

  lemma ArenaS3(q: Roots)
    ensures Arena(S3(q))
  {
  }

  lemma ArenaS4(q: Roots)
    ensures Arena(S4(q))
  {
  }

  lemma ArenaS5(q: Roots)
    ensures Arena(S5(q))
  {
  }

  lemma ArenaS6(q: Roots)
    ensures Arena(S6(q))
  {
  }

  lemma Removed(q: Roots)
    ensures Remove(S1(q).open, 0) == [E10(q), E11(q)]
    ensures Remove(S2(q).open, 0) == [E11(q), E02(q), E12(q)]
    ensures Remove(S3(q).open, 0) == S4(q).open
    ensures Remove(S4(q).open, 1) == S5(q).open
    ensures Remove(S5(q).open, 2) == [E02(q), E20(q)]
  {
  }

  // ---------------------------------------------------------------------
  // Iteration 1: the start (0, 0) is closed and its three neighbours open.

  function Adj00(): seq<Node> {
    [CreateNode(0, 0), CreateNode(0, 1), CreateNode(1, 0), CreateNode(1, 1)]
  }

  lemma Columns00(b: Bounds, n: Node)
    requires b == Bounds(CreateNode(0, 0), CreateNode(2, 2)) && n == CreateNode(0, 0)
    ensures ColumnCells(b, n, n.x - 1, n.y - 1) + ColumnCells(b, n, n.x, n.y - 1) + ColumnCells(b, n, n.x + 1, n.y - 1) == Adj00()
  {
    ColumnOutside(b, n, -1);
    ColumnLow(b, n, 0);
    ColumnLow(b, n, 1);
  }

  lemma Adjacent00(b: Bounds, n: Node)
    requires b == Bounds(CreateNode(0, 0), CreateNode(2, 2)) && n == CreateNode(0, 0)
    ensures AdjacentNodes(b, n) == Adj00()
  {
    AdjacentColumns(b, n);
    Columns00(b, n);
  }

  lemma Neighbours1(root: nat -> real, q: Roots)
    ensures Neighbours(ExampleProblem(root), Start(), 0) == Expand(ExampleProblem(root), Start(), 0, Adj00())
  {
    var p := ExampleProblem(root);
    Adjacent00(p.bounds, Start().node);
    Expandable1(root, q);
    NeighboursAre(p, Start(), 0, Adj00());
  }

  /** The neighbour entries of iteration 1, as far as the relaxation needs them. */
  predicate Expanded1(q: Roots, s: seq<Entry>) {
    |s| == 4 && s[0].node == CreateNode(0, 0) && s[1] == E01(q) && s[2] == E10(q) && s[3] == E11(q)
  }

  lemma Entries1(root: nat -> real, q: Roots)
    requires RootsOf(root, q)
    ensures Expanded1(q, Expand(ExampleProblem(root), Start(), 0, Adj00()))
  {
  }

  lemma Expandable1(root: nat -> real, q: Roots)
    ensures Expandable(ExampleProblem(root), Start().node)
  {
  }

  lemma Relax1Front(q: Roots, s: seq<Entry>)
    requires |s| == 4 && s[0].node == CreateNode(0, 0) && s[1] == E01(q)
    ensures RelaxOne([Start()], [], s[0]) == [] && RelaxOne([Start()], [], s[1]) == [E01(q)]
  {
    SkipOne([Start()], [], s[0], Start());
    AppendOne([Start()], [], s[1]);
    assert [] + [E01(q)] == [E01(q)];
  }

  lemma Relax1Back(q: Roots, s: seq<Entry>)
    requires |s| == 4 && s[2] == E10(q) && s[3] == E11(q)
    ensures RelaxOne([Start()], [E01(q)], s[2]) == [E01(q), E10(q)]
    ensures RelaxOne([Start()], [E01(q), E10(q)], s[3]) == S1(q).open
  {
    AppendOne([Start()], [E01(q)], s[2]);
    AppendOne([Start()], [E01(q), E10(q)], s[3]);
    assert [E01(q)] + [E10(q)] == [E01(q), E10(q)];
    assert [E01(q), E10(q)] + [E11(q)] == S1(q).open;
  }


  lemma Relax1(q: Roots, s: seq<Entry>)
    requires Expanded1(q, s)
    ensures RelaxAll(S1(q).closed, [], s) == S1(q).open
  {
    Relax1Front(q, s);
    Relax1Back(q, s);
    RelaxChain4(S1(q).closed, [], s, [], [E01(q)], [E01(q), E10(q)], S1(q).open);
  }


  /** The iteration for any list s of neighbour entries of the right shape. */
  lemma Picks1(root: nat -> real, q: Roots)
    ensures Picks(Init(ExampleProblem(root)), 0, Start(), [], S1(q).closed)
  {
    var open := Init(ExampleProblem(root)).open;
    assert SelectMin(open) == 0;
    assert Remove(open, 0) == [];
  }

  lemma Iteration1With(root: nat -> real, q: Roots, s: seq<Entry>)
    requires RootsOf(root, q)
    requires Neighbours(ExampleProblem(root), Start(), 0) == s && Expanded1(q, s)
    ensures Arena(Init(ExampleProblem(root)))
    ensures Step(ExampleProblem(root), Init(ExampleProblem(root))) == Continue(S1(q))
  {
    var p := ExampleProblem(root);
    Picks1(root, q);
    Relax1(q, s);
    StepIs(p, Init(p), 0, Start(), s, [], S1(q));
  }

  lemma Iteration1(root: nat -> real, q: Roots)
    requires RootsOf(root, q)
    ensures Arena(Init(ExampleProblem(root)))
    ensures Step(ExampleProblem(root), Init(ExampleProblem(root))) == Continue(S1(q))
  {
    var s := Expand(ExampleProblem(root), Start(), 0, Adj00());
    Neighbours1(root, q);
    Entries1(root, q);
    Iteration1With(root, q, s);
  }

  // ---------------------------------------------------------------------
  // Iteration 2: (0, 1) is closed; (0, 2) and (1, 2) are opened.

  function Adj01(): seq<Node> {
    [CreateNode(0, 0), CreateNode(0, 1), CreateNode(0, 2), CreateNode(1, 0), CreateNode(1, 1), CreateNode(1, 2)]
  }

  lemma Columns01(b: Bounds, n: Node)
    requires b == Bounds(CreateNode(0, 0), CreateNode(2, 2)) && n == CreateNode(0, 1)
    ensures ColumnCells(b, n, n.x - 1, n.y - 1) + ColumnCells(b, n, n.x, n.y - 1) + ColumnCells(b, n, n.x + 1, n.y - 1) == Adj01()
  {
    ColumnOutside(b, n, -1);
    ColumnMiddle(b, n, 0);
    ColumnMiddle(b, n, 1);
  }

  lemma Adjacent01(b: Bounds, n: Node)
    requires b == Bounds(CreateNode(0, 0), CreateNode(2, 2)) && n == CreateNode(0, 1)
    ensures AdjacentNodes(b, n) == Adj01()
  {
    AdjacentColumns(b, n);
    Columns01(b, n);
  }

  lemma Neighbours2(root: nat -> real, q: Roots)
    ensures Neighbours(ExampleProblem(root), E01(q), 1) == Expand(ExampleProblem(root), E01(q), 1, Adj01())
  {
    var p := ExampleProblem(root);
    Adjacent01(p.bounds, E01(q).node);
    Expandable2(root, q);
    NeighboursAre(p, E01(q), 1, Adj01());
  }

  /** The neighbour entries of iteration 2, as far as the relaxation needs them. */
  predicate Expanded2(q: Roots, s: seq<Entry>) {
    |s| == 6 && s[0].node == CreateNode(0, 0) && s[1].node == CreateNode(0, 1) && s[2] == E02(q) &&
    s[3].node == CreateNode(1, 0) && s[4].node == CreateNode(1, 1) && s[5] == E12(q) &&
    s[3].g == 1.0 + q.two && s[4].g == 2.0
  }

  lemma Entries2(root: nat -> real, q: Roots)
    requires RootsOf(root, q)
    ensures Expanded2(q, Expand(ExampleProblem(root), E01(q), 1, Adj01()))
  {
  }

  lemma Expandable2(root: nat -> real, q: Roots)
    ensures Expandable(ExampleProblem(root), E01(q).node)
  {
  }

  lemma Relax2Front(q: Roots, s: seq<Entry>)
    requires |s| == 6 && s[0].node == CreateNode(0, 0) && s[1].node == CreateNode(0, 1) && s[2] == E02(q)
    ensures var c, o := [Start(), E01(q)], [E10(q), E11(q)];
            RelaxOne(c, o, s[0]) == o && RelaxOne(c, o, s[1]) == o && RelaxOne(c, o, s[2]) == o + [E02(q)]
  {
    var c, o := [Start(), E01(q)], [E10(q), E11(q)];
    SkipOne(c, o, s[0], Start());
    SkipOne(c, o, s[1], E01(q));
    AppendOne(c, o, s[2]);
  }

  lemma Relax2Back(q: Roots, s: seq<Entry>)
    requires |s| == 6 && s[3].node == CreateNode(1, 0) && s[4].node == CreateNode(1, 1) && s[5] == E12(q)
    requires 1.0 <= s[3].g && q.two <= s[4].g
    ensures var c, o := [Start(), E01(q)], [E10(q), E11(q), E02(q)];
            RelaxOne(c, o, s[3]) == o && RelaxOne(c, o, s[4]) == o && RelaxOne(c, o, s[5]) == o + [E12(q)]
  {
    var c, o := [Start(), E01(q)], [E10(q), E11(q), E02(q)];
    NoGainOne(c, o, s[3], 0);
    NoGainOne(c, o, s[4], 1);
    AppendOne(c, o, s[5]);
  }

  lemma Relax2(q: Roots, s: seq<Entry>)
    requires Ordered(q) && Expanded2(q, s)
    ensures RelaxAll(S2(q).closed, [E10(q), E11(q)], s) == S2(q).open
  {
    var o0 := [E10(q), E11(q)];
    var o1 := [E10(q), E11(q), E02(q)];
    Relax2Front(q, s);
    Relax2Back(q, s);
    assert o0 + [E02(q)] == o1;
    assert o1 + [E12(q)] == S2(q).open;
    RelaxChain6(S2(q).closed, o0, s, o0, o0, o1, o1, o1, S2(q).open);
  }

  lemma Select2(q: Roots)
    requires Ordered(q)
    ensures SelectMin(S1(q).open) == 0
  {
    SelectIs(S1(q).open, 0);
  }

  /** The iteration for any list s of neighbour entries of the right shape. */
  lemma Picks2(q: Roots)
    requires Ordered(q)
    ensures Picks(S1(q), 0, E01(q), [E10(q), E11(q)], S2(q).closed)
  {
    Select2(q);
    ArenaS1(q);
    Removed(q);
  }

  lemma Iteration2With(root: nat -> real, q: Roots, s: seq<Entry>)
    requires RootsOf(root, q) && Ordered(q)
    requires Neighbours(ExampleProblem(root), E01(q), 1) == s && Expanded2(q, s)
    ensures Arena(S1(q))
    ensures Step(ExampleProblem(root), S1(q)) == Continue(S2(q))
  {
    Picks2(q);
    Relax2(q, s);
    StepIs(ExampleProblem(root), S1(q), 0, E01(q), s, [E10(q), E11(q)], S2(q));
  }

  lemma Iteration2(root: nat -> real, q: Roots)
    requires RootsOf(root, q) && Ordered(q)
    ensures Arena(S1(q))
    ensures Step(ExampleProblem(root), S1(q)) == Continue(S2(q))
  {
    var s := Expand(ExampleProblem(root), E01(q), 1, Adj01());
    Neighbours2(root, q);
    Entries2(root, q);
    Iteration2With(root, q, s);
  }

  // ---------------------------------------------------------------------
  // Iteration 3: (1, 0) is closed; (2, 0) and (2, 1) are opened.

  function Adj10(): seq<Node> {
    [CreateNode(0, 0), CreateNode(0, 1), CreateNode(1, 0), CreateNode(1, 1), CreateNode(2, 0), CreateNode(2, 1)]
  }

  lemma Columns10(b: Bounds, n: Node)
    requires b == Bounds(CreateNode(0, 0), CreateNode(2, 2)) && n == CreateNode(1, 0)
    ensures ColumnCells(b, n, n.x - 1, n.y - 1) + ColumnCells(b, n, n.x, n.y - 1) + ColumnCells(b, n, n.x + 1, n.y - 1) == Adj10()
  {
    ColumnLow(b, n, 0);
    ColumnLow(b, n, 1);
    ColumnLow(b, n, 2);
  }

  lemma Adjacent10(b: Bounds, n: Node)
    requires b == Bounds(CreateNode(0, 0), CreateNode(2, 2)) && n == CreateNode(1, 0)
    ensures AdjacentNodes(b, n) == Adj10()
  {
    AdjacentColumns(b, n);
    Columns10(b, n);
  }

  lemma Neighbours3(root: nat -> real, q: Roots)
    ensures Neighbours(ExampleProblem(root), E10(q), 2) == Expand(ExampleProblem(root), E10(q), 2, Adj10())
  {
    var p := ExampleProblem(root);
    Adjacent10(p.bounds, E10(q).node);
    Expandable3(root, q);
    NeighboursAre(p, E10(q), 2, Adj10());
  }

  /** The neighbour entries of iteration 3, as far as the relaxation needs them. */
  predicate Expanded3(q: Roots, s: seq<Entry>) {
    |s| == 6 && s[0].node == CreateNode(0, 0) && s[1].node == CreateNode(0, 1) && s[2].node == CreateNode(1, 0) &&
    s[3].node == CreateNode(1, 1) && s[4] == E20(q) && s[5] == E21(q) && s[3].g == 2.0
  }

  lemma Entries3(root: nat -> real, q: Roots)
    requires RootsOf(root, q)
    ensures Expanded3(q, Expand(ExampleProblem(root), E10(q), 2, Adj10()))
  {
  }

  lemma Expandable3(root: nat -> real, q: Roots)
    ensures Expandable(ExampleProblem(root), E10(q).node)
  {
  }

  lemma Relax3Front(q: Roots, s: seq<Entry>)
    requires |s| == 6 && s[0].node == CreateNode(0, 0) && s[1].node == CreateNode(0, 1) && s[2].node == CreateNode(1, 0)
    ensures var c, o := [Start(), E01(q), E10(q)], [E11(q), E02(q), E12(q)];
            RelaxOne(c, o, s[0]) == o && RelaxOne(c, o, s[1]) == o && RelaxOne(c, o, s[2]) == o
  {
    var c, o := [Start(), E01(q), E10(q)], [E11(q), E02(q), E12(q)];
    SkipOne(c, o, s[0], Start());
    SkipOne(c, o, s[1], E01(q));
    SkipOne(c, o, s[2], E10(q));
  }

  lemma Relax3Back(q: Roots, s: seq<Entry>)
    requires |s| == 6 && s[3].node == CreateNode(1, 1) && s[4] == E20(q) && s[5] == E21(q)
    requires q.two <= s[3].g
    ensures var c, o := [Start(), E01(q), E10(q)], [E11(q), E02(q), E12(q)];
            RelaxOne(c, o, s[3]) == o && RelaxOne(c, o, s[4]) == o + [E20(q)] &&
            RelaxOne(c, o + [E20(q)], s[5]) == o + [E20(q)] + [E21(q)]
  {
    var c, o := [Start(), E01(q), E10(q)], [E11(q), E02(q), E12(q)];
    NoGainOne(c, o, s[3], 0);
    AppendOne(c, o, s[4]);
    AppendOne(c, o + [E20(q)], s[5]);
  }

  lemma Relax3(q: Roots, s: seq<Entry>)
    requires Ordered(q) && Expanded3(q, s)
    ensures RelaxAll(S3(q).closed, [E11(q), E02(q), E12(q)], s) == S3(q).open
  {
    var o0 := [E11(q), E02(q), E12(q)];
    Relax3Front(q, s);
    Relax3Back(q, s);
    assert o0 + [E20(q)] + [E21(q)] == S3(q).open;
    RelaxChain6(S3(q).closed, o0, s, o0, o0, o0, o0, o0 + [E20(q)], S3(q).open);
  }

  lemma Select3(q: Roots)
    requires Ordered(q)
    ensures SelectMin(S2(q).open) == 0
  {
    SelectIs(S2(q).open, 0);
  }

  /** The iteration for any list s of neighbour entries of the right shape. */
  lemma Picks3(q: Roots)
    requires Ordered(q)
    ensures Picks(S2(q), 0, E10(q), [E11(q), E02(q), E12(q)], S3(q).closed)
  {
    Select3(q);
    ArenaS2(q);
    Removed(q);
  }

  lemma Iteration3With(root: nat -> real, q: Roots, s: seq<Entry>)
    requires RootsOf(root, q) && Ordered(q)
    requires Neighbours(ExampleProblem(root), E10(q), 2) == s && Expanded3(q, s)
    ensures Arena(S2(q))
    ensures Step(ExampleProblem(root), S2(q)) == Continue(S3(q))
  {
    Picks3(q);
    Relax3(q, s);
    StepIs(ExampleProblem(root), S2(q), 0, E10(q), s, [E11(q), E02(q), E12(q)], S3(q));
  }

  lemma Iteration3(root: nat -> real, q: Roots)
    requires RootsOf(root, q) && Ordered(q)
    ensures Arena(S2(q))
    ensures Step(ExampleProblem(root), S2(q)) == Continue(S3(q))
  {
    var s := Expand(ExampleProblem(root), E10(q), 2, Adj10());
    Neighbours3(root, q);
    Entries3(root, q);
    Iteration3With(root, q, s);
  }

  // ---------------------------------------------------------------------
  // Iterations 4 and 5: the obstacles (1, 1) and (1, 2) are closed.

  lemma Select4(q: Roots)
    requires Ordered(q)
    ensures SelectMin(S3(q).open) == 0
  {
    SelectIs(S3(q).open, 0);
  }

  lemma Iteration4(root: nat -> real, q: Roots)
    requires Ordered(q)
    ensures Arena(S3(q))
    ensures Step(ExampleProblem(root), S3(q)) == Continue(S4(q))
  {
    Select4(q);
    ArenaS3(q);
    Removed(q);
    ObstacleIteration(ExampleProblem(root), S3(q), 0, E11(q), S4(q).open, S4(q));
  }

  lemma Select5(q: Roots)
    requires Ordered(q)
    ensures SelectMin(S4(q).open) == 1
  {
    SelectIs(S4(q).open, 1);
  }

  lemma Iteration5(root: nat -> real, q: Roots)
    requires Ordered(q)
    ensures Arena(S4(q))
    ensures Step(ExampleProblem(root), S4(q)) == Continue(S5(q))
  {
    Select5(q);
    ArenaS4(q);
    Removed(q);
    ObstacleIteration(ExampleProblem(root), S4(q), 1, E12(q), S5(q).open, S5(q));
  }

  // ---------------------------------------------------------------------
  // Iteration 6: (2, 1) is closed and the end (2, 2) opened.

  function Adj21(): seq<Node> {
    [CreateNode(1, 0), CreateNode(1, 1), CreateNode(1, 2), CreateNode(2, 0), CreateNode(2, 1), CreateNode(2, 2)]
  }

  lemma Columns21(b: Bounds, n: Node)
    requires b == Bounds(CreateNode(0, 0), CreateNode(2, 2)) && n == CreateNode(2, 1)
    ensures ColumnCells(b, n, n.x - 1, n.y - 1) + ColumnCells(b, n, n.x, n.y - 1) + ColumnCells(b, n, n.x + 1, n.y - 1) == Adj21()
  {
    ColumnMiddle(b, n, 1);
    ColumnMiddle(b, n, 2);
    ColumnOutside(b, n, 3);
  }

  lemma Adjacent21(b: Bounds, n: Node)
    requires b == Bounds(CreateNode(0, 0), CreateNode(2, 2)) && n == CreateNode(2, 1)
    ensures AdjacentNodes(b, n) == Adj21()
  {
    AdjacentColumns(b, n);
    Columns21(b, n);
  }

  lemma Neighbours6(root: nat -> real, q: Roots)
    ensures Neighbours(ExampleProblem(root), E21(q), 5) == Expand(ExampleProblem(root), E21(q), 5, Adj21())
  {
    var p := ExampleProblem(root);
    Adjacent21(p.bounds, E21(q).node);
    Expandable6(root, q);
    NeighboursAre(p, E21(q), 5, Adj21());
  }

  /** The neighbour entries of iteration 6, as far as the relaxation needs them. */
  predicate Expanded6(q: Roots, s: seq<Entry>) {
    |s| == 6 && s[0].node == CreateNode(1, 0) && s[1].node == CreateNode(1, 1) && s[2].node == CreateNode(1, 2) &&
    s[3].node == CreateNode(2, 0) && s[4].node == CreateNode(2, 1) && s[5] == E22(q) && s[3].g == 2.0 + q.two
  }

  lemma Entries6(root: nat -> real, q: Roots)
    requires RootsOf(root, q)
    ensures Expanded6(q, Expand(ExampleProblem(root), E21(q), 5, Adj21()))
  {
  }

  lemma Expandable6(root: nat -> real, q: Roots)
    ensures Expandable(ExampleProblem(root), E21(q).node)
  {
  }

  lemma Relax6Front(q: Roots, s: seq<Entry>)
    requires |s| == 6 && s[0].node == CreateNode(1, 0) && s[1].node == CreateNode(1, 1) && s[2].node == CreateNode(1, 2)
    ensures var c, o := S6(q).closed, [E02(q), E20(q)];
            RelaxOne(c, o, s[0]) == o && RelaxOne(c, o, s[1]) == o && RelaxOne(c, o, s[2]) == o
  {
    var c, o := S6(q).closed, [E02(q), E20(q)];
    SkipOne(c, o, s[0], E10(q));
    SkipOne(c, o, s[1], E11(q));
    SkipOne(c, o, s[2], E12(q));
  }

  lemma Relax6Back(q: Roots, s: seq<Entry>)
    requires |s| == 6 && s[3].node == CreateNode(2, 0) && s[4].node == CreateNode(2, 1) && s[5] == E22(q)
    requires 2.0 <= s[3].g
    ensures var c, o := S6(q).closed, [E02(q), E20(q)];
            RelaxOne(c, o, s[3]) == o && RelaxOne(c, o, s[4]) == o && RelaxOne(c, o, s[5]) == o + [E22(q)]
  {
    var c, o := S6(q).closed, [E02(q), E20(q)];
    NoGainOne(c, o, s[3], 1);
    SkipOne(c, o, s[4], E21(q));
    AppendOne(c, o, s[5]);
  }

  lemma Relax6(q: Roots, s: seq<Entry>)
    requires Ordered(q) && Expanded6(q, s)
    ensures RelaxAll(S6(q).closed, [E02(q), E20(q)], s) == S6(q).open
  {
    var o0 := [E02(q), E20(q)];
    Relax6Front(q, s);
    Relax6Back(q, s);
    assert o0 + [E22(q)] == S6(q).open;
    RelaxChain6(S6(q).closed, o0, s, o0, o0, o0, o0, o0, S6(q).open);
  }

  lemma Select6(q: Roots)
    requires Ordered(q)
    ensures SelectMin(S5(q).open) == 2
  {
    SelectIs(S5(q).open, 2);
  }

  /** The iteration for any list s of neighbour entries of the right shape. */
  lemma Picks6(q: Roots)
    requires Ordered(q)
    ensures Picks(S5(q), 2, E21(q), [E02(q), E20(q)], S6(q).closed)
  {
    Select6(q);
    ArenaS5(q);
    Removed(q);
  }

  lemma Iteration6With(root: nat -> real, q: Roots, s: seq<Entry>)
    requires RootsOf(root, q) && Ordered(q)
    requires Neighbours(ExampleProblem(root), E21(q), 5) == s && Expanded6(q, s)
    ensures Arena(S5(q))
    ensures Step(ExampleProblem(root), S5(q)) == Continue(S6(q))
  {
    Picks6(q);
    Relax6(q, s);
    StepIs(ExampleProblem(root), S5(q), 2, E21(q), s, [E02(q), E20(q)], S6(q));
  }

  lemma Iteration6(root: nat -> real, q: Roots)
    requires RootsOf(root, q) && Ordered(q)
    ensures Arena(S5(q))
    ensures Step(ExampleProblem(root), S5(q)) == Continue(S6(q))
  {
    var s := Expand(ExampleProblem(root), E21(q), 5, Adj21());
    Neighbours6(root, q);
    Entries6(root, q);
    Iteration6With(root, q, s);
  }

  // ---------------------------------------------------------------------
  // Iteration 7: the end is closed and the parents followed back.

  lemma Select7(q: Roots)
    requires Ordered(q)
    ensures SelectMin(S6(q).open) == 2
  {
    SelectIs(S6(q).open, 2);
  }

  lemma ChainFromEnd(q: Roots)
    ensures var closed := S6(q).closed + [E22(q)];
            ParentsBelow(closed) && Reverse(Chain(closed, 6)) == ExamplePathEntries(q)
  {
    var closed := S6(q).closed + [E22(q)];
    assert Chain(closed, 6) == [closed[6]] + Chain(closed, 5);
    assert Chain(closed, 5) == [closed[5]] + Chain(closed, 2);
    assert Chain(closed, 2) == [closed[2]] + Chain(closed, 0);
    assert Chain(closed, 0) == [Start()];
    var c := [E22(q), E21(q), E10(q), Start()];
    assert Chain(closed, 6) == c;
    assert Reverse(c) == ExamplePathEntries(q);
  }

  lemma Iteration7(root: nat -> real, q: Roots)
    requires Ordered(q)
    ensures Arena(S6(q))
    ensures Step(ExampleProblem(root), S6(q)) == Done(ExamplePathEntries(q))
  {
    Select7(q);
    ArenaS6(q);
    ChainFromEnd(q);
  }

  // ---------------------------------------------------------------------
  // The whole run

  lemma RootFactsOrder(root: nat -> real)
    requires RootFacts(root)
    ensures RootsOf(root, Roots(root(2), root(3))) && Ordered(Roots(root(2), root(3)))
  {
  }

  /** `aStar` on the example returns the entries at (0, 0), (1, 0), (2, 1)
      and (2, 2). */
  lemma ExampleSearch(root: nat -> real)
    requires RootFacts(root)
    ensures (InitValid(ExampleProblem(root));
             Search(ExampleProblem(root), Init(ExampleProblem(root))) == ExamplePathEntries(Roots(root(2), root(3))))
  {
    var p := ExampleProblem(root);
    var q := Roots(root(2), root(3));
    RootFactsOrder(root);
    InitValid(p);
    Iteration1(root, q);
    Advance(p, Init(p), S1(q));
    Iteration2(root, q);
    Advance(p, S1(q), S2(q));
    Iteration3(root, q);
    Advance(p, S2(q), S3(q));
    Iteration4(root, q);
    Advance(p, S3(q), S4(q));
    Iteration5(root, q);
    Advance(p, S4(q), S5(q));
    Iteration6(root, q);
    Advance(p, S5(q), S6(q));
    Iteration7(root, q);
    Finish(p, S6(q), ExamplePathEntries(q));
  }

  /** The nodes along a path. */
  function PathNodes(path: seq<Entry>): seq<Node> {
    seq(|path|, i requires 0 <= i < |path| => path[i].node)
  }

  lemma ExampleNodes(q: Roots)
    ensures PathNodes(ExamplePathEntries(q)) == [CreateNode(0, 0), CreateNode(1, 0), CreateNode(2, 1), CreateNode(2, 2)]
  {
  }

  /** The path passes through the cells tests/algorithm.test.ts lists, as
      layer-0 nodes rather than the z-less objects the test compares with. */
  lemma ExamplePath(root: nat -> real)
    requires RootFacts(root)
    ensures (InitValid(ExampleProblem(root));
             PathNodes(Search(ExampleProblem(root), Init(ExampleProblem(root)))) ==
             [CreateNode(0, 0), CreateNode(1, 0), CreateNode(2, 1), CreateNode(2, 2)])
  {
    ExampleSearch(root);
    ExampleNodes(Roots(root(2), root(3)));
  }

  // ---------------------------------------------------------------------
  // The test's own nodes, which have no z

  /** The same search on the nodes exactly as the test writes them: origin,
      end and obstacles are objects without a `z` key. */
  function LiteralProblem(root: nat -> real): Problem {
    Problem(Node(0, 0, None), Node(2, 2, None), [Node(1, 1, None), Node(1, 2, None)],
            Bounds(CreateNode(0, 0), CreateNode(2, 2)), root)
  }

  /** No node of any walk equals the z-less end: the start lies at (0, 0),
      and every later node is a fresh layer-0 node, whose z the end lacks. */
  lemma {:induction false} LiteralWalkMissesEnd(root: nat -> real, w: seq<Node>, i: int)
    requires Walk(LiteralProblem(root), w) && 0 <= i < |w|
    ensures !Equals(w[i], LiteralProblem(root).end)
  {
    var p := LiteralProblem(root);
    if i > 0 {
      assert w[i] in AdjacentNodes(p.bounds, w[i - 1]);
    }
  }

  /** `equals(node, end)` compares the layer of the layer-0 neighbour with
      the end's missing z, so on the test's literal nodes `aStar` finds no
      path and returns the empty list. */
  lemma LiteralSearchEmpty(root: nat -> real)
    ensures (InitValid(LiteralProblem(root)); Search(LiteralProblem(root), Init(LiteralProblem(root))) == [])
  {
    var p := LiteralProblem(root);
    InitValid(p);
    SearchCorrect(p);
    forall w, i | Walk(p, w) && 0 <= i < |w|
      ensures !Equals(w[i], p.end)
    {
      LiteralWalkMissesEnd(root, w, i);
    }
  }
}
