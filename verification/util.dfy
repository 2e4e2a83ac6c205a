/** utilities/Util.ts: the key-wise equality every component uses to compare
    nodes, and the clamp `limit`. */
module Util {
  import opened Results
  import opened Position

  /** `equals(first, second)`: every key of `first` holds the same value in
      `second`. A node always has the keys x and y; z is a key only when it
      is present on `first`, so a node without z equals any node at the same
      x and y, while a node with z never equals one that lacks it. */
  function Equals(first: Node, second: Node): (r: bool)
    ensures r ==> first.x == second.x && first.y == second.y
    ensures first.z.Some? ==> (r <==> first == second)
    ensures first.z.None? ==> (r <==> first.x == second.x && first.y == second.y)
  {
    first.x == second.x && first.y == second.y && (first.z.Some? ==> first.z == second.z)
  }

  /** Either node compares equal to the other. */
  predicate Same(a: Node, b: Node) {
    Equals(a, b) || Equals(b, a)
  }

  lemma EqualsReflexive(n: Node)
    ensures Equals(n, n)
  {
  }

  lemma EqualsTransitive(a: Node, b: Node, c: Node)
    requires Equals(a, b) && Equals(b, c)
    ensures Equals(a, c)
  {
  }

  /** `equals` only looks at the keys of its first argument, so it is not
      symmetric: a node without z matches a node with z = 0, not conversely. */
  lemma EqualsAsymmetric(x: int, y: int)
    ensures Equals(Node(x, y, None), Node(x, y, Some(0)))
    ensures !Equals(Node(x, y, Some(0)), Node(x, y, None))
  {
  }

  /** When the first node carries z, a match is an identical node, which
      then also matches in the other direction. */
  lemma EqualsWithLayer(a: Node, b: Node)
    requires a.z.Some? && Equals(a, b)
    ensures a == b && Equals(b, a)
  {
  }

  /** `limit(value, min, max)`: value clamped to [min, max], the lower bound
      checked first. */
  function Limit(value: int, min: int, max: int): (r: int)
    ensures r == value || r == min || r == max
    ensures min <= max ==> min <= r <= max
    ensures min <= value <= max ==> r == value
    ensures value < min ==> r == min
    ensures min <= value && value > max ==> r == max
  {
    if value < min then min
    else if value > max then max
    else value
  }

  /** Clamping twice changes nothing, for a non-empty range. */
  lemma LimitIdempotent(value: int, min: int, max: int)
    requires min <= max
    ensures Limit(Limit(value, min, max), min, max) == Limit(value, min, max)
  {
  }
}
